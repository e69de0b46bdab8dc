/**
 * What a run of drawCellToScale calls does to the view, stated on values: the fills
 * it issues, the colour left in each grid entry, and the colour remembered for the
 * agent's cell. Also what the repaint loop of GridPanel.paint emits for a grid, and
 * the requests of the background loop of createGridView.
 */
module CellStore {
  import opened Wrappers
  import opened JavaLang
  import opened Mapping

  function Last<T>(s: seq<T>): T
    requires |s| > 0
  {
    s[|s| - 1]
  }

  function AllButLast<T>(s: seq<T>): seq<T>
    requires |s| > 0
  {
    s[..|s| - 1]
  }

  /**
   * Regrouping a concatenation: lets a run of fills or requests grow by one more
   * element at the end while the part already shown stays in front.
   */
  lemma AppendAssoc<T>(a: seq<T>, b: seq<T>, c: seq<T>)
    ensures (a + b) + c == a + (b + c)
  {
  }

  /** The fill drawCellToScale issues for one request: none when the agent intercepts it. */
  function FillOf(g: Geometry, r: DrawRequest): seq<Fill> {
    if Intercepted(g, r) then [] else [FillAt(g, Pixel(g, r).0, Pixel(g, r).1, r.color)]
  }

  /** The fills issued by a run of requests: one per request that is not intercepted. */
  function FillsOf(g: Geometry, reqs: seq<DrawRequest>): seq<Fill> {
    if reqs == [] then [] else FillsOf(g, AllButLast(reqs)) + FillOf(g, Last(reqs))
  }

  /** The colour grid entry (x, y) holds after a run of requests, starting from `init`. */
  function CellAfter(g: Geometry, reqs: seq<DrawRequest>, x: int, y: int, init: Option<Color>): Option<Color> {
    if reqs == [] then init
    else if Target(g, Last(reqs)) == Some((x, y)) then Some(Last(reqs).color)
    else CellAfter(g, AllButLast(reqs), x, y, init)
  }

  /** preAgentCellColor after a run of requests, starting from `init`. */
  function AgentColorAfter(g: Geometry, reqs: seq<DrawRequest>, init: Option<Color>): Option<Color> {
    if reqs == [] then init
    else if Intercepted(g, Last(reqs)) then Some(Last(reqs).color)
    else AgentColorAfter(g, AllButLast(reqs), init)
  }

  /**
   * Last writer wins: an entry no request targets keeps its colour, and otherwise it
   * holds the colour of the last request that targets it.
   */
  lemma LastWriterWins(g: Geometry, reqs: seq<DrawRequest>, x: int, y: int, init: Option<Color>)
    ensures (forall k :: 0 <= k < |reqs| ==> Target(g, reqs[k]) != Some((x, y))) ==>
              CellAfter(g, reqs, x, y, init) == init
    ensures forall k ::
              (0 <= k < |reqs| && Target(g, reqs[k]) == Some((x, y)) &&
               forall k' :: k < k' < |reqs| ==> Target(g, reqs[k']) != Some((x, y)))
              ==> CellAfter(g, reqs, x, y, init) == Some(reqs[k].color)
  {
    if forall k :: 0 <= k < |reqs| ==> Target(g, reqs[k]) != Some((x, y)) {
      UntargetedKeeps(g, reqs, x, y, init);
    }
    forall k | 0 <= k < |reqs| && Target(g, reqs[k]) == Some((x, y)) &&
               forall k' :: k < k' < |reqs| ==> Target(g, reqs[k']) != Some((x, y))
      ensures CellAfter(g, reqs, x, y, init) == Some(reqs[k].color)
    {
      LastTargetWins(g, reqs, x, y, init, k);
    }
  }

  /** An entry no request targets keeps its colour. */
  lemma {:induction false} UntargetedKeeps(g: Geometry, reqs: seq<DrawRequest>, x: int, y: int, init: Option<Color>)
    requires forall k :: 0 <= k < |reqs| ==> Target(g, reqs[k]) != Some((x, y))
    ensures CellAfter(g, reqs, x, y, init) == init
  {
    if reqs != [] {
      var pre := AllButLast(reqs);
      assert Target(g, reqs[|reqs| - 1]) != Some((x, y));
      assert forall k :: 0 <= k < |pre| ==> pre[k] == reqs[k];
      UntargetedKeeps(g, pre, x, y, init);
    }
  }

  /** An entry holds the colour of the last request that targets it. */
  lemma {:induction false} LastTargetWins(g: Geometry, reqs: seq<DrawRequest>, x: int, y: int, init: Option<Color>, k: nat)
    requires k < |reqs| && Target(g, reqs[k]) == Some((x, y))
    requires forall k' :: k < k' < |reqs| ==> Target(g, reqs[k']) != Some((x, y))
    ensures CellAfter(g, reqs, x, y, init) == Some(reqs[k].color)
  {
    if k < |reqs| - 1 {
      var pre := AllButLast(reqs);
      assert Target(g, reqs[|reqs| - 1]) != Some((x, y));
      assert pre[k] == reqs[k];
      assert forall k' :: k < k' < |pre| ==> pre[k'] == reqs[k'];
      LastTargetWins(g, pre, x, y, init, k);
    }
  }

  /** Applying two runs of requests one after the other. */
  lemma {:induction false} CellAfterAppend(g: Geometry, a: seq<DrawRequest>, b: seq<DrawRequest>, x: int, y: int, init: Option<Color>)
    ensures CellAfter(g, a + b, x, y, init) == CellAfter(g, b, x, y, CellAfter(g, a, x, y, init))
  {
    if b == [] {
      assert a + b == a;
    } else {
      CellAfterAppend(g, a, AllButLast(b), x, y, init);
      assert AllButLast(a + b) == a + AllButLast(b);
    }
  }

  /** One more request: it overwrites its target and nothing else. */
  lemma CellAfterSnoc(g: Geometry, reqs: seq<DrawRequest>, r: DrawRequest, x: int, y: int, init: Option<Color>)
    ensures CellAfter(g, reqs + [r], x, y, init) ==
      if Target(g, r) == Some((x, y)) then Some(r.color) else CellAfter(g, reqs, x, y, init)
  {
    assert AllButLast(reqs + [r]) == reqs;
  }

  /** The fills of two runs of requests one after the other. */
  lemma {:induction false} FillsOfAppend(g: Geometry, a: seq<DrawRequest>, b: seq<DrawRequest>)
    ensures FillsOf(g, a + b) == FillsOf(g, a) + FillsOf(g, b)
  {
    if b == [] {
      assert a + b == a;
    } else {
      var pre, r := AllButLast(b), Last(b);
      assert b == pre + [r];
      assert a + b == (a + pre) + [r];
      FillsOfAppend(g, a, pre);
      FillsOfSnoc(g, a + pre, r);
      FillsOfSnoc(g, pre, r);
      AppendAssoc(FillsOf(g, a), FillsOf(g, pre), FillOf(g, r));
    }
  }

  /** preAgentCellColor after two runs of requests one after the other. */
  lemma {:induction false} AgentColorAfterAppend(g: Geometry, a: seq<DrawRequest>, b: seq<DrawRequest>, init: Option<Color>)
    ensures AgentColorAfter(g, a + b, init) == AgentColorAfter(g, b, AgentColorAfter(g, a, init))
  {
    if b == [] {
      assert a + b == a;
    } else {
      AgentColorAfterAppend(g, a, AllButLast(b), init);
      assert AllButLast(a + b) == a + AllButLast(b);
    }
  }

  /** One more request adds its own fill, if any, after the earlier ones. */
  lemma FillsOfSnoc(g: Geometry, reqs: seq<DrawRequest>, r: DrawRequest)
    ensures FillsOf(g, reqs + [r]) == FillsOf(g, reqs) + FillOf(g, r)
  {
    assert AllButLast(reqs + [r]) == reqs;
  }

  /** One more request changes preAgentCellColor only when the agent intercepts it. */
  lemma AgentColorAfterSnoc(g: Geometry, reqs: seq<DrawRequest>, r: DrawRequest, init: Option<Color>)
    ensures AgentColorAfter(g, reqs + [r], init) ==
      if Intercepted(g, r) then Some(r.color) else AgentColorAfter(g, reqs, init)
  {
    assert AllButLast(reqs + [r]) == reqs;
  }

  /** The default agent position (-1, -1) is no pixel origin: preAgentCellColor stays. */
  lemma {:induction false} DefaultAgentUntouched(reqs: seq<DrawRequest>, init: Option<Color>)
    ensures AgentColorAfter(DefaultGeometry, reqs, init) == init
  {
    if reqs != [] {
      DefaultNeverIntercepted(Last(reqs));
      DefaultAgentUntouched(AllButLast(reqs), init);
    }
  }

  /** Entries no request can reach keep their colour. */
  lemma {:induction false} CellAfterOutside(g: Geometry, reqs: seq<DrawRequest>, x: int, y: int, init: Option<Color>)
    requires !(0 <= x < g.width && 0 <= y < g.height)
    ensures CellAfter(g, reqs, x, y, init) == init
  {
    if reqs != [] {
      CellAfterOutside(g, AllButLast(reqs), x, y, init);
    }
  }

  /** Requests that are not intercepted each issue exactly one fill. */
  lemma {:induction false} FillsOfCount(g: Geometry, reqs: seq<DrawRequest>)
    requires forall k :: 0 <= k < |reqs| ==> !Intercepted(g, reqs[k])
    ensures |FillsOf(g, reqs)| == |reqs|
  {
    if reqs != [] {
      FillsOfCount(g, AllButLast(reqs));
    }
  }

  // ---------------------------------------------------------------- repaint

  /** The grid as a value: column i, row j. */
  type Snapshot = seq<seq<Option<Color>>>

  /** The fill the repaint loop issues for a set entry (i, j). */
  function RepaintFill(g: Geometry, i: int, j: int, c: Color): Fill {
    FillAt(g, Origin(g, i), Origin(g, j), c)
  }

  /** The fills for the first |col| entries of column i, in row order. */
  function ColumnFills(g: Geometry, i: int, col: seq<Option<Color>>): seq<Fill> {
    if col == [] then []
    else
      ColumnFills(g, i, AllButLast(col)) +
        (match Last(col) case None => [] case Some(c) => [RepaintFill(g, i, |col| - 1, c)])
  }

  /** The fills for the first |snap| columns, column by column. */
  function Repaint(g: Geometry, snap: Snapshot): seq<Fill> {
    if snap == [] then []
    else Repaint(g, AllButLast(snap)) + ColumnFills(g, |snap| - 1, Last(snap))
  }

  /** How many entries of a column are set. */
  function CountSet(col: seq<Option<Color>>): nat {
    if col == [] then 0 else (if col[0].Some? then 1 else 0) + CountSet(col[1..])
  }

  /** How many entries of a grid are set. */
  function CountSetAll(snap: Snapshot): nat {
    if snap == [] then 0 else CountSet(snap[0]) + CountSetAll(snap[1..])
  }

  lemma {:induction false} CountSetLast(col: seq<Option<Color>>)
    requires col != []
    ensures CountSet(col) == CountSet(AllButLast(col)) + (if Last(col).Some? then 1 else 0)
  {
    if |col| > 1 {
      CountSetLast(col[1..]);
      assert AllButLast(col)[1..] == AllButLast(col[1..]);
    }
  }

  lemma {:induction false} CountSetAllLast(snap: Snapshot)
    requires snap != []
    ensures CountSetAll(snap) == CountSetAll(AllButLast(snap)) + CountSet(Last(snap))
  {
    if |snap| > 1 {
      CountSetAllLast(snap[1..]);
      assert AllButLast(snap)[1..] == AllButLast(snap[1..]);
    }
  }

  lemma {:induction false} ColumnFillsCount(g: Geometry, i: int, col: seq<Option<Color>>)
    ensures |ColumnFills(g, i, col)| == CountSet(col)
  {
    if col != [] {
      ColumnFillsCount(g, i, AllButLast(col));
      CountSetLast(col);
    }
  }

  /** The repaint issues one fill per set entry of the grid, and no other. */
  lemma {:induction false} RepaintCount(g: Geometry, snap: Snapshot)
    ensures |Repaint(g, snap)| == CountSetAll(snap)
  {
    if snap != [] {
      RepaintCount(g, AllButLast(snap));
      ColumnFillsCount(g, |snap| - 1, Last(snap));
      CountSetAllLast(snap);
    }
  }

  lemma {:induction false} ColumnFillsComplete(g: Geometry, i: int, col: seq<Option<Color>>, j: int)
    requires 0 <= j < |col| && col[j].Some?
    ensures RepaintFill(g, i, j, col[j].value) in ColumnFills(g, i, col)
  {
    if j < |col| - 1 {
      ColumnFillsComplete(g, i, AllButLast(col), j);
    }
  }

  lemma {:induction false} ColumnFillsSound(g: Geometry, i: int, col: seq<Option<Color>>, f: Fill)
    requires f in ColumnFills(g, i, col)
    ensures exists j :: 0 <= j < |col| && col[j].Some? && f == RepaintFill(g, i, j, col[j].value)
  {
    var pre := AllButLast(col);
    if f in ColumnFills(g, i, pre) {
      ColumnFillsSound(g, i, pre, f);
      var j :| 0 <= j < |pre| && pre[j].Some? && f == RepaintFill(g, i, j, pre[j].value);
      assert col[j] == pre[j];
    } else {
      assert f == RepaintFill(g, i, |col| - 1, Last(col).value);
    }
  }

  /** Every set entry (i, j) is repainted in its colour at the origin (i, j) maps to. */
  lemma {:induction false} RepaintComplete(g: Geometry, snap: Snapshot, i: int, j: int)
    requires 0 <= i < |snap| && 0 <= j < |snap[i]| && snap[i][j].Some?
    ensures RepaintFill(g, i, j, snap[i][j].value) in Repaint(g, snap)
  {
    if i < |snap| - 1 {
      RepaintComplete(g, AllButLast(snap), i, j);
    } else {
      ColumnFillsComplete(g, i, snap[i], j);
    }
  }

  /** Every fill of the repaint comes from a set entry of the grid. */
  lemma {:induction false} RepaintSound(g: Geometry, snap: Snapshot, f: Fill)
    requires f in Repaint(g, snap)
    ensures exists i, j ::
              0 <= i < |snap| && 0 <= j < |snap[i]| && snap[i][j].Some? &&
              f == RepaintFill(g, i, j, snap[i][j].value)
  {
    var pre := AllButLast(snap);
    if f in Repaint(g, pre) {
      RepaintSound(g, pre, f);
      var i, j :| 0 <= i < |pre| && 0 <= j < |pre[i]| && pre[i][j].Some? &&
        f == RepaintFill(g, i, j, pre[i][j].value);
      assert snap[i] == pre[i];
    } else {
      ColumnFillsSound(g, |snap| - 1, Last(snap), f);
    }
  }

  /**
   * With cells of 2 pixels or more, the fill the repaint issues for an entry that a
   * request wrote is the very rectangle drawCellToScale filled for that request.
   */
  lemma RepaintRedrawsLastFill(g: Geometry, r: DrawRequest, x: int, y: int)
    requires Consistent(g) && 2 <= g.cellSize
    requires Target(g, r) == Some((x, y))
    ensures FillsOf(g, [r]) == [RepaintFill(g, x, y, r.color)]
  {
    TargetIsScaledIndex(g, r);
    assert AllButLast([r]) == [];
  }

  // ---------------------------------------------------------------- background

  /** The inner loop of the background fill for outer index i, up to inner index n. */
  function BackgroundRowRequests(i: int, n: nat): (reqs: seq<DrawRequest>)
    requires 0 <= i < CellspaceDim && n <= CellspaceDim as int
    ensures |reqs| == n
  {
    if n == 0 then []
    else BackgroundRowRequests(i, n - 1) + [DrawRequest(n - 1 - 100, i - 100, Background)]
  }

  /** The first m rounds of the outer loop of the background fill. */
  function BackgroundRequests(m: nat): (reqs: seq<DrawRequest>)
    requires m <= CellspaceDim as int
  {
    if m == 0 then []
    else BackgroundRequests(m - 1) + BackgroundRowRequests(m - 1, CellspaceDim as int)
  }

  lemma {:induction false} BackgroundLength(m: nat)
    requires m <= CellspaceDim as int
    ensures |BackgroundRequests(m)| == m * CellspaceDim
  {
    if m > 0 {
      BackgroundLength(m - 1);
    }
  }

  /** A run of requests that are, one by one, the rounds of inner loop i is that loop's run. */
  lemma {:induction false} BackgroundRowIs(i: int, row: seq<DrawRequest>)
    requires 0 <= i < CellspaceDim && |row| <= CellspaceDim as int
    requires forall k :: 0 <= k < |row| ==> row[k] == DrawRequest(k - 100, i - 100, Background)
    ensures row == BackgroundRowRequests(i, |row|)
  {
    if row != [] {
      BackgroundRowIs(i, row[..|row| - 1]);
      assert row == row[..|row| - 1] + [row[|row| - 1]];
    }
  }

  /** Round (i, j) of the background loop writes entry (j, BackgroundRow(i)). */
  lemma BackgroundTarget(i: int, j: int)
    requires 0 <= i < CellspaceDim && 0 <= j < CellspaceDim
    ensures Target(DefaultGeometry, DrawRequest(j - 100, i - 100, Background)) == Some((j, BackgroundRow(i)))
  {
    var r := DrawRequest(j - 100, i - 100, Background);
    DefaultTarget(r);
    BackgroundColumnValue(j);
    assert ScaleX(DefaultGeometry, r.cellX) == BackgroundColumn(j);
    assert ScaleY(DefaultGeometry, -(r.cellY as int)) == BackgroundRow(i);
  }

  lemma {:induction false} BackgroundRowStore(i: int, n: nat, x: int, y: int, init: Option<Color>)
    requires 0 <= i < CellspaceDim && n <= CellspaceDim as int
    ensures CellAfter(DefaultGeometry, BackgroundRowRequests(i, n), x, y, init) ==
      if y == BackgroundRow(i) && 0 <= x < n then Some(Background) else init
  {
    if n > 0 {
      var pre := BackgroundRowRequests(i, n - 1);
      var r := DrawRequest(n - 1 - 100, i - 100, Background);
      BackgroundRowStore(i, n - 1, x, y, init);
      CellAfterSnoc(DefaultGeometry, pre, r, x, y, init);
      BackgroundTarget(i, n - 1);
    }
  }

  /** The rows painted by the first m rounds of the outer loop. */
  predicate RowsPainted(m: int, y: int) {
    (m >= 1 && y == 199) || (201 - m <= y <= 199)
  }

  lemma {:induction false} BackgroundRowsStore(m: nat, x: int, y: int, init: Option<Color>)
    requires m <= CellspaceDim as int
    ensures CellAfter(DefaultGeometry, BackgroundRequests(m), x, y, init) ==
      if RowsPainted(m, y) && 0 <= x < CellspaceDim then Some(Background) else init
  {
    if m > 0 {
      var pre := BackgroundRequests(m - 1);
      var row := BackgroundRowRequests(m - 1, CellspaceDim as int);
      var mid := CellAfter(DefaultGeometry, pre, x, y, init);
      BackgroundRowsStore(m - 1, x, y, init);
      CellAfterAppend(DefaultGeometry, pre, row, x, y, init);
      BackgroundRowStore(m - 1, CellspaceDim as int, x, y, mid);
      BackgroundRowValue(m - 1);
      assert RowsPainted(m, y) <==> RowsPainted(m - 1, y) || y == BackgroundRow(m - 1);
    }
  }

  /**
   * After the background loop every entry of rows 1..199 holds the background colour
   * and row 0 keeps what it had (null on a fresh grid).
   */
  lemma BackgroundStore(x: int, y: int, init: Option<Color>)
    requires 0 <= x < CellspaceDim && 0 <= y < CellspaceDim
    ensures CellAfter(DefaultGeometry, BackgroundRequests(CellspaceDim as int), x, y, init) ==
      if y >= 1 then Some(Background) else init
  {
    BackgroundRowsStore(CellspaceDim as int, x, y, init);
    assert RowsPainted(CellspaceDim as int, y) <==> y >= 1;
  }

  /** The background loop issues one fill per round: 40000 fills. */
  lemma BackgroundFillCount()
    ensures |FillsOf(DefaultGeometry, BackgroundRequests(CellspaceDim as int))| == 40000
  {
    var reqs := BackgroundRequests(CellspaceDim as int);
    BackgroundLength(CellspaceDim as int);
    forall k | 0 <= k < |reqs| ensures !Intercepted(DefaultGeometry, reqs[k]) {
      DefaultNeverIntercepted(reqs[k]);
    }
    FillsOfCount(DefaultGeometry, reqs);
  }
}
