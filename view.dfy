/**
 * The visualisation frame as an object: its cell size, its grid dimensions, the
 * colour grid, the agent's pixel position with the colour it hides, and what the
 * frame shows (the rectangles painted on the grid panel, the title, the pauses
 * taken by the playback).
 */
module View {
  import opened Wrappers
  import opened JavaLang
  import opened Mapping
  import opened CellStore
  import opened Feed
  import opened Playback

  /** The frame title: the initial one, the running simulation time, or the final time. */
  datatype Title = Initial | Clock(seconds: real) | Final(lastSecond: Int32)

  /** How a call of `visualize` ends. */
  datatype Outcome = Completed | Threw(exception: JavaException)

  /** The events a feed has the playback draw: none when parsing throws. */
  function Played(data: string): seq<BurnEvent> {
    if ParseFeed(data).Ok? then ParseFeed(data).value.events else []
  }

  class FireStateView {
    var cellSize: Int32
    var spaceWidth: Int32
    var spaceHeight: Int32
    /** grid[x, y]: the colour last stored for cell (x, y), None while never set. */
    var grid: array2<Option<Color>>
    var agentX: Int32
    var agentY: Int32
    var preAgentCellColor: Option<Color>
    var displayGrid: bool
    /** The rectangles fillCell has painted on the grid panel, in order. */
    var fills: seq<Fill>
    var title: Title
    /** The 100 ms sleeps of the playback. */
    var pauses: nat
    /** The rounds the playback loop has taken, as steps of its trace. */
    ghost var rounds: seq<Step>

    /** The fields the cell mapping reads. */
    function Geom(): Geometry
      reads this`cellSize, this`spaceWidth, this`spaceHeight, this`displayGrid, this`agentX, this`agentY
    {
      Geometry(cellSize, spaceWidth, spaceHeight, displayGrid, agentX, agentY)
    }

    /** The grid array has the dimensions spaceSize records. */
    predicate Valid()
      reads this`grid, this`spaceWidth, this`spaceHeight
    {
      grid.Length0 == spaceWidth as int && grid.Length1 == spaceHeight as int
    }

    /** The first n entries of column i. */
    function ColumnOf(i: int, n: int): (col: seq<Option<Color>>)
      reads this`grid, grid
      requires 0 <= i < grid.Length0 && 0 <= n <= grid.Length1
      ensures |col| == n && forall j :: 0 <= j < n ==> col[j] == grid[i, j]
    {
      if n == 0 then [] else ColumnOf(i, n - 1) + [grid[i, n - 1]]
    }

    /** The first m columns of the grid. */
    function Columns(m: int): (snap: Snapshot)
      reads this`grid, grid
      requires 0 <= m <= grid.Length0
      ensures |snap| == m && forall i :: 0 <= i < m ==> snap[i] == ColumnOf(i, grid.Length1)
    {
      if m == 0 then [] else Columns(m - 1) + [ColumnOf(m - 1, grid.Length1)]
    }

    /** The whole grid as a value. */
    function Contents(): (snap: Snapshot)
      reads this`grid, grid
      ensures |snap| == grid.Length0 && forall x :: 0 <= x < |snap| ==> |snap[x]| == grid.Length1
      ensures forall x, y :: 0 <= x < grid.Length0 && 0 <= y < grid.Length1 ==> snap[x][y] == grid[x, y]
    {
      Columns(grid.Length0)
    }

    /**
     * What the frame shows after the requests `reqs`, drawn on a grid that held
     * `start`, a panel on which `log` was already painted and the remembered agent
     * colour `agent`.
     */
    ghost predicate Shows(reqs: seq<DrawRequest>, start: Snapshot, log: seq<Fill>, agent: Option<Color>)
      reads this`cellSize, this`spaceWidth, this`spaceHeight, this`displayGrid, this`agentX, this`agentY
      reads this`grid, grid, this`fills, this`preAgentCellColor
    {
      fills == log + FillsOf(Geom(), reqs) &&
      preAgentCellColor == AgentColorAfter(Geom(), reqs, agent) &&
      |start| == grid.Length0 && (forall x :: 0 <= x < |start| ==> |start[x]| == grid.Length1) &&
      forall x, y :: 0 <= x < grid.Length0 && 0 <= y < grid.Length1 ==>
        grid[x, y] == CellAfter(Geom(), reqs, x, y, start[x][y])
    }

    /** Before any request the frame shows what it holds. */
    lemma ShowsNothing()
      ensures Shows([], Contents(), fills, preAgentCellColor)
    {
      assert fills + [] == fills;
    }

    /**
     * The frame as the constructor leaves it: 3-pixel cells on a 200 by 200 grid,
     * every entry painted with the background colour except row 0 (rows 0 and 1 of
     * the loop both land on row 199), and the fills of the background loop.
     */
    constructor ()
      ensures Valid() && Geom() == DefaultGeometry && fresh(grid)
      ensures forall x, y :: 0 <= x < grid.Length0 && 0 <= y < grid.Length1 ==>
        grid[x, y] == if y >= 1 then Some(Background) else None
      ensures fills == FillsOf(DefaultGeometry, BackgroundRequests(CellspaceDim as int))
      ensures preAgentCellColor == None && title == Initial && pauses == 0 && rounds == []
    {
      cellSize := 10;
      spaceWidth := 40;
      spaceHeight := 40;
      grid := new Option<Color>[40, 40];
      agentX := -1;
      agentY := -1;
      preAgentCellColor := None;
      displayGrid := false;
      fills := [];
      title := Initial;
      pauses := 0;
      rounds := [];
      new;
      ghost var start := CreateGridView();
      assert Geom() == DefaultGeometry;
      BackgroundShown(start);
    }

    /**
     * createGridView: 3-pixel cells over the 600-pixel range give a fresh 200 by
     * 200 grid, on which the background loop then draws every cell (i - 100,
     * j - 100) in row order.
     */
    method CreateGridView() returns (ghost start: Snapshot)
      modifies this
      ensures Valid() && fresh(grid)
      ensures cellSize == CellDisplaySize && spaceWidth == CellspaceDim && spaceHeight == CellspaceDim
      ensures agentX == old(agentX) && agentY == old(agentY) && displayGrid == old(displayGrid)
      ensures title == old(title) && pauses == old(pauses) && rounds == old(rounds)
      ensures |start| == grid.Length0 && forall x :: 0 <= x < |start| ==> |start[x]| == grid.Length1
      ensures forall x, y :: 0 <= x < grid.Length0 && 0 <= y < grid.Length1 ==> start[x][y] == None
      ensures Shows(BackgroundRequests(CellspaceDim as int), start, old(fills), old(preAgentCellColor))
    {
      cellSize := CellDisplaySize;
      var size := JavaDiv(SpaceDisplaySize, cellSize);
      spaceWidth := size;
      spaceHeight := size;
      grid := new Option<Color>[size, size]((_, _) => None);
      SetCellSize(CellDisplaySize);
      start := Contents();
      assert |start| == grid.Length0 && forall x :: 0 <= x < |start| ==> |start[x]| == grid.Length1;
      assert forall x, y :: 0 <= x < grid.Length0 && 0 <= y < grid.Length1 ==> start[x][y] == None;
      assert agentX == old(agentX) && agentY == old(agentY) && displayGrid == old(displayGrid);
      assert title == old(title) && pauses == old(pauses) && rounds == old(rounds);
      assert fills == old(fills) && preAgentCellColor == old(preAgentCellColor);
      assert cellSize == CellDisplaySize && spaceWidth == CellspaceDim && spaceHeight == CellspaceDim;
      PaintBackground();
    }

    /** The background loop drawn on an empty grid, an empty panel and no agent colour. */
    lemma BackgroundShown(start: Snapshot)
      requires Geom() == DefaultGeometry
      requires |start| == grid.Length0 && forall x :: 0 <= x < |start| ==> |start[x]| == grid.Length1
      requires forall x, y :: 0 <= x < grid.Length0 && 0 <= y < grid.Length1 ==> start[x][y] == None
      requires grid.Length0 == CellspaceDim as int && grid.Length1 == CellspaceDim as int
      requires Shows(BackgroundRequests(CellspaceDim as int), start, [], None)
      ensures forall x, y :: 0 <= x < grid.Length0 && 0 <= y < grid.Length1 ==>
        grid[x, y] == if y >= 1 then Some(Background) else None
      ensures fills == FillsOf(DefaultGeometry, BackgroundRequests(CellspaceDim as int))
      ensures preAgentCellColor == None
    {
      assert fills == [] + FillsOf(DefaultGeometry, BackgroundRequests(CellspaceDim as int));
      DefaultAgentUntouched(BackgroundRequests(CellspaceDim as int), None);
      forall x, y | 0 <= x < grid.Length0 && 0 <= y < grid.Length1
        ensures grid[x, y] == if y >= 1 then Some(Background) else None
      {
        BackgroundStore(x, y, None);
      }
    }

    /**
     * setCellSize: a positive size recomputes the grid dimensions from the 600-pixel
     * range and replaces the grid by an empty one; any other size is only recorded.
     */
    method SetCellSize(size: Int32)
      modifies this
      ensures cellSize == size
      ensures size > 0 ==> fresh(grid) && Valid()
      ensures size > 0 ==> spaceWidth == JavaDiv(SpaceDisplaySize, size) && spaceHeight == JavaDiv(SpaceDisplaySize, size)
      ensures size > 0 ==> forall x, y :: 0 <= x < grid.Length0 && 0 <= y < grid.Length1 ==> grid[x, y].None?
      ensures size <= 0 ==> grid == old(grid) && spaceWidth == old(spaceWidth) && spaceHeight == old(spaceHeight)
      ensures displayGrid == old(displayGrid) && agentX == old(agentX) && agentY == old(agentY)
      ensures preAgentCellColor == old(preAgentCellColor) && fills == old(fills)
      ensures title == old(title) && pauses == old(pauses) && rounds == old(rounds)
    {
      cellSize := size;
      if cellSize > 0 {
        spaceWidth := JavaDiv(SpaceDisplaySize, cellSize);
        spaceHeight := JavaDiv(SpaceDisplaySize, cellSize);
        grid := new Option<Color>[spaceWidth, spaceHeight]((_, _) => None);
      }
    }

    /**
     * fillCell: the rectangle is painted first; then the entry (px / cellSize,
     * py / cellSize) is stored, unless the division throws (cell size 0) or the
     * index is outside the grid.
     */
    method FillCell(px: Int32, py: Int32, c: Color) returns (thrown: Option<JavaException>)
      requires Valid()
      modifies this, grid
      ensures Valid() && Geom() == old(Geom()) && grid == old(grid)
      ensures fills == old(fills) + [FillAt(Geom(), px, py, c)]
      ensures thrown ==
        if cellSize == 0 then Some(Arithmetic)
        else if StoreIndex(Geom(), px, py).None? then Some(ArrayIndexOutOfBounds)
        else None
      ensures forall x, y :: 0 <= x < grid.Length0 && 0 <= y < grid.Length1 ==>
        grid[x, y] == if StoreIndex(Geom(), px, py) == Some((x, y)) then Some(c) else old(grid[x, y])
      ensures preAgentCellColor == old(preAgentCellColor) && title == old(title) && pauses == old(pauses) && rounds == old(rounds)
    {
      if displayGrid {
        fills := fills + [Fill(px, py, Wrap32(cellSize - 1), Wrap32(cellSize - 1), c)];
      } else {
        fills := fills + [Fill(px, py, cellSize, cellSize, c)];
      }
      if cellSize == 0 {
        return Some(Arithmetic);
      }
      var gx := JavaDiv(px, cellSize);
      var gy := JavaDiv(py, cellSize);
      if !(0 <= gx < grid.Length0 && 0 <= gy < grid.Length1) {
        return Some(ArrayIndexOutOfBounds);
      }
      grid[gx, gy] := Some(c);
      return None;
    }

    /**
     * drawCellToScale: a request landing on the agent's pixel only remembers its
     * colour; any other is filled. The fill runs on the Swing thread, so an exception
     * it throws never reaches the caller.
     */
    method DrawCellToScale(r: DrawRequest)
      requires Valid()
      modifies this, grid
      ensures Valid() && Geom() == old(Geom()) && grid == old(grid)
      ensures fills == old(fills) + FillOf(Geom(), r)
      ensures preAgentCellColor == if Intercepted(Geom(), r) then Some(r.color) else old(preAgentCellColor)
      ensures forall x, y :: 0 <= x < grid.Length0 && 0 <= y < grid.Length1 ==>
        grid[x, y] == if Target(Geom(), r) == Some((x, y)) then Some(r.color) else old(grid[x, y])
      ensures title == old(title) && pauses == old(pauses) && rounds == old(rounds)
    {
      var x := Wrap32(Wrap32(ScaleX(Geom(), r.cellX) * cellSize) + 1);
      var y := Wrap32(Wrap32(ScaleY(Geom(), -(r.cellY as int)) * cellSize) + 1);
      assert (x, y) == Pixel(Geom(), r);
      if x == agentX && y == agentY {
        preAgentCellColor := Some(r.color);
        return;
      }
      var ignored := FillCell(x, y, r.color);
    }

    /** drawCellToScale as one more request on top of those drawn so far. */
    method Draw(r: DrawRequest, ghost reqs: seq<DrawRequest>, ghost start: Snapshot, ghost log: seq<Fill>, ghost agent: Option<Color>)
      requires Valid() && Shows(reqs, start, log, agent)
      modifies this, grid
      ensures Valid() && Geom() == old(Geom()) && grid == old(grid) && title == old(title) && pauses == old(pauses) && rounds == old(rounds)
      ensures Shows(reqs + [r], start, log, agent)
    {
      DrawCellToScale(r);
      FillsOfSnoc(Geom(), reqs, r);
      AppendAssoc(log, FillsOf(Geom(), reqs), FillOf(Geom(), r));
      AgentColorAfterSnoc(Geom(), reqs, r, agent);
      forall x, y | 0 <= x < grid.Length0 && 0 <= y < grid.Length1
        ensures grid[x, y] == CellAfter(Geom(), reqs + [r], x, y, start[x][y])
      {
        CellAfterSnoc(Geom(), reqs, r, x, y, start[x][y]);
      }
    }

    /** The background loop of createGridView: 200 rows of 200 cells, row by row. */
    method PaintBackground()
      requires Valid()
      modifies this, grid
      ensures Valid() && Geom() == old(Geom()) && grid == old(grid) && title == old(title) && pauses == old(pauses) && rounds == old(rounds)
      ensures Shows(BackgroundRequests(CellspaceDim as int), old(Contents()), old(fills), old(preAgentCellColor))
    {
      ShowsNothing();
      ghost var start := Contents();
      ghost var done: seq<DrawRequest> := [];
      for i := 0 to CellspaceDim
        invariant Valid() && Geom() == old(Geom()) && grid == old(grid) && title == old(title) && pauses == old(pauses) && rounds == old(rounds)
        invariant done == BackgroundRequests(i)
        invariant Shows(done, start, old(fills), old(preAgentCellColor))
      {
        PaintBackgroundRow(i, done, start, old(fills), old(preAgentCellColor));
        done := done + BackgroundRowRequests(i, CellspaceDim as int);
      }
    }

    /** Outer round i of the background loop: the 200 cells of row i - 100. */
    method PaintBackgroundRow(i: int, ghost done: seq<DrawRequest>, ghost start: Snapshot, ghost log: seq<Fill>, ghost agent: Option<Color>)
      requires 0 <= i < CellspaceDim && Valid() && Shows(done, start, log, agent)
      modifies this, grid
      ensures Valid() && Geom() == old(Geom()) && grid == old(grid) && title == old(title) && pauses == old(pauses) && rounds == old(rounds)
      ensures Shows(done + BackgroundRowRequests(i, CellspaceDim as int), start, log, agent)
    {
      ghost var row: seq<DrawRequest> := [];
      assert done + row == done;
      for j := 0 to CellspaceDim
        invariant Valid() && Geom() == old(Geom()) && grid == old(grid) && title == old(title) && pauses == old(pauses) && rounds == old(rounds)
        invariant |row| == j && forall k :: 0 <= k < j ==> row[k] == DrawRequest(k - 100, i - 100, Background)
        invariant Shows(done + row, start, log, agent)
      {
        var r := DrawRequest(j - CellspaceDim / 2, i - CellspaceDim / 2, Background);
        assert r == DrawRequest(j - 100, i - 100, Background);
        Draw(r, done + row, start, log, agent);
        AppendAssoc(done, row, [r]);
        row := row + [r];
      }
      BackgroundRowIs(i, row);
    }

    /**
     * The playback loop of visualize over the first `count` parsed records: the
     * clock starts at the first record's time, and the title ends on the last
     * record's time truncated to an int.
     */
    method PlayEvents(records: array<BurnEvent>, count: nat)
      requires Valid() && 1 <= count <= records.Length
      modifies this, grid
      ensures Valid() && Geom() == old(Geom()) && grid == old(grid)
      ensures title == Final(SatInt32(TruncReal(records[count - 1].time)))
      ensures pauses == old(pauses) + TickCount(PlayTrace(Times(records[..count]), 0, records[0].time))
      ensures rounds == old(rounds) + PlayTrace(Times(records[..count]), 0, records[0].time)
      ensures Shows(EventRequests(records[..count]), old(Contents()), old(fills), old(preAgentCellColor))
    {
      ShowsNothing();
      ghost var start := Contents();
      ghost var times := Times(records[..count]);
      var currentTime := records[0].time;
      title := Clock(currentTime);
      var currentIdx := 0;
      while currentIdx < count
        invariant 0 <= currentIdx <= count
        invariant Valid() && Geom() == old(Geom()) && grid == old(grid)
        invariant title == Clock(currentTime)
        invariant pauses + TickCount(PlayTrace(times, currentIdx, currentTime)) ==
          old(pauses) + TickCount(PlayTrace(times, 0, records[0].time))
        invariant rounds + PlayTrace(times, currentIdx, currentTime) == old(rounds) + PlayTrace(times, 0, records[0].time)
        invariant Shows(EventRequests(records[..currentIdx]), start, old(fills), old(preAgentCellColor))
        decreases count - currentIdx, if currentIdx < count then Gap(records[currentIdx].time, currentTime) else 0
      {
        if records[currentIdx].time < currentTime + Granularity {
          var e := records[currentIdx];
          PlaybackDrawRound(times, currentIdx, currentTime);
          assert records[..currentIdx + 1] == records[..currentIdx] + [e];
          AppendAssoc(rounds, [Step.Draw(currentIdx, currentTime)], PlayTrace(times, currentIdx + 1, currentTime));
          DrawEvent(e, records[..currentIdx], currentTime, start, old(fills), old(preAgentCellColor));
          currentIdx := currentIdx + 1;
        } else {
          PlaybackTickRound(times, currentIdx, currentTime);
          GapShrinks(records[currentIdx].time, currentTime);
          AppendAssoc(rounds, [Tick(currentTime + Granularity)], PlayTrace(times, currentIdx, currentTime + Granularity));
          currentTime := StepClock(currentTime);
        }
      }
      assert PlayTrace(times, count, currentTime) == [];
      assert rounds == rounds + [];
      assert records[..currentIdx] == records[..count];
      title := Final(SatInt32(TruncReal(records[currentIdx - 1].time)));
    }

    /** One clock round of the playback loop: the clock steps by 100, shows in the title, and the frame pauses. */
    method StepClock(clock: real) returns (next: real)
      modifies this
      ensures next == clock + Granularity
      ensures title == Clock(next) && pauses == old(pauses) + 1 && rounds == old(rounds) + [Tick(next)]
      ensures Geom() == old(Geom()) && grid == old(grid) && fills == old(fills)
      ensures preAgentCellColor == old(preAgentCellColor)
    {
      next := clock + Granularity;
      title := Clock(next);
      pauses := pauses + 1;
      rounds := rounds + [Tick(next)];
    }

    /** One drawing round of the playback loop: state 1 is drawn red, state 2 black. */
    method DrawEvent(e: BurnEvent, ghost evs: seq<BurnEvent>, ghost clock: real,
                     ghost start: Snapshot, ghost log: seq<Fill>, ghost agent: Option<Color>)
      requires Valid() && Shows(EventRequests(evs), start, log, agent)
      modifies this, grid
      ensures Valid() && Geom() == old(Geom()) && grid == old(grid) && title == old(title) && pauses == old(pauses)
      ensures rounds == old(rounds) + [Step.Draw(|evs|, clock)]
      ensures Shows(EventRequests(evs + [e]), start, log, agent)
    {
      EventRequestsSnoc(evs, e);
      var xPos := Wrap32(e.x - CellspaceDim / 2);
      var yPos := Wrap32(e.y - CellspaceDim / 2);
      if e.state == 1 {
        Draw(DrawRequest(xPos, yPos, Red), EventRequests(evs), start, log, agent);
      } else if e.state == 2 {
        Draw(DrawRequest(xPos, yPos, Black), EventRequests(evs), start, log, agent);
      } else {
        assert EventRequests(evs) + [] == EventRequests(evs);
      }
      rounds := rounds + [Step.Draw(|evs|, clock)];
    }

    /**
     * visualize: parse the feed, then play the parsed events back. Parsing throws
     * on a feed shorter than three characters and on a malformed record; an empty
     * split throws at `time[0]`, and a feed without BurnCell records throws at
     * `time[index - 1]` after setting the title to the zero time.
     */
    method Visualize(data: string) returns (outcome: Outcome)
      requires Valid()
      modifies this, grid
      ensures Valid() && Geom() == old(Geom()) && grid == old(grid)
      ensures ParseFeed(data).Err? ==> outcome == Threw(ParseFeed(data).error)
      ensures ParseFeed(data).Ok? && ParseFeed(data).value.dataSize == 0 ==> outcome == Threw(ArrayIndexOutOfBounds)
      ensures ParseFeed(data).Ok? && ParseFeed(data).value.dataSize > 0 && ParseFeed(data).value.events == [] ==>
        outcome == Threw(ArrayIndexOutOfBounds) && title == Clock(0.0) && pauses == old(pauses) && rounds == old(rounds)
      ensures Played(data) == [] && !(ParseFeed(data).Ok? && ParseFeed(data).value.dataSize > 0) ==>
        title == old(title) && pauses == old(pauses) && rounds == old(rounds)
      ensures Played(data) != [] ==>
        outcome == Completed &&
        title == Final(SatInt32(TruncReal(Last(Played(data)).time))) &&
        pauses == old(pauses) + TickCount(PlayTrace(Times(Played(data)), 0, Played(data)[0].time)) &&
        rounds == old(rounds) + PlayTrace(Times(Played(data)), 0, Played(data)[0].time)
      ensures Shows(EventRequests(Played(data)), old(Contents()), old(fills), old(preAgentCellColor))
    {
      ShowsNothing();
      var pieces := FeedPieces(data);
      if pieces.Err? {
        assert ParseFeed(data) == Err(pieces.error);
        return Threw(pieces.error);
      }
      var parsed, records := ParseRecords(pieces.value);
      if parsed.Err? {
        assert ParseFeed(data) == Err(parsed.error);
        return Threw(parsed.error);
      }
      var index := parsed.value;
      assert ParseFeed(data) == Ok(Parsed(records.Length, records[..index]));
      assert records[..index] == Played(data);
      outcome := Play(records, index);
      if index > 0 {
        assert Last(Played(data)) == records[index - 1] && Played(data)[0] == records[0];
      }
    }

    /**
     * The part of visualize after parsing: the first time stamp is read (which
     * throws on an empty feed), then the first index events are played.
     */
    method Play(records: array<BurnEvent>, index: nat) returns (outcome: Outcome)
      requires Valid() && index <= records.Length
      modifies this, grid
      ensures Valid() && Geom() == old(Geom()) && grid == old(grid)
      ensures records.Length == 0 ==>
        outcome == Threw(ArrayIndexOutOfBounds) && title == old(title) && pauses == old(pauses) && rounds == old(rounds)
      ensures records.Length > 0 && index == 0 ==>
        outcome == Threw(ArrayIndexOutOfBounds) && title == Clock(records[0].time) && pauses == old(pauses) && rounds == old(rounds)
      ensures index > 0 ==>
        outcome == Completed &&
        title == Final(SatInt32(TruncReal(records[index - 1].time))) &&
        pauses == old(pauses) + TickCount(PlayTrace(Times(records[..index]), 0, records[0].time)) &&
        rounds == old(rounds) + PlayTrace(Times(records[..index]), 0, records[0].time)
      ensures Shows(EventRequests(records[..index]), old(Contents()), old(fills), old(preAgentCellColor))
    {
      ShowsNothing();
      if records.Length == 0 {
        return Threw(ArrayIndexOutOfBounds);
      }
      if index == 0 {
        title := Clock(records[0].time);
        return Threw(ArrayIndexOutOfBounds);
      }
      PlayEvents(records, index);
      return Completed;
    }

    /**
     * The cell loop of GridPanel.paint: every set entry (i, j) is filled again at
     * pixel (i * cellSize + 1, j * cellSize + 1), column by column.
     */
    method PaintCells() returns (ops: seq<Fill>)
      requires Valid()
      ensures ops == Repaint(Geom(), Contents())
    {
      ops := [];
      for i := 0 to spaceWidth
        invariant ops == Repaint(Geom(), Columns(i))
      {
        var column := PaintColumn(i);
        ops := ops + column;
        assert AllButLast(Columns(i + 1)) == Columns(i);
      }
    }

    /** Outer round i of the cell loop: the set entries of column i, in row order. */
    method PaintColumn(i: int) returns (ops: seq<Fill>)
      requires Valid() && 0 <= i < spaceWidth
      ensures ops == ColumnFills(Geom(), i, ColumnOf(i, grid.Length1))
    {
      ghost var g := Geom();
      ops := [];
      for j := 0 to spaceHeight
        invariant ops == ColumnFills(g, i, ColumnOf(i, j))
      {
        ghost var col := ColumnOf(i, j + 1);
        assert AllButLast(col) == ColumnOf(i, j) && Last(col) == grid[i, j];
        if grid[i, j].Some? {
          var x := Wrap32(Wrap32(i * cellSize) + 1);
          var y := Wrap32(Wrap32(j * cellSize) + 1);
          assert x == Origin(g, i) && y == Origin(g, j);
          if displayGrid {
            ops := ops + [Fill(x, y, Wrap32(cellSize - 1), Wrap32(cellSize - 1), grid[i, j].value)];
          } else {
            ops := ops + [Fill(x, y, cellSize, cellSize, grid[i, j].value)];
          }
        }
      }
    }

    /**
     * getPreferredSize: the grid in pixels. With a positive cell size and the
     * dimensions setCellSize gives it, it fits the 600-pixel range and falls short
     * of it by less than one cell.
     */
    function PreferredSize(): (r: (Int32, Int32))
      reads this`cellSize, this`spaceWidth, this`spaceHeight
      ensures r == (Wrap32(spaceWidth * cellSize), Wrap32(spaceHeight * cellSize))
      ensures 1 <= cellSize && spaceWidth == JavaDiv(SpaceDisplaySize, cellSize) ==>
        SpaceDisplaySize - cellSize < r.0 <= SpaceDisplaySize
      ensures 1 <= cellSize && spaceHeight == JavaDiv(SpaceDisplaySize, cellSize) ==>
        SpaceDisplaySize - cellSize < r.1 <= SpaceDisplaySize
    {
      RangeFits(cellSize);
      (Wrap32(spaceWidth * cellSize), Wrap32(spaceHeight * cellSize))
    }
  }

  /** The range divided into cells and multiplied back loses less than one cell. */
  lemma RangeFits(size: Int32)
    ensures 1 <= size ==> SpaceDisplaySize - size < JavaDiv(SpaceDisplaySize, size) * size <= SpaceDisplaySize
  {
    if 1 <= size {
      var q := SpaceDisplaySize as int / size as int;
      var m := SpaceDisplaySize as int % size as int;
      assert SpaceDisplaySize as int == q * size + m;
    }
  }
}
