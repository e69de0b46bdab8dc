/**
 * The record layout the offsets of the feed parser assume, written out, and the
 * proof that the parser reads a feed laid out this way back into its events: a
 * record is `"x": X, "y": Y, "Operation": BurnCell, "time": T, "state": S}` and a
 * feed is `[{` + the records joined by `,{` + `]`.
 */
module FeedFormat {
  import opened Wrappers
  import opened JavaLang
  import opened Feed

  /** Events the layout carries: integral times within the int range, one-digit states. */
  predicate Renderable(e: BurnEvent) {
    e.time == e.time.Floor as real && MinInt32 <= e.time.Floor <= MaxInt32 && 0 <= e.state <= 9
  }

  function TimeText(e: BurnEvent): string
    requires Renderable(e)
  {
    IntString(e.time.Floor)
  }

  /** What closes a label and opens its value, and what separates two entries. */
  const Colon: string := "\": "
  const Sep: string := ", \""

  /** One entry `key": field` followed by its separator and the rest of the record. */
  function Entry(key: string, field: string, sep: string, rest: string): string {
    key + (Colon + (field + (sep + rest)))
  }

  /** A record laid out from the texts of its four fields, followed by `tail`. */
  function Record(xs: string, ys: string, ts: string, ss: string, tail: string): string {
    Entry("\"x", xs, Sep, Entry("y", ys, Sep, Entry("Operation", "BurnCell", Sep,
      Entry("time", ts, Sep, Entry("state", ss, "}", tail)))))
  }

  /** One BurnCell record as the parser expects it, followed by `tail`. */
  function RecordText(e: BurnEvent, tail: string): string
    requires Renderable(e)
  {
    Record(IntString(e.x), IntString(e.y), TimeText(e), IntString(e.state), tail)
  }

  /** The piece `split` leaves for record k: all but the last keep the comma before `{`. */
  function PieceText(evs: seq<BurnEvent>, k: int): string
    requires 0 <= k < |evs| && Renderable(evs[k])
  {
    RecordText(evs[k], if k < |evs| - 1 then "," else "")
  }

  function PiecesText(evs: seq<BurnEvent>): (r: seq<string>)
    requires forall k :: 0 <= k < |evs| ==> Renderable(evs[k])
    ensures |r| == |evs|
  {
    seq(|evs|, k requires 0 <= k < |evs| => PieceText(evs, k))
  }

  /** A whole feed: `[{`, the records separated by `,{`, and `]`. */
  function FeedText(evs: seq<BurnEvent>): string
    requires |evs| >= 1 && forall k :: 0 <= k < |evs| ==> Renderable(evs[k])
  {
    "[{" + Join(PiecesText(evs), '{') + "]"
  }

  // ---------------------------------------------------------------- text lemmas

  /** What Java prints for an `int` consists of digits and a minus sign. */
  predicate NumberText(s: string) {
    forall k :: 0 <= k < |s| ==> IsDigit(s[k]) || s[k] == '-'
  }

  lemma {:induction false} DecimalDigitsText(n: nat)
    ensures NumberText(DecimalDigits(n))
  {
    var d := DecimalDigits(n);
    assert AllDigits(d);
  }

  lemma IntStringText(n: int)
    ensures NumberText(IntString(n))
    ensures forall c :: !IsDigit(c) && c != '-' ==> c !in IntString(n)
  {
    if n < 0 {
      DecimalDigitsText(-n);
    } else {
      DecimalDigitsText(n);
    }
  }

  lemma NumberTextAvoids(s: string, c: char)
    requires NumberText(s) && !IsDigit(c) && c != '-'
    ensures c !in s
  {
  }

  // ---------------------------------------------------------------- first occurrences

  /** No occurrence of `pat` in `c + s` starts inside `c`. */
  predicate NoneIn(c: string, s: string, pat: string) {
    forall k :: 0 <= k < |c| ==> !OccursAt(c + s, pat, k)
  }

  lemma ClearPrefix(c: string, s: string, pat: string)
    requires |pat| > 0 && pat[0] !in c
    ensures NoneIn(c, s, pat)
  {
    forall k | 0 <= k < |c| ensures !OccursAt(c + s, pat, k) {
      assert (c + s)[k] == c[k] != pat[0];
      if k + |pat| <= |c + s| {
        assert (c + s)[k..k + |pat|][0] == (c + s)[k];
      }
    }
  }

  /**
   * The same for a prefix `a + m` whose part `m` starts with the first character of
   * `pat` but not with `pat` itself, and holds that character nowhere else.
   */
  lemma NearPrefix(a: string, m: string, s: string, pat: string)
    requires |pat| > 0 && pat[0] !in a && |pat| <= |m| && m[..|pat|] != pat && pat[0] !in m[1..]
    ensures NoneIn(a + m, s, pat)
  {
    var t := a + m + s;
    forall k | 0 <= k < |a + m| ensures !OccursAt(t, pat, k) {
      if k == |a| {
        assert t[k..k + |pat|] == m[..|pat|];
      } else {
        if k < |a| {
          assert t[k] == a[k] != pat[0];
        } else {
          assert t[k] == m[1..][k - |a| - 1] != pat[0];
        }
        if k + |pat| <= |t| {
          assert t[k..k + |pat|][0] == t[k];
        }
      }
    }
  }

  /** Putting a prefix that holds no start of `pat` before a text shifts its first `pat`. */
  lemma FoundPrefix(c: string, s: string, pat: string)
    requires NoneIn(c, s, pat) && IndexOf(s, pat) >= 0
    ensures IndexOf(c + s, pat) == |c| + IndexOf(s, pat)
  {
    var n := IndexOf(s, pat);
    var t := c + s;
    assert t[|c| + n..|c| + n + |pat|] == s[n..n + |pat|];
    assert OccursAt(t, pat, |c| + n);
    forall k | |c| <= k < |c| + n ensures !OccursAt(t, pat, k) {
      assert !OccursAt(s, pat, k - |c|);
      if k + |pat| <= |t| {
        assert t[k..k + |pat|] == s[k - |c|..k - |c| + |pat|];
      }
    }
  }

  lemma FoundStart(pat: string, s: string)
    ensures IndexOf(pat + s, pat) == 0
  {
    assert (pat + s)[0..|pat|] == pat;
    assert OccursAt(pat + s, pat, 0);
  }

  lemma CutStart(f: string, s: string)
    ensures OccursAt(f + s, f, 0)
  {
    assert (f + s)[0..|f|] == f;
  }

  lemma CutPrefix(c: string, s: string, f: string, n: int)
    requires OccursAt(s, f, n)
    ensures OccursAt(c + s, f, |c| + n)
  {
    assert (c + s)[|c| + n..|c| + n + |f|] == s[n..n + |f|];
  }

  // ---------------------------------------------------------------- one entry

  /** An entry starts with its key. */
  lemma EntryKey(key: string, field: string, sep: string, rest: string)
    ensures IndexOf(Entry(key, field, sep, rest), key) == 0
  {
    FoundStart(key, Colon + (field + (sep + rest)));
  }

  /** The field of an entry sits right after `key": `. */
  lemma EntryField(key: string, field: string, sep: string, rest: string)
    ensures OccursAt(Entry(key, field, sep, rest), field, |key| + 3)
  {
    CutStart(field, sep + rest);
    CutPrefix(Colon, field + (sep + rest), field, 0);
    CutPrefix(key, Colon + (field + (sep + rest)), field, |Colon|);
  }

  /** What the rest holds, the entry holds shifted by the entry's head. */
  lemma EntryCut(key: string, field: string, sep: string, rest: string, f: string, n: int)
    requires OccursAt(rest, f, n)
    ensures OccursAt(Entry(key, field, sep, rest), f, |key| + 3 + |field| + |sep| + n)
  {
    CutPrefix(sep, rest, f, n);
    CutPrefix(field, sep + rest, f, |sep| + n);
    CutPrefix(Colon, field + (sep + rest), f, |field| + |sep| + n);
    CutPrefix(key, Colon + (field + (sep + rest)), f, |Colon| + |field| + |sep| + n);
  }

  /** A label first found in the rest is first found there in the entry too. */
  lemma EntryFound(key: string, field: string, sep: string, rest: string, pat: string)
    requires NoneIn(key, Colon + (field + (sep + rest)), pat)
    requires |pat| > 0 && pat[0] !in Colon && pat[0] !in field && pat[0] !in sep
    requires IndexOf(rest, pat) >= 0
    ensures IndexOf(Entry(key, field, sep, rest), pat) == |key| + 3 + |field| + |sep| + IndexOf(rest, pat)
  {
    ClearPrefix(sep, rest, pat);
    FoundPrefix(sep, rest, pat);
    ClearPrefix(field, sep + rest, pat);
    FoundPrefix(field, sep + rest, pat);
    ClearPrefix(Colon, field + (sep + rest), pat);
    FoundPrefix(Colon, field + (sep + rest), pat);
    FoundPrefix(key, Colon + (field + (sep + rest)), pat);
  }

  /** The `t` of `Operation` starts `tion`, not `time`. */
  lemma OperationSkipsTime(s: string)
    ensures NoneIn("Operation", s, "time")
  {
    assert "Operation" == "Opera" + "tion";
    assert "tion"[..4][2] != "time"[2];
    assert "tion"[1..] == "ion";
    NearPrefix("Opera", "tion", s, "time");
  }

  // ---------------------------------------------------------------- one record

  /** The entries of a record from `state` on: where the parser finds label and digit. */
  lemma StateFacts(ss: string, tail: string)
    ensures var l := Entry("state", ss, "}", tail);
      IndexOf(l, "state") == 0 && OccursAt(l, ss, 8)
  {
    EntryKey("state", ss, "}", tail);
    EntryField("state", ss, "}", tail);
  }

  lemma TimeFacts(ts: string, ss: string, tail: string)
    requires NumberText(ts)
    ensures var l := Entry("time", ts, Sep, Entry("state", ss, "}", tail));
      IndexOf(l, "time") == 0 && IndexOf(l, "state") == |ts| + 10 &&
      OccursAt(l, ts, 7) && OccursAt(l, ss, |ts| + 18)
  {
    var r := Entry("state", ss, "}", tail);
    StateFacts(ss, tail);
    EntryKey("time", ts, Sep, r);
    EntryField("time", ts, Sep, r);
    NumberTextAvoids(ts, 's');
    ClearPrefix("time", Colon + (ts + (Sep + r)), "state");
    EntryFound("time", ts, Sep, r, "state");
    EntryCut("time", ts, Sep, r, ss, 8);
  }

  lemma OperationFacts(ts: string, ss: string, tail: string)
    requires NumberText(ts)
    ensures var l := Entry("Operation", "BurnCell", Sep, Entry("time", ts, Sep, Entry("state", ss, "}", tail)));
      IndexOf(l, "Operation") == 0 && IndexOf(l, "time") == 23 && IndexOf(l, "state") == |ts| + 33 &&
      OccursAt(l, "BurnCell", 12) && OccursAt(l, ts, 30) && OccursAt(l, ss, |ts| + 41)
  {
    var r := Entry("time", ts, Sep, Entry("state", ss, "}", tail));
    var body := Colon + ("BurnCell" + (Sep + r));
    TimeFacts(ts, ss, tail);
    EntryKey("Operation", "BurnCell", Sep, r);
    EntryField("Operation", "BurnCell", Sep, r);
    OperationSkipsTime(body);
    EntryFound("Operation", "BurnCell", Sep, r, "time");
    ClearPrefix("Operation", body, "state");
    EntryFound("Operation", "BurnCell", Sep, r, "state");
    EntryCut("Operation", "BurnCell", Sep, r, ts, 7);
    EntryCut("Operation", "BurnCell", Sep, r, ss, |ts| + 18);
  }

  lemma YFacts(ys: string, ts: string, ss: string, tail: string)
    requires NumberText(ys) && NumberText(ts)
    ensures var l := Entry("y", ys, Sep, Entry("Operation", "BurnCell", Sep,
                       Entry("time", ts, Sep, Entry("state", ss, "}", tail))));
      var d := |ys| + 7;
      IndexOf(l, "y") == 0 && IndexOf(l, "Operation") == d && IndexOf(l, "time") == d + 23 &&
      IndexOf(l, "state") == d + |ts| + 33 && OccursAt(l, ys, 4) &&
      OccursAt(l, "BurnCell", d + 12) && OccursAt(l, ts, d + 30) && OccursAt(l, ss, d + |ts| + 41)
  {
    var r := Entry("Operation", "BurnCell", Sep, Entry("time", ts, Sep, Entry("state", ss, "}", tail)));
    var body := Colon + (ys + (Sep + r));
    OperationFacts(ts, ss, tail);
    EntryKey("y", ys, Sep, r);
    EntryField("y", ys, Sep, r);
    NumberTextAvoids(ys, 'O');
    NumberTextAvoids(ys, 't');
    NumberTextAvoids(ys, 's');
    ClearPrefix("y", body, "Operation");
    EntryFound("y", ys, Sep, r, "Operation");
    ClearPrefix("y", body, "time");
    EntryFound("y", ys, Sep, r, "time");
    ClearPrefix("y", body, "state");
    EntryFound("y", ys, Sep, r, "state");
    EntryCut("y", ys, Sep, r, "BurnCell", 12);
    EntryCut("y", ys, Sep, r, ts, 30);
    EntryCut("y", ys, Sep, r, ss, |ts| + 41);
  }

  /** Where the parser finds the four labels in a record laid out from number texts. */
  lemma RecordLabels(xs: string, ys: string, ts: string, ss: string, tail: string)
    requires NumberText(xs) && NumberText(ys) && NumberText(ts)
    ensures var l := Record(xs, ys, ts, ss, tail);
      var yLoc := |xs| + 8;
      IndexOf(l, "y") == yLoc && IndexOf(l, "Operation") == yLoc + |ys| + 7 &&
      IndexOf(l, "time") == yLoc + |ys| + 30 && IndexOf(l, "state") == yLoc + |ys| + |ts| + 40
  {
    var r := Entry("y", ys, Sep, Entry("Operation", "BurnCell", Sep,
               Entry("time", ts, Sep, Entry("state", ss, "}", tail))));
    var body := Colon + (xs + (Sep + r));
    YFacts(ys, ts, ss, tail);
    NumberTextAvoids(xs, 'y');
    NumberTextAvoids(xs, 'O');
    NumberTextAvoids(xs, 't');
    NumberTextAvoids(xs, 's');
    ClearPrefix("\"x", body, "y");
    EntryFound("\"x", xs, Sep, r, "y");
    ClearPrefix("\"x", body, "Operation");
    EntryFound("\"x", xs, Sep, r, "Operation");
    ClearPrefix("\"x", body, "time");
    EntryFound("\"x", xs, Sep, r, "time");
    ClearPrefix("\"x", body, "state");
    EntryFound("\"x", xs, Sep, r, "state");
  }

  /** The field texts of a record sit where the parser cuts them from. */
  lemma RecordFields(xs: string, ys: string, ts: string, ss: string, tail: string)
    requires NumberText(ys) && NumberText(ts)
    ensures var l := Record(xs, ys, ts, ss, tail);
      var yLoc := |xs| + 8;
      OccursAt(l, xs, 5) && OccursAt(l, ys, yLoc + 4) && OccursAt(l, "BurnCell", yLoc + |ys| + 19) &&
      OccursAt(l, ts, yLoc + |ys| + 37) && OccursAt(l, ss, yLoc + |ys| + |ts| + 48)
  {
    var r := Entry("y", ys, Sep, Entry("Operation", "BurnCell", Sep,
               Entry("time", ts, Sep, Entry("state", ss, "}", tail))));
    var d := |ys| + 7;
    YFacts(ys, ts, ss, tail);
    EntryField("\"x", xs, Sep, r);
    EntryCut("\"x", xs, Sep, r, ys, 4);
    EntryCut("\"x", xs, Sep, r, "BurnCell", d + 12);
    EntryCut("\"x", xs, Sep, r, ts, d + 30);
    EntryCut("\"x", xs, Sep, r, ss, d + |ts| + 41);
  }

  // ---------------------------------------------------------------- reading back

  /** A text found at an offset is what `substring` cuts out there. */
  lemma CutAt(p: string, f: string, b: int, e: int)
    requires OccursAt(p, f, b) && e == b + |f|
    ensures Substring(p, b, e) == Ok(f)
  {
  }

  /** ExtractEvent, given what each of its substrings cuts out and how that converts. */
  lemma ExtractAt(p: string, xs: string, ys: string, ts: string, ss: string,
                  x: Int32, y: Int32, t: real, st: Int32)
    requires Substring(p, 5, IndexOf(p, "y") - 3) == Ok(xs) && ParseInt(xs) == Ok(x)
    requires Substring(p, IndexOf(p, "y") + 4, IndexOf(p, "Operation") - 3) == Ok(ys) && ParseInt(ys) == Ok(y)
    requires Substring(p, IndexOf(p, "time") + 7, IndexOf(p, "state") - 3) == Ok(ts) && ParseDouble(ts) == Ok(t)
    requires Substring(p, IndexOf(p, "state") + 8, IndexOf(p, "state") + 9) == Ok(ss) && ParseInt(ss) == Ok(st)
    ensures ExtractEvent(p) == Ok(BurnEvent(x, y, t, st))
  {
  }

  /**
   * What ReadPiece makes of a piece, given where the four labels are, which texts
   * sit at the offsets it cuts from, and how those texts convert.
   */
  lemma ReadAt(p: string, xs: string, ys: string, ts: string, ss: string,
               x: Int32, y: Int32, t: real, st: Int32)
    requires var yLoc := |xs| + 8;
      var opeLoc := yLoc + |ys| + 7;
      var timeLoc := opeLoc + 23;
      var stateLoc := timeLoc + |ts| + 10;
      IndexOf(p, "y") == yLoc && IndexOf(p, "Operation") == opeLoc &&
      IndexOf(p, "time") == timeLoc && IndexOf(p, "state") == stateLoc &&
      OccursAt(p, xs, 5) && OccursAt(p, ys, yLoc + 4) && OccursAt(p, "BurnCell", opeLoc + 12) &&
      OccursAt(p, ts, timeLoc + 7) && OccursAt(p, ss, stateLoc + 8)
    requires |ss| == 1
    requires ParseInt(xs) == Ok(x) && ParseInt(ys) == Ok(y)
    requires ParseDouble(ts) == Ok(t) && ParseInt(ss) == Ok(st)
    ensures ReadPiece(p) == Ok(Some(BurnEvent(x, y, t, st)))
  {
    var yLoc, opeLoc := IndexOf(p, "y"), IndexOf(p, "Operation");
    var timeLoc, stateLoc := IndexOf(p, "time"), IndexOf(p, "state");
    CutAt(p, xs, 5, yLoc - 3);
    CutAt(p, ys, yLoc + 4, opeLoc - 3);
    CutAt(p, "BurnCell", opeLoc + 12, timeLoc - 3);
    CutAt(p, ts, timeLoc + 7, stateLoc - 3);
    CutAt(p, ss, stateLoc + 8, stateLoc + 9);
    assert OperationOf(p) == Ok("BurnCell");
    ExtractAt(p, xs, ys, ts, ss, x, y, t, st);
  }

  /** Reading back a record written out in the layout gives the event. */
  lemma ReadRecord(e: BurnEvent, tail: string)
    requires Renderable(e)
    ensures ReadPiece(RecordText(e, tail)) == Ok(Some(e))
  {
    var xs, ys, ts, ss := IntString(e.x), IntString(e.y), TimeText(e), IntString(e.state);
    IntStringText(e.x);
    IntStringText(e.y);
    IntStringText(e.time.Floor);
    ParseIntString(e.x);
    ParseIntString(e.y);
    ParseIntString(e.state);
    ParseDoubleIntString(e.time.Floor as Int32);
    assert |ss| == 1;
    RecordLabels(xs, ys, ts, ss, tail);
    RecordFields(xs, ys, ts, ss, tail);
    ReadAt(Record(xs, ys, ts, ss, tail), xs, ys, ts, ss, e.x, e.y, e.time, e.state);
  }

  lemma NoBraceInNumber(n: int)
    ensures '{' !in IntString(n)
  {
    IntStringText(n);
    NumberTextAvoids(IntString(n), '{');
  }

  /** No record text holds an opening brace, so `split` on `{` leaves each one whole. */
  lemma RecordNoBrace(e: BurnEvent, tail: string)
    requires Renderable(e) && '{' !in tail
    ensures '{' !in RecordText(e, tail)
  {
    NoBraceInNumber(e.x);
    NoBraceInNumber(e.y);
    NoBraceInNumber(e.time.Floor);
    NoBraceInNumber(e.state);
    RecordAvoids(IntString(e.x), IntString(e.y), TimeText(e), IntString(e.state), tail);
  }

  lemma RecordAvoids(xs: string, ys: string, ts: string, ss: string, tail: string)
    requires '{' !in xs && '{' !in ys && '{' !in ts && '{' !in ss && '{' !in tail
    ensures '{' !in Record(xs, ys, ts, ss, tail)
  {
    var r4 := Entry("state", ss, "}", tail);
    var r3 := Entry("time", ts, Sep, r4);
    var r2 := Entry("Operation", "BurnCell", Sep, r3);
    var r1 := Entry("y", ys, Sep, r2);
    EntryAvoids("state", ss, "}", tail, '{');
    EntryAvoids("time", ts, Sep, r4, '{');
    EntryAvoids("Operation", "BurnCell", Sep, r3, '{');
    EntryAvoids("y", ys, Sep, r2, '{');
    EntryAvoids("\"x", xs, Sep, r1, '{');
  }

  lemma EntryAvoids(key: string, field: string, sep: string, rest: string, c: char)
    requires c !in key && c !in Colon && c !in field && c !in sep && c !in rest
    ensures c !in Entry(key, field, sep, rest)
  {
  }

  /** Stripping and splitting a feed written out in the layout gives its pieces. */
  lemma FeedTextPieces(evs: seq<BurnEvent>)
    requires |evs| >= 1 && forall k :: 0 <= k < |evs| ==> Renderable(evs[k])
    ensures FeedPieces(FeedText(evs)) == Ok(PiecesText(evs))
  {
    var ps := PiecesText(evs);
    StripBrackets(Join(ps, '{'));
    PiecesNoBrace(evs);
    SplitJoin(ps, '{');
  }

  lemma StripBrackets(j: string)
    ensures Substring("[{" + j + "]", 2, |"[{" + j + "]"| - 1) == Ok(j)
  {
    assert ("[{" + j + "]")[2..|j| + 2] == j;
  }

  lemma PiecesNoBrace(evs: seq<BurnEvent>)
    requires forall k :: 0 <= k < |evs| ==> Renderable(evs[k])
    ensures forall k :: 0 <= k < |evs| ==> '{' !in PiecesText(evs)[k]
  {
    forall k | 0 <= k < |evs| ensures '{' !in PiecesText(evs)[k] {
      RecordNoBrace(evs[k], if k < |evs| - 1 then "," else "");
    }
  }

  /** Every piece of a feed written out in the layout reads as its event. */
  lemma PiecesTextRead(evs: seq<BurnEvent>)
    requires forall k :: 0 <= k < |evs| ==> Renderable(evs[k])
    ensures forall k :: 0 <= k < |evs| ==> ReadPiece(PiecesText(evs)[k]) == Ok(Some(evs[k]))
  {
    forall k | 0 <= k < |evs| ensures ReadPiece(PiecesText(evs)[k]) == Ok(Some(evs[k])) {
      ReadRecord(evs[k], if k < |evs| - 1 then "," else "");
    }
  }

  /**
   * A feed written out in the layout parses back into its events: the parse phase
   * of `visualize` keeps one piece per record, and every piece is a burn record.
   */
  lemma FeedRoundTrip(evs: seq<BurnEvent>)
    requires |evs| >= 1 && forall k :: 0 <= k < |evs| ==> Renderable(evs[k])
    ensures ParseFeed(FeedText(evs)) == Ok(Parsed(|evs|, evs))
  {
    FeedTextPieces(evs);
    PiecesTextRead(evs);
    ParsePiecesRecords(PiecesText(evs), evs);
  }
}
