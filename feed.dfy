/**
 * The feed parser of `visualize`: the result string of a simulation run is stripped
 * of its first two and its last character, split on `{`, and every piece whose
 * operation name is `BurnCell` is read, at fixed offsets from the first occurrences
 * of the labels `y`, `Operation`, `time` and `state`, into a burn event.
 */
module Feed {
  import opened Wrappers
  import opened JavaLang

  /** One parsed BurnCell record: the entries of cellX, cellY, time and state. */
  datatype BurnEvent = BurnEvent(x: Int32, y: Int32, time: real, state: Int32)

  /** What a slot of the freshly allocated, zero-initialised parallel arrays holds. */
  const ZeroEvent: BurnEvent := BurnEvent(0, 0, 0.0, 0)

  /** The operation name of a piece: the text from `OpeLoc + 12` up to `timeLoc - 3`. */
  function OperationOf(p: string): (r: Result<string, JavaException>)
    ensures r.Err? ==> r.error == StringIndexOutOfBounds
  {
    Substring(p, IndexOf(p, "Operation") + 12, IndexOf(p, "time") - 3)
  }

  /** A piece is a burn record when its operation name is exactly `BurnCell`. */
  predicate IsBurnCell(p: string) {
    OperationOf(p) == Ok("BurnCell")
  }

  /**
   * The four fields of a burn record, read in the order `visualize` reads them; the
   * first substring or number conversion that throws decides the error.
   */
  function ExtractEvent(p: string): (r: Result<BurnEvent, JavaException>)
    ensures r.Err? ==> r.error == StringIndexOutOfBounds || r.error == NumberFormat
  {
    var yLoc := IndexOf(p, "y");
    var opeLoc := IndexOf(p, "Operation");
    var timeLoc := IndexOf(p, "time");
    var stateLoc := IndexOf(p, "state");
    var xText :- Substring(p, 5, yLoc - 3);
    var x :- ParseInt(xText);
    var yText :- Substring(p, yLoc + 4, opeLoc - 3);
    var y :- ParseInt(yText);
    var timeText :- Substring(p, timeLoc + 7, stateLoc - 3);
    var t :- ParseDouble(timeText);
    var stateText :- Substring(p, stateLoc + 8, stateLoc + 9);
    var s :- ParseInt(stateText);
    Ok(BurnEvent(x, y, t, s))
  }

  /** One round of the parse loop: classify the piece, and read it if it is a burn record. */
  function ReadPiece(p: string): (r: Result<Option<BurnEvent>, JavaException>)
    ensures r.Ok? && r.value.Some? <==> IsBurnCell(p) && ExtractEvent(p).Ok?
    ensures r.Ok? && r.value.Some? ==> r.value.value == ExtractEvent(p).value
    ensures r == Ok(None) <==> OperationOf(p).Ok? && !IsBurnCell(p)
  {
    var op :- OperationOf(p);
    if op == "BurnCell" then
      var e :- ExtractEvent(p);
      Ok(Some(e))
    else
      Ok(None)
  }

  /** A piece the parse loop gets through without an exception. */
  predicate Readable(p: string) {
    ReadPiece(p).Ok?
  }

  /** The outcome of each round of the parse loop, piece by piece. */
  function ReadAll(ps: seq<string>): (r: seq<Result<Option<BurnEvent>, JavaException>>)
    ensures |r| == |ps|
  {
    seq(|ps|, k requires 0 <= k < |ps| => ReadPiece(ps[k]))
  }

  /** The events a run of rounds stores, or the first exception among them. */
  function Collect(rounds: seq<Result<Option<BurnEvent>, JavaException>>): Result<seq<BurnEvent>, JavaException> {
    if rounds == [] then Ok([])
    else
      var done :- Collect(rounds[..|rounds| - 1]);
      var e :- rounds[|rounds| - 1];
      Ok(done + (if e.Some? then [e.value] else []))
  }

  /** The events the parse loop stores for the pieces, or the first exception it meets. */
  function ParsePieces(ps: seq<string>): Result<seq<BurnEvent>, JavaException> {
    Collect(ReadAll(ps))
  }

  /** The last piece: the parse of the others, then that piece's round of the loop. */
  lemma ParsePiecesLast(ps: seq<string>)
    requires ps != []
    ensures ParsePieces(ps) ==
      match ParsePieces(ps[..|ps| - 1])
      case Err(e) => Err(e)
      case Ok(done) =>
        match ReadPiece(ps[|ps| - 1])
        case Err(e) => Err(e)
        case Ok(read) => Ok(done + (if read.Some? then [read.value] else []))
  {
    assert ReadAll(ps)[..|ps| - 1] == ReadAll(ps[..|ps| - 1]);
  }

  /** The burn records among the pieces, in feed order. */
  function BurnPieces(ps: seq<string>): (r: seq<string>)
    ensures |r| <= |ps|
    ensures forall k :: 0 <= k < |r| ==> IsBurnCell(r[k])
  {
    if ps == [] then []
    else
      var p := ps[|ps| - 1];
      BurnPieces(ps[..|ps| - 1]) + (if IsBurnCell(p) then [p] else [])
  }

  /** The events read from burn records that all read without an exception. */
  function Extracted(ps: seq<string>): (r: seq<BurnEvent>)
    requires forall k :: 0 <= k < |ps| ==> ExtractEvent(ps[k]).Ok?
    ensures |r| == |ps|
  {
    seq(|ps|, k requires 0 <= k < |ps| => ExtractEvent(ps[k]).value)
  }

  /** The parse loop gets through all the pieces exactly when it gets through each one. */
  lemma {:induction false} ParsePiecesOk(ps: seq<string>)
    ensures ParsePieces(ps).Ok? <==> forall k :: 0 <= k < |ps| ==> Readable(ps[k])
  {
    if ps != [] {
      var pre := ps[..|ps| - 1];
      ParsePiecesLast(ps);
      ParsePiecesOk(pre);
      assert forall k :: 0 <= k < |pre| ==> pre[k] == ps[k];
    }
  }

  /**
   * An exception stops the parse at the first piece that throws it: every piece
   * before that one is read without one.
   */
  lemma {:induction false} ParsePiecesFirstError(ps: seq<string>)
    requires ParsePieces(ps).Err?
    ensures exists k :: 0 <= k < |ps| && ReadPiece(ps[k]) == Err(ParsePieces(ps).error) &&
              forall j :: 0 <= j < k ==> Readable(ps[j])
  {
    var pre := ps[..|ps| - 1];
    ParsePiecesLast(ps);
    if ParsePieces(pre).Err? {
      ParsePiecesFirstError(pre);
      var k :| 0 <= k < |pre| && ReadPiece(pre[k]) == Err(ParsePieces(pre).error) &&
        forall j :: 0 <= j < k ==> Readable(pre[j]);
      assert pre[k] == ps[k];
      assert forall j :: 0 <= j < k ==> pre[j] == ps[j];
    } else {
      ParsePiecesOk(pre);
      assert forall j :: 0 <= j < |pre| ==> pre[j] == ps[j];
    }
  }

  /**
   * When no piece throws, the parsed events are exactly those read from the burn
   * records, in feed order; every other piece contributes nothing, so the running
   * index ends at the number of burn records.
   */
  lemma {:induction false} ParsePiecesEvents(ps: seq<string>)
    requires forall k :: 0 <= k < |ps| ==> Readable(ps[k])
    ensures forall k :: 0 <= k < |BurnPieces(ps)| ==> ExtractEvent(BurnPieces(ps)[k]).Ok?
    ensures ParsePieces(ps) == Ok(Extracted(BurnPieces(ps)))
    ensures |ParsePieces(ps).value| == |BurnPieces(ps)|
  {
    if ps != [] {
      var pre := ps[..|ps| - 1];
      var p := ps[|ps| - 1];
      assert forall k :: 0 <= k < |pre| ==> pre[k] == ps[k];
      ParsePiecesEvents(pre);
      ParsePiecesLast(ps);
      var e := ReadPiece(p);
      assert e.Ok?;
      assert ParsePieces(ps) == Ok(ParsePieces(pre).value + (if e.value.Some? then [e.value.value] else []));
      if IsBurnCell(p) {
        assert e.value == Some(ExtractEvent(p).value);
        ExtractedSnoc(BurnPieces(pre), p);
        assert BurnPieces(ps) == BurnPieces(pre) + [p];
      } else {
        assert e.value == None;
        assert ParsePieces(pre).value + [] == ParsePieces(pre).value;
        assert ParsePieces(ps) == ParsePieces(pre);
        assert BurnPieces(ps) == BurnPieces(pre);
      }
    }
  }

  /** Rounds that each store an event collect into exactly those events, in order. */
  lemma {:induction false} CollectEvents(rounds: seq<Result<Option<BurnEvent>, JavaException>>, evs: seq<BurnEvent>)
    requires |rounds| == |evs| && forall k :: 0 <= k < |rounds| ==> rounds[k] == Ok(Some(evs[k]))
    ensures Collect(rounds) == Ok(evs)
  {
    if rounds != [] {
      var n := |rounds| - 1;
      assert forall k :: 0 <= k < n ==> rounds[..n][k] == rounds[k];
      CollectEvents(rounds[..n], evs[..n]);
      assert evs[..n] + [evs[n]] == evs;
    }
  }

  /** Pieces that each read as a burn event parse into exactly those events, in order. */
  lemma ParsePiecesRecords(ps: seq<string>, evs: seq<BurnEvent>)
    requires |ps| == |evs| && forall k :: 0 <= k < |ps| ==> ReadPiece(ps[k]) == Ok(Some(evs[k]))
    ensures ParsePieces(ps) == Ok(evs)
  {
    CollectEvents(ReadAll(ps), evs);
  }

  lemma ExtractedSnoc(ps: seq<string>, p: string)
    requires forall k :: 0 <= k < |ps| ==> ExtractEvent(ps[k]).Ok?
    requires ExtractEvent(p).Ok?
    ensures forall k :: 0 <= k < |ps + [p]| ==> ExtractEvent((ps + [p])[k]).Ok?
    ensures Extracted(ps + [p]) == Extracted(ps) + [ExtractEvent(p).value]
  {
    assert forall k :: 0 <= k < |ps| ==> (ps + [p])[k] == ps[k];
  }

  /** The pieces `visualize` splits its argument into. */
  function FeedPieces(data: string): (r: Result<seq<string>, JavaException>)
    ensures r.Err? <==> |data| < 3
    ensures r.Err? ==> r.error == StringIndexOutOfBounds
  {
    var body :- Substring(data, 2, |data| - 1);
    Ok(Split(body, '{'))
  }

  /** What the parse phase of `visualize` leaves: dataSize and the parsed events. */
  datatype Parsed = Parsed(dataSize: nat, events: seq<BurnEvent>)

  /** The parse phase of `visualize`, or the exception that ends it. */
  function ParseFeed(data: string): (r: Result<Parsed, JavaException>)
    ensures r.Ok? ==> |r.value.events| <= r.value.dataSize
  {
    var pieces :- FeedPieces(data);
    var events :- ParsePieces(pieces);
    ParsedCount(pieces);
    Ok(Parsed(|pieces|, events))
  }

  /** The running index never passes the loop counter. */
  lemma {:induction false} ParsedCount(ps: seq<string>)
    ensures ParsePieces(ps).Ok? ==> |ParsePieces(ps).value| <= |ps|
  {
    if ps != [] {
      ParsedCount(ps[..|ps| - 1]);
      ParsePiecesLast(ps);
    }
  }

  /** The shortest feed, an empty list `[]`, is too short to strip and throws. */
  lemma EmptyListThrows()
    ensures ParseFeed("[]") == Err(StringIndexOutOfBounds)
  {
  }

  /**
   * The parse loop of `visualize` over the parallel arrays, here one array of events:
   * on success the first `count` slots hold the parsed events and the rest keep their
   * zero initialisation.
   */
  method ParseRecords(pieces: seq<string>) returns (r: Result<nat, JavaException>, records: array<BurnEvent>)
    ensures fresh(records) && records.Length == |pieces|
    ensures r.Err? ==> ParsePieces(pieces) == Err(r.error)
    ensures r.Ok? ==>
      r.value <= records.Length && ParsePieces(pieces) == Ok(records[..r.value]) &&
      forall k :: r.value <= k < records.Length ==> records[k] == ZeroEvent
  {
    records := new BurnEvent[|pieces|](_ => ZeroEvent);
    ghost var rounds := [];
    var index := 0;
    var i := 0;
    while i < |pieces|
      invariant 0 <= index <= i <= |pieces| && |rounds| == i
      invariant RoundsRead(rounds, pieces)
      invariant Collect(rounds) == Ok(records[..index])
      invariant forall k :: index <= k < records.Length ==> records[k] == ZeroEvent
    {
      ghost var done := records[..index];
      var read := ReadPiece(pieces[i]);
      if read.Err? {
        r := Err(read.error);
        RoundsThrow(rounds, pieces, read);
        return;
      }
      RoundsReadSnoc(rounds, pieces, read);
      assert (rounds + [read])[..i] == rounds;
      rounds := rounds + [read];
      if read.value.Some? {
        records[index] := read.value.value;
        assert records[..index + 1] == done + [read.value.value];
        index := index + 1;
      } else {
        assert done + [] == done;
      }
      i := i + 1;
    }
    RoundsComplete(rounds, pieces);
    r := Ok(index);
  }

  /** The rounds of the parse loop seen so far: the first rounds of the whole parse. */
  ghost predicate RoundsRead(rounds: seq<Result<Option<BurnEvent>, JavaException>>, ps: seq<string>) {
    |rounds| <= |ps| && rounds == ReadAll(ps)[..|rounds|]
  }

  lemma RoundsReadSnoc(rounds: seq<Result<Option<BurnEvent>, JavaException>>, ps: seq<string>,
                       read: Result<Option<BurnEvent>, JavaException>)
    requires RoundsRead(rounds, ps) && |rounds| < |ps| && read == ReadPiece(ps[|rounds|])
    ensures RoundsRead(rounds + [read], ps)
  {
    PrefixSnoc(ReadAll(ps), |rounds|);
  }

  /** A round that throws ends the parse with its exception. */
  lemma RoundsThrow(rounds: seq<Result<Option<BurnEvent>, JavaException>>, ps: seq<string>,
                    read: Result<Option<BurnEvent>, JavaException>)
    requires RoundsRead(rounds, ps) && |rounds| < |ps| && read == ReadPiece(ps[|rounds|])
    requires Collect(rounds).Ok? && read.Err?
    ensures ParsePieces(ps) == Err(read.error)
  {
    RoundsReadSnoc(rounds, ps, read);
    assert (rounds + [read])[..|rounds|] == rounds;
    CollectErrorSticks(ReadAll(ps), |rounds| + 1);
  }

  /** Once every piece has had its round, the rounds decide the parse. */
  lemma RoundsComplete(rounds: seq<Result<Option<BurnEvent>, JavaException>>, ps: seq<string>)
    requires RoundsRead(rounds, ps) && |rounds| == |ps|
    ensures ParsePieces(ps) == Collect(rounds)
  {
    assert ReadAll(ps)[..|ps|] == ReadAll(ps);
  }

  /** One more round of the parse loop extends the prefix of rounds read by that round. */
  lemma PrefixSnoc<T>(all: seq<T>, n: nat)
    requires n < |all|
    ensures all[..n + 1] == all[..n] + [all[n]]
  {
  }

  /** Once a run of rounds throws, every longer run throws the same exception. */
  lemma {:induction false} CollectErrorSticks(rounds: seq<Result<Option<BurnEvent>, JavaException>>, n: nat)
    requires n <= |rounds| && Collect(rounds[..n]).Err?
    ensures Collect(rounds) == Err(Collect(rounds[..n]).error)
    decreases |rounds| - n
  {
    if n < |rounds| {
      assert rounds[..n + 1][..n] == rounds[..n];
      CollectErrorSticks(rounds, n + 1);
    } else {
      assert rounds[..n] == rounds;
    }
  }
}
