/**
 * The playback loop of `visualize`: a cursor walks the parsed events and a clock
 * starts at the first event's time; an event is drawn while its time is below
 * clock + 100, otherwise the clock steps by 100 and the frame pauses. Here the loop
 * is its trace of steps, with what each drawn event asks drawCellToScale to paint.
 */
module Playback {
  import opened Wrappers
  import opened JavaLang
  import opened Mapping
  import opened CellStore
  import opened Feed

  /** timeGranularity, in seconds. */
  const Granularity: real := 100.0

  /** One round of the loop: draw event k at the current clock, or step the clock. */
  datatype Step = Draw(k: nat, clock: real) | Tick(clock: real)

  /** How many clock steps separate `clock` from the pending event at time `t`. */
  function Gap(t: real, clock: real): nat {
    if t < clock + Granularity then 0 else ((t - clock) / Granularity).Floor as nat
  }

  /** A clock step brings the pending event one step closer. */
  lemma GapShrinks(t: real, clock: real)
    requires t >= clock + Granularity
    ensures Gap(t, clock + Granularity) < Gap(t, clock)
  {
    assert (t - (clock + Granularity)) / Granularity == (t - clock) / Granularity - 1.0;
  }

  /**
   * The rounds of the loop from cursor `idx` and clock `clock` to its end; on
   * exact reals the loop ends for all times, since every clock step shrinks the gap.
   */
  function PlayTrace(times: seq<real>, idx: nat, clock: real): seq<Step>
    requires idx <= |times|
    decreases |times| - idx, if idx < |times| then Gap(times[idx], clock) else 0
  {
    if idx == |times| then []
    else if times[idx] < clock + Granularity then [Draw(idx, clock)] + PlayTrace(times, idx + 1, clock)
    else
      GapShrinks(times[idx], clock);
      [Tick(clock + Granularity)] + PlayTrace(times, idx, clock + Granularity)
  }

  /** The events a trace draws, in the order it draws them. */
  function DrawIndices(trace: seq<Step>): seq<nat> {
    if trace == [] then []
    else (if trace[0].Draw? then [trace[0].k] else []) + DrawIndices(trace[1..])
  }

  /** The clocks a trace steps to, in order. */
  function TickClocks(trace: seq<Step>): seq<real> {
    if trace == [] then []
    else (if trace[0].Tick? then [trace[0].clock] else []) + TickClocks(trace[1..])
  }

  /** How often a trace pauses: once per clock step. */
  function TickCount(trace: seq<Step>): nat {
    |TickClocks(trace)|
  }

  /** The indices lo, lo+1, ..., hi-1. */
  function Range(lo: nat, hi: nat): (r: seq<nat>)
    requires lo <= hi
    ensures |r| == hi - lo && forall k :: 0 <= k < |r| ==> r[k] == lo + k
    decreases hi - lo
  {
    if lo == hi then [] else [lo] + Range(lo + 1, hi)
  }

  /** The times of the parsed events, the `time` array up to `index`. */
  function Times(evs: seq<BurnEvent>): (r: seq<real>)
    ensures |r| == |evs| && forall k :: 0 <= k < |evs| ==> r[k] == evs[k].time
  {
    seq(|evs|, k requires 0 <= k < |evs| => evs[k].time)
  }

  // ---------------------------------------------------------------- trace lemmas

  /** Every event from the cursor on is drawn exactly once, in index order. */
  lemma {:induction false} PlaybackDrawsEach(times: seq<real>, idx: nat, clock: real)
    requires idx <= |times|
    ensures DrawIndices(PlayTrace(times, idx, clock)) == Range(idx, |times|)
    decreases |times| - idx, if idx < |times| then Gap(times[idx], clock) else 0
  {
    if idx < |times| {
      var tr := PlayTrace(times, idx, clock);
      if times[idx] < clock + Granularity {
        PlaybackDrawsEach(times, idx + 1, clock);
        assert tr[1..] == PlayTrace(times, idx + 1, clock);
      } else {
        GapShrinks(times[idx], clock);
        PlaybackDrawsEach(times, idx, clock + Granularity);
        assert tr[1..] == PlayTrace(times, idx, clock + Granularity);
      }
    }
  }

  /** Clocks c + 100, c + 200, ..., one per entry. */
  predicate StepsOf(ticks: seq<real>, c: real) {
    forall j :: 0 <= j < |ticks| ==> ticks[j] == c + Granularity * (j + 1) as real
  }

  /** The clock only moves forward, by exactly 100 per step: c + 100, c + 200, ... */
  lemma {:induction false} PlaybackClockSteps(times: seq<real>, idx: nat, clock: real)
    requires idx <= |times|
    ensures StepsOf(TickClocks(PlayTrace(times, idx, clock)), clock)
    decreases |times| - idx, if idx < |times| then Gap(times[idx], clock) else 0
  {
    if idx < |times| {
      var tr := PlayTrace(times, idx, clock);
      if times[idx] < clock + Granularity {
        PlaybackClockSteps(times, idx + 1, clock);
        assert tr[1..] == PlayTrace(times, idx + 1, clock);
        assert TickClocks(tr) == TickClocks(tr[1..]);
      } else {
        GapShrinks(times[idx], clock);
        var next := clock + Granularity;
        PlaybackClockSteps(times, idx, next);
        assert tr[1..] == PlayTrace(times, idx, next);
        var rest := TickClocks(PlayTrace(times, idx, next));
        assert TickClocks(tr) == [next] + rest;
        StepsPrepend(rest, clock);
      }
    }
  }

  lemma StepsPrepend(rest: seq<real>, c: real)
    requires StepsOf(rest, c + Granularity)
    ensures StepsOf([c + Granularity] + rest, c)
  {
    var ticks := [c + Granularity] + rest;
    forall j | 0 < j < |ticks| ensures ticks[j] == c + Granularity * (j + 1) as real {
      assert ticks[j] == rest[j - 1];
      assert rest[j - 1] == c + Granularity + Granularity * j as real;
    }
  }

  /** A step of a trace that draws event k at clock c. */
  predicate DrawsAt(trace: seq<Step>, k: nat, c: real) {
    Draw(k, c) in trace
  }

  /**
   * An event is drawn only at a clock it is below clock + 100, and, when the times
   * are sorted and the clock starts no later than the pending event, only at a clock
   * it has reached: each event is drawn in the window [clock, clock + 100).
   */
  lemma {:induction false} PlaybackDrawWindow(times: seq<real>, idx: nat, clock: real, k: nat, c: real)
    requires idx <= |times| && DrawsAt(PlayTrace(times, idx, clock), k, c)
    ensures idx <= k < |times| && times[k] < c + Granularity
    ensures Sorted(times) && idx < |times| && clock <= times[idx] ==> c <= times[k]
    decreases |times| - idx, if idx < |times| then Gap(times[idx], clock) else 0
  {
    var tr := PlayTrace(times, idx, clock);
    if times[idx] < clock + Granularity {
      assert tr == [Draw(idx, clock)] + PlayTrace(times, idx + 1, clock);
      if Draw(k, c) != Draw(idx, clock) {
        PlaybackDrawWindow(times, idx + 1, clock, k, c);
      }
    } else {
      GapShrinks(times[idx], clock);
      assert tr == [Tick(clock + Granularity)] + PlayTrace(times, idx, clock + Granularity);
      PlaybackDrawWindow(times, idx, clock + Granularity, k, c);
    }
  }

  predicate Sorted(times: seq<real>) {
    forall i, j :: 0 <= i < j < |times| ==> times[i] <= times[j]
  }

  /**
   * The clock steps only when the pending event is at least 100 past it: at a
   * clock step of the trace the cursor (the starting index plus the events drawn
   * before that step) is at an event whose time is at or past the new clock.
   */
  lemma {:induction false} PlaybackTickJustified(times: seq<real>, idx: nat, clock: real, p: nat)
    requires idx <= |times|
    requires p < |PlayTrace(times, idx, clock)| && PlayTrace(times, idx, clock)[p].Tick?
    ensures var cursor := idx + |DrawIndices(PlayTrace(times, idx, clock)[..p])|;
      cursor < |times| && PlayTrace(times, idx, clock)[p].clock <= times[cursor]
    decreases |times| - idx, if idx < |times| then Gap(times[idx], clock) else 0
  {
    var tr := PlayTrace(times, idx, clock);
    if times[idx] < clock + Granularity {
      var rest := PlayTrace(times, idx + 1, clock);
      assert tr == [Draw(idx, clock)] + rest;
      PlaybackTickJustified(times, idx + 1, clock, p - 1);
      DrawIndicesPrefixCons(Draw(idx, clock), rest, p);
    } else {
      GapShrinks(times[idx], clock);
      var next := clock + Granularity;
      var rest := PlayTrace(times, idx, next);
      assert tr == [Tick(next)] + rest;
      if p > 0 {
        PlaybackTickJustified(times, idx, next, p - 1);
        DrawIndicesPrefixCons(Tick(next), rest, p);
      } else {
        assert tr[..p] == [];
      }
    }
  }

  /** The events drawn in a non-empty prefix: the first step's, then the rest's. */
  lemma DrawIndicesPrefixCons(a: Step, rest: seq<Step>, p: nat)
    requires 0 < p <= |rest| + 1
    ensures DrawIndices(([a] + rest)[..p]) ==
      (if a.Draw? then [a.k] else []) + DrawIndices(rest[..p - 1])
  {
    assert ([a] + rest)[..p][1..] == rest[..p - 1];
  }

  /**
   * For sorted times and a clock that starts no later than the pending event the
   * loop pauses floor((last - clock) / 100) times: the clock ends on the last
   * multiple of 100 past its start that the last event has reached.
   */
  lemma {:induction false} PlaybackTickCount(times: seq<real>, idx: nat, clock: real)
    requires Sorted(times) && idx < |times| && clock <= times[idx]
    ensures TickCount(PlayTrace(times, idx, clock)) == ((times[|times| - 1] - clock) / Granularity).Floor
    decreases |times| - idx, Gap(times[idx], clock)
  {
    var tr := PlayTrace(times, idx, clock);
    var last := times[|times| - 1];
    if times[idx] < clock + Granularity {
      assert tr[1..] == PlayTrace(times, idx + 1, clock);
      assert TickClocks(tr) == TickClocks(tr[1..]);
      if idx + 1 < |times| {
        PlaybackTickCount(times, idx + 1, clock);
      } else {
        assert 0.0 <= (last - clock) / Granularity < 1.0;
      }
    } else {
      GapShrinks(times[idx], clock);
      var next := clock + Granularity;
      assert tr[1..] == PlayTrace(times, idx, next);
      assert TickClocks(tr) == [next] + TickClocks(tr[1..]);
      PlaybackTickCount(times, idx, next);
      assert (last - next) / Granularity == (last - clock) / Granularity - 1.0;
    }
  }

  /** A drawing round leaves the pauses still to come as they were. */
  lemma PlaybackDrawRound(times: seq<real>, idx: nat, clock: real)
    requires idx < |times| && times[idx] < clock + Granularity
    ensures PlayTrace(times, idx, clock) == [Draw(idx, clock)] + PlayTrace(times, idx + 1, clock)
    ensures TickCount(PlayTrace(times, idx, clock)) == TickCount(PlayTrace(times, idx + 1, clock))
  {
    var tr := PlayTrace(times, idx, clock);
    assert tr[1..] == PlayTrace(times, idx + 1, clock);
  }

  /** A clock round is one of the pauses still to come. */
  lemma PlaybackTickRound(times: seq<real>, idx: nat, clock: real)
    requires idx < |times| && times[idx] >= clock + Granularity
    ensures PlayTrace(times, idx, clock) == [Tick(clock + Granularity)] + PlayTrace(times, idx, clock + Granularity)
    ensures TickCount(PlayTrace(times, idx, clock)) == TickCount(PlayTrace(times, idx, clock + Granularity)) + 1
  {
    var tr := PlayTrace(times, idx, clock);
    GapShrinks(times[idx], clock);
    assert tr[1..] == PlayTrace(times, idx, clock + Granularity);
  }

  /** Times 0, 50, 150 and 260 from clock 0: two pauses, the clock going 0, 100, 200. */
  lemma ExamplePauses()
    ensures TickCount(PlayTrace([0.0, 50.0, 150.0, 260.0], 0, 0.0)) == 2
    ensures TickClocks(PlayTrace([0.0, 50.0, 150.0, 260.0], 0, 0.0)) == [100.0, 200.0]
  {
    var times := [0.0, 50.0, 150.0, 260.0];
    assert Sorted(times);
    PlaybackTickCount(times, 0, 0.0);
    PlaybackClockSteps(times, 0, 0.0);
  }

  // ---------------------------------------------------------------- what is drawn

  /** State 1 is drawn red and state 2 black; any other state draws nothing. */
  function StateColor(state: Int32): (r: Option<Color>)
    ensures r == Some(Red) <==> state == 1
    ensures r == Some(Black) <==> state == 2
    ensures r.None? <==> state != 1 && state != 2
  {
    if state == 1 then Some(Red) else if state == 2 then Some(Black) else None
  }

  /** The drawCellToScale call for an event: its cell shifted by -100 in int arithmetic. */
  function EventRequest(e: BurnEvent): DrawRequest
    requires StateColor(e.state).Some?
  {
    DrawRequest(Wrap32(e.x - CellspaceDim / 2), Wrap32(e.y - CellspaceDim / 2), StateColor(e.state).value)
  }

  /** The drawCellToScale calls the playback of the events makes, in order. */
  function EventRequests(evs: seq<BurnEvent>): seq<DrawRequest> {
    if evs == [] then []
    else
      var e := Last(evs);
      EventRequests(AllButLast(evs)) + (if StateColor(e.state).Some? then [EventRequest(e)] else [])
  }

  /** One more event adds its own request, if it is red or black. */
  lemma EventRequestsSnoc(evs: seq<BurnEvent>, e: BurnEvent)
    ensures EventRequests(evs + [e]) ==
      EventRequests(evs) + (if StateColor(e.state).Some? then [EventRequest(e)] else [])
  {
    assert AllButLast(evs + [e]) == evs;
  }

  /** The grid entry a burn event is meant for: column x, row 200 - y, both clamped. */
  function FeedCell(e: BurnEvent): (int, int) {
    (Clamp(e.x, 0, CellspaceDim - 1), Clamp(CellspaceDim - e.y, 0, CellspaceDim - 1))
  }

  /** The colour of the last red or black event meant for entry (x, y), else `init`. */
  function LastBurnColor(evs: seq<BurnEvent>, x: int, y: int, init: Option<Color>): Option<Color> {
    if evs == [] then init
    else
      var e := Last(evs);
      if StateColor(e.state).Some? && FeedCell(e) == (x, y) then StateColor(e.state)
      else LastBurnColor(AllButLast(evs), x, y, init)
  }

  /** A y coordinate whose flip `200 - y` does not overflow an int. */
  predicate FlipSafe(e: BurnEvent) {
    e.y >= MinInt32 + CellspaceDim + 1
  }

  /** In the default geometry a drawn event writes exactly the entry it is meant for. */
  lemma EventTarget(e: BurnEvent)
    requires StateColor(e.state).Some? && FlipSafe(e)
    ensures Target(DefaultGeometry, EventRequest(e)) == Some(FeedCell(e))
  {
    var r := EventRequest(e);
    assert r.cellX == Wrap32(e.x - 100) && r.cellY == Wrap32(e.y - 100);
    DefaultTarget(r);
    FeedXPassesThrough(e.x);
    FeedYFlips(e.y);
    assert FeedCell(e) == (Clamp(e.x, 0, 199), Clamp(200 - e.y, 0, 199));
  }

  /**
   * After the playback each entry of the default grid holds the colour of the last
   * red or black event meant for it, and keeps its colour when there is none, for
   * events whose y is at least MinInt32 + 201 (lower ones wrap to row 0, see
   * ExtremeYWrapsToRowZero).
   */
  lemma {:induction false} PlaybackColors(evs: seq<BurnEvent>, x: int, y: int, init: Option<Color>)
    requires forall k :: 0 <= k < |evs| ==> FlipSafe(evs[k])
    ensures CellAfter(DefaultGeometry, EventRequests(evs), x, y, init) == LastBurnColor(evs, x, y, init)
  {
    if evs != [] {
      var pre := AllButLast(evs);
      var e := Last(evs);
      assert forall k :: 0 <= k < |pre| ==> pre[k] == evs[k];
      PlaybackColors(pre, x, y, init);
      if StateColor(e.state).Some? {
        EventTarget(e);
        CellAfterSnoc(DefaultGeometry, EventRequests(pre), EventRequest(e), x, y, init);
      } else {
        assert EventRequests(evs) == EventRequests(pre) + [];
        assert EventRequests(pre) + [] == EventRequests(pre);
      }
    }
  }

  /** How many events have state 1 or 2. */
  function BurnsDrawn(evs: seq<BurnEvent>): nat {
    if evs == [] then 0
    else BurnsDrawn(AllButLast(evs)) + (if StateColor(Last(evs).state).Some? then 1 else 0)
  }

  /** In the default geometry the playback issues one fill per red or black event. */
  lemma {:induction false} PlaybackFillCount(evs: seq<BurnEvent>)
    ensures |EventRequests(evs)| == BurnsDrawn(evs)
    ensures |FillsOf(DefaultGeometry, EventRequests(evs))| == BurnsDrawn(evs)
  {
    if evs != [] {
      PlaybackFillCount(AllButLast(evs));
    }
    var reqs := EventRequests(evs);
    forall k | 0 <= k < |reqs| ensures !Intercepted(DefaultGeometry, reqs[k]) {
      DefaultNeverIntercepted(reqs[k]);
    }
    FillsOfCount(DefaultGeometry, reqs);
  }
}
