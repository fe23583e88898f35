/**
 * The pacing rule of both playback loops, as a function of the clock.
 *
 * Each step looks at one candidate frame. With `current` the stopwatch
 * reading and `expected` the frame's due time: more than one frame duration
 * late, the loop skips; early, it sleeps until the due time and shows the
 * frame; otherwise it shows the frame at once. After showing, a counter of
 * shown frames is kept, and once at least one second of video time has
 * passed since the last timecode update a status update (timecode, frames
 * shown since the last update, wall time since the last update) is emitted.
 *
 * Times are whole milliseconds. The frame duration is a positive number of
 * milliseconds, and the video time of frame i is i * duration.
 *
 * The two loops differ in one place, captured by `lead`: the loop over
 * prepared frames times frame i at i * duration (lead 0); the real-time loop
 * reads frame i first and then times it by the source position, which is
 * already i + 1 (lead 1).
 */
module Pacing {

  /** What a step does with its candidate frame. */
  datatype Decision = Skip(frames: nat) | Wait(ms: nat) | Show

  /** The stopwatch readings one loop iteration takes. */
  datatype Readings = Readings(atStart: int, afterShow: int, atStatus: int)

  /** What the loop does, in order. */
  datatype Event =
    | Skipped(first: nat, count: nat)   // frames first .. first + count - 1 are never shown
    | Waited(ms: nat)                   // the thread sleeps ms milliseconds
    | Shown(index: nat)                 // frame index is written to the screen
    | Status(videoMs: int, rendered: nat, elapsedMs: int)

  /** The loop's variables: the candidate frame and the counters of the status line. */
  datatype Pacer = Pacer(frameIndex: nat, framesRendered: nat, lastTimecodeMs: int, lastFpsUpdateMs: int)

  const Start: Pacer := Pacer(0, 0, 0, 0)

  /** Video time, in milliseconds, between two status updates. */
  const StatusPeriodMs: int := 1000

  /**
   * The decision rule: skip when more than one frame duration late, by the
   * number of whole durations of lateness; sleep the deficit when early.
   */
  function Decide(current: int, expected: int, duration: nat): (d: Decision)
    requires duration > 0
    ensures d.Skip? <==> current > expected + duration
    ensures d.Skip? ==> d.frames >= 1
    ensures d.Skip? ==> expected + d.frames * duration <= current < expected + (d.frames + 1) * duration
    ensures d.Wait? <==> current < expected
    ensures d.Wait? ==> d.ms > 0 && current + d.ms == expected
    ensures d.Show? <==> expected <= current <= expected + duration
  {
    if current > expected + duration then Skip(FramesToSkip(current, expected, duration))
    else if current < expected then Wait(expected - current)
    else Show
  }

  /**
   * The whole frame durations by which `current` is past `expected`: at least
   * one when more than one duration late, and the lateness is at least that
   * many durations but less than one more.
   */
  function FramesToSkip(current: int, expected: int, duration: nat): (k: nat)
    requires duration > 0 && current > expected + duration
    ensures k >= 1
    ensures expected + k * duration <= current < expected + (k + 1) * duration
  {
    LatenessBounds(current - expected, duration);
    (current - expected) / duration
  }

  lemma LatenessBounds(late: int, duration: int)
    requires late > duration > 0
    ensures late / duration >= 1
    ensures (late / duration) * duration <= late < (late / duration + 1) * duration
  {
    var q, r := late / duration, late % duration;
    assert late == q * duration + r && 0 <= r < duration;
    assert (q + 1) * duration == q * duration + duration;
  }

  /**
   * Showing the candidate frame: count it and, when at least a second of
   * video time has passed since the last timecode update, report and reset
   * the counter.
   */
  function Present(p: Pacer, videoMs: int, now: Readings): (r: (seq<Event>, Pacer))
    ensures 1 <= |r.0| <= 2
    ensures r.1.frameIndex == p.frameIndex + 1
    ensures r.0[0] == Shown(p.frameIndex)
    ensures |r.0| == 1 ==> r.1 == p.(frameIndex := p.frameIndex + 1, framesRendered := p.framesRendered + 1)
    ensures |r.0| == 2 <==> videoMs - p.lastTimecodeMs >= StatusPeriodMs
    ensures |r.0| == 2 ==>
      r.0[1] == Status(videoMs, p.framesRendered + 1, now.afterShow - p.lastFpsUpdateMs)
      && r.1.framesRendered == 0 && r.1.lastTimecodeMs == videoMs && r.1.lastFpsUpdateMs == now.atStatus
  {
    var rendered := p.framesRendered + 1;
    var elapsed := now.afterShow - p.lastFpsUpdateMs;
    if videoMs - p.lastTimecodeMs >= StatusPeriodMs then
      ([Shown(p.frameIndex), Status(videoMs, rendered, elapsed)],
       Pacer(p.frameIndex + 1, 0, videoMs, now.atStatus))
    else
      ([Shown(p.frameIndex)], Pacer(p.frameIndex + 1, rendered, p.lastTimecodeMs, p.lastFpsUpdateMs))
  }

  /** Number of frames a skip of `k` from frame `i` passes over: i .. i + k, cut at the end. */
  function SkipLength(i: nat, k: nat, count: nat): nat
    requires i < count
  {
    if i + k + 1 <= count then k + 1 else count - i
  }

  /**
   * One iteration of the loop on candidate frame `p.frameIndex`: what it does
   * and the loop variables afterwards.
   */
  function Step(count: nat, duration: nat, lead: nat, clock: nat -> Readings, iter: nat, p: Pacer): (r: (seq<Event>, Pacer))
    requires duration > 0 && p.frameIndex < count
    ensures |r.0| >= 1
    ensures r.1.frameIndex > p.frameIndex
  {
    var i := p.frameIndex;
    var now := clock(iter);
    match Decide(now.atStart, (i + lead) * duration, duration)
    case Skip(k) => ([Skipped(i, SkipLength(i, k, count))], p.(frameIndex := i + k + 1))
    case Wait(ms) =>
      var (shown, p') := Present(p, (i + lead) * duration, now);
      ([Waited(ms)] + shown, p')
    case Show => Present(p, (i + lead) * duration, now)
  }

  /**
   * Everything the loop does from iteration `iter` on, in state `p`, over
   * `count` frames, reading the stopwatch through `clock`.
   */
  function Schedule(count: nat, duration: nat, lead: nat, clock: nat -> Readings, iter: nat, p: Pacer): seq<Event>
    requires duration > 0
    decreases count - p.frameIndex
  {
    if p.frameIndex >= count then []
    else
      var (head, p') := Step(count, duration, lead, clock, iter, p);
      head + Schedule(count, duration, lead, clock, iter + 1, p')
  }

  // ---------------------------------------------------------------------
  // What a schedule shows and skips
  // ---------------------------------------------------------------------

  /** The indices of the frames shown, in order. */
  function ShownOf(t: seq<Event>): (s: seq<nat>)
    ensures |s| <= |t|
  {
    if t == [] then []
    else (if t[0].Shown? then [t[0].index] else []) + ShownOf(t[1..])
  }

  /** True when frame `j` lies in a range the schedule `t` skips. */
  predicate IsSkipped(t: seq<Event>, j: nat) {
    if t == [] then false
    else (t[0].Skipped? && t[0].first <= j < t[0].first + t[0].count) || IsSkipped(t[1..], j)
  }

  lemma {:induction false} ShownOfAppend(a: seq<Event>, b: seq<Event>)
    ensures ShownOf(a + b) == ShownOf(a) + ShownOf(b)
  {
    if a == [] {
      assert a + b == b;
    } else {
      assert (a + b)[0] == a[0];
      assert (a + b)[1..] == a[1..] + b;
      ShownOfAppend(a[1..], b);
    }
  }

  lemma {:induction false} IsSkippedAppend(a: seq<Event>, b: seq<Event>, j: nat)
    ensures IsSkipped(a + b, j) == (IsSkipped(a, j) || IsSkipped(b, j))
  {
    if a == [] {
      assert a + b == b;
    } else {
      assert (a + b)[0] == a[0];
      assert (a + b)[1..] == a[1..] + b;
      IsSkippedAppend(a[1..], b, j);
    }
  }

  predicate StrictlyIncreasing(s: seq<nat>) {
    forall a, b :: 0 <= a < b < |s| ==> s[a] < s[b]
  }

  /** `s` is strictly increasing and every element lies in [lo, hi). */
  predicate IncreasingWithin(s: seq<nat>, lo: nat, hi: nat) {
    StrictlyIncreasing(s) && forall j :: 0 <= j < |s| ==> lo <= s[j] < hi
  }

  lemma WidenBelow(s: seq<nat>, lo: nat, lo': nat, hi: nat)
    requires IncreasingWithin(s, lo, hi) && lo' <= lo
    ensures IncreasingWithin(s, lo', hi)
  {
  }

  lemma ConsWithin(i: nat, s: seq<nat>, hi: nat)
    requires IncreasingWithin(s, i + 1, hi) && i < hi
    ensures IncreasingWithin([i] + s, i, hi)
  {
    var t := [i] + s;
    forall a, b | 0 <= a < b < |t| ensures t[a] < t[b] {
      if a > 0 {
        assert t[a] == s[a - 1] && t[b] == s[b - 1];
      }
    }
  }

  /** Showing a frame adds that frame to what is shown and skips nothing. */
  lemma PresentShowsOne(p: Pacer, videoMs: int, now: Readings)
    ensures ShownOf(Present(p, videoMs, now).0) == [p.frameIndex]
    ensures forall j: nat :: !IsSkipped(Present(p, videoMs, now).0, j)
  {
    var e := Present(p, videoMs, now).0;
    if |e| == 2 {
      assert e[1..][1..] == [];
      forall j: nat ensures !IsSkipped(e, j) {
        assert !IsSkipped(e[1..], j);
      }
    } else {
      assert e[1..] == [];
    }
  }

  /**
   * One iteration either skips, showing nothing and skipping exactly the
   * frames from the candidate up to the next candidate (cut at the end), or
   * shows the candidate, skipping nothing, and moves on by one.
   */
  lemma StepShowsOrSkips(count: nat, duration: nat, lead: nat, clock: nat -> Readings, iter: nat, p: Pacer, j: nat)
    requires duration > 0 && p.frameIndex < count
    ensures var (head, p') := Step(count, duration, lead, clock, iter, p);
      || (ShownOf(head) == [] && (IsSkipped(head, j) <==> p.frameIndex <= j < p'.frameIndex && j < count))
      || (ShownOf(head) == [p.frameIndex] && p'.frameIndex == p.frameIndex + 1 && !IsSkipped(head, j))
  {
    var i := p.frameIndex;
    var now := clock(iter);
    match Decide(now.atStart, (i + lead) * duration, duration)
    case Skip(k) =>
      var head := [Skipped(i, SkipLength(i, k, count))];
      assert head[1..] == [];
    case Wait(ms) =>
      var (shown, p') := Present(p, (i + lead) * duration, now);
      PresentShowsOne(p, (i + lead) * duration, now);
      ShownOfAppend([Waited(ms)], shown);
      IsSkippedAppend([Waited(ms)], shown, j);
      assert [Waited(ms)][1..] == [];
    case Show =>
      PresentShowsOne(p, (i + lead) * duration, now);
  }

  /**
   * The frames a schedule shows are shown in strictly increasing order, each
   * at most once, and all lie between the first candidate and the end.
   */
  lemma {:induction false} ShownInOrder(count: nat, duration: nat, lead: nat, clock: nat -> Readings, iter: nat, p: Pacer)
    requires duration > 0
    ensures IncreasingWithin(ShownOf(Schedule(count, duration, lead, clock, iter, p)), p.frameIndex, count)
    decreases count - p.frameIndex
  {
    if p.frameIndex < count {
      var i := p.frameIndex;
      var (head, p') := Step(count, duration, lead, clock, iter, p);
      var rest := Schedule(count, duration, lead, clock, iter + 1, p');
      ShownOfAppend(head, rest);
      StepShowsOrSkips(count, duration, lead, clock, iter, p, 0);
      ShownInOrder(count, duration, lead, clock, iter + 1, p');
      if ShownOf(head) == [] {
        WidenBelow(ShownOf(rest), p'.frameIndex, i, count);
      } else {
        ConsWithin(i, ShownOf(rest), count);
      }
    }
  }

  /**
   * Every frame from the first candidate to the end is either shown or
   * skipped, and never both: a skipped frame is never shown. No frame outside
   * that range is shown or skipped.
   */
  lemma {:induction false} ShownOrSkipped(count: nat, duration: nat, lead: nat, clock: nat -> Readings, iter: nat, p: Pacer, j: nat)
    requires duration > 0
    ensures var t := Schedule(count, duration, lead, clock, iter, p);
      (j in ShownOf(t) || IsSkipped(t, j)) <==> p.frameIndex <= j < count
    ensures var t := Schedule(count, duration, lead, clock, iter, p);
      !(j in ShownOf(t) && IsSkipped(t, j))
    decreases count - p.frameIndex
  {
    if p.frameIndex < count {
      var (head, p') := Step(count, duration, lead, clock, iter, p);
      var rest := Schedule(count, duration, lead, clock, iter + 1, p');
      ShownOfAppend(head, rest);
      IsSkippedAppend(head, rest, j);
      StepShowsOrSkips(count, duration, lead, clock, iter, p, j);
      ShownInOrder(count, duration, lead, clock, iter + 1, p');
      ShownOrSkipped(count, duration, lead, clock, iter + 1, p', j);
    }
  }

  // ---------------------------------------------------------------------
  // Sleeps, the on-time case and the status counter
  // ---------------------------------------------------------------------

  /** Every sleep is of a positive number of milliseconds and is followed at once by showing a frame. */
  predicate WaitsThenShows(t: seq<Event>) {
    forall k :: 0 <= k < |t| && t[k].Waited? ==> t[k].ms > 0 && k + 1 < |t| && t[k + 1].Shown?
  }

  lemma WaitsThenShowsAppend(a: seq<Event>, b: seq<Event>)
    requires WaitsThenShows(a) && WaitsThenShows(b)
    requires a != [] ==> !a[|a| - 1].Waited?
    ensures WaitsThenShows(a + b)
  {
    var t := a + b;
    forall k | 0 <= k < |t| && t[k].Waited? ensures t[k].ms > 0 && k + 1 < |t| && t[k + 1].Shown? {
      if k < |a| {
        assert t[k] == a[k] && t[k + 1] == a[k + 1];
      } else {
        assert t[k] == b[k - |a|] && t[k + 1] == b[k + 1 - |a|];
      }
    }
  }

  lemma StepWaitsThenShows(count: nat, duration: nat, lead: nat, clock: nat -> Readings, iter: nat, p: Pacer)
    requires duration > 0 && p.frameIndex < count
    ensures var head := Step(count, duration, lead, clock, iter, p).0;
      WaitsThenShows(head) && !head[|head| - 1].Waited?
  {
    var i := p.frameIndex;
    var now := clock(iter);
    match Decide(now.atStart, (i + lead) * duration, duration)
    case Skip(k) =>
    case Wait(ms) =>
      var (shown, p') := Present(p, (i + lead) * duration, now);
      var head := [Waited(ms)] + shown;
      assert head[1] == Shown(i);
    case Show =>
  }

  /** The loop sleeps only when early, by a positive amount, and always shows a frame right after. */
  lemma {:induction false} WaitsPrecedeShows(count: nat, duration: nat, lead: nat, clock: nat -> Readings, iter: nat, p: Pacer)
    requires duration > 0
    ensures WaitsThenShows(Schedule(count, duration, lead, clock, iter, p))
    decreases count - p.frameIndex
  {
    if p.frameIndex < count {
      var (head, p') := Step(count, duration, lead, clock, iter, p);
      StepWaitsThenShows(count, duration, lead, clock, iter, p);
      WaitsPrecedeShows(count, duration, lead, clock, iter + 1, p');
      WaitsThenShowsAppend(head, Schedule(count, duration, lead, clock, iter + 1, p'));
    }
  }

  /** The frames lo, lo + 1, ..., hi - 1. */
  function Range(lo: nat, hi: nat): (r: seq<nat>)
    ensures |r| == if lo <= hi then hi - lo else 0
    ensures forall k :: 0 <= k < |r| ==> r[k] == lo + k
    decreases hi - lo
  {
    if lo >= hi then [] else [lo] + Range(lo + 1, hi)
  }

  /**
   * A clock that is never more than one frame duration late makes the loop
   * show every frame, in order, and skip none.
   */
  lemma {:induction false} NoLagShowsAll(count: nat, duration: nat, lead: nat, clock: nat -> Readings, iter: nat, p: Pacer)
    requires duration > 0
    requires iter == p.frameIndex
    requires forall k: nat :: clock(k).atStart <= (k + lead) * duration + duration
    ensures ShownOf(Schedule(count, duration, lead, clock, iter, p)) == Range(p.frameIndex, count)
    ensures forall j: nat :: !IsSkipped(Schedule(count, duration, lead, clock, iter, p), j)
    decreases count - p.frameIndex
  {
    if p.frameIndex < count {
      var (head, p') := Step(count, duration, lead, clock, iter, p);
      var rest := Schedule(count, duration, lead, clock, iter + 1, p');
      var now := clock(iter);
      assert !Decide(now.atStart, (iter + lead) * duration, duration).Skip?;
      StepShowsOrSkips(count, duration, lead, clock, iter, p, 0);
      assert p'.frameIndex == iter + 1;
      NoLagShowsAll(count, duration, lead, clock, iter + 1, p');
      ShownOfAppend(head, rest);
      forall j: nat ensures !IsSkipped(head + rest, j) {
        StepShowsOrSkips(count, duration, lead, clock, iter, p, j);
        IsSkippedAppend(head, rest, j);
      }
    }
  }

  /**
   * `StatusCounts(t, n)`: reading `t` from the front with `n` frames shown
   * since the last status update, every status update reports exactly the
   * frames shown since the previous one (or since the start).
   */
  predicate StatusCounts(t: seq<Event>, n: nat) {
    if t == [] then true
    else if t[0].Shown? then StatusCounts(t[1..], n + 1)
    else if t[0].Status? then t[0].rendered == n && StatusCounts(t[1..], 0)
    else StatusCounts(t[1..], n)
  }

  /** The count of frames shown since the last status update after reading `t`. */
  function CountAfter(t: seq<Event>, n: nat): nat {
    if t == [] then n
    else if t[0].Shown? then CountAfter(t[1..], n + 1)
    else if t[0].Status? then CountAfter(t[1..], 0)
    else CountAfter(t[1..], n)
  }

  lemma {:induction false} StatusCountsAppend(a: seq<Event>, b: seq<Event>, n: nat)
    ensures StatusCounts(a + b, n) == (StatusCounts(a, n) && StatusCounts(b, CountAfter(a, n)))
    ensures CountAfter(a + b, n) == CountAfter(b, CountAfter(a, n))
  {
    if a == [] {
      assert a + b == b;
    } else {
      assert (a + b)[0] == a[0];
      assert (a + b)[1..] == a[1..] + b;
      var n' := if a[0].Shown? then n + 1 else if a[0].Status? then 0 else n;
      StatusCountsAppend(a[1..], b, n');
    }
  }

  lemma StepStatusCounts(count: nat, duration: nat, lead: nat, clock: nat -> Readings, iter: nat, p: Pacer)
    requires duration > 0 && p.frameIndex < count
    ensures var (head, p') := Step(count, duration, lead, clock, iter, p);
      StatusCounts(head, p.framesRendered) && CountAfter(head, p.framesRendered) == p'.framesRendered
  {
    var i := p.frameIndex;
    var now := clock(iter);
    match Decide(now.atStart, (i + lead) * duration, duration)
    case Skip(k) =>
      assert [Skipped(i, SkipLength(i, k, count))][1..] == [];
    case Wait(ms) =>
      var (shown, p') := Present(p, (i + lead) * duration, now);
      PresentCounts(p, (i + lead) * duration, now);
      StatusCountsAppend([Waited(ms)], shown, p.framesRendered);
      assert [Waited(ms)][1..] == [];
    case Show =>
      PresentCounts(p, (i + lead) * duration, now);
  }

  lemma PresentCounts(p: Pacer, videoMs: int, now: Readings)
    ensures var (shown, p') := Present(p, videoMs, now);
      StatusCounts(shown, p.framesRendered) && CountAfter(shown, p.framesRendered) == p'.framesRendered
  {
    var e := Present(p, videoMs, now).0;
    var n := p.framesRendered;
    if |e| == 2 {
      var tail := e[1..];
      assert tail[0] == e[1] && tail[1..] == [];
      assert StatusCounts(tail, n + 1) && CountAfter(tail, n + 1) == 0;
    } else {
      assert e[1..] == [];
    }
  }

  /**
   * Every status update of a schedule reports the number of frames shown
   * since the previous status update, and the counter at the end is the
   * number shown since the last one.
   */
  lemma {:induction false} StatusReportsShownFrames(count: nat, duration: nat, lead: nat, clock: nat -> Readings, iter: nat, p: Pacer)
    requires duration > 0
    ensures StatusCounts(Schedule(count, duration, lead, clock, iter, p), p.framesRendered)
    decreases count - p.frameIndex
  {
    if p.frameIndex < count {
      var (head, p') := Step(count, duration, lead, clock, iter, p);
      StepStatusCounts(count, duration, lead, clock, iter, p);
      StatusReportsShownFrames(count, duration, lead, clock, iter + 1, p');
      StatusCountsAppend(head, Schedule(count, duration, lead, clock, iter + 1, p'), p.framesRendered);
    }
  }

  /**
   * `StatusSpaced(t, last)`: reading `t` from the front, with the last status
   * update at video time `last`, every status update comes at least a second
   * of video time after the previous one.
   */
  predicate StatusSpaced(t: seq<Event>, last: int) {
    if t == [] then true
    else if t[0].Status? then t[0].videoMs - last >= StatusPeriodMs && StatusSpaced(t[1..], t[0].videoMs)
    else StatusSpaced(t[1..], last)
  }

  /** The video time of the last status update after reading `t`. */
  function LastStatus(t: seq<Event>, last: int): int {
    if t == [] then last
    else if t[0].Status? then LastStatus(t[1..], t[0].videoMs)
    else LastStatus(t[1..], last)
  }

  lemma {:induction false} StatusSpacedAppend(a: seq<Event>, b: seq<Event>, last: int)
    ensures StatusSpaced(a + b, last) == (StatusSpaced(a, last) && StatusSpaced(b, LastStatus(a, last)))
    ensures LastStatus(a + b, last) == LastStatus(b, LastStatus(a, last))
  {
    if a == [] {
      assert a + b == b;
    } else {
      assert (a + b)[0] == a[0];
      assert (a + b)[1..] == a[1..] + b;
      var last' := if a[0].Status? then a[0].videoMs else last;
      StatusSpacedAppend(a[1..], b, last');
    }
  }

  lemma PresentSpaced(p: Pacer, videoMs: int, now: Readings)
    ensures var (shown, p') := Present(p, videoMs, now);
      StatusSpaced(shown, p.lastTimecodeMs) && LastStatus(shown, p.lastTimecodeMs) == p'.lastTimecodeMs
  {
    var e := Present(p, videoMs, now).0;
    var last := p.lastTimecodeMs;
    if |e| == 2 {
      var tail := e[1..];
      assert tail[0] == e[1] && tail[1..] == [];
      assert StatusSpaced(tail, last) && LastStatus(tail, last) == videoMs;
    } else {
      assert e[1..] == [];
    }
  }

  lemma StepSpaced(count: nat, duration: nat, lead: nat, clock: nat -> Readings, iter: nat, p: Pacer)
    requires duration > 0 && p.frameIndex < count
    ensures var (head, p') := Step(count, duration, lead, clock, iter, p);
      StatusSpaced(head, p.lastTimecodeMs) && LastStatus(head, p.lastTimecodeMs) == p'.lastTimecodeMs
  {
    var i := p.frameIndex;
    var now := clock(iter);
    match Decide(now.atStart, (i + lead) * duration, duration)
    case Skip(k) =>
      assert [Skipped(i, SkipLength(i, k, count))][1..] == [];
    case Wait(ms) =>
      var (shown, p') := Present(p, (i + lead) * duration, now);
      PresentSpaced(p, (i + lead) * duration, now);
      StatusSpacedAppend([Waited(ms)], shown, p.lastTimecodeMs);
      assert [Waited(ms)][1..] == [];
    case Show =>
      PresentSpaced(p, (i + lead) * duration, now);
  }

  /**
   * Status updates come at most once per second of video time: in a whole
   * schedule every status update is at least a second of video time after
   * the previous one, the first at least a second after the state's last
   * timecode update.
   */
  lemma {:induction false} StatusOncePerSecond(count: nat, duration: nat, lead: nat, clock: nat -> Readings, iter: nat, p: Pacer)
    requires duration > 0
    ensures StatusSpaced(Schedule(count, duration, lead, clock, iter, p), p.lastTimecodeMs)
    decreases count - p.frameIndex
  {
    if p.frameIndex < count {
      var (head, p') := Step(count, duration, lead, clock, iter, p);
      StepSpaced(count, duration, lead, clock, iter, p);
      StatusOncePerSecond(count, duration, lead, clock, iter + 1, p');
      StatusSpacedAppend(head, Schedule(count, duration, lead, clock, iter + 1, p'), p.lastTimecodeMs);
    }
  }

  // ---------------------------------------------------------------------
  // Worked examples
  // ---------------------------------------------------------------------

  /**
   * At 25 frames per second (40 ms per frame), a first reading of 500 ms is
   * 12 whole durations late: frames 0 to 12 are passed over and frame 13 is
   * the next candidate.
   */
  lemma SkipExample(count: nat, clock: nat -> Readings)
    requires count >= 14 && clock(0).atStart == 500
    ensures Step(count, 40, 0, clock, 0, Start) == ([Skipped(0, 13)], Pacer(13, 0, 0, 0))
  {
    assert Decide(500, 0, 40) == Skip(12);
  }

  /**
   * The same reading in the real-time loop: after frame 0 is read the read
   * position is 1, so frame 0 is due at 40 ms and 500 ms is 11 whole
   * durations late. The read position moves to 1 + 11: frames 0 to 11 are
   * passed over, and frame 12 (i + framesToSkip + 1, as in the prepared
   * loop) is the next candidate.
   */
  lemma RealTimeSkipExample(count: nat, clock: nat -> Readings)
    requires count >= 13 && clock(0).atStart == 500
    ensures Step(count, 40, 1, clock, 0, Start) == ([Skipped(0, 12)], Pacer(12, 0, 0, 0))
  {
    assert Decide(500, 40, 40) == Skip(11);
  }

  /**
   * Three frames at 3 frames per second (333 ms each) with a stopwatch that
   * reads 0 at every iteration: the first frame is shown at once, the next
   * two after sleeping up to their due times, and no status update fires
   * because the video time never reaches one second.
   */
  lemma ThreeFrameExample()
    ensures Schedule(3, 333, 0, k => Readings(0, 0, 0), 0, Start)
      == [Shown(0), Waited(333), Shown(1), Waited(666), Shown(2)]
  {
    var clock := k => Readings(0, 0, 0);
    var p1 := Pacer(1, 1, 0, 0);
    var p2 := Pacer(2, 2, 0, 0);
    var p3 := Pacer(3, 3, 0, 0);
    assert Step(3, 333, 0, clock, 0, Start) == ([Shown(0)], p1);
    assert Decide(0, 333, 333) == Wait(333);
    assert Decide(0, 666, 333) == Wait(666);
    assert Present(p1, 333, clock(1)) == ([Shown(1)], p2);
    assert Present(p2, 666, clock(2)) == ([Shown(2)], p3);
    assert [Waited(333)] + [Shown(1)] == [Waited(333), Shown(1)];
    assert [Waited(666)] + [Shown(2)] == [Waited(666), Shown(2)];
    assert Step(3, 333, 0, clock, 1, p1) == ([Waited(333), Shown(1)], p2);
    assert Step(3, 333, 0, clock, 2, p2) == ([Waited(666), Shown(2)], p3);
    assert Schedule(3, 333, 0, clock, 3, p3) == [];
  }
}
