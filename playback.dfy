/**
 * The two playback paths of the converter.
 *
 * The video source is the sequence of its frames, each already resized to the
 * text grid (one pixel per cell); its read position is the index of the next
 * frame, and a read past the last frame fails. The stopwatch is the `clock` of
 * `Pacing`, read once per loop iteration. What the loops write to the console
 * is returned as `screen`, one text per shown frame, and everything they do as
 * the event list `events` of `Pacing`.
 */
module Playback {
  import opened GlyphMapper
  import opened FrameRasterizer
  import opened FrameComposer
  import opened Pacing

  /** True when every frame of `video` has `asciiHeight` rows of `width` pixels. */
  ghost predicate Sized(video: seq<seq<seq<Vec3b>>>, width: nat, asciiHeight: nat) {
    forall k :: 0 <= k < |video| ==> |video[k]| == asciiHeight && IsRect(video[k], width)
  }

  /**
   * The texts of all frames of the video, in order: pixels mapped to cells,
   * then composed. This is the reference definition both loops are proved
   * against; its `ensures` only unpack the comprehension.
   */
  function Texts(video: seq<seq<seq<Vec3b>>>, s: Settings): (t: seq<string>)
    ensures |t| == |video|
    ensures forall k :: 0 <= k < |video| ==> t[k] == FrameText(MapGrid(video[k], s), s)
  {
    seq(|video|, k requires 0 <= k < |video| => FrameText(MapGrid(video[k], s), s))
  }

  /** What one display writes: the frame, then the colour reset in colour mode. */
  function Displayed(frame: string, s: Settings): (w: string)
    ensures |w| == |frame| + (if Colored(s) then |ResetSgr| else 0)
    ensures w[..|frame|] == frame
    ensures Colored(s) ==> w[|frame|..] == ResetSgr
    ensures !Colored(s) ==> w == frame
  {
    frame + (if Colored(s) then ResetSgr else [])
  }

  /** Reads frame `k` of the source into the reusable frame buffer. */
  method ReadFrame(video: seq<seq<seq<Vec3b>>>, k: nat, frame: array2<Vec3b>)
    requires k < |video| && |video[k]| == frame.Length0 && IsRect(video[k], frame.Length1)
    modifies frame
    ensures Cells(frame) == video[k]
  {
    var y := 0;
    while y < frame.Length0
      invariant 0 <= y <= frame.Length0
      invariant forall i, j :: 0 <= i < y && 0 <= j < frame.Length1 ==> frame[i, j] == video[k][i][j]
    {
      var x := 0;
      while x < frame.Length1
        invariant 0 <= x <= frame.Length1
        invariant forall i, j :: 0 <= i < y && 0 <= j < frame.Length1 ==> frame[i, j] == video[k][i][j]
        invariant forall j :: 0 <= j < x ==> frame[y, j] == video[k][y][j]
      {
        frame[y, x] := video[k][y][x];
        x := x + 1;
      }
      y := y + 1;
    }
    assert forall i :: 0 <= i < frame.Length0 ==> Cells(frame)[i] == video[k][i];
  }

  /**
   * Converts the frame in the buffer: maps its pixels into the output grid,
   * then composes the grid into text.
   */
  method ConvertFrame(frame: array2<Vec3b>, ghost grid: seq<seq<Vec3b>>, s: Settings, output: array2<PixelInfo>)
    returns (sb: string)
    requires frame.Length0 == output.Length0 && frame.Length1 == output.Length1 && Cells(frame) == grid
    modifies output
    ensures Cells(output) == MapGrid(grid, s)
    ensures sb == FrameText(MapGrid(grid, s), s)
  {
    Rasterize(frame, s, output);
    sb := Compose(output, s);
  }

  /**
   * Converts every frame of the video, in order, reusing one output grid.
   * The result holds one text per frame of the source.
   */
  method PreprocessFrames(video: seq<seq<seq<Vec3b>>>, width: nat, asciiHeight: nat, s: Settings)
    returns (frames: seq<string>)
    requires Sized(video, width, asciiHeight)
    ensures frames == Texts(video, s)
  {
    ghost var texts := Texts(video, s);
    var frame := new Vec3b[asciiHeight, width];
    var output := new PixelInfo[asciiHeight, width];
    frames := [];
    var pos := 0;
    while pos < |video|
      invariant 0 <= pos <= |video| && frames == texts[..pos]
    {
      ReadFrame(video, pos, frame);
      var sb := ConvertFrame(frame, video[pos], s, output);
      assert texts[..pos + 1] == texts[..pos] + [sb];
      frames := frames + [sb];
      pos := pos + 1;
    }
  }

  /**
   * `screen` is what showing the frames numbered `shown`, in that order, writes:
   * entry j is frame shown[j], followed by the colour reset in colour mode.
   */
  predicate Writes(screen: seq<string>, frames: seq<string>, shown: seq<nat>, s: Settings) {
    |screen| == |shown|
    && forall j :: 0 <= j < |shown| ==> shown[j] < |frames| && screen[j] == Displayed(frames[shown[j]], s)
  }

  lemma WritesSnoc(screen: seq<string>, frames: seq<string>, shown: seq<nat>, s: Settings, i: nat)
    requires Writes(screen, frames, shown, s) && i < |frames|
    ensures Writes(screen + [Displayed(frames[i], s)], frames, shown + [i], s)
  {
  }

  /** The skip branch of one iteration, written out. */
  lemma SkipStep(count: nat, duration: nat, lead: nat, clock: nat -> Readings, iter: nat, p: Pacer, expected: int)
    requires duration > 0 && p.frameIndex < count && expected == (p.frameIndex + lead) * duration
    requires clock(iter).atStart > expected + duration
    ensures var k := FramesToSkip(clock(iter).atStart, expected, duration);
      Step(count, duration, lead, clock, iter, p)
        == ([Skipped(p.frameIndex, SkipLength(p.frameIndex, k, count))], p.(frameIndex := p.frameIndex + k + 1))
    ensures ShownOf(Step(count, duration, lead, clock, iter, p).0) == []
  {
    var k := FramesToSkip(clock(iter).atStart, expected, duration);
    assert [Skipped(p.frameIndex, SkipLength(p.frameIndex, k, count))][1..] == [];
  }

  /** The showing branch of one iteration, written out: an optional sleep, then `Present`. */
  lemma ShowStep(count: nat, duration: nat, lead: nat, clock: nat -> Readings, iter: nat, p: Pacer, expected: int)
    requires duration > 0 && p.frameIndex < count && expected == (p.frameIndex + lead) * duration
    requires clock(iter).atStart <= expected + duration
    ensures var current := clock(iter).atStart;
      var pr := Present(p, expected, clock(iter));
      Step(count, duration, lead, clock, iter, p)
        == ((if current < expected then [Waited(expected - current)] else []) + pr.0, pr.1)
    ensures ShownOf(Step(count, duration, lead, clock, iter, p).0) == [p.frameIndex]
  {
    var current := clock(iter).atStart;
    var pr := Present(p, expected, clock(iter));
    PresentShowsOne(p, expected, clock(iter));
    if current >= expected {
      assert [] + pr.0 == pr.0;
    } else {
      ShownOfAppend([Waited(expected - current)], pr.0);
      assert [Waited(expected - current)][1..] == [];
    }
  }

  /** Running one more iteration moves its events from the schedule still to come to those done. */
  lemma ExtendSchedule(done: seq<Event>, count: nat, duration: nat, lead: nat, clock: nat -> Readings, iter: nat, p: Pacer)
    requires duration > 0 && p.frameIndex < count
    ensures var (head, p') := Step(count, duration, lead, clock, iter, p);
      done + Schedule(count, duration, lead, clock, iter, p)
        == (done + head) + Schedule(count, duration, lead, clock, iter + 1, p')
  {
    var (head, p') := Step(count, duration, lead, clock, iter, p);
    assert Schedule(count, duration, lead, clock, iter, p) == head + Schedule(count, duration, lead, clock, iter + 1, p');
  }

  /**
   * The loop invariant of both players: the events so far followed by the
   * schedule from iteration `iter` in state `p` make up `whole`, the schedule
   * of the whole video, and the screen holds the texts of the frames shown so
   * far.
   */
  ghost predicate Played(texts: seq<string>, duration: nat, lead: nat, clock: nat -> Readings, iter: nat, p: Pacer,
                         s: Settings, events: seq<Event>, screen: seq<string>, whole: seq<Event>)
    requires duration > 0
  {
    && events + Schedule(|texts|, duration, lead, clock, iter, p) == whole
    && Writes(screen, texts, ShownOf(events), s)
  }

  /** A skip keeps the invariant: the skipped range joins the events and nothing is written. */
  lemma AfterSkip(texts: seq<string>, duration: nat, lead: nat, clock: nat -> Readings, iter: nat, p: Pacer,
                  s: Settings, events: seq<Event>, screen: seq<string>, expected: int, k: nat,
                  events': seq<Event>, p': Pacer, whole: seq<Event>)
    requires duration > 0 && p.frameIndex < |texts| && expected == (p.frameIndex + lead) * duration
    requires clock(iter).atStart > expected + duration && k == FramesToSkip(clock(iter).atStart, expected, duration)
    requires Played(texts, duration, lead, clock, iter, p, s, events, screen, whole)
    requires events' == events + [Skipped(p.frameIndex, SkipLength(p.frameIndex, k, |texts|))]
    requires p' == p.(frameIndex := p.frameIndex + k + 1)
    ensures Played(texts, duration, lead, clock, iter + 1, p', s, events', screen, whole)
  {
    SkipStep(|texts|, duration, lead, clock, iter, p, expected);
    ExtendSchedule(events, |texts|, duration, lead, clock, iter, p);
    ShownOfAppend(events, Step(|texts|, duration, lead, clock, iter, p).0);
  }

  /**
   * Showing the candidate (after a sleep when early) keeps the invariant: the
   * candidate's text is written and the candidate joins the frames shown.
   */
  lemma AfterShow(texts: seq<string>, duration: nat, lead: nat, clock: nat -> Readings, iter: nat, p: Pacer,
                  s: Settings, events: seq<Event>, screen: seq<string>, expected: int, slept: seq<Event>,
                  shown: seq<Event>, events': seq<Event>, screen': seq<string>, p': Pacer, whole: seq<Event>)
    requires duration > 0 && p.frameIndex < |texts| && expected == (p.frameIndex + lead) * duration
    requires clock(iter).atStart <= expected + duration
    requires slept == if clock(iter).atStart < expected then [Waited(expected - clock(iter).atStart)] else []
    requires (shown, p') == Present(p, expected, clock(iter))
    requires Played(texts, duration, lead, clock, iter, p, s, events, screen, whole)
    requires events' == events + (slept + shown)
    requires screen' == screen + [Displayed(texts[p.frameIndex], s)]
    ensures Played(texts, duration, lead, clock, iter + 1, p', s, events', screen', whole)
  {
    ShowStep(|texts|, duration, lead, clock, iter, p, expected);
    ExtendSchedule(events, |texts|, duration, lead, clock, iter, p);
    ShownOfAppend(events, Step(|texts|, duration, lead, clock, iter, p).0);
    WritesSnoc(screen, texts, ShownOf(events), s, p.frameIndex);
  }

  lemma WritesAppend(screen: seq<string>, written: seq<string>, texts: seq<string>, shown: seq<nat>,
                     more: seq<nat>, s: Settings)
    requires Writes(screen, texts, shown, s) && Writes(written, texts, more, s)
    ensures Writes(screen + written, texts, shown + more, s)
  {
    var all, ids := screen + written, shown + more;
    forall j | 0 <= j < |ids| ensures ids[j] < |texts| && all[j] == Displayed(texts[ids[j]], s) {
      if j >= |shown| {
        assert ids[j] == more[j - |shown|] && all[j] == written[j - |shown|];
      }
    }
  }

  /**
   * Any one iteration keeps the invariant: its events join those done, and
   * what it writes (the texts of the frames it shows) joins the screen.
   */
  lemma AfterStep(texts: seq<string>, duration: nat, lead: nat, clock: nat -> Readings, iter: nat, p: Pacer,
                  s: Settings, events: seq<Event>, screen: seq<string>, done: seq<Event>, written: seq<string>,
                  p': Pacer, whole: seq<Event>)
    requires duration > 0 && p.frameIndex < |texts|
    requires (done, p') == Step(|texts|, duration, lead, clock, iter, p)
    requires Writes(written, texts, ShownOf(done), s)
    requires Played(texts, duration, lead, clock, iter, p, s, events, screen, whole)
    ensures Played(texts, duration, lead, clock, iter + 1, p', s, events + done, screen + written, whole)
  {
    ExtendSchedule(events, |texts|, duration, lead, clock, iter, p);
    ShownOfAppend(events, done);
    WritesAppend(screen, written, texts, ShownOf(events), ShownOf(done), s);
  }

  /**
   * Shows candidate frame `frameIndex`, counts it and, once a second of video
   * time has passed since the last timecode update, emits a status update and
   * resets the counter: the loop variables afterwards are those of `Present`.
   */
  method ShowFrame(frameIndex: nat, framesRendered: nat, lastTimecodeUpdate: int, lastFpsUpdate: int,
                   videoTime: int, now: Readings)
    returns (shown: seq<Event>, framesRendered': nat, lastTimecodeUpdate': int, lastFpsUpdate': int)
    ensures (shown, Pacer(frameIndex + 1, framesRendered', lastTimecodeUpdate', lastFpsUpdate'))
      == Present(Pacer(frameIndex, framesRendered, lastTimecodeUpdate, lastFpsUpdate), videoTime, now)
  {
    shown := [Shown(frameIndex)];
    framesRendered' := framesRendered + 1;
    lastTimecodeUpdate', lastFpsUpdate' := lastTimecodeUpdate, lastFpsUpdate;
    var elapsedSinceLastFpsUpdate := now.afterShow - lastFpsUpdate;
    if videoTime - lastTimecodeUpdate >= StatusPeriodMs {
      lastTimecodeUpdate' := videoTime;
      shown := shown + [Status(videoTime, framesRendered', elapsedSinceLastFpsUpdate)];
      assert shown == [Shown(frameIndex), Status(videoTime, framesRendered', elapsedSinceLastFpsUpdate)];
      framesRendered' := 0;
      lastFpsUpdate' := now.atStatus;
    }
  }

  /**
   * Plays prepared frames: each step skips, sleeps and shows, or shows at
   * once, as `Pacing.Schedule` with lead 0 prescribes, and writes the text of
   * every shown frame in the order shown.
   */
  method PlayFrames(frames: seq<string>, duration: nat, s: Settings, clock: nat -> Readings)
    returns (events: seq<Event>, screen: seq<string>)
    requires duration > 0
    ensures events == Schedule(|frames|, duration, 0, clock, 0, Start)
    ensures Writes(screen, frames, ShownOf(events), s)
  {
    var lastTimecodeUpdate, lastFpsUpdate, framesRendered := 0, 0, 0;
    var frameIndex, iter := 0, 0;
    events, screen := [], [];
    ghost var whole := Schedule(|frames|, duration, 0, clock, 0, Start);
    while frameIndex < |frames|
      invariant Played(frames, duration, 0, clock, iter,
        Pacer(frameIndex, framesRendered, lastTimecodeUpdate, lastFpsUpdate), s, events, screen, whole)
      decreases |frames| - frameIndex
    {
      ghost var p := Pacer(frameIndex, framesRendered, lastTimecodeUpdate, lastFpsUpdate);
      var now := clock(iter);
      var currentTime := now.atStart;
      var expectedTime := frameIndex * duration;
      if currentTime > expectedTime + duration {
        var framesToSkip := FramesToSkip(currentTime, expectedTime, duration);
        ghost var events0 := events;
        events := events + [Skipped(frameIndex, SkipLength(frameIndex, framesToSkip, |frames|))];
        frameIndex := frameIndex + framesToSkip + 1;
        AfterSkip(frames, duration, 0, clock, iter, p, s, events0, screen, expectedTime, framesToSkip, events,
          Pacer(frameIndex, framesRendered, lastTimecodeUpdate, lastFpsUpdate), whole);
      } else {
        var slept := [];
        if currentTime < expectedTime {
          slept := [Waited(expectedTime - currentTime)];
        }
        var shown;
        shown, framesRendered, lastTimecodeUpdate, lastFpsUpdate :=
          ShowFrame(frameIndex, framesRendered, lastTimecodeUpdate, lastFpsUpdate, expectedTime, now);
        ghost var events0, screen0 := events, screen;
        screen := screen + [Displayed(frames[frameIndex], s)];
        events := events + (slept + shown);
        frameIndex := frameIndex + 1;
        AfterShow(frames, duration, 0, clock, iter, p, s, events0, screen0, expectedTime, slept, shown, events, screen,
          Pacer(frameIndex, framesRendered, lastTimecodeUpdate, lastFpsUpdate), whole);
      }
      iter := iter + 1;
    }
    assert Schedule(|frames|, duration, 0, clock, iter,
      Pacer(frameIndex, framesRendered, lastTimecodeUpdate, lastFpsUpdate)) == [];
    assert events == events + [];
  }

  /**
   * Plays the video as it is read: each frame read is timed by the read
   * position, which is already one past it (lead 1 in `Pacing.Schedule`); a
   * late frame is dropped and the read position moved on by the whole
   * durations of lateness; otherwise the frame is mapped into the output
   * grid, composed and written.
   */
  method PlayFramesInRealTime(video: seq<seq<seq<Vec3b>>>, width: nat, asciiHeight: nat, s: Settings,
                              duration: nat, clock: nat -> Readings)
    returns (events: seq<Event>, screen: seq<string>)
    requires Sized(video, width, asciiHeight) && duration > 0
    ensures events == Schedule(|video|, duration, 1, clock, 0, Start)
    ensures Writes(screen, Texts(video, s), ShownOf(events), s)
  {
    ghost var texts := Texts(video, s);
    var lastTimecodeUpdate, lastFpsUpdate, framesRendered := 0, 0, 0;
    var frame := new Vec3b[asciiHeight, width];
    var output := new PixelInfo[asciiHeight, width];
    var pos, iter := 0, 0;
    events, screen := [], [];
    ghost var whole := Schedule(|video|, duration, 1, clock, 0, Start);
    while pos < |video|
      invariant Played(texts, duration, 1, clock, iter,
        Pacer(pos, framesRendered, lastTimecodeUpdate, lastFpsUpdate), s, events, screen, whole)
      decreases |video| - pos
    {
      ghost var p := Pacer(pos, framesRendered, lastTimecodeUpdate, lastFpsUpdate);
      var done, written;
      done, written, pos, framesRendered, lastTimecodeUpdate, lastFpsUpdate :=
        RealTimeIteration(video, s, duration, clock, iter, frame, output,
          pos, framesRendered, lastTimecodeUpdate, lastFpsUpdate);
      assert Writes(written, texts, ShownOf(done), s);
      AfterStep(texts, duration, 1, clock, iter, p, s, events, screen, done, written,
        Pacer(pos, framesRendered, lastTimecodeUpdate, lastFpsUpdate), whole);
      events, screen := events + done, screen + written;
      iter := iter + 1;
    }
    assert Schedule(|video|, duration, 1, clock, iter,
      Pacer(pos, framesRendered, lastTimecodeUpdate, lastFpsUpdate)) == [];
    assert events == events + [];
  }

  /**
   * One pass of the real-time loop: reads the frame at the read position,
   * then either drops it and moves the read position on, or sleeps when
   * early, converts the frame in the buffer and writes it. What the pass does
   * (`done`) and the loop variables afterwards are those of `Pacing.Step`,
   * and `written` is the text of the frame it shows, if any.
   */
  method RealTimeIteration(video: seq<seq<seq<Vec3b>>>, s: Settings,
                           duration: nat, clock: nat -> Readings, iter: nat,
                           frame: array2<Vec3b>, output: array2<PixelInfo>,
                           pos: nat, framesRendered: nat, lastTimecodeUpdate: int, lastFpsUpdate: int)
    returns (done: seq<Event>, written: seq<string>,
             pos': nat, framesRendered': nat, lastTimecodeUpdate': int, lastFpsUpdate': int)
    requires duration > 0 && pos < |video|
    requires |video[pos]| == frame.Length0 && IsRect(video[pos], frame.Length1)
    requires output.Length0 == frame.Length0 && output.Length1 == frame.Length1
    modifies frame, output
    ensures (done, Pacer(pos', framesRendered', lastTimecodeUpdate', lastFpsUpdate'))
      == Step(|video|, duration, 1, clock, iter, Pacer(pos, framesRendered, lastTimecodeUpdate, lastFpsUpdate))
    ensures || (ShownOf(done) == [] && written == [])
            || (ShownOf(done) == [pos] && written == [Displayed(FrameText(MapGrid(video[pos], s), s), s)])
    ensures Cells(frame) == video[pos]
    ensures ShownOf(done) == [pos] ==> Cells(output) == MapGrid(video[pos], s)
    ensures ShownOf(done) == [] ==> Cells(output) == old(Cells(output))
  {
    ReadFrame(video, pos, frame);
    var now := clock(iter);
    if now.atStart > (pos + 1) * duration + duration {
      done, pos', framesRendered', lastTimecodeUpdate', lastFpsUpdate' :=
        SkipPass(|video|, duration, clock, iter, now, pos, framesRendered, lastTimecodeUpdate, lastFpsUpdate);
      written := [];
    } else {
      done, written, framesRendered', lastTimecodeUpdate', lastFpsUpdate' :=
        ShowPass(frame, video[pos], s, output, |video|, duration, clock, iter, now,
          pos, framesRendered, lastTimecodeUpdate, lastFpsUpdate);
      pos' := pos + 1;
    }
  }

  /**
   * The dropping half of a real-time pass, once frame `pos` is read and found
   * more than one duration late: the read position, already `pos + 1`, moves
   * on by the whole durations of lateness, and nothing is shown.
   */
  method SkipPass(count: nat, duration: nat, clock: nat -> Readings, iter: nat, now: Readings,
                  pos: nat, framesRendered: nat, lastTimecodeUpdate: int, lastFpsUpdate: int)
    returns (done: seq<Event>, pos': nat, framesRendered': nat, lastTimecodeUpdate': int, lastFpsUpdate': int)
    requires duration > 0 && pos < count && now == clock(iter)
    requires now.atStart > (pos + 1) * duration + duration
    ensures (done, Pacer(pos', framesRendered', lastTimecodeUpdate', lastFpsUpdate'))
      == Step(count, duration, 1, clock, iter, Pacer(pos, framesRendered, lastTimecodeUpdate, lastFpsUpdate))
    ensures ShownOf(done) == [] && pos' > pos + 1
  {
    var expectedTime := (pos + 1) * duration;
    var framesToSkip := FramesToSkip(now.atStart, expectedTime, duration);
    done := [Skipped(pos, SkipLength(pos, framesToSkip, count))];
    pos' := pos + 1 + framesToSkip;
    framesRendered', lastTimecodeUpdate', lastFpsUpdate' := framesRendered, lastTimecodeUpdate, lastFpsUpdate;
    SkipStep(count, duration, 1, clock, iter, Pacer(pos, framesRendered, lastTimecodeUpdate, lastFpsUpdate),
      expectedTime);
  }

  /**
   * The showing half of a real-time pass, once frame `pos` is read into
   * `frame` and found not too late: sleeps when early, converts the frame into
   * the output buffer, writes its text, then counts it and updates the status.
   */
  method ShowPass(frame: array2<Vec3b>, ghost grid: seq<seq<Vec3b>>, s: Settings, output: array2<PixelInfo>,
                  count: nat, duration: nat, clock: nat -> Readings, iter: nat, now: Readings,
                  pos: nat, framesRendered: nat, lastTimecodeUpdate: int, lastFpsUpdate: int)
    returns (done: seq<Event>, written: seq<string>,
             framesRendered': nat, lastTimecodeUpdate': int, lastFpsUpdate': int)
    requires duration > 0 && pos < count && now == clock(iter)
    requires now.atStart <= (pos + 1) * duration + duration
    requires frame.Length0 == output.Length0 && frame.Length1 == output.Length1 && Cells(frame) == grid
    modifies output
    ensures (done, Pacer(pos + 1, framesRendered', lastTimecodeUpdate', lastFpsUpdate'))
      == Step(count, duration, 1, clock, iter, Pacer(pos, framesRendered, lastTimecodeUpdate, lastFpsUpdate))
    ensures ShownOf(done) == [pos]
    ensures Cells(output) == MapGrid(grid, s)
    ensures written == [Displayed(FrameText(MapGrid(grid, s), s), s)]
  {
    var expectedTime := (pos + 1) * duration;
    var slept := [];
    if now.atStart < expectedTime {
      slept := [Waited(expectedTime - now.atStart)];
    }
    var sb := ConvertFrame(frame, grid, s, output);
    written := [Displayed(sb, s)];
    var shown;
    shown, framesRendered', lastTimecodeUpdate', lastFpsUpdate' :=
      ShowFrame(pos, framesRendered, lastTimecodeUpdate, lastFpsUpdate, expectedTime, now);
    done := slept + shown;
    ShowStep(count, duration, 1, clock, iter, Pacer(pos, framesRendered, lastTimecodeUpdate, lastFpsUpdate),
      expectedTime);
  }

  /**
   * Plays the video in the mode chosen: prepared frames first, then paced
   * playback, or conversion during playback. Both modes write the same text
   * for a shown frame; they differ only in when each frame is due.
   */
  method Play(video: seq<seq<seq<Vec3b>>>, width: nat, asciiHeight: nat, s: Settings,
              duration: nat, clock: nat -> Readings, preprocessFrames: bool)
    returns (events: seq<Event>, screen: seq<string>)
    requires Sized(video, width, asciiHeight) && duration > 0
    ensures events == Schedule(|video|, duration, if preprocessFrames then 0 else 1, clock, 0, Start)
    ensures Writes(screen, Texts(video, s), ShownOf(events), s)
  {
    if preprocessFrames {
      var frames := PreprocessFrames(video, width, asciiHeight, s);
      events, screen := PlayFrames(frames, duration, s, clock);
    } else {
      events, screen := PlayFramesInRealTime(video, width, asciiHeight, s, duration, clock);
    }
  }
}
