/** The figures a window reports, said of the packets of the run alone: when measuring begins, when a window
    is handed out, and which duration and latency it carries. */
module RtpFigures {
  import opened Bytes
  import opened RtpTraffic
  import opened RtpTruth
  import opened RtpLaws

  // ---------------------------------------------------------------- what the packets say

  /** The first packet of the newest frame, if the timestamp has been raised at all. */
  function FrameStart(k: seq<Arrival>): Option<Arrival> {
    if |k| < 2 then None
    else if k[|k| - 2].timestamp < Last(k).timestamp then Some(Last(k))
    else FrameStart(Butlast(k))
  }

  /** The packets of a medium that were not ignored. */
  function Used(es: seq<Event>, m: Media): seq<Arrival> { Advancing(Measured(es, m), m) }

  /** The time up to which a window would report: for video that of the newest frame's first packet, 0 if there
      is none; for audio that of the last packet used. */
  function Reach(es: seq<Event>, m: Media): int {
    var k := Used(es, m);
    if m == VideoMedia then (if FrameStart(k).Some? then FrameStart(k).value.time else 0)
    else if k == [] then 0 else Last(k).time
  }

  /** Is a window handed out by a collection after `es`? Both media are measured, and each has gone on for
      three seconds since the last window, in 32-bit arithmetic. */
  predicate HandsOut(es: seq<Event>)
    decreases |es|, 1
  {
    && Measured(es, VideoMedia) != [] && Measured(es, AudioMedia) != []
    && (Reach(es, VideoMedia) - Since(es, VideoMedia)) % 0x1_0000_0000 >= 3000
    && (Reach(es, AudioMedia) - Since(es, AudioMedia)) % 0x1_0000_0000 >= 3000
  }

  /** The time from which the next window reports: where the last one ended, or where measuring began. */
  function Since(es: seq<Event>, m: Media): int
    decreases |es|, 0
  {
    if es == [] then 0
    else if Last(es).Collecting? then (if HandsOut(Butlast(es)) then Reach(Butlast(es), m) else Since(Butlast(es), m))
    else if Measured(Butlast(es), m) == [] && Measured(es, m) != [] then Measured(es, m)[0].time
    else Since(Butlast(es), m)
  }

  // ---------------------------------------------------------------- what the fields hold

  ghost predicate VideoClock(s: Traffic, a: seq<Arrival>) {
    var k := Advancing(a, VideoMedia);
    && (s.video.started <==> a != [])
    && (a == [] ==> s.videoChangedTime == 0 && s.videoChangeTimestamp == 0)
    && (a != [] ==>
          && s.video.startTime == a[0].time && s.video.startTimestamp == a[0].timestamp
          && s.video.lastTimestamp == Last(k).timestamp
          && s.videoChangedTime == (if FrameStart(k).Some? then FrameStart(k).value.time else 0)
          && s.videoChangeTimestamp == (if FrameStart(k).Some? then FrameStart(k).value.timestamp else 0)
          && (FrameStart(k).Some? ==> a[0].timestamp < FrameStart(k).value.timestamp)
          && a[0].timestamp <= Last(k).timestamp)
  }

  ghost predicate AudioClock(s: Traffic, a: seq<Arrival>) {
    var k := Advancing(a, AudioMedia);
    && (s.audio.started <==> a != [])
    && (a != [] ==>
          && s.audio.startTime == a[0].time && s.audio.startTimestamp == a[0].timestamp
          && s.audio.lastTimestamp == Last(k).timestamp && s.audio.lastTime == Last(k).time
          && a[0].timestamp <= Last(k).timestamp)
  }

  lemma VideoReceived(s: Traffic, a: seq<Arrival>, b: Arrival)
    requires VideoClock(s, a)
    ensures var m := Measures(s, Received(VideoMedia, b), VideoMedia);
            VideoClock(VideoStep(s, Packet(b), b.time, b.now), if m then a + [b] else a)
  {
    hide Loss, ToInt32, Advancing;
    AdvancingMore(a, b, VideoMedia);
    if a == [] {
      assert a + [b] == [b] && Advancing(a, VideoMedia) == [] by { Nothing(VideoMedia); }
    } else {
      var k := Advancing(a, VideoMedia);
      assert (k + [b])[|k| - 1] == Last(k) && Butlast(k + [b]) == k && Last(k + [b]) == b && (a + [b])[0] == a[0];
    }
  }

  lemma AudioReceived(s: Traffic, a: seq<Arrival>, b: Arrival)
    requires AudioClock(s, a)
    ensures var m := Measures(s, Received(AudioMedia, b), AudioMedia);
            AudioClock(AudioStep(s, Packet(b), b.time, b.now), if m then a + [b] else a)
  {
    hide Loss, ToInt32, Advancing;
    AdvancingMore(a, b, AudioMedia);
    if a == [] {
      assert a + [b] == [b] && Advancing(a, AudioMedia) == [] by { Nothing(AudioMedia); }
    } else {
      assert (a + [b])[0] == a[0];
    }
  }

  lemma OtherMedium(s: Traffic, a: seq<Arrival>, b: Arrival)
    ensures VideoClock(s, a) ==> VideoClock(AudioStep(s, Packet(b), b.time, b.now), a)
    ensures AudioClock(s, a) ==> AudioClock(VideoStep(s, Packet(b), b.time, b.now), a)
  {
    hide Count, Advancing, FrameStart;
  }

  lemma CollectKeepsClocks(s: Traffic, v: seq<Arrival>, a: seq<Arrival>)
    ensures VideoClock(s, v) ==> VideoClock(CollectStep(s), v)
    ensures AudioClock(s, a) ==> AudioClock(CollectStep(s), a)
  {
    hide Advancing, FrameStart, Collected, Collectable;
  }

  lemma {:induction false} RunClocks(es: seq<Event>)
    ensures VideoClock(Run(es), Measured(es, VideoMedia)) && AudioClock(Run(es), Measured(es, AudioMedia))
  {
    hide VideoClock, AudioClock, VideoStep, AudioStep, CollectStep, Begins;
    if es == [] {
      NoClocks();
    } else {
      var before, s := Butlast(es), Run(Butlast(es));
      var v, a := Measured(before, VideoMedia), Measured(before, AudioMedia);
      RunClocks(before);
      assert v + [] == v && a + [] == a;
      match Last(es) {
        case Received(VideoMedia, b) =>
          VideoReceived(s, v, b);
          OtherMedium(s, a, b);
        case Received(AudioMedia, b) =>
          AudioReceived(s, a, b);
          OtherMedium(s, v, b);
        case Collecting => CollectKeepsClocks(s, v, a);
      }
    }
  }

  lemma NoClocks()
    ensures VideoClock(INITIAL, []) && AudioClock(INITIAL, [])
  {}

  // ---------------------------------------------------------------- latency

  /** `x` is what a 32-bit `int` keeps of `exact`. */
  predicate Cut(x: int, exact: int) { -0x8000_0000 <= x < 0x8000_0000 && (x - exact) % 0x1_0000_0000 == 0 }

  lemma CutBy(exact: int)
    ensures Cut(ToInt32(exact), exact)
  {
    var k := Int32Multiple(exact);
    assert ToInt32(exact) - exact == 0x1_0000_0000 * -k;
  }

  /** The latency of a window is how much more time than media time has gone by since measuring began: for
      video up to the first packet of the newest frame, for audio up to the last packet used. */
  lemma LatencyIs(es: seq<Event>)
    requires Collectable(Run(es))
    ensures Measured(es, VideoMedia) != [] && Measured(es, AudioMedia) != [] && Used(es, AudioMedia) != []
    ensures var (w, b) := (Collected(Run(es)), Measured(es, VideoMedia)[0]);
            match FrameStart(Used(es, VideoMedia))
            case Some(c) => Cut(w.video.latency, (c.time - b.time) - (c.timestamp - b.timestamp))
            case None => Cut(w.video.latency, -b.time - (0x1_0000_0000 - b.timestamp) % 0x1_0000_0000)
    ensures var (w, b, c) := (Collected(Run(es)), Measured(es, AudioMedia)[0], Last(Used(es, AudioMedia)));
            Cut(w.audio.latency, (c.time - b.time) - (c.timestamp - b.timestamp))
  {
    hide ToInt32, Cut, FrameStart, Advancing, Measured, Run, VideoDuration, AudioDuration;
    RunClocks(es);
    var s := Run(es);
    CutBy(s.videoChangedTime - s.video.startTime - ToUInt32(s.videoChangeTimestamp - s.video.startTimestamp));
    CutBy(s.audio.lastTime - s.audio.startTime - ToUInt32(s.audio.lastTimestamp - s.audio.startTimestamp));
  }

  // ---------------------------------------------------------------- when a window is handed out

  ghost predicate SinceKept(es: seq<Event>) {
    && (Measured(es, VideoMedia) != [] ==> Run(es).video.collectStartTime == Since(es, VideoMedia))
    && (Measured(es, AudioMedia) != [] ==> Run(es).audio.collectStartTime == Since(es, AudioMedia))
  }

  lemma CollectableIff(es: seq<Event>)
    requires SinceKept(es)
    ensures Collectable(Run(es)) <==> HandsOut(es)
    ensures Measured(es, VideoMedia) != [] ==> Run(es).videoChangedTime == Reach(es, VideoMedia)
    ensures Measured(es, AudioMedia) != [] ==> Run(es).audio.lastTime == Reach(es, AudioMedia)
  {
    hide FrameStart, Advancing, Measured, Run, Since;
    RunClocks(es);
  }

  lemma CollectedSince(s: Traffic)
    ensures var t := CollectStep(s);
            && t.video.collectStartTime == (if Collectable(s) then s.videoChangedTime else s.video.collectStartTime)
            && t.audio.collectStartTime == (if Collectable(s) then s.audio.lastTime else s.audio.collectStartTime)
  {}

  lemma ReceivedSince(s: Traffic, m: Media, b: Arrival)
    ensures var t := Step(s, Received(m, b));
            && (s.video.started ==> t.video.collectStartTime == s.video.collectStartTime)
            && (s.audio.started ==> t.audio.collectStartTime == s.audio.collectStartTime)
            && (!s.video.started && t.video.started ==> t.video.collectStartTime == b.time && m == VideoMedia)
            && (!s.audio.started && t.audio.started ==> t.audio.collectStartTime == b.time && m == AudioMedia)
  {
    hide Loss, ToInt32;
  }

  lemma {:induction false} SinceOfRun(es: seq<Event>)
    ensures SinceKept(es)
  {
    hide Step, CollectStep, Collectable, HandsOut, Begins, Reach, VideoClock, AudioClock;
    if es != [] {
      var before, s := Butlast(es), Run(Butlast(es));
      SinceOfRun(before);
      StartedIff(before);
      StartedIff(es);
      match Last(es) {
        case Received(m, b) => ReceivedSince(s, m, b);
        case Collecting =>
          CollectableIff(before);
          CollectedSince(s);
          assert Step(s, Collecting) == CollectStep(s) by { CollectsStep(s); }
      }
    }
  }

  lemma CollectsStep(s: Traffic)
    ensures Step(s, Collecting) == CollectStep(s)
  {}

  lemma StartedIff(es: seq<Event>)
    ensures Run(es).video.started <==> Measured(es, VideoMedia) != []
    ensures Run(es).audio.started <==> Measured(es, AudioMedia) != []
  {
    hide Run, Measured, Advancing, FrameStart;
    RunClocks(es);
  }

  /** In every run a collection hands out a window exactly when both media are measured and each has gone on
      for three seconds since the last window; its durations are these spans, in 32-bit arithmetic. */
  lemma WindowIff(es: seq<Event>)
    ensures Collectable(Run(es)) <==> HandsOut(es)
    ensures HandsOut(es) ==>
              && Collected(Run(es)).video.duration == (Reach(es, VideoMedia) - Since(es, VideoMedia)) % 0x1_0000_0000
              && Collected(Run(es)).audio.duration == (Reach(es, AudioMedia) - Since(es, AudioMedia)) % 0x1_0000_0000
  {
    hide Run, Measured, Since, Reach, ToInt32, HandsOut;
    SinceOfRun(es);
    CollectableIff(es);
    if Collectable(Run(es)) { StartedIff(es); }
  }

  // ---------------------------------------------------------------- when measuring begins

  /** The last packet of a medium, and the clock at the first packet of all. */
  function LastPacket(es: seq<Event>, m: Media): Option<Arrival> {
    if es == [] then None
    else if Last(es).Received? && Last(es).media == m then Some(Last(es).arrival)
    else LastPacket(Butlast(es), m)
  }

  function FirstNow(es: seq<Event>): int {
    if es == [] then 0
    else if FirstNow(Butlast(es)) != 0 then FirstNow(Butlast(es))
    else if Last(es).Received? then Last(es).arrival.now
    else 0
  }

  ghost predicate Clocked(es: seq<Event>) { forall e :: e in es && e.Received? ==> e.arrival.now > 0 }

  ghost predicate NotYet(s: Traffic, es: seq<Event>, m: Media) {
    && s.startTime == FirstNow(es)
    && (Measured(es, m) == [] ==>
          !Of(s, m).started && Of(s, m).lastTimestamp == (if LastPacket(es, m).Some? then LastPacket(es, m).value.timestamp else 0))
  }

  /** Nothing was received so far. */
  predicate Unused(s: Traffic) { !s.video.started && !s.audio.started && s.video.lastTimestamp == 0 && s.audio.lastTimestamp == 0 }

  lemma ClockStep(s: Traffic, e: Event, m: Media)
    requires (s.startTime == 0 ==> Unused(s)) && (e.Received? ==> e.arrival.now > 0)
    ensures var t := Step(s, e);
            && t.startTime == (if s.startTime == 0 && e.Received? then e.arrival.now else s.startTime)
            && (t.startTime == 0 ==> Unused(t))
            && (!Of(s, m).started && !Measures(s, e, m) ==>
                  !Of(t, m).started
                  && Of(t, m).lastTimestamp == (if e.Received? && e.media == m then e.arrival.timestamp else Of(s, m).lastTimestamp))
  {
    hide Count, Collected, Collectable, Begin;
  }

  lemma {:induction false} NotYetRun(es: seq<Event>, m: Media)
    requires Clocked(es)
    ensures NotYet(Run(es), es, m) && (Run(es).startTime == 0 ==> Unused(Run(es)))
  {
    hide Step, Begins, Unused;
    if es == [] {
      assert Unused(INITIAL) by { NothingUsed(); }
    } else {
      var before := Butlast(es);
      assert es == before + [Last(es)];
      assert Last(es) in es && forall e :: e in before ==> e in es;
      NotYetRun(before, m);
      ClockStep(Run(before), Last(es), m);
      StartedIff(before);
    }
  }

  lemma NothingUsed()
    ensures Unused(INITIAL)
  {}

  /** Measuring of a medium begins with the first packet that raises the timestamp of the packet before it,
      unless that was 0, once more than three seconds have passed since the first packet of either medium. */
  lemma MeasuringBeginsIff(es: seq<Event>, m: Media, b: Arrival)
    requires Clocked(es) && Measured(es, m) == []
    ensures Measured(es + [Received(m, b)], m) ==
              if LastPacket(es, m).Some? && 0 < LastPacket(es, m).value.timestamp < b.timestamp && b.now - FirstNow(es) > 3
              then [b] else []
  {
    NotYetRun(es, m);
    assert Butlast(es + [Received(m, b)]) == es && Last(es + [Received(m, b)]) == Received(m, b);
    hide Run;
  }
}
