/** What the RTP counts mean over whole runs of packets and collections. */
module RtpLaws {
  import opened Bytes
  import opened RtpTraffic
  import opened RtpTruth

  datatype Event = Received(media: Media, arrival: Arrival) | Collecting

  function Step(s: Traffic, e: Event): Traffic {
    match e
    case Received(VideoMedia, a) => VideoStep(s, Packet(a), a.time, a.now)
    case Received(AudioMedia, a) => AudioStep(s, Packet(a), a.time, a.now)
    case Collecting => CollectStep(s)
  }

  function Run(es: seq<Event>): Traffic { if es == [] then INITIAL else Step(Run(Butlast(es)), Last(es)) }

  function Of(s: Traffic, m: Media): Track { if m == VideoMedia then s.video else s.audio }

  /** What the emitted windows add up to. */
  datatype Totals = Totals(frames: int, losses: int, packets: int, duration: int)

  function WithWindow(t: Totals, d: CollectData): Totals {
    Totals(t.frames + d.frameCount, t.losses + d.packetLossCount, t.packets + d.packetCount, t.duration + d.duration)
  }

  function Part(w: Window, m: Media): CollectData { if m == VideoMedia then w.video else w.audio }

  function Emitted(es: seq<Event>, m: Media): Totals {
    if es == [] then Totals(0, 0, 0, 0)
    else
      var before := Run(Butlast(es));
      var sums := Emitted(Butlast(es), m);
      if Last(es).Collecting? && Collectable(before) then WithWindow(sums, Part(Collected(before), m)) else sums
  }

  /** Does `e` reach the counters of `m`, or start them? */
  predicate Measures(s: Traffic, e: Event, m: Media) {
    && e.Received? && e.media == m
    && (Of(s, m).started || Begins(Of(s, m), Packet(e.arrival), s.startTime, e.arrival.now))
  }

  /** The packets of a medium since measuring began, the one that began it first. */
  function Measured(es: seq<Event>, m: Media): seq<Arrival> {
    if es == [] then []
    else Measured(Butlast(es), m) + (if Measures(Run(Butlast(es)), Last(es), m) then [Last(es).arrival] else [])
  }

  // ---------------------------------------------------------------- whole runs

  /** How the fields and windows of one medium relate to its measured packets, of which `k` are the
      advancing ones. */
  ghost predicate Accounts(t: Track, e: Totals, a: seq<Arrival>, m: Media) {
    var k := Advancing(a, m);
    && (t.started <==> a != [])
    && t.data.frameCount >= 0 && t.data.packetLossCount >= 0 && t.data.packetCount >= 0
    && e.frames >= 0 && e.losses >= 0 && e.packets >= 0
    && e.frames + t.data.frameCount == FrameChanges(k)
    && e.losses + t.data.packetLossCount == CountedLoss(k)
    && e.packets + t.data.packetCount == (if a == [] || m == AudioMedia then |a| else |a| - 1)
    && (a != [] ==> t.lastSequenceNumber == Last(k).number % 0x1_0000 && t.lastTimestamp == Last(k).timestamp)
  }

  /** The counters do not overflow. */
  predicate Fits(a: seq<Arrival>, m: Media) { |a| < 0x8000_0000 && CountedLoss(Advancing(a, m)) < 0x8000_0000 }

  /** What counting a packet that moves the track on does when nothing overflows. */
  lemma CountFields(t: Track, p: RtpPacketInfo, time: int, same: bool)
    requires t.lastTimestamp < p.timestamp || (same && t.lastTimestamp == p.timestamp)
    requires 0 <= t.data.packetCount < 0x7FFF_FFFF && 0 <= t.data.frameCount < 0x7FFF_FFFF
    requires 0 <= t.data.packetLossCount + Loss(t.lastSequenceNumber, p.sequenceNumber) < 0x8000_0000
    ensures var r := Count(t, p, time, same);
            && r.started == t.started
            && r.lastSequenceNumber == p.sequenceNumber && r.lastTimestamp == p.timestamp
            && r.data.packetCount == t.data.packetCount + 1
            && r.data.frameCount == t.data.frameCount + (if t.lastTimestamp < p.timestamp then 1 else 0)
            && r.data.packetLossCount == t.data.packetLossCount + Loss(t.lastSequenceNumber, p.sequenceNumber)
  {
    hide Loss, ToInt32;
  }

  lemma CountAccounts(t: Track, e: Totals, a: seq<Arrival>, b: Arrival, m: Media)
    requires a != [] && Fits(a + [b], m) && Accounts(t, e, a, m)
    ensures Accounts(Count(t, Packet(b), b.time, m == VideoMedia), e, a + [b], m)
  {
    hide Loss, ToInt32, Count, Advancing;
    var k, c := Advancing(a, m), Advancing(a + [b], m);
    AdvancingMore(a, b, m);
    CountedGrows(k);
    CountedGrows(c);
    if Moves(Last(k), b, m) {
      assert Butlast(c) == k && Last(c) == b && c[|c| - 2] == Last(k);
      LossNotNegative(Last(k).number % 0x1_0000, b.number % 0x1_0000);
      CountFields(t, Packet(b), b.time, m == VideoMedia);
    } else {
      CountIgnored(t, Packet(b), b.time, m == VideoMedia);
    }
  }

  lemma CountIgnored(t: Track, p: RtpPacketInfo, time: int, same: bool)
    requires !(t.lastTimestamp < p.timestamp || (same && t.lastTimestamp == p.timestamp))
    requires 0 <= t.data.packetCount < 0x7FFF_FFFF
    ensures Count(t, p, time, same) == t.(data := t.data.(packetCount := t.data.packetCount + 1))
  {
    hide Loss, ToInt32;
  }

  lemma BeginAccounts(t: Track, e: Totals, b: Arrival, m: Media)
    requires Accounts(t, e, [], m)
    ensures m == VideoMedia ==> Accounts(Begin(t, Packet(b), b.time), e, [b], m)
    ensures m == AudioMedia ==> Accounts(Count(Begin(t, Packet(b), b.time), Packet(b), b.time, false), e, [b], m)
  {
    assert Advancing([b], m) == [b];
  }

  lemma ReceiveAccounts(s: Traffic, e: Totals, a: seq<Arrival>, b: Arrival, m: Media)
    requires Accounts(Of(s, m), e, a, m)
    requires Measures(s, Received(m, b), m) ==> Fits(a + [b], m)
    ensures Accounts(Of(Step(s, Received(m, b)), m), e, if Measures(s, Received(m, b), m) then a + [b] else a, m)
  {
    hide Count, Fits, Advancing;
    if Of(s, m).started {
      CountAccounts(Of(s, m), e, a, b, m);
    } else {
      BeginAccounts(Of(s, m), e, b, m);
      assert a + [b] == [b];
    }
  }

  lemma CollectAccounts(s: Traffic, e: Totals, a: seq<Arrival>, m: Media)
    requires Accounts(Of(s, m), e, a, m)
    ensures Accounts(Of(CollectStep(s), m),
                     if Collectable(s) then WithWindow(e, Part(Collected(s), m)) else e, a, m)
  {
    hide Advancing;
  }

  lemma NothingAccounts(m: Media)
    ensures Accounts(Of(INITIAL, m), Totals(0, 0, 0, 0), [], m)
  {}

  lemma FitsPrefix(a: seq<Arrival>, b: Arrival, m: Media)
    requires Fits(a + [b], m)
    ensures Fits(a, m)
  {
    hide CountedLoss;
    AdvancingMore(a, b, m);
    var c := Advancing(a + [b], m);
    CountedGrows(c);
    if c != Advancing(a, m) { assert Butlast(c) == Advancing(a, m); }
  }

  /** After any run of packets of both media and collections, in whatever order, the windows handed
      out plus the open window hold exactly the packets of the run and the frames and losses of the
      packets that moved the track on. */
  lemma {:induction false} RunAccounts(es: seq<Event>, m: Media)
    requires Fits(Measured(es, m), m)
    ensures Accounts(Of(Run(es), m), Emitted(es, m), Measured(es, m), m)
  {
    hide Accounts, Step, Collected, WithWindow, Collectable, Fits, Begins;
    if es == [] {
      NothingAccounts(m);
    } else {
      var before, e := Run(Butlast(es)), Last(es);
      var a := Measured(Butlast(es), m);
      if Measures(before, e, m) {
        FitsPrefix(a, e.arrival, m);
      } else {
        assert Measured(es, m) == a;
      }
      RunAccounts(Butlast(es), m);
      StepAccounts(before, e, Emitted(Butlast(es), m), a, m);
    }
  }

  lemma StepAccounts(s: Traffic, e: Event, sums: Totals, a: seq<Arrival>, m: Media)
    requires Accounts(Of(s, m), sums, a, m)
    requires Measures(s, e, m) ==> Fits(a + [e.arrival], m)
    ensures Accounts(Of(Step(s, e), m),
                     if e == Collecting && Collectable(s) then WithWindow(sums, Part(Collected(s), m)) else sums,
                     a + (if Measures(s, e, m) then [e.arrival] else []), m)
  {
    hide Accounts, Count, Fits;
    assert a + [] == a;
    match e {
      case Received(n, b) => if n == m { ReceiveAccounts(s, sums, a, b, m); }
      case Collecting => CollectAccounts(s, sums, a, m);
    }
  }

  /** The loss bound for the counters themselves: over every run with packets in order, the losses
      of all windows and the open one never exceed the true loss; for gaps up to 255 they fall short
      by exactly the wraps that lose a packet; and the packets counted plus the true loss give the
      distance from the packet that started the measuring. */
  lemma RunLossBound(es: seq<Event>, m: Media)
    requires Measured(es, m) != [] && Ordered(Measured(es, m), m) && Span(Measured(es, m)) < 0x7FFF_FFFF
    ensures var a, t, e := Measured(es, m), Of(Run(es), m).data, Emitted(es, m);
            && e.losses + t.packetLossCount <= TrueLoss(a)
            && (e.losses + t.packetLossCount == TrueLoss(a) <==> LossyWraps(a) == 0)
            && (GapsWithin(a, 255) ==> e.losses + t.packetLossCount == TrueLoss(a) - LossyWraps(a))
            && LossyWraps(a) <= Last(a).number / 0x1_0000 - a[0].number / 0x1_0000
            && e.packets + t.packetCount + TrueLoss(a) == Span(a) + (if m == VideoMedia then 0 else 1)
  {
    hide Ordered, GapsWithin, TrueLoss, CountedLoss, LossyWraps, FrameChanges, Advancing;
    OrderedAdvances(Measured(es, m), m);
    LossBound(Measured(es, m), m);
    RunAccounts(es, m);
  }

  /** The same counters when packets come in any order and more than once, for video and audio: with
      lossy wraps made good, the losses of all windows and the open one are never fewer than the packets
      that really are missing, and as many exactly when every number stepped over is so once and for
      good, no step back passes a wrap, and no packet in between was ignored. */
  lemma RunCountRightIff(es: seq<Event>, m: Media)
    requires var a := Measured(es, m); a != [] && Fits(a, m) && StepsWithin(Advancing(a, m), 255)
    ensures var a := Measured(es, m);
            var k := Advancing(a, m);
            var counted := Emitted(es, m).losses + Of(Run(es), m).data.packetLossCount + LossyWraps(k);
            var missing := Missing(a, k[0].number, Highest(k));
            && counted >= missing
            && (counted == missing <==> SkipsOnce(k) && NothingIgnored(a, k))
  {
    hide StepsWithin, SkipsOnce, CountedLoss, LossyWraps, Advancing, Missing, NothingIgnored, FrameChanges;
    RunAccounts(es, m);
    CountRightIff(Measured(es, m), m);
  }

  /** Audio with increasing numbers: the count is right exactly when no packet that repeats a
      timestamp is followed by a later frame. */
  lemma AudioRepeatsIff(es: seq<Event>)
    requires var a := Measured(es, AudioMedia);
             && a != [] && Fits(a, AudioMedia) && Increasing(a) && StepsWithin(Advancing(a, AudioMedia), 255)
    ensures var a := Measured(es, AudioMedia);
            var k := Advancing(a, AudioMedia);
            var counted := Emitted(es, AudioMedia).losses + Of(Run(es), AudioMedia).data.packetLossCount + LossyWraps(k);
            counted == Missing(a, a[0].number, Last(k).number)
            <==> RaisesUpTo(a, k)
  {
    hide SkipsOnce, StepsWithin, Increasing, Advancing, CountedLoss, LossyWraps, Missing, NothingIgnored, RaisesUpTo;
    var a := Measured(es, AudioMedia);
    RepeatsLaw(a);
    SkipsOnceIffIncreasing(Advancing(a, AudioMedia));
    RunCountRightIff(es, AudioMedia);
  }

  // ---------------------------------------------------------------- collecting does not disturb counting

  /** The same run with the collections left out. */
  function Uncollected(es: seq<Event>): Traffic {
    if es == [] then INITIAL
    else if Last(es).Collecting? then Uncollected(Butlast(es))
    else Step(Uncollected(Butlast(es)), Last(es))
  }

  predicate SameTrack(t: Track, u: Track) {
    t == u.(collectStartTimestamp := t.collectStartTimestamp, collectStartTime := t.collectStartTime, data := t.data)
  }

  predicate Sums(e: Totals, t: CollectData, u: CollectData) {
    && u.frameCount == ToInt32(e.frames + t.frameCount)
    && u.packetLossCount == ToInt32(e.losses + t.packetLossCount)
    && u.packetCount == ToInt32(e.packets + t.packetCount)
  }

  lemma AddWrapped(e: int, x: int, y: int, k: int)
    requires y == ToInt32(e + x)
    ensures ToInt32(y + k) == ToInt32(e + ToInt32(x + k))
  {
    var i := Int32Multiple(e + x);
    var j := Int32Multiple(x + k);
    assert y + k - (e + ToInt32(x + k)) == 0x1_0000_0000 * (j - i);
    SameWrapped(y + k, e + ToInt32(x + k), j - i);
  }

  lemma SameWrapped(x: int, y: int, k: int)
    requires x - y == 0x1_0000_0000 * k
    ensures ToInt32(x) == ToInt32(y)
  {}

  lemma CountConserves(e: Totals, t: Track, u: Track, p: RtpPacketInfo, time: int, same: bool)
    requires SameTrack(t, u) && Sums(e, t.data, u.data)
    ensures SameTrack(Count(t, p, time, same), Count(u, p, time, same))
    ensures Sums(e, Count(t, p, time, same).data, Count(u, p, time, same).data)
  {
    hide ToInt32, Loss;
    AddWrapped(e.frames, t.data.frameCount, u.data.frameCount, 1);
    AddWrapped(e.packets, t.data.packetCount, u.data.packetCount, 1);
    AddWrapped(e.losses, t.data.packetLossCount, u.data.packetLossCount, Loss(t.lastSequenceNumber, p.sequenceNumber));
  }

  ghost predicate Matches(s: Traffic, u: Traffic, v: Totals, a: Totals) {
    && s.startTime == u.startTime && s.videoChangeTimestamp == u.videoChangeTimestamp && s.videoChangedTime == u.videoChangedTime
    && SameTrack(s.video, u.video) && SameTrack(s.audio, u.audio)
    && Sums(v, s.video.data, u.video.data) && Sums(a, s.audio.data, u.audio.data)
  }

  lemma ReceiveConserves(s: Traffic, u: Traffic, v: Totals, a: Totals, m: Media, b: Arrival)
    requires Matches(s, u, v, a)
    ensures Matches(Step(s, Received(m, b)), Step(u, Received(m, b)), v, a)
  {
    hide Count, Sums;
    var p := Packet(b);
    if m == VideoMedia {
      CountConserves(v, s.video, u.video, p, b.time, true);
      assert Begins(s.video, p, s.startTime, b.now) == Begins(u.video, p, u.startTime, b.now);
    } else {
      CountConserves(a, s.audio, u.audio, p, b.time, false);
      assert Begins(s.audio, p, s.startTime, b.now) == Begins(u.audio, p, u.startTime, b.now);
      assert SameTrack(Begin(s.audio, p, b.time), Begin(u.audio, p, b.time));
      assert Sums(a, Begin(s.audio, p, b.time).data, Begin(u.audio, p, b.time).data);
      CountConserves(a, Begin(s.audio, p, b.time), Begin(u.audio, p, b.time), p, b.time, false);
    }
  }

  lemma CollectConserves(s: Traffic, u: Traffic, v: Totals, a: Totals)
    requires Matches(s, u, v, a)
    ensures Collectable(s) ==>
              Matches(CollectStep(s), u, WithWindow(v, Collected(s).video), WithWindow(a, Collected(s).audio))
    ensures !Collectable(s) ==> Matches(CollectStep(s), u, v, a)
  {
    hide ToInt32, ToUInt32;
  }

  /** For every run, ordered or not: collecting changes nothing but where the counts are held. The
      windows plus the open window are, in the 32-bit arithmetic of the counters, the counts of the
      same run without collections, for video and audio together. */
  lemma {:induction false} WindowsConserve(es: seq<Event>)
    ensures Matches(Run(es), Uncollected(es), Emitted(es, VideoMedia), Emitted(es, AudioMedia))
  {
    hide Matches, CollectStep, VideoStep, AudioStep, Collectable, WithWindow, Collected;
    if es == [] {
      assert Matches(INITIAL, INITIAL, Totals(0, 0, 0, 0), Totals(0, 0, 0, 0)) by { InitiallyMatches(); }
    } else {
      WindowsConserve(Butlast(es));
      var s, u := Run(Butlast(es)), Uncollected(Butlast(es));
      var v, a := Emitted(Butlast(es), VideoMedia), Emitted(Butlast(es), AudioMedia);
      match Last(es) {
        case Received(m, b) => ReceiveConserves(s, u, v, a, m, b);
        case Collecting => CollectConserves(s, u, v, a);
      }
    }
  }

  lemma InitiallyMatches()
    ensures Matches(INITIAL, INITIAL, Totals(0, 0, 0, 0), Totals(0, 0, 0, 0))
  {}

  // ---------------------------------------------------------------- durations

  lemma AdvanceModulo(sum: int, from: int, at: int, to: int)
    requires ToUInt32(sum) == ToUInt32(at - from)
    ensures ToUInt32(sum + ToUInt32(to - at)) == ToUInt32(to - from)
  {
    var i := UInt32Multiple(sum);
    var j := UInt32Multiple(at - from);
    var k := UInt32Multiple(to - at);
    assert sum + ToUInt32(to - at) - (to - from) == 0x1_0000_0000 * (i - j - k);
    SameModulo(sum + ToUInt32(to - at), to - from, i - j - k);
  }

  lemma SameModulo(x: int, y: int, k: int)
    requires x - y == 0x1_0000_0000 * k
    ensures ToUInt32(x) == ToUInt32(y)
  {}

  /** The durations so far, modulo 2^32, reach from the start of the measuring to the start of the
      open window. */
  predicate OnClock(t: Track, sum: int) {
    if t.started then ToUInt32(sum) == ToUInt32(t.collectStartTime - t.startTime) else sum == 0
  }

  lemma ReceiveOnClock(s: Traffic, sum: int, n: Media, b: Arrival, m: Media)
    requires OnClock(Of(s, m), sum)
    ensures OnClock(Of(Step(s, Received(n, b)), m), sum)
  {
    hide ToInt32, Loss;
  }

  lemma CollectOnClock(s: Traffic, sum: int, m: Media)
    requires OnClock(Of(s, m), sum)
    ensures OnClock(Of(CollectStep(s), m), if Collectable(s) then sum + Part(Collected(s), m).duration else sum)
  {
    hide ToUInt32, ToInt32;
    var t := Of(s, m);
    if Collectable(s) {
      AdvanceModulo(sum, t.startTime, t.collectStartTime, if m == VideoMedia then s.videoChangedTime else s.audio.lastTime);
    }
  }

  /** In every run, whatever the order of packets, times and collections: the durations of the
      windows telescope modulo 2^32. */
  lemma {:induction false} DurationsModulo(es: seq<Event>, m: Media)
    ensures OnClock(Of(Run(es), m), Emitted(es, m).duration)
  {
    hide OnClock, CollectStep, VideoStep, AudioStep, Collectable, Collected;
    if es == [] {
      assert OnClock(Of(INITIAL, m), 0) by { StoppedClock(m); }
    } else {
      DurationsModulo(Butlast(es), m);
      var s, sum := Run(Butlast(es)), Emitted(Butlast(es), m).duration;
      match Last(es) {
        case Received(n, b) => ReceiveOnClock(s, sum, n, b, m);
        case Collecting => CollectOnClock(s, sum, m);
      }
    }
  }

  lemma StoppedClock(m: Media)
    ensures OnClock(Of(INITIAL, m), 0)
  {}

  /** When the video timestamp last changed after measuring began. */
  function LastChange(es: seq<Event>): Option<int> {
    if es == [] then None
    else
      var before := Run(Butlast(es)).video;
      match Last(es)
      case Received(VideoMedia, a) =>
        if before.started && before.lastTimestamp < a.timestamp then Some(a.time) else LastChange(Butlast(es))
      case _ => LastChange(Butlast(es))
  }

  /** No window was handed out before the first change of the video timestamp. */
  predicate NoEarlyWindow(es: seq<Event>) {
    if es == [] then true
    else NoEarlyWindow(Butlast(es)) && (Last(es).Collecting? && Collectable(Run(Butlast(es))) ==> LastChange(Butlast(es)).Some?)
  }

  /** Receive times do not go back, and span less than 2^32 ms. */
  predicate Steady(a: seq<Arrival>) {
    && (forall i, j :: 0 <= i <= j < |a| ==> a[i].time <= a[j].time)
    && (a != [] ==> Last(a).time - a[0].time < 0x1_0000_0000)
  }

  /** Up to when the first window reported that was not early. */
  function FirstReach(es: seq<Event>): Option<int> {
    if es == [] then None
    else if FirstReach(Butlast(es)).Some? then FirstReach(Butlast(es))
    else if Last(es).Collecting? && Collectable(Run(Butlast(es))) then LastChange(Butlast(es))
    else None
  }

  /** What an early window adds to the sum: 2^32, unless the times have passed a multiple of it by the
      next window. */
  function Surplus(early: bool, begin: int, reach: int): int {
    if early && begin / 0x1_0000_0000 == reach / 0x1_0000_0000 then 0x1_0000_0000 else 0
  }

  ghost predicate Timed(s: Traffic, sum: int, change: Option<int>, early: bool, reach: Option<int>, a: seq<Arrival>) {
    && (s.video.started <==> a != [])
    && (a == [] ==> sum == 0 && change == None && !early)
    && s.videoChangedTime == (if change.Some? then change.value else 0)
    && (change.None? ==> reach.None?)
    && (a != [] ==>
          && s.video.startTime == a[0].time
          && (change.Some? ==> a[0].time <= change.value <= Last(a).time)
          && (reach.None? ==>
                && s.video.collectStartTime == (if early then 0 else a[0].time)
                && sum == (if early then ToUInt32(-a[0].time) else 0)
                && (early ==> a[0].time % 0x1_0000_0000 != 0))
          && (reach.Some? ==>
                && a[0].time <= reach.value <= s.video.collectStartTime <= change.value
                && sum == s.video.collectStartTime - a[0].time + Surplus(early, a[0].time, reach.value)))
  }

  lemma SteadyPrefix(a: seq<Arrival>, b: Arrival)
    requires Steady(a + [b])
    ensures Steady(a)
    ensures a != [] ==> a[0].time <= Last(a).time <= b.time < a[0].time + 0x1_0000_0000
  {
    var c := a + [b];
    assert forall i :: 0 <= i < |a| ==> c[i] == a[i];
    if a != [] { assert c[|a| - 1] == Last(a) && c[0] == a[0] && c[|a|] == b && Last(c) == b; }
  }

  lemma ReceiveTimed(s: Traffic, sum: int, change: Option<int>, early: bool, reach: Option<int>, a: seq<Arrival>, b: Arrival)
    requires Timed(s, sum, change, early, reach, a) && s.video.started && Steady(a + [b])
    ensures Timed(VideoStep(s, Packet(b), b.time, b.now), sum,
                  if s.video.lastTimestamp < b.timestamp then Some(b.time) else change, early, reach, a + [b])
  {
    hide Steady, Surplus;
    SteadyPrefix(a, b);
    assert Last(a + [b]) == b && (a + [b])[0] == a[0];
    var t := Count(s.video, Packet(b), b.time, true);
    assert t.started && t.startTime == s.video.startTime && t.collectStartTime == s.video.collectStartTime;
  }

  /** The clock from `begin` through 0 to `to`, in two durations. */
  lemma TwoDurations(begin: int, to: int)
    requires begin <= to < begin + 0x1_0000_0000 && begin % 0x1_0000_0000 != 0
    ensures ToUInt32(-begin) + ToUInt32(to) == to - begin + Surplus(true, begin, to)
  {
    var f := 0x1_0000_0000;
    var k, u := begin / f, begin % f;
    assert -begin == (-k - 1) * f + (f - u);
    ResidueIs(-begin, -k - 1, f - u);
    if to < (k + 1) * f {
      ResidueIs(to, k, to - k * f);
    } else {
      ResidueIs(to, k + 1, to - (k + 1) * f);
    }
  }

  lemma ResidueIs(x: int, k: int, r: int)
    requires x == k * 0x1_0000_0000 + r && 0 <= r < 0x1_0000_0000
    ensures ToUInt32(x) == r && x / 0x1_0000_0000 == k
  {}

  lemma CollectTimed(s: Traffic, sum: int, change: Option<int>, early: bool, reach: Option<int>, a: seq<Arrival>)
    requires Timed(s, sum, change, early, reach, a) && Steady(a)
    ensures var c := Collectable(s);
            Timed(CollectStep(s), if c then sum + Collected(s).video.duration else sum, change,
                  early || (c && change.None?), if c && reach.None? then change else reach, a)
  {
    hide Surplus, ToUInt32, ToInt32;
    if Collectable(s) {
      var begin := a[0].time;
      assert a[|a| - 1] == Last(a);
      if change.None? {
        ResidueIs(0, 0, 0);
        NotZero(begin);
        assert !early;
      } else if reach.Some? {
        ResidueIs(change.value - s.video.collectStartTime, 0, change.value - s.video.collectStartTime);
      } else if early {
        TwoDurations(begin, change.value);
      } else {
        ResidueIs(change.value - begin, 0, change.value - begin);
        NoSurplus(begin, change.value);
      }
    }
  }

  lemma NotZero(begin: int)
    ensures ToUInt32(-begin) != 0 ==> begin % 0x1_0000_0000 != 0
  {}

  lemma NoSurplus(begin: int, reach: int)
    ensures Surplus(false, begin, reach) == 0
  {}

  lemma {:induction false} RunTimed(es: seq<Event>)
    requires Steady(Measured(es, VideoMedia))
    ensures Timed(Run(es), Emitted(es, VideoMedia).duration, LastChange(es), !NoEarlyWindow(es), FirstReach(es),
                  Measured(es, VideoMedia))
  {
    hide Count, Steady, CollectStep, Collectable, Collected, Timed;
    if es == [] {
      assert Timed(INITIAL, 0, None, false, None, []) by { NothingTimed(); }
    } else {
      var before, s, e := Butlast(es), Run(Butlast(es)), Last(es);
      var a, sum, change := Measured(before, VideoMedia), Emitted(before, VideoMedia).duration, LastChange(before);
      var early, reach := !NoEarlyWindow(before), FirstReach(before);
      if Measures(s, e, VideoMedia) { SteadyPrefix(a, e.arrival); } else { assert Measured(es, VideoMedia) == a; }
      RunTimed(before);
      match e {
        case Collecting => CollectTimed(s, sum, change, early, reach, a);
        case Received(VideoMedia, b) =>
          if s.video.started { ReceiveTimed(s, sum, change, early, reach, a, b); }
          else { BeginTimed(s, sum, change, early, reach, a, b); }
        case Received(AudioMedia, b) => AudioTimed(s, sum, change, early, reach, a, b);
      }
    }
  }

  lemma NothingTimed()
    ensures Timed(INITIAL, 0, None, false, None, [])
  {}

  lemma BeginTimed(s: Traffic, sum: int, change: Option<int>, early: bool, reach: Option<int>, a: seq<Arrival>, b: Arrival)
    requires Timed(s, sum, change, early, reach, a) && !s.video.started
    ensures Timed(VideoStep(s, Packet(b), b.time, b.now), sum, change, early, reach,
                  a + if Measures(s, Received(VideoMedia, b), VideoMedia) then [b] else [])
  {}

  lemma AudioTimed(s: Traffic, sum: int, change: Option<int>, early: bool, reach: Option<int>, a: seq<Arrival>, b: Arrival)
    requires Timed(s, sum, change, early, reach, a)
    ensures Timed(AudioStep(s, Packet(b), b.time, b.now), sum, change, early, reach, a)
  {
    hide Count;
  }

  /** The video durations of the windows, exactly: they add up to the time of the last timestamp change
      before the last collection, minus the time measuring began, and 2^32 more if a window was early
      and the next one came before the times passed a multiple of 2^32. */
  lemma DurationsTelescopeIff(es: seq<Event>)
    requires Steady(Measured(es, VideoMedia)) && Collectable(Run(es)) && LastChange(es).Some?
    ensures Measured(es, VideoMedia) != [] && FirstReach(es + [Collecting]).Some?
    ensures var begin, reach := Measured(es, VideoMedia)[0].time, FirstReach(es + [Collecting]).value;
            && begin <= reach <= LastChange(es).value
            && Emitted(es + [Collecting], VideoMedia).duration
               == LastChange(es).value - begin + Surplus(!NoEarlyWindow(es), begin, reach)
            && (Emitted(es + [Collecting], VideoMedia).duration == LastChange(es).value - begin
                <==> NoEarlyWindow(es) || begin / 0x1_0000_0000 != reach / 0x1_0000_0000)
  {
    hide Collectable, CollectStep, Collected;
    RunTimed(es);
    CollectTimed(Run(es), Emitted(es, VideoMedia).duration, LastChange(es), !NoEarlyWindow(es), FirstReach(es),
                 Measured(es, VideoMedia));
    assert Butlast(es + [Collecting]) == es;
    StartedBoth(Run(es));
  }

  lemma StartedBoth(s: Traffic)
    requires Collectable(s)
    ensures s.video.started && CollectStep(s).video.collectStartTime == s.videoChangedTime
  {}

  /** The case without an early window. */
  lemma DurationsTelescope(es: seq<Event>)
    requires Steady(Measured(es, VideoMedia)) && NoEarlyWindow(es)
    requires Collectable(Run(es)) && LastChange(es).Some?
    ensures Measured(es, VideoMedia) != []
    ensures Emitted(es + [Collecting], VideoMedia).duration
            == LastChange(es).value - Measured(es, VideoMedia)[0].time
  {
    DurationsTelescopeIff(es);
  }

  /** The condition is needed: a window handed out before any change reports, instead of zero, the
      start time negated modulo 2^32. */
  lemma {:induction false} EarlyWindow(es: seq<Event>)
    requires Collectable(Run(es)) && LastChange(es).None?
    ensures Collected(Run(es)).video.duration == ToUInt32(-Run(es).video.startTime)
  {
    NeverChanged(es);
  }

  lemma {:induction false} NeverChanged(es: seq<Event>)
    requires LastChange(es).None?
    ensures Run(es).videoChangedTime == 0
    ensures Run(es).video.started ==> Run(es).video.collectStartTime in {0, Run(es).video.startTime}
  {
    hide ToUInt32, ToInt32, Loss, Collectable;
    if es != [] { NeverChanged(Butlast(es)); }
  }

  // ---------------------------------------------------------------- a run with an early window

  lemma MoreEvents(es: seq<Event>, e: Event)
    ensures Run(es + [e]) == Step(Run(es), e)
    ensures LastChange(es + [e]) ==
              if e.Received? && e.media == VideoMedia && Run(es).video.started && Run(es).video.lastTimestamp < e.arrival.timestamp
              then Some(e.arrival.time) else LastChange(es)
    ensures NoEarlyWindow(es + [e]) <==> NoEarlyWindow(es) && (e.Collecting? && Collectable(Run(es)) ==> LastChange(es).Some?)
    ensures Measured(es + [e], VideoMedia) ==
              Measured(es, VideoMedia) + (if Measures(Run(es), e, VideoMedia) then [e.arrival] else [])
  {
    hide Step, Collectable, Measures;
    assert Butlast(es + [e]) == es && Last(es + [e]) == e;
  }

  /** Both media are started and no second video frame has come. */
  ghost predicate NoChangeYet(es: seq<Event>, audioTime: int) {
    && LastChange(es).None? && NoEarlyWindow(es) && Measured(es, VideoMedia) == [Arrival(1, 2, 5000, 10)]
    && var s := Run(es);
    && s.video == Track(true, 2, 5000, 2, 5000, 1, 2, 5000, NO_DATA) && s.videoChangedTime == 0
    && s.audio.started && s.audio.collectStartTime == 5000
    && s.audio.lastTimestamp == 2 && s.audio.lastTime == audioTime
  }

  lemma VideoBegins() returns (es: seq<Event>)
    ensures LastChange(es).None? && NoEarlyWindow(es) && Measured(es, VideoMedia) == [Arrival(1, 2, 5000, 10)]
    ensures Run(es) == Traffic(1, Track(true, 2, 5000, 2, 5000, 1, 2, 5000, NO_DATA), NO_TRACK, 0, 0)
  {
    var a, b := Received(VideoMedia, Arrival(0, 1, 5000, 1)), Received(VideoMedia, Arrival(1, 2, 5000, 10));
    MoreEvents([], a);
    assert Run([] + [a]) == Traffic(1, NO_TRACK.(lastTimestamp := 1, lastTime := 5000), NO_TRACK, 0, 0);
    MoreEvents([] + [a], b);
    es := [] + [a] + [b];
  }

  lemma AudioBegins() returns (es: seq<Event>)
    ensures NoChangeYet(es, 5000)
  {
    hide Count;
    var before := VideoBegins();
    var a, b := Received(AudioMedia, Arrival(0, 1, 5000, 10)), Received(AudioMedia, Arrival(1, 2, 5000, 10));
    MoreEvents(before, a);
    var waiting := NO_TRACK.(lastTimestamp := 1, lastTime := 5000);
    assert Run(before + [a]).audio == waiting;
    MoreEvents(before + [a], b);
    CountIgnored(Begin(waiting, Packet(b.arrival), 5000), Packet(b.arrival), 5000, false);
    es := before + [a] + [b];
  }

  lemma AudioGoesOn(s: Traffic, a: Arrival)
    requires s.audio.started && s.audio.lastTimestamp < a.timestamp
    ensures var t := AudioStep(s, Packet(a), a.time, a.now);
            && t == s.(audio := t.audio) && t.audio.started && t.audio.lastTimestamp == a.timestamp
            && t.audio.lastTime == a.time && t.audio.collectStartTime == s.audio.collectStartTime
  {
    hide Loss, ToInt32;
  }

  lemma VideoChanges(s: Traffic, a: Arrival)
    requires s.video.started && s.video.lastTimestamp < a.timestamp
    ensures var t := VideoStep(s, Packet(a), a.time, a.now);
            && t.audio == s.audio && t.video.started && t.videoChangedTime == a.time
            && t.video.collectStartTime == s.video.collectStartTime
  {
    hide Loss, ToInt32;
  }

  /** The early window is there after nine seconds, and the next one after thirteen. */
  lemma EarlyStates(s: Traffic)
    requires s.video.started && s.videoChangedTime == 0 && s.video.collectStartTime == 5000 && s.video.lastTimestamp == 2
    requires s.audio.started && s.audio.collectStartTime == 5000 && s.audio.lastTimestamp <= 3 && s.audio.lastTime == 9000
    ensures Collectable(s)
    ensures var t := CollectStep(s);
            && t.video.started && t.video.lastTimestamp == 2 && t.video.collectStartTime == 0
            && t.audio.started && t.audio.lastTimestamp <= 3 && t.audio.collectStartTime == 9000
  {
    ResidueIs(-5000, -1, 0x1_0000_0000 - 5000);
    ResidueIs(4000, 0, 4000);
    hide ToUInt32, ToInt32;
  }

  lemma NextReady(s: Traffic)
    requires s.video.started && s.videoChangedTime == 13000 && s.video.collectStartTime == 0
    requires s.audio.started && s.audio.lastTime == 13000 && s.audio.collectStartTime == 9000
    ensures Collectable(s)
  {
    ResidueIs(13000, 0, 13000);
    ResidueIs(4000, 0, 4000);
  }

  lemma EarlyReached() returns (es: seq<Event>)
    ensures Collectable(Run(es)) && LastChange(es).None? && NoEarlyWindow(es)
    ensures Measured(es, VideoMedia) == [Arrival(1, 2, 5000, 10)]
    ensures var t := CollectStep(Run(es));
            && t.video.started && t.video.lastTimestamp == 2 && t.video.collectStartTime == 0
            && t.audio.started && t.audio.lastTimestamp <= 3 && t.audio.collectStartTime == 9000
  {
    var before := AudioBegins();
    var a := Arrival(2, 3, 9000, 14);
    es := before + [Received(AudioMedia, a)];
    hide Collectable, CollectStep, AudioStep;
    MoreEvents(before, Received(AudioMedia, a));
    AudioGoesOn(Run(before), a);
    EarlyStates(Run(es));
  }

  lemma LaterReached(es: seq<Event>) returns (later: seq<Event>)
    requires LastChange(es).None? && !NoEarlyWindow(es) && Measured(es, VideoMedia) == [Arrival(1, 2, 5000, 10)]
    requires var t := Run(es);
             && t.video.started && t.video.lastTimestamp == 2 && t.video.collectStartTime == 0
             && t.audio.started && t.audio.lastTimestamp <= 3 && t.audio.collectStartTime == 9000
    ensures es <= later && Collectable(Run(later)) && LastChange(later) == Some(13000) && !NoEarlyWindow(later)
    ensures Measured(later, VideoMedia) == [Arrival(1, 2, 5000, 10), Arrival(2, 3, 13000, 18)]
  {
    var b, c := Arrival(2, 3, 13000, 18), Arrival(3, 4, 13000, 18);
    var changed := es + [Received(VideoMedia, b)];
    later := changed + [Received(AudioMedia, c)];
    hide Collectable, VideoStep, AudioStep, Run, LastChange, Measured, NoEarlyWindow;
    MoreEvents(es, Received(VideoMedia, b));
    VideoChanges(Run(es), b);
    MoreEvents(changed, Received(AudioMedia, c));
    AudioGoesOn(Run(changed), c);
    NextReady(Run(later));
  }

  /** A run in which a window is handed out early, and what the durations add up to after the next one:
      eight seconds have passed. */
  lemma EarlyWindowRun() returns (es: seq<Event>, later: seq<Event>)
    ensures Collectable(Run(es)) && LastChange(es).None?
    ensures es + [Collecting] <= later && Collectable(Run(later))
    ensures LastChange(later).Some? && Measured(later, VideoMedia) != []
    ensures LastChange(later).value - Measured(later, VideoMedia)[0].time == 8000
    ensures Emitted(later + [Collecting], VideoMedia).duration == 8000 + 0x1_0000_0000
  {
    hide Run, LastChange, NoEarlyWindow, Measured, Emitted, FirstReach, Collectable, CollectStep, Steady;
    es := EarlyReached();
    MoreEvents(es, Collecting);
    assert Measured(es + [Collecting], VideoMedia) == Measured(es, VideoMedia) + [];
    later := LaterReached(es + [Collecting]);
    TwoTimes(Arrival(1, 2, 5000, 10), Arrival(2, 3, 13000, 18));
    DurationsTelescopeIff(later);
    ResidueIs(5000, 0, 5000);
    ResidueIs(FirstReach(later + [Collecting]).value, 0, FirstReach(later + [Collecting]).value);
  }

  lemma TwoTimes(a: Arrival, b: Arrival)
    requires a.time <= b.time < a.time + 0x1_0000_0000
    ensures Steady([a, b])
  {}
}
