/** Lists of RTP packets: what was really lost, and what comparing 16-bit numbers counts. */
module RtpTruth {
  import opened Bytes
  import opened RtpTraffic

  datatype Media = VideoMedia | AudioMedia

  /** A packet with its unwrapped sequence number; the wire carries the number modulo 2^16. */
  datatype Arrival = Arrival(number: nat, timestamp: uint32, time: int, now: int)

  function Packet(a: Arrival): RtpPacketInfo { RtpPacketInfo(a.number % 0x1_0000, a.timestamp) }

  function Butlast<T>(s: seq<T>): seq<T>
    requires s != []
  {
    s[..|s| - 1]
  }

  function Last<T>(s: seq<T>): T
    requires s != []
  {
    s[|s| - 1]
  }

  // ---------------------------------------------------------------- the truth about a list of packets

  /** Numbers increase and timestamps do not go back; for audio they increase. */
  predicate Ordered(a: seq<Arrival>, m: Media) {
    forall i :: 0 < i < |a| ==>
      && a[i - 1].number < a[i].number
      && a[i - 1].timestamp <= a[i].timestamp
      && (m == AudioMedia ==> a[i - 1].timestamp != a[i].timestamp)
  }

  predicate GapsWithin(a: seq<Arrival>, bound: nat) {
    forall i :: 0 < i < |a| ==> a[i].number - a[i - 1].number <= bound
  }

  function Span(a: seq<Arrival>): int { if a == [] then 0 else Last(a).number - a[0].number }

  function TrueLoss(a: seq<Arrival>): int {
    if |a| < 2 then 0 else TrueLoss(Butlast(a)) + Last(a).number - a[|a| - 2].number - 1
  }

  function CountedLoss(a: seq<Arrival>): int {
    if |a| < 2 then 0
    else CountedLoss(Butlast(a)) + Loss(a[|a| - 2].number % 0x1_0000, Last(a).number % 0x1_0000)
  }

  function FrameChanges(a: seq<Arrival>): nat {
    if |a| < 2 then 0 else FrameChanges(Butlast(a)) + if a[|a| - 2].timestamp < Last(a).timestamp then 1 else 0
  }

  /** Does the step from `x` to `y` pass a multiple of 2^16? */
  predicate Wraps(x: nat, y: nat) { x / 0x1_0000 != y / 0x1_0000 }

  /** The steps that wrap and lose at least one packet. */
  function LossyWraps(a: seq<Arrival>): nat {
    if |a| < 2 then 0
    else LossyWraps(Butlast(a)) + if Wraps(a[|a| - 2].number, Last(a).number) && a[|a| - 2].number + 1 < Last(a).number then 1 else 0
  }

  /** One step, whatever the gap: never too much is counted; the count is right exactly when the step
      does not wrap or loses nothing; for gaps up to 255 a lossy wrap falls short by one. */
  lemma StepLoss(x: nat, y: nat)
    requires x < y
    ensures 0 <= Loss(x % 0x1_0000, y % 0x1_0000) <= y - x - 1
    ensures Loss(x % 0x1_0000, y % 0x1_0000) == y - x - 1 <==> !(Wraps(x, y) && x + 1 < y)
    ensures y - x <= 255 && Wraps(x, y) && x + 1 < y ==> Loss(x % 0x1_0000, y % 0x1_0000) == y - x - 2
  {
    assert x == x / 0x1_0000 * 0x1_0000 + x % 0x1_0000;
    assert y == y / 0x1_0000 * 0x1_0000 + y % 0x1_0000;
    assert x / 0x1_0000 <= y / 0x1_0000;
  }

  /** Over a whole list: packets and true losses fill the span, the counted loss never exceeds the
      true loss, agrees with it exactly when no wrap loses a packet, and for gaps up to 255 falls
      short by the number of such wraps, at most one for each wrap passed. */
  lemma {:induction false} LossBound(a: seq<Arrival>, m: Media)
    requires a != [] && Ordered(a, m)
    ensures |a| - 1 + TrueLoss(a) == Span(a)
    ensures 0 <= CountedLoss(a) <= TrueLoss(a)
    ensures CountedLoss(a) == TrueLoss(a) <==> LossyWraps(a) == 0
    ensures GapsWithin(a, 255) ==> CountedLoss(a) == TrueLoss(a) - LossyWraps(a)
    ensures LossyWraps(a) <= Last(a).number / 0x1_0000 - a[0].number / 0x1_0000
    ensures FrameChanges(a) < |a| && (m == AudioMedia ==> FrameChanges(a) == |a| - 1)
  {
    hide Loss, Wraps;
    if |a| >= 2 {
      var x, y := a[|a| - 2].number, Last(a).number;
      LossBound(Butlast(a), m);
      StepLoss(x, y);
      if Wraps(x, y) { WrapsForward(x, y); }
      assert x / 0x1_0000 <= y / 0x1_0000;
    }
  }

  lemma WrapsForward(x: nat, y: nat)
    requires x < y && Wraps(x, y)
    ensures x / 0x1_0000 < y / 0x1_0000
  {}

  lemma OrderedPrefix(a: seq<Arrival>, b: Arrival, m: Media)
    requires Ordered(a + [b], m)
    ensures Ordered(a, m) && Span(a) <= Span(a + [b])
    ensures a != [] ==> Last(a).number < b.number && Last(a).timestamp <= b.timestamp
    ensures a != [] && m == AudioMedia ==> Last(a).timestamp < b.timestamp
  {
    var c := a + [b];
    assert forall i :: 0 <= i < |a| ==> c[i] == a[i];
    if a != [] {
      assert c[|a|] == b && c[|a| - 1] == Last(a);
      if |a| > 1 { OrderedSpan(a, m); }
    }
  }

  lemma {:induction false} OrderedSpan(a: seq<Arrival>, m: Media)
    requires a != [] && (forall i :: 0 < i < |a| ==> a[i - 1].number < a[i].number)
    ensures Span(a) >= 0
  {
    if |a| > 1 { OrderedSpan(Butlast(a), m); }
  }

  // ---------------------------------------------------------------- any order

  /** Does a packet with `y` move a track on whose last such packet was `x`? A video packet does
      unless its timestamp goes back, an audio packet only if its timestamp is new. */
  predicate Moves(x: Arrival, y: Arrival, m: Media) {
    x.timestamp < y.timestamp || (m == VideoMedia && x.timestamp == y.timestamp)
  }

  /** The packets whose numbers are compared; the others are ignored but for their count. */
  function Advancing(a: seq<Arrival>, m: Media): (r: seq<Arrival>)
    ensures |r| <= |a| && (a != [] ==> r != [] && r[0] == a[0])
  {
    if a == [] then []
    else
      var k := Advancing(Butlast(a), m);
      if k == [] || Moves(Last(k), Last(a), m) then k + [Last(a)] else k
  }

  lemma {:induction false} OrderedAdvances(a: seq<Arrival>, m: Media)
    requires Ordered(a, m)
    ensures Advancing(a, m) == a
  {
    if a != [] {
      assert a == Butlast(a) + [Last(a)];
      OrderedPrefix(Butlast(a), Last(a), m);
      OrderedAdvances(Butlast(a), m);
    }
  }

  lemma {:induction false} CountedGrows(a: seq<Arrival>)
    ensures CountedLoss(a) >= 0
    ensures a != [] ==> CountedLoss(Butlast(a)) <= CountedLoss(a)
    ensures FrameChanges(a) <= |a|
  {
    if |a| >= 2 { CountedGrows(Butlast(a)); }
  }

  predicate Increasing(a: seq<Arrival>) { forall i :: 0 < i < |a| ==> a[i - 1].number < a[i].number }

  /** No step goes further than `bound` either way. */
  predicate StepsWithin(a: seq<Arrival>, bound: nat) {
    forall i :: 0 < i < |a| ==> a[i].number <= a[i - 1].number + bound && a[i - 1].number <= a[i].number + bound
  }

  function Highest(a: seq<Arrival>): nat
    requires a != []
  {
    if |a| == 1 then a[0].number
    else if Last(a).number > Highest(Butlast(a)) then Last(a).number
    else Highest(Butlast(a))
  }

  lemma IncreasingPrefix(a: seq<Arrival>)
    requires |a| >= 2
    ensures Increasing(a) <==> Increasing(Butlast(a)) && a[|a| - 2].number < Last(a).number
    ensures forall bound: nat :: StepsWithin(a, bound) ==> StepsWithin(Butlast(a), bound)
  {
    assert forall i :: 0 <= i < |a| - 1 ==> Butlast(a)[i] == a[i];
  }

  lemma {:induction false} HighestLast(a: seq<Arrival>)
    requires a != []
    ensures Highest(a) >= Last(a).number && Highest(a) >= a[0].number
    ensures Increasing(a) ==> Highest(a) == Last(a).number
    ensures forall i :: 0 <= i < |a| ==> a[i].number <= Highest(a)
  {
    if |a| >= 2 {
      IncreasingPrefix(a);
      HighestLast(Butlast(a));
      assert forall i :: 0 <= i < |a| - 1 ==> Butlast(a)[i] == a[i];
    }
  }

  /** What is counted, lossy wraps made good, against the numbers between the first packet and the
      highest that no packet of the list can account for. */
  function Excess(a: seq<Arrival>): int
    requires a != []
  {
    CountedLoss(a) + LossyWraps(a) - (Highest(a) - a[0].number - (|a| - 1))
  }

  /** However the packets are ordered, what is counted is never too little, and it is right exactly
      when their numbers increase. */
  lemma {:induction false} ExcessLaw(a: seq<Arrival>)
    requires a != [] && StepsWithin(a, 255)
    ensures Excess(a) >= 0
    ensures Excess(a) == 0 <==> Increasing(a)
  {
    hide Loss, Wraps, Increasing, StepsWithin;
    if |a| >= 2 {
      var x, y := a[|a| - 2].number, Last(a).number;
      IncreasingPrefix(a);
      assert y <= x + 255 by { LastStep(a, 255); }
      ExcessLaw(Butlast(a));
      HighestLast(Butlast(a));
      if x < y { StepLoss(x, y); } else { LossNotNegative(x % 0x1_0000, y % 0x1_0000); }
    } else {
      assert Increasing(a) by { OneIncreases(a); }
    }
  }

  lemma LossNotNegative(x: int, y: int)
    ensures Loss(x, y) >= 0
  {}

  lemma OneIncreases(a: seq<Arrival>)
    requires |a| < 2
    ensures Increasing(a)
  {}

  lemma LastStep(a: seq<Arrival>, bound: nat)
    requires |a| >= 2 && StepsWithin(a, bound)
    ensures Last(a).number <= a[|a| - 2].number + bound
  {}

  // ---------------------------------------------------------------- numbers that never arrived

  predicate Has(a: seq<Arrival>, n: int) { exists i :: 0 <= i < |a| && a[i].number == n }

  /** How many numbers above `low` up to `high` no packet carries. */
  function Missing(a: seq<Arrival>, low: int, high: int): nat
    decreases high - low
  {
    if high <= low then 0 else Missing(a, low, high - 1) + if Has(a, high) then 0 else 1
  }

  predicate Distinct(a: seq<Arrival>) { forall i, j :: 0 <= i < j < |a| ==> a[i].number != a[j].number }

  lemma HasMore(a: seq<Arrival>, b: Arrival, n: int)
    ensures Has(a + [b], n) <==> Has(a, n) || b.number == n
  {
    if Has(a, n) {
      var i :| 0 <= i < |a| && a[i].number == n;
      assert (a + [b])[i].number == n;
    }
    if b.number == n { assert (a + [b])[|a|].number == n; }
    if Has(a + [b], n) {
      var i :| 0 <= i < |a| + 1 && (a + [b])[i].number == n;
      assert i < |a| ==> a[i].number == n;
    }
  }

  lemma {:induction false} MissingMore(a: seq<Arrival>, b: Arrival, low: int, high: int)
    ensures Missing(a + [b], low, high) == Missing(a, low, high) - (if low < b.number <= high && !Has(a, b.number) then 1 else 0)
    decreases high - low
  {
    hide Has;
    if high > low {
      MissingMore(a, b, low, high - 1);
      HasMore(a, b, high);
    }
  }

  lemma {:induction false} MissingFromOne(b: Arrival, high: int)
    ensures Missing([b], b.number, high) == if high <= b.number then 0 else high - b.number
    decreases high - b.number
  {
    if high > b.number { MissingFromOne(b, high - 1); }
  }

  /** Distinct packets after the first, all numbered above it: the others up to `high` are missing. */
  lemma {:induction false} MissingCount(a: seq<Arrival>, high: int)
    requires a != [] && Distinct(a)
    requires forall i :: 0 < i < |a| ==> a[0].number < a[i].number
    requires forall i :: 0 <= i < |a| ==> a[i].number <= high
    ensures Missing(a, a[0].number, high) == high - a[0].number - (|a| - 1)
  {
    if |a| == 1 {
      assert a == [a[0]];
      MissingFromOne(a[0], high);
    } else {
      var front := Butlast(a);
      assert forall i :: 0 <= i < |front| ==> front[i] == a[i];
      MissingCount(front, high);
      MissingMore(front, Last(a), a[0].number, high);
      assert a == front + [Last(a)];
    }
  }

  /** Leaving packets out of a list makes more numbers missing, unless they carry none of the range
      that the rest has not. */
  lemma {:induction false} MissingSubset(a: seq<Arrival>, k: seq<Arrival>, low: int, high: int)
    requires forall n :: Has(k, n) ==> Has(a, n)
    ensures Missing(a, low, high) <= Missing(k, low, high)
    ensures Missing(a, low, high) == Missing(k, low, high) <==> forall n :: low < n <= high && Has(a, n) ==> Has(k, n)
    decreases high - low
  {
    hide Has;
    if high > low {
      MissingSubset(a, k, low, high - 1);
      assert Has(k, high) ==> Has(a, high);
    }
  }

  lemma {:induction false} AdvancingSubset(a: seq<Arrival>, m: Media, n: int)
    requires Has(Advancing(a, m), n)
    ensures Has(a, n)
  {
    if a != [] {
      var k := Advancing(Butlast(a), m);
      assert a == Butlast(a) + [Last(a)];
      HasMore(Butlast(a), Last(a), n);
      HasMore(k, Last(a), n);
      if Has(k, n) { AdvancingSubset(Butlast(a), m, n); }
    }
  }

  // ---------------------------------------------------------------- numbers stepped over

  /** The step to packet `i` leaves out the number `n`. */
  predicate StepsOver(k: seq<Arrival>, i: int, n: int) { 0 < i < |k| && k[i - 1].number < n < k[i].number }

  predicate WrapsBack(k: seq<Arrival>, i: int) {
    0 < i < |k| && k[i].number < k[i - 1].number && Wraps(k[i].number, k[i - 1].number)
  }

  /** Every number stepped over is above the first, is carried by no packet of the list and is stepped
      over once; and no step back passes a multiple of 2^16. */
  ghost predicate SkipsOnce(k: seq<Arrival>)
    requires k != []
  {
    && (forall i, n :: StepsOver(k, i, n) ==> k[0].number < n && !Has(k, n))
    && (forall i, j, n :: StepsOver(k, i, n) && StepsOver(k, j, n) ==> i == j)
    && (forall i :: !WrapsBack(k, i))
  }

  /** What is counted, lossy wraps made good, against the numbers that are missing. */
  function Over(k: seq<Arrival>): int
    requires k != []
  {
    CountedLoss(k) + LossyWraps(k) - Missing(k, k[0].number, Highest(k))
  }

  function StepCount(x: nat, y: nat): int {
    Loss(x % 0x1_0000, y % 0x1_0000) + if Wraps(x, y) && x + 1 < y then 1 else 0
  }

  lemma StepCounts(x: nat, y: nat)
    requires y <= x + 255 && x <= y + 255
    ensures x < y ==> StepCount(x, y) == y - x - 1
    ensures y <= x ==> StepCount(x, y) >= 0
    ensures y <= x ==> (StepCount(x, y) == 0 <==> !(y < x && Wraps(y, x)))
  {
    if x < y {
      StepLoss(x, y);
    } else {
      assert x == x / 0x1_0000 * 0x1_0000 + x % 0x1_0000;
      assert y == y / 0x1_0000 * 0x1_0000 + y % 0x1_0000;
    }
  }

  lemma {:induction false} HighestHas(a: seq<Arrival>)
    requires a != []
    ensures Has(a, Highest(a))
  {
    if |a| == 1 || Last(a).number > Highest(Butlast(a)) {
      assert Last(a).number == Highest(a);
    } else {
      HighestHas(Butlast(a));
      HasMore(Butlast(a), Last(a), Highest(a));
      assert Butlast(a) + [Last(a)] == a;
    }
  }

  lemma {:induction false} MissingAbove(a: seq<Arrival>, low: int, mid: int, high: int)
    requires low <= mid <= high && forall n :: mid < n <= high ==> !Has(a, n)
    ensures Missing(a, low, high) == Missing(a, low, mid) + high - mid
    decreases high - mid
  {
    hide Has;
    if mid < high { MissingAbove(a, low, mid, high - 1); }
  }

  /** A number between the first and the highest that no packet carries has been stepped over. */
  lemma {:induction false} SteppedOver(k: seq<Arrival>, n: int) returns (i: int)
    requires k != [] && k[0].number < n <= Highest(k) && !Has(k, n)
    ensures StepsOver(k, i, n)
  {
    var front := Butlast(k);
    assert |k| > 1 && k == front + [Last(k)];
    assert forall j :: 0 <= j < |front| ==> front[j] == k[j];
    HasMore(front, Last(k), n);
    if n <= Highest(front) {
      i := SteppedOver(front, n);
    } else {
      HighestLast(front);
      assert Last(front) == k[|k| - 2];
      i := |k| - 1;
    }
  }

  /** The steps of a list with one more packet. */
  lemma MoreSteps(front: seq<Arrival>, b: Arrival)
    requires front != []
    ensures var k, x := front + [b], Last(front).number;
            && (forall i, n :: StepsOver(k, i, n) <==> StepsOver(front, i, n) || (i == |front| && x < n < b.number))
            && (forall i :: WrapsBack(k, i) <==> WrapsBack(front, i) || (i == |front| && b.number < x && Wraps(b.number, x)))
            && (forall n :: Has(k, n) <==> Has(front, n) || b.number == n)
            && k[0] == front[0]
  {
    hide Has, Wraps;
    var k := front + [b];
    assert forall i :: 0 <= i < |front| ==> k[i] == front[i];
    assert k[|front|] == b;
    forall n ensures Has(k, n) <==> Has(front, n) || b.number == n { HasMore(front, b, n); }
  }

  /** The packet that comes next keeps the steps right exactly if it goes on from the highest number,
      steps back to one that was there, or goes up by one to such a number. */
  lemma SkipsOnceMore(front: seq<Arrival>, b: Arrival)
    requires front != [] && SkipsOnce(front)
    ensures var x, y, high, low := Last(front).number, b.number, Highest(front), front[0].number;
            SkipsOnce(front + [b]) <==>
              if y > high then x == high
              else (y <= low || Has(front, y)) && (x < y ==> y == x + 1) && !(y < x && Wraps(y, x))
  {
    hide Has, Wraps, StepsOver, WrapsBack, Highest;
    var k, x, y, high, low := front + [b], Last(front).number, b.number, Highest(front), front[0].number;
    MoreSteps(front, b);
    HighestLast(front);
    HighestHas(front);
    NoneAbove(front);
    if y > high {
      if x < high { assert StepsOver(k, |front|, high); }
    } else {
      if low < y && !Has(front, y) {
        var i := SteppedOver(front, y);
        assert StepsOver(k, i, y);
      }
      if x + 1 < y {
        assert StepsOver(k, |front|, x + 1);
        if low < x + 1 && !Has(front, x + 1) {
          var i := SteppedOver(front, x + 1);
          assert StepsOver(k, i, x + 1) && i < |front| by { StepsInside(front, i, x + 1); }
        }
      }
      if y < x && Wraps(y, x) { assert WrapsBack(k, |front|); }
    }
  }

  lemma StepsInside(k: seq<Arrival>, i: int, n: int)
    requires StepsOver(k, i, n)
    ensures i < |k|
  {}

  /** No packet is above the highest, and no step goes over a number above it. */
  lemma NoneAbove(k: seq<Arrival>)
    requires k != []
    ensures forall n :: n > Highest(k) ==> !Has(k, n)
    ensures forall i, n :: StepsOver(k, i, n) ==> n < Highest(k) && i < |k|
  {
    HighestLast(k);
  }

  lemma SkipsOnceBefore(front: seq<Arrival>, b: Arrival)
    requires front != [] && SkipsOnce(front + [b])
    ensures SkipsOnce(front)
  {
    hide Has, Wraps, StepsOver, WrapsBack;
    MoreSteps(front, b);
  }

  /** However the packets are ordered and repeated, what is counted is never too little, and it is right
      exactly when every number stepped over is so once and for good. */
  lemma {:induction false} SkipLaw(k: seq<Arrival>)
    requires k != [] && StepsWithin(k, 255)
    ensures Over(k) >= 0
    ensures Over(k) == 0 <==> SkipsOnce(k)
  {
    hide Loss, Wraps, SkipsOnce, StepsWithin, Has, Missing;
    if |k| >= 2 {
      var front, b := Butlast(k), Last(k);
      assert k == front + [b];
      IncreasingPrefix(k);
      SkipLaw(front);
      OverMore(front, b);
      if SkipsOnce(front) { SkipsOnceMore(front, b); } else if SkipsOnce(k) { SkipsOnceBefore(front, b); }
    } else {
      OneSkips(k);
    }
  }

  lemma OneSkips(k: seq<Arrival>)
    requires |k| == 1
    ensures SkipsOnce(k) && Missing(k, k[0].number, Highest(k)) == 0
  {}

  /** How one more packet changes the balance. */
  lemma OverMore(front: seq<Arrival>, b: Arrival)
    requires front != [] && StepsWithin(front + [b], 255)
    ensures var x, y, high, low := Last(front).number, b.number, Highest(front), front[0].number;
            var more := Over(front + [b]) - Over(front);
            if y > high then more == high - x >= 0
            else more >= 0 && (more == 0 <==> (y <= low || Has(front, y)) && (x < y ==> y == x + 1) && !(y < x && Wraps(y, x)))
  {
    hide Loss, Wraps, Has, Missing;
    var k, x, y, high, low := front + [b], Last(front).number, b.number, Highest(front), front[0].number;
    assert Butlast(k) == front && k[|k| - 2] == Last(front) && Last(k) == b && k[0] == front[0];
    assert CountedLoss(k) + LossyWraps(k) == CountedLoss(front) + LossyWraps(front) + StepCount(x, y);
    assert y <= x + 255 && x <= y + 255 by { LastStepBoth(k); }
    StepCounts(x, y);
    HighestLast(front);
    NoneAbove(front);
    if y > high {
      MissingAbove(front, low, high, y);
      MissingMore(front, b, low, y);
    } else {
      MissingMore(front, b, low, high);
    }
  }

  lemma LastStepBoth(a: seq<Arrival>)
    requires |a| >= 2 && StepsWithin(a, 255)
    ensures Last(a).number <= a[|a| - 2].number + 255 && a[|a| - 2].number <= Last(a).number + 255
  {}

  /** No ignored packet carries a number between the first packet and the highest compared. */
  predicate NothingIgnored(a: seq<Arrival>, k: seq<Arrival>)
    requires k != []
  {
    forall i :: 0 <= i < |a| && k[0].number < a[i].number <= Highest(k) ==> Has(k, a[i].number)
  }

  /** The exact law for packets in any order and with repeats, video and audio: with lossy wraps made
      good, the count never falls below the number of packets that really are missing, and equals it
      exactly when every number stepped over is so once and for good and no packet in between was
      ignored. */
  lemma CountRightIff(a: seq<Arrival>, m: Media)
    requires a != [] && StepsWithin(Advancing(a, m), 255)
    ensures var k := Advancing(a, m);
            var counted, missing := CountedLoss(k) + LossyWraps(k), Missing(a, k[0].number, Highest(k));
            && counted >= missing
            && (counted == missing <==> SkipsOnce(k) && NothingIgnored(a, k))
  {
    hide StepsWithin, SkipsOnce, CountedLoss, LossyWraps, Advancing, Has, Missing;
    var k := Advancing(a, m);
    SkipLaw(k);
    forall n | Has(k, n) ensures Has(a, n) { AdvancingSubset(a, m, n); }
    MissingSubset(a, k, k[0].number, Highest(k));
    IgnoredNumbers(a, k);
  }

  /** Where no number comes twice and none comes from below the first, the steps are right exactly when
      the numbers increase. */
  lemma SkipsOnceIffIncreasing(k: seq<Arrival>)
    requires k != [] && StepsWithin(k, 255) && Distinct(k)
    requires forall i :: 0 < i < |k| ==> k[0].number < k[i].number
    ensures SkipsOnce(k) <==> Increasing(k)
  {
    hide StepsWithin, SkipsOnce, Increasing, CountedLoss, LossyWraps, Distinct, Missing;
    ExcessLaw(k);
    SkipLaw(k);
    HighestLast(k);
    MissingCount(k, Highest(k));
  }

  lemma IgnoredNumbers(a: seq<Arrival>, k: seq<Arrival>)
    requires k != []
    ensures NothingIgnored(a, k) <==> forall n :: k[0].number < n <= Highest(k) && Has(a, n) ==> Has(k, n)
  {
    if NothingIgnored(a, k) {
      forall n | k[0].number < n <= Highest(k) && Has(a, n) ensures Has(k, n) {
        var i :| 0 <= i < |a| && a[i].number == n;
      }
    }
    if forall n :: k[0].number < n <= Highest(k) && Has(a, n) ==> Has(k, n) {
      forall i | 0 <= i < |a| && k[0].number < a[i].number <= Highest(k) ensures Has(k, a[i].number) {
        assert Has(a, a[i].number);
      }
    }
  }

  // ---------------------------------------------------------------- repeated audio timestamps

  predicate AllRaise(a: seq<Arrival>) { forall i :: 0 < i < |a| ==> a[i - 1].timestamp < a[i].timestamp }

  /** Every packet up to the last compared one raises the timestamp of the packet before it. */
  predicate RaisesUpTo(a: seq<Arrival>, k: seq<Arrival>)
    requires k != []
  {
    forall i :: 0 < i < |a| && a[i].number <= Last(k).number ==> a[i - 1].timestamp < a[i].timestamp
  }

  predicate AllIn(a: seq<Arrival>, k: seq<Arrival>) { forall i :: 0 <= i < |a| ==> Has(k, a[i].number) }

  lemma AdvancingMore(a: seq<Arrival>, b: Arrival, m: Media)
    ensures var k := Advancing(a, m);
            Advancing(a + [b], m) == if k == [] || Moves(Last(k), b, m) then k + [b] else k
    ensures a != [] ==> Advancing(a, m) != [] && |Advancing(a, m)| <= |a|
  {
    assert Butlast(a + [b]) == a;
  }

  lemma {:induction false} RaisesIffAllAdvance(a: seq<Arrival>)
    ensures AllRaise(a) <==> Advancing(a, AudioMedia) == a
  {
    hide Advancing;
    if a == [] {
      assert |Advancing(a, AudioMedia)| <= 0;
    } else {
      var front, b := Butlast(a), Last(a);
      assert a == front + [b];
      assert forall i :: 0 <= i < |front| ==> front[i] == a[i];
      RaisesIffAllAdvance(front);
      AdvancingMore(front, b, AudioMedia);
      if front != [] { assert Last(front) == a[|a| - 2]; }
    }
  }

  lemma IncreasingFront(a: seq<Arrival>)
    requires a != [] && Increasing(a)
    ensures Increasing(Butlast(a)) && forall i :: 0 <= i < |a| - 1 ==> a[i].number < Last(a).number
  {
    var front := Butlast(a);
    assert forall i :: 0 <= i < |front| ==> front[i] == a[i];
    HighestLast(a);
    if front != [] { HighestLast(front); }
  }

  lemma AllInMore(a: seq<Arrival>, b: Arrival, k: seq<Arrival>)
    requires forall i :: 0 <= i < |a| ==> a[i].number < b.number
    ensures AllIn(a + [b], k + [b]) <==> AllIn(a, k)
  {
    hide Has;
    var c := a + [b];
    assert forall i :: 0 <= i < |a| ==> c[i] == a[i];
    assert c[|a|] == b;
    forall n ensures Has(k + [b], n) <==> Has(k, n) || b.number == n { HasMore(k, b, n); }
  }

  lemma NotAllIn(a: seq<Arrival>, b: Arrival, k: seq<Arrival>)
    requires !Has(k, b.number)
    ensures !AllIn(a + [b], k)
  {
    assert (a + [b])[|a|] == b;
  }

  lemma NotIn(a: seq<Arrival>, m: Media, b: Arrival)
    requires forall i :: 0 <= i < |a| ==> a[i].number < b.number
    ensures !Has(Advancing(a, m), b.number)
  {
    hide Advancing;
    if Has(Advancing(a, m), b.number) { AdvancingSubset(a, m, b.number); }
  }

  /** Of packets with increasing numbers, the compared ones have them all only if they are all. */
  lemma {:induction false} AllInIff(a: seq<Arrival>, m: Media)
    requires Increasing(a)
    ensures AllIn(a, Advancing(a, m)) <==> Advancing(a, m) == a
  {
    hide Advancing, Has, Increasing, AllIn, Moves;
    if a == [] {
      assert |Advancing(a, m)| <= 0;
      assert AllIn([], Advancing([], m)) by { NoneIn(Advancing([], m)); }
    } else {
      var front, b := Butlast(a), Last(a);
      var before := Advancing(front, m);
      assert a == front + [b];
      IncreasingFront(a);
      AllInIff(front, m);
      AdvancingMore(front, b, m);
      if Advancing(a, m) == before + [b] {
        AllInMore(front, b, before);
      } else {
        NotIn(front, m, b);
        NotAllIn(front, b, before);
      }
    }
  }

  lemma NoneIn(k: seq<Arrival>)
    ensures AllIn([], k)
  {}

  lemma {:induction false} AdvancingIncreases(a: seq<Arrival>, m: Media)
    requires a != [] && Increasing(a)
    ensures Increasing(Advancing(a, m)) && Last(Advancing(a, m)).number <= Last(a).number
  {
    hide Advancing, Increasing, Moves;
    var front, b, k := Butlast(a), Last(a), Advancing(a, m);
    assert a == front + [b];
    AdvancingMore(front, b, m);
    if front == [] {
      assert k == [b];
      OneIncreases(k);
    } else {
      var before := Advancing(front, m);
      IncreasingFront(a);
      AdvancingIncreases(front, m);
      assert Last(front).number < b.number;
      if k == before + [b] {
        IncreasingPrefix(k);
        assert Butlast(k) == before;
      }
    }
  }

  lemma {:induction false} IncreasingPairs(a: seq<Arrival>)
    requires Increasing(a)
    ensures forall i, j :: 0 <= i < j < |a| ==> a[i].number < a[j].number
  {
    hide Increasing;
    if a != [] {
      IncreasingFront(a);
      IncreasingPairs(Butlast(a));
      assert forall i :: 0 <= i < |a| - 1 ==> Butlast(a)[i] == a[i];
    }
  }

  /** Every packet up to the last compared one is compared. */
  predicate AllInUpTo(a: seq<Arrival>, k: seq<Arrival>)
    requires k != []
  {
    forall i :: 0 <= i < |a| && a[i].number <= Last(k).number ==> Has(k, a[i].number)
  }

  lemma UpToMore(a: seq<Arrival>, b: Arrival, k: seq<Arrival>)
    requires k != [] && b.number > Last(k).number
    ensures AllInUpTo(a + [b], k) <==> AllInUpTo(a, k)
    ensures RaisesUpTo(a + [b], k) <==> RaisesUpTo(a, k)
  {
    hide Has;
    assert forall i :: 0 <= i < |a| ==> (a + [b])[i] == a[i];
    assert (a + [b])[|a|] == b;
  }

  lemma UpToAll(a: seq<Arrival>, k: seq<Arrival>)
    requires k != [] && forall i :: 0 <= i < |a| ==> a[i].number <= Last(k).number
    ensures AllInUpTo(a, k) <==> AllIn(a, k)
    ensures RaisesUpTo(a, k) <==> AllRaise(a)
  {
    hide Has;
  }

  /** Up to the last compared packet, nothing was ignored exactly when every packet raises the
      timestamp. */
  lemma {:induction false} IgnoredIffRepeated(a: seq<Arrival>)
    requires a != [] && Increasing(a)
    ensures AllInUpTo(a, Advancing(a, AudioMedia)) <==> RaisesUpTo(a, Advancing(a, AudioMedia))
  {
    hide Advancing, Increasing, AllInUpTo, RaisesUpTo, AllIn, AllRaise, Moves;
    var front, b, k := Butlast(a), Last(a), Advancing(a, AudioMedia);
    assert a == front + [b];
    AdvancingMore(front, b, AudioMedia);
    IncreasingFront(a);
    if front == [] || k == Advancing(front, AudioMedia) + [b] {
      UpToAll(a, k);
      AllInIff(a, AudioMedia);
      RaisesIffAllAdvance(a);
    } else {
      IgnoredIffRepeated(front);
      AdvancingIncreases(front, AudioMedia);
      UpToMore(front, b, k);
    }
  }

  /** What increasing numbers give for free, and what is left of the law: nothing that was compared
      too late was ignored exactly when every packet up to the last compared one raises the
      timestamp. */
  lemma RepeatsLaw(a: seq<Arrival>)
    requires a != [] && Increasing(a)
    ensures var k := Advancing(a, AudioMedia);
            && k[0] == a[0] && Increasing(k) && Distinct(k) && Highest(k) == Last(k).number
            && (forall i :: 0 < i < |k| ==> k[0].number < k[i].number)
            && (NothingIgnored(a, k) <==> RaisesUpTo(a, k))
  {
    hide Advancing, Increasing, Has, RaisesUpTo;
    var k := Advancing(a, AudioMedia);
    AdvancingIncreases(a, AudioMedia);
    IncreasingPairs(k);
    IncreasingPairs(a);
    HighestLast(k);
    IgnoredIffRepeated(a);
    assert Has(k, a[0].number) by { HasFirst(k); }
    assert forall i :: 0 < i < |a| ==> k[0].number < a[i].number;
  }

  lemma HasFirst(k: seq<Arrival>)
    requires k != []
    ensures Has(k, k[0].number)
  {}

  // ---------------------------------------------------------------- examples

  /** The same packet with another number and timestamp. */
  function Like(x: Arrival, number: nat, timestamp: uint32): Arrival { x.(number := number, timestamp := timestamp) }

  lemma {:induction false} AllArrived(a: seq<Arrival>, low: int, high: int)
    requires forall n :: low < n <= high ==> Has(a, n)
    ensures Missing(a, low, high) == 0
    decreases high - low
  {
    hide Has;
    if high > low { AllArrived(a, low, high - 1); }
  }

  lemma NoWrap(n: nat, k: nat)
    requires n % 0x1_0000 < 0xff00 && k <= 3
    ensures (n + k) % 0x1_0000 == n % 0x1_0000 + k
  {}

  /** Two swapped packets of a frame: nothing is missing and two losses are counted. */
  lemma SwapOvercounts(x: Arrival)
    requires x.number % 0x1_0000 < 0xff00
    ensures var (n, t) := (x.number, x.timestamp);
            var a := [x, Like(x, n + 2, t), Like(x, n + 1, t), Like(x, n + 3, t)];
            CountedLoss(Advancing(a, VideoMedia)) == 2 && Missing(a, n, n + 3) == 0
  {
    hide Advancing, CountedLoss, Missing;
    var n, t := x.number, x.timestamp;
    var a := [x, Like(x, n + 2, t), Like(x, n + 1, t), Like(x, n + 3, t)];
    FourAdvance(x, a[1], a[2], a[3]);
    FourCounted(x, a[1], a[2], a[3]);
    FourArrived(a, n);
  }

  lemma FourAdvance(x: Arrival, b: Arrival, c: Arrival, d: Arrival)
    requires x.timestamp == b.timestamp == c.timestamp == d.timestamp
    ensures Advancing([x, b, c, d], VideoMedia) == [x, b, c, d]
  {
    hide Advancing;
    var none: seq<Arrival> := [];
    assert none + [x] == [x] && [x] + [b] == [x, b] && [x, b] + [c] == [x, b, c] && [x, b, c] + [d] == [x, b, c, d];
    Nothing(VideoMedia);
    AdvancingMore(none, x, VideoMedia);
    AdvancingMore([x], b, VideoMedia);
    AdvancingMore([x, b], c, VideoMedia);
    AdvancingMore([x, b, c], d, VideoMedia);
  }

  lemma Nothing(m: Media)
    ensures Advancing([], m) == []
  {}

  lemma FourCounted(x: Arrival, b: Arrival, c: Arrival, d: Arrival)
    requires x.number % 0x1_0000 < 0xff00
    requires b.number == x.number + 2 && c.number == x.number + 1 && d.number == x.number + 3
    ensures CountedLoss([x, b, c, d]) == 2
  {
    assert Butlast([x, b]) == [x] && Butlast([x, b, c]) == [x, b] && Butlast([x, b, c, d]) == [x, b, c];
    NoWrap(x.number, 1);
    NoWrap(x.number, 2);
    NoWrap(x.number, 3);
    assert CountedLoss([x, b]) == 1 && CountedLoss([x, b, c]) == 1;
  }

  lemma FourArrived(a: seq<Arrival>, n: nat)
    requires |a| == 4 && a[1].number == n + 2 && a[2].number == n + 1 && a[3].number == n + 3
    ensures Missing(a, n, n + 3) == 0
  {
    hide Missing;
    AllArrived(a, n, n + 3);
  }

  /** An audio packet that repeats a timestamp, and a later frame: one loss is counted, none happened. */
  lemma AudioRepeatOvercounts(x: Arrival)
    requires x.number % 0x1_0000 < 0xff00 && x.timestamp < 0xFFFF_FFFF
    ensures var (n, t) := (x.number, x.timestamp);
            var a := [x, Like(x, n + 1, t), Like(x, n + 2, t + 1)];
            CountedLoss(Advancing(a, AudioMedia)) == 1 && Missing(a, n, n + 2) == 0
  {
    hide Advancing, CountedLoss, Missing;
    var n, t := x.number, x.timestamp;
    var b, c := Like(x, n + 1, t), Like(x, n + 2, t + 1);
    OneSkipped(x, b, c);
    TwoCounted(x, c);
    var a := [x, b, c];
    assert a[1] == b && a[2] == c;
    AllArrived(a, n, n + 2);
  }

  lemma OneSkipped(x: Arrival, b: Arrival, c: Arrival)
    requires x.timestamp == b.timestamp < c.timestamp
    ensures Advancing([x, b, c], AudioMedia) == [x, c]
  {
    hide Advancing;
    var none: seq<Arrival> := [];
    assert none + [x] == [x] && [x] + [b] == [x, b] && [x, b] + [c] == [x, b, c];
    Nothing(AudioMedia);
    AdvancingMore(none, x, AudioMedia);
    AdvancingMore([x], b, AudioMedia);
    AdvancingMore([x, b], c, AudioMedia);
    assert [x] + [c] == [x, c];
  }

  lemma TwoCounted(x: Arrival, c: Arrival)
    requires x.number % 0x1_0000 < 0xff00 && c.number == x.number + 2
    ensures CountedLoss([x, c]) == 1
  {
    assert Butlast([x, c]) == [x];
    NoWrap(x.number, 2);
  }
}
