/** What a session goes on doing: it reads, it announces its end once, and it closes its socket. */
module TcpLaws {
  import opened Bytes
  import opened TcpProtocol

  // ---------------------------------------------------------------- what the handlers share

  function Notices(log: seq<Action>): nat {
    if log == [] then 0 else Notices(log[..|log| - 1]) + if log[|log| - 1] == NotifyClose then 1 else 0
  }

  lemma NoticesMore(log: seq<Action>, a: Action)
    ensures Notices(log + [a]) == Notices(log) + if a == NotifyClose then 1 else 0
  {
    assert (log + [a])[..|log|] == log;
  }

  lemma PostCloseFrame(s: State)
    ensures var t := PostCloseStep(s);
            && t.isClosing && t.hasPostCloseTimer && Notices(t.log) == Notices(s.log) && |t.log| >= |s.log|
            && t.pendingReads == s.pendingReads && t.socketOpen == s.socketOpen
            && t.timers == (if s.hasPostCloseTimer then s.timers else s.timers + multiset{PostClose})
  {
    NoticesMore(s.log, PostClosed);
    NoticesMore(s.log + [PostClosed], ArmTimer(PostClose));
  }

  lemma NotifyFrame(s: State, held: bool)
    ensures var t := Notify(s, held);
            && t.isClosing && t.pendingReads == s.pendingReads && t.socketOpen == s.socketOpen
            && Notices(t.log) == Notices(s.log) + (if s.isClosing then 0 else 1) && |t.log| >= |s.log|
            && t.hasPostCloseTimer == (s.hasPostCloseTimer || (held && !s.isClosing))
            && t.timers == (if t.hasPostCloseTimer && !s.hasPostCloseTimer then s.timers + multiset{PostClose} else s.timers)
  {
    hide PostCloseStep;
    NoticesMore(s.log, NotifyClose);
    if !s.isClosing && held {
      var told := s.(isClosing := true, log := s.log + [NotifyClose]);
      PostCloseFrame(told);
    }
  }

  lemma {:induction false} NestFrame(s: State, ns: seq<Nested>)
    ensures var t := NestAll(s, ns);
            && t.pendingReads == s.pendingReads && t.socketOpen == s.socketOpen
            && Notices(t.log) == Notices(s.log) && |t.log| >= |s.log|
            && (t.isClosing <==> s.isClosing || NestedPostClose in ns)
            && (t.hasPostCloseTimer <==> s.hasPostCloseTimer || NestedPostClose in ns)
            && t.timers == (if t.hasPostCloseTimer && !s.hasPostCloseTimer then s.timers + multiset{PostClose} else s.timers)
    decreases |ns|
  {
    hide Nest, Notices;
    if ns != [] {
      NestOne(s, ns[0]);
      NestFrame(Nest(s, ns[0]), ns[1..]);
      assert NestedPostClose in ns <==> ns[0] == NestedPostClose || NestedPostClose in ns[1..];
    }
  }

  lemma NestOne(s: State, n: Nested)
    ensures var t := Nest(s, n);
            && t.pendingReads == s.pendingReads && t.socketOpen == s.socketOpen
            && Notices(t.log) == Notices(s.log) && |t.log| >= |s.log|
            && (t.isClosing <==> s.isClosing || n == NestedPostClose)
            && (t.hasPostCloseTimer <==> s.hasPostCloseTimer || n == NestedPostClose)
            && t.timers == (if t.hasPostCloseTimer && !s.hasPostCloseTimer then s.timers + multiset{PostClose} else s.timers)
  {
    hide PostCloseStep, Notices, SendAllowed;
    match n {
      case NestedSend(data) => LockedFrame(s, data);
      case NestedPostClose => PostCloseFrame(s);
      case _ =>
    }
  }

  /** Starting a write or a read, or nothing, leaves the rest alone. */
  lemma LockedFrame(s: State, data: Bytes)
    ensures var t := SendLocked(s, data);
            && t == s.(sendDatas := t.sendDatas, accepted := t.accepted, pendingWrites := t.pendingWrites, log := t.log)
            && Notices(t.log) == Notices(s.log) && |t.log| >= |s.log|
  {
    NoticesMore(s.log, ArmWrite((s.sendDatas + [data])[0]));
  }

  // ---------------------------------------------------------------- which events end a session

  /** A write or read error, a refused reception that did not itself ask for the end, or the close timer. */
  predicate Ends(e: Event) {
    match e
    case WriteDone(error, _) => error
    case ReadDone(error, nested, processed, _) => error || (!processed && NestedPostClose !in nested)
    case TimerFired(timer, error, _, _) => timer == Close && !error
    case _ => false
  }

  /** `PostClose`, from outside or by the handler of a reception. */
  predicate AsksForEnd(e: Event) {
    match e
    case PostCloseCalled => true
    case ReadDone(error, nested, _, _) => !error && NestedPostClose in nested
    case _ => false
  }

  predicate Held(e: Event) { (e.WriteDone? || e.ReadDone? || e.TimerFired?) && e.held }

  /** The reads under way after `e`, while the session is open before it. */
  function ReadsAfter(s: State, e: Event): int {
    if e.Started? then s.pendingReads + (if s.socketOpen then 1 else 0)
    else if e.ReadDone? then
      s.pendingReads - 1 + (if !s.isClosing && !Ends(e) && !AsksForEnd(e) && e.processed && s.socketOpen && !s.networkError then 1 else 0)
    else s.pendingReads
  }

  /** What one event does to the end of a session. */
  ghost predicate Effect(s: State, e: Event, t: State) {
    && |t.log| >= |s.log|
    && Notices(t.log) == Notices(s.log) + (if !s.isClosing && Ends(e) then 1 else 0)
    && (t.isClosing <==> s.isClosing || Ends(e) || AsksForEnd(e))
    && t.pendingReads == ReadsAfter(s, e)
    && (t.socketOpen <==> s.socketOpen && !(s.isClosing && e.TimerFired? && e.timer == PostClose))
    && (t.hasPostCloseTimer <==> s.hasPostCloseTimer || e.PostCloseCalled? || (!s.isClosing && (AsksForEnd(e) || (Ends(e) && Held(e)))))
    && t.timers[PostClose] + (if e.TimerFired? && e.timer == PostClose then 1 else 0)
       == s.timers[PostClose] + (if t.hasPostCloseTimer && !s.hasPostCloseTimer then 1 else 0)
  }

  lemma SendEffect(s: State, error: bool, held: bool)
    requires Safe(s) && s.pendingWrites != []
    ensures Effect(s, WriteDone(error, held), OnSend(s, error, held))
  {
    hide EndsOnce, Ended, CloseTimersOnEmptyQueue, Notify, Notices;
    if error {
      var done := s.(pendingWrites := s.pendingWrites[1..], networkError := true);
      NotifyFrame(done, held);
    } else if !s.isClosing {
      CompletionFrame(s, held);
    }
  }

  lemma CompletionFrame(s: State, held: bool)
    requires Safe(s) && s.pendingWrites != [] && !s.isClosing
    ensures var t := OnSend(s, false, held);
            && Notices(t.log) == Notices(s.log) && |t.log| >= |s.log|
            && !t.isClosing && t.pendingReads == s.pendingReads && t.socketOpen == s.socketOpen
            && t.hasPostCloseTimer == s.hasPostCloseTimer && t.timers[PostClose] == s.timers[PostClose]
  {
    hide EndsOnce, Ended, CloseTimersOnEmptyQueue, Notices;
    if |s.sendDatas| > 1 {
      NoticesMore(s.log, ArmWrite(s.sendDatas[1]));
    } else {
      NoticesMore(s.log, CloseTimerSet([]));
      NoticesMore(s.log + [CloseTimerSet([])], ArmTimer(Close));
    }
  }

  lemma ReceiveEffect(s: State, error: bool, nested: seq<Nested>, processed: bool, held: bool)
    requires Safe(s) && s.pendingReads > 0
    ensures Effect(s, ReadDone(error, nested, processed, held), OnReceive(s, error, nested, processed, held))
  {
    hide EndsOnce, Ended, CloseTimersOnEmptyQueue, Notify, Notices, NestAll;
    if error {
      NotifyFrame(s.(pendingReads := s.pendingReads - 1, networkError := true), held);
    } else if !s.isClosing {
      hide Effect;
      HandledEffect(s, nested, processed, held);
    }
  }

  lemma HandledEffect(s: State, nested: seq<Nested>, processed: bool, held: bool)
    requires s.pendingReads > 0 && !s.isClosing && !s.networkError && s.socketOpen
    ensures Effect(s, ReadDone(false, nested, processed, held), OnReceive(s, false, nested, processed, held))
  {
    hide Notify, Notices, NestAll;
    var done := s.(pendingReads := s.pendingReads - 1);
    NestFrame(done, nested);
    var handled := NestAll(done, nested);
    if processed { NoticesMore(handled.log, ArmRead); } else { NotifyFrame(handled, held); }
  }

  lemma TimerEffect(s: State, timer: Timer, error: bool, again: bool, held: bool)
    requires Safe(s) && timer in s.timers
    ensures Effect(s, TimerFired(timer, error, again, held), OnTimer(s, timer, error, again, held))
  {
    hide EndsOnce, Ended, CloseTimersOnEmptyQueue, Notify, Notices;
    var done := s.(timers := s.timers - multiset{timer});
    NoticesMore(s.log, SocketClosed);
    NoticesMore(s.log, ArmTimer(timer));
    if !s.isClosing && !error && timer == Close { NotifyFrame(done, held); }
  }

  lemma LockEffect(s: State, i: nat)
    requires i < |s.entering|
    ensures Effect(s, SenderLocks(i), Step(s, SenderLocks(i)))
  {
    hide SendLocked, Notices;
    LockedFrame(s.(entering := s.entering[..i] + s.entering[i + 1..]), s.entering[i]);
  }

  lemma StartEffect(s: State)
    ensures Effect(s, Started, BeginRead(s))
  {
    hide Notices;
    NoticesMore(s.log, ArmRead);
  }

  lemma KeepaliveEffect(s: State, timer: Timer)
    requires timer == KeepaliveSend || timer == KeepaliveCheck
    ensures Effect(s, KeepaliveSet(timer), SetTimer(s, timer))
  {
    hide Notices;
    NoticesMore(s.log, ArmTimer(timer));
  }

  lemma PostCloseEffect(s: State)
    ensures Effect(s, PostCloseCalled, PostCloseStep(s))
  {
    hide Notices, PostCloseStep;
    PostCloseFrame(s);
  }

  lemma SidelineEffect(s: State, e: Event)
    requires e.SenderEnters? || e.CloseWhenSent?
    ensures Effect(s, e, Step(s, e))
  {
    hide Notices, SendAllowed;
  }

  /** What every event does to the end of a session, whoever sends it. */
  lemma StepEffect(s: State, e: Event)
    requires Safe(s) && Enabled(s, e)
    ensures Effect(s, e, Step(s, e))
  {
    hide Safe, Effect, OnSend, OnReceive, OnTimer, PostCloseStep, SendLocked, SendAllowed, BeginRead, SetTimer;
    match e {
      case SenderLocks(i) => LockEffect(s, i);
      case WriteDone(error, held) => SendEffect(s, error, held);
      case ReadDone(error, nested, processed, held) => ReceiveEffect(s, error, nested, processed, held);
      case TimerFired(timer, error, again, held) => TimerEffect(s, timer, error, again, held);
      case Started => StartEffect(s);
      case KeepaliveSet(timer) => KeepaliveEffect(s, timer);
      case PostCloseCalled => PostCloseEffect(s);
      case _ => SidelineEffect(s, e);
    }
  }

  // ---------------------------------------------------------------- reading goes on

  /** Exactly one read is under way while the session is open, and never more than one. */
  predicate Reading(s: State) { s.pendingReads <= 1 && (!s.isClosing ==> s.pendingReads == 1) && s.log != [] }

  lemma ReadingStep(s: State, e: Event)
    requires Safe(s) && Reading(s) && Enabled(s, e)
    ensures Reading(Step(s, e))
  {
    hide EndsOnce, Ended, CloseTimersOnEmptyQueue, Step, Notices;
    StepEffect(s, e);
  }

  lemma {:induction false} ReadingRun(s: State, es: seq<Event>, t: State)
    requires Safe(s) && Reading(s) && Reaches(s, es, t)
    ensures Safe(t) && Reading(t)
    decreases |es|
  {
    hide Safe, Reading, Step;
    if es != [] {
      StepSafe(s, es[0]);
      ReadingStep(s, es[0]);
      ReadingRun(Step(s, es[0]), es[1..], t);
    }
  }

  /** From its start, through every interleaving: as long as the session is not closing there is exactly
      one read under way, and never a second one. */
  lemma OpenSessionReads(es: seq<Event>, t: State)
    requires Reaches(INITIAL, [Started] + es, t)
    ensures t.pendingReads <= 1 && (!t.isClosing ==> t.pendingReads == 1)
  {
    hide Safe;
    InitiallySafe();
    var s := Step(INITIAL, Started);
    assert ([Started] + es)[0] == Started && ([Started] + es)[1..] == es;
    StepSafe(INITIAL, Started);
    assert Reading(s);
    ReadingRun(s, es, t);
  }

  // ---------------------------------------------------------------- the end is announced

  /** The first event of a run that ends the session or asks for its end. */
  function FirstEnd(es: seq<Event>): Option<Event> {
    if es == [] then None else if Ends(es[0]) || AsksForEnd(es[0]) then Some(es[0]) else FirstEnd(es[1..])
  }

  lemma {:induction false} NoticesOfRun(s: State, es: seq<Event>, t: State)
    requires Safe(s) && Reaches(s, es, t)
    ensures Notices(t.log) == Notices(s.log) + (if !s.isClosing && FirstEnd(es).Some? && Ends(FirstEnd(es).value) then 1 else 0)
    ensures t.isClosing <==> s.isClosing || FirstEnd(es).Some?
    decreases |es|
  {
    hide Safe, Step, Notices, Ends, AsksForEnd, ReadsAfter;
    if es != [] {
      StepSafe(s, es[0]);
      StepEffect(s, es[0]);
      NoticesOfRun(Step(s, es[0]), es[1..], t);
    }
  }

  /** In every run the close notice is given exactly once if the first event that ends the session is an
      error, a refused reception or the close timer, and not at all if it is a `PostClose` or there is none. */
  lemma NoticeIff(es: seq<Event>, t: State)
    requires Reaches(INITIAL, es, t)
    ensures Notices(t.log) == if FirstEnd(es).Some? && Ends(FirstEnd(es).value) then 1 else 0
    ensures t.isClosing <==> FirstEnd(es).Some?
  {
    InitiallySafe();
    NoticesOfRun(INITIAL, es, t);
  }

  // ---------------------------------------------------------------- the socket is closed

  /** Once closing was asked for, its timer is under way until the socket is closed, and both happen once. */
  predicate ClosingSocket(s: State) {
    && (s.hasPostCloseTimer ==> s.isClosing && s.timers[PostClose] == if s.socketOpen then 1 else 0)
    && (!s.hasPostCloseTimer ==> s.socketOpen && s.timers[PostClose] == 0)
  }

  /** Did an event of the run ask for the closing timer: a `PostClose`, or a notice that was answered? */
  predicate CloseRequested(s: State, es: seq<Event>)
    decreases |es|
  {
    && es != []
    && (es[0].PostCloseCalled?
        || (!s.isClosing && (AsksForEnd(es[0]) || (Ends(es[0]) && Held(es[0]))))
        || (Enabled(s, es[0]) && CloseRequested(Step(s, es[0]), es[1..])))
  }

  lemma {:induction false} SocketOfRun(s: State, es: seq<Event>, t: State)
    requires Safe(s) && ClosingSocket(s) && Reaches(s, es, t)
    ensures ClosingSocket(t) && (t.hasPostCloseTimer <==> s.hasPostCloseTimer || CloseRequested(s, es))
    decreases |es|
  {
    hide Safe, Step, Notices, Ends, ReadsAfter;
    if es != [] {
      StepSafe(s, es[0]);
      StepEffect(s, es[0]);
      assert es[0].TimerFired? ==> es[0].timer in s.timers;
      SocketOfRun(Step(s, es[0]), es[1..], t);
    }
  }

  /** In every run: the socket stays open unless closing was requested, and then the closing timer is under
      way exactly until it has closed the socket. */
  lemma SocketClosesIff(es: seq<Event>, t: State)
    requires Reaches(INITIAL, es, t)
    ensures if CloseRequested(INITIAL, es) then t.timers[PostClose] == (if t.socketOpen then 1 else 0)
            else t.socketOpen && t.timers[PostClose] == 0
  {
    InitiallySafe();
    SocketOfRun(INITIAL, es, t);
  }

  /** And the timer closes it, whether it fires or is cancelled. */
  lemma ClosingTimerCloses(s: State, error: bool, again: bool, held: bool)
    requires Safe(s) && Enabled(s, TimerFired(PostClose, error, again, held))
    ensures !Step(s, TimerFired(PostClose, error, again, held)).socketOpen
  {}

  // ---------------------------------------------------------------- sending and completing

  /** A completion without an error, in a session that is open: the front is done; what is queued next is
      written; and the close timer is armed if and only if the queue is empty and closing was set. */
  lemma CompletionIff(s: State, held: bool)
    requires Safe(s) && !s.isClosing && s.pendingWrites != []
    ensures var t := Step(s, WriteDone(false, held));
            && t.completed == s.completed + [s.sendDatas[0]] && t.sendDatas == s.sendDatas[1..]
            && t.pendingWrites == (if |s.sendDatas| > 1 then [s.sendDatas[1]] else [])
            && t.timers == s.timers + (if |s.sendDatas| == 1 && s.sendCompleteClose then multiset{Close} else multiset{})
  {
    hide EndsOnce, Ended, CloseTimersOnEmptyQueue;
  }

  /** Data are accepted for sending if and only if there are some, no more than 31457280 bytes, and the
      session is not closing. */
  lemma SendEntersIff(s: State, data: Bytes)
    requires |data| < 0x8000_0000
    ensures Step(s, SenderEnters(data)).entering ==
              if 0 < |data| <= 31457280 && !s.isClosing then s.entering + [data] else s.entering
  {}

  /** Under the lock they are queued last, and written at once if and only if nothing else was queued. */
  lemma SendQueues(s: State, i: nat)
    requires Safe(s) && Enabled(s, SenderLocks(i))
    ensures var t := Step(s, SenderLocks(i));
            && t.sendDatas == s.sendDatas + [s.entering[i]]
            && (!s.isClosing ==> t.pendingWrites == (if s.sendDatas == [] then [s.entering[i]] else s.pendingWrites))
            && (s.isClosing ==> t.pendingWrites == s.pendingWrites)
  {
    hide EndsOnce, Ended, CloseTimersOnEmptyQueue;
  }

  /** A keep-alive timer that fires in an open session is armed again exactly if its callback wants so. */
  lemma KeepaliveAgainIff(s: State, timer: Timer, error: bool, again: bool, held: bool)
    requires Safe(s) && !s.isClosing && timer in {KeepaliveSend, KeepaliveCheck} && timer in s.timers
    ensures Step(s, TimerFired(timer, error, again, held)).timers ==
              if again && !error then s.timers else s.timers - multiset{timer}
  {
    hide EndsOnce, Ended, CloseTimersOnEmptyQueue;
    assert s.timers - multiset{timer} + multiset{timer} == s.timers;
  }

  // ---------------------------------------------------------------- what a reception sends

  predicate Sendable(data: Bytes) { 0 < |data| <= 31457280 }

  function Sent(n: Nested): seq<Bytes> { if n.NestedSend? && Sendable(n.data) then [n.data] else [] }

  /** What the handler of a reception gets sent: all it asks for, until it asks for the end. */
  function SentBy(nested: seq<Nested>): seq<Bytes> {
    if nested == [] || nested[0] == NestedPostClose then [] else Sent(nested[0]) + SentBy(nested[1..])
  }

  function FlagAfter(flag: bool, nested: seq<Nested>): bool
    decreases |nested|
  {
    if nested == [] then flag
    else FlagAfter(if nested[0].NestedCloseWhenSent? then nested[0].flag else flag, nested[1..])
  }

  lemma {:induction false} NestedSends(s: State, nested: seq<Nested>)
    requires forall n :: n in nested && n.NestedSend? ==> |n.data| < 0x8000_0000
    ensures var t := NestAll(s, nested);
            && t.accepted == (if s.isClosing then s.accepted else s.accepted + SentBy(nested))
            && t.sendDatas == (if s.isClosing then s.sendDatas else s.sendDatas + SentBy(nested))
            && t.sendCompleteClose == FlagAfter(s.sendCompleteClose, nested)
    decreases |nested|
  {
    hide Nest, Sendable, Sent;
    if nested != [] {
      assert forall n :: n in nested[1..] ==> n in nested;
      assert nested[0] in nested;
      NestedOne(s, nested[0]);
      NestedSends(Nest(s, nested[0]), nested[1..]);
      if !s.isClosing {
        JoinSent(s.accepted, Sent(nested[0]), SentBy(nested[1..]));
        JoinSent(s.sendDatas, Sent(nested[0]), SentBy(nested[1..]));
      }
    }
  }

  lemma JoinSent(a: seq<Bytes>, b: seq<Bytes>, c: seq<Bytes>)
    ensures a + b + c == a + (b + c) && a + [] == a
  {}

  lemma NestedOne(s: State, n: Nested)
    requires n.NestedSend? ==> |n.data| < 0x8000_0000
    ensures var t := Nest(s, n);
            && t.accepted == (if s.isClosing then s.accepted else s.accepted + Sent(n))
            && t.sendDatas == (if s.isClosing then s.sendDatas else s.sendDatas + Sent(n))
            && t.sendCompleteClose == (if n.NestedCloseWhenSent? then n.flag else s.sendCompleteClose)
            && (t.isClosing <==> s.isClosing || n == NestedPostClose)
            && (n == NestedPostClose ==> Sent(n) == [])
  {}

  /** A reception in an open session queues what its handler sends, in order, and keeps the handler's last word
      on closing once all is sent. */
  lemma ReceptionSends(s: State, nested: seq<Nested>, processed: bool, held: bool)
    requires Safe(s) && !s.isClosing && s.pendingReads > 0
    requires forall n :: n in nested && n.NestedSend? ==> |n.data| < 0x8000_0000
    ensures var t := Step(s, ReadDone(false, nested, processed, held));
            && t.accepted == s.accepted + SentBy(nested) && t.sendDatas == s.sendDatas + SentBy(nested)
            && t.sendCompleteClose == FlagAfter(s.sendCompleteClose, nested)
  {
    hide EndsOnce, Ended, CloseTimersOnEmptyQueue, NestAll;
    NestedSends(s.(pendingReads := s.pendingReads - 1), nested);
  }

  /** From outside the flag is set as well. */
  lemma FlagIsSet(s: State, flag: bool)
    ensures Step(s, CloseWhenSent(flag)) == s.(sendCompleteClose := flag)
  {}
}
