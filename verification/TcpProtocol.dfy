/** One TCP session as a state that atomic handlers change: senders on any thread, write and read
    completions, timers, and the two ways of closing. */
module TcpProtocol {
  import opened Bytes

  datatype Timer = KeepaliveSend | KeepaliveCheck | Close | PostClose

  /** What the session does to the outside, in order. */
  datatype Action =
    | NotifyClose                  // OnNetworkClose
    | PostClosed                   // a call of PostClose
    | ArmRead
    | ArmWrite(data: Bytes)
    | ArmTimer(timer: Timer)
    | CloseTimerSet(queued: seq<Bytes>)
    | SocketClosed

  datatype State = State(
    sendDatas: seq<Bytes>,         // _send_datas
    entering: seq<Bytes>,          // senders that passed the checks of PostSend and wait for the lock
    pendingWrites: seq<Bytes>,            // async_write calls under way
    pendingReads: nat,                    // async_read_some calls under way
    timers: multiset<Timer>,       // waits under way
    isClosing: bool,
    networkError: bool,
    sendCompleteClose: bool,
    socketOpen: bool,
    hasPostCloseTimer: bool,
    accepted: seq<Bytes>,          // everything ever pushed on the queue
    completed: seq<Bytes>,         // everything ever popped from it
    log: seq<Action>)

  const INITIAL := State([], [], [], 0, multiset{}, false, false, false, true, false, [], [], [])

  const MAX_WAIT_SEND_DATA_SIZE: nat := 30 * 1024 * 1024

  // ---------------------------------------------------------------- handlers

  /** The checks of `PostSend` before the lock. */
  predicate SendAllowed(s: State, data: Bytes) {
    data != [] && !s.isClosing && MAX_WAIT_SEND_DATA_SIZE >= ToInt32(|data|)
  }

  function SendEnter(s: State, data: Bytes): State {
    if SendAllowed(s, data) then s.(entering := s.entering + [data]) else s
  }

  function StartWrite(s: State, data: Bytes): State {
    if s.socketOpen then s.(pendingWrites := s.pendingWrites + [data], log := s.log + [ArmWrite(data)]) else s
  }

  /** `PostSend` under the lock, for a sender that passed the checks. */
  function SendLocked(s: State, data: Bytes): State {
    var pushed := s.(sendDatas := s.sendDatas + [data], accepted := s.accepted + [data]);
    if |pushed.sendDatas| == 1 && !pushed.isClosing then StartWrite(pushed, pushed.sendDatas[0]) else pushed
  }

  /** `PostClose`: arms its own timer the first time. */
  function PostCloseStep(s: State): State {
    var closing := s.(isClosing := true, log := s.log + [PostClosed]);
    if closing.hasPostCloseTimer then closing
    else closing.(hasPostCloseTimer := true,
                  timers := closing.timers + multiset{PostClose},
                  log := closing.log + [ArmTimer(PostClose)])
  }

  /** The close callback, unless closing already; the manager answers with `PostClose` if it still
      holds the session. */
  function Notify(s: State, held: bool): State {
    if s.isClosing then s
    else
      var told := s.(isClosing := true, log := s.log + [NotifyClose]);
      if held then PostCloseStep(told) else told
  }

  /** `SetNetworkTimer` */
  function SetTimer(s: State, timer: Timer): State {
    if s.isClosing then s
    else s.(timers := s.timers + multiset{timer}, log := s.log + [ArmTimer(timer)])
  }

  /** `SetCloseTimer` */
  function SetCloseTimer(s: State): State {
    SetTimer(s.(log := s.log + [CloseTimerSet(s.sendDatas)]), Close)
  }

  /** `OnSend`, for a write under way. */
  function OnSend(s: State, error: bool, held: bool): State
    requires s.pendingWrites != []
  {
    var done := s.(pendingWrites := s.pendingWrites[1..]);
    if error then Notify(done.(networkError := true), held)
    else if done.isClosing || done.networkError then done
    else if done.sendDatas == [] then done
    else
      var popped := done.(sendDatas := done.sendDatas[1..], completed := done.completed + [done.sendDatas[0]]);
      if popped.sendDatas != [] then StartWrite(popped, popped.sendDatas[0])
      else if popped.sendCompleteClose then SetCloseTimer(popped)
      else popped
  }

  /** What `RecvHandler` may do to the session before it returns. */
  datatype Nested = NestedSend(data: Bytes) | NestedPostClose | NestedCloseWhenSent(flag: bool)

  function Nest(s: State, n: Nested): State {
    match n
    case NestedSend(data) => if SendAllowed(s, data) then SendLocked(s, data) else s
    case NestedPostClose => PostCloseStep(s)
    case NestedCloseWhenSent(flag) => s.(sendCompleteClose := flag)
  }

  function NestAll(s: State, ns: seq<Nested>): State
    decreases |ns|
  {
    if ns == [] then s else NestAll(Nest(s, ns[0]), ns[1..])
  }

  /** `Start`: the first read, whatever the closing flag says. */
  function BeginRead(s: State): State {
    if s.socketOpen then s.(pendingReads := s.pendingReads + 1, log := s.log + [ArmRead]) else s
  }

  /** The next read, at the end of `OnReceive`. */
  function StartRead(s: State): State {
    if !s.isClosing && s.socketOpen then s.(pendingReads := s.pendingReads + 1, log := s.log + [ArmRead]) else s
  }

  /** `OnReceive`, for a read under way; `accepted` says whether `RecvHandler` returned a size. */
  function OnReceive(s: State, error: bool, nested: seq<Nested>, processed: bool, held: bool): State
    requires s.pendingReads > 0
  {
    var done := s.(pendingReads := s.pendingReads - 1);
    if error then Notify(done.(networkError := true), held)
    else if done.isClosing || done.networkError then done
    else
      var handled := NestAll(done, nested);
      if processed then StartRead(handled) else Notify(handled, held)
  }

  /** `PostCloseTimerProc` */
  function CloseSocket(s: State): State { s.(socketOpen := false, log := s.log + [SocketClosed]) }

  /** `OnNetworkTimer`; `again` is what a keep-alive callback returns. */
  function OnTimer(s: State, timer: Timer, error: bool, again: bool, held: bool): State
    requires timer in s.timers
  {
    var done := s.(timers := s.timers - multiset{timer});
    if done.isClosing then (if timer == PostClose then CloseSocket(done) else done)
    else if error then done
    else
      match timer
      case Close => Notify(done, held)
      case PostClose => done
      case _ => if again then SetTimer(done, timer) else done
  }

  // ---------------------------------------------------------------- runs

  datatype Event =
    | Started
    | SenderEnters(data: Bytes)
    | SenderLocks(index: nat)
    | WriteDone(error: bool, held: bool)
    | ReadDone(error: bool, nested: seq<Nested>, processed: bool, held: bool)
    | TimerFired(timer: Timer, error: bool, again: bool, held: bool)
    | KeepaliveSet(timer: Timer)
    | PostCloseCalled
    | CloseWhenSent(flag: bool)

  /** A completion needs an operation under way, a locked sender one that passed the checks; a
      session is started when it is inserted, before it has done anything. */
  predicate Enabled(s: State, e: Event) {
    match e
    case Started => s.log == []
    case SenderLocks(i) => i < |s.entering|
    case WriteDone(_, _) => s.pendingWrites != []
    case ReadDone(_, _, _, _) => s.pendingReads > 0
    case TimerFired(t, _, _, _) => t in s.timers
    case KeepaliveSet(t) => t == KeepaliveSend || t == KeepaliveCheck
    case _ => true
  }

  function Step(s: State, e: Event): State
    requires Enabled(s, e)
  {
    match e
    case Started => BeginRead(s)
    case SenderEnters(data) => SendEnter(s, data)
    case SenderLocks(i) => SendLocked(s.(entering := s.entering[..i] + s.entering[i + 1..]), s.entering[i])
    case WriteDone(error, held) => OnSend(s, error, held)
    case ReadDone(error, nested, processed, held) => OnReceive(s, error, nested, processed, held)
    case TimerFired(t, error, again, held) => OnTimer(s, t, error, again, held)
    case KeepaliveSet(t) => SetTimer(s, t)
    case PostCloseCalled => PostCloseStep(s)
    case CloseWhenSent(flag) => s.(sendCompleteClose := flag)
  }

  /** `t` is reached from `s` by some interleaving of events. */
  predicate Reaches(s: State, es: seq<Event>, t: State)
    decreases |es|
  {
    if es == [] then s == t else Enabled(s, es[0]) && Reaches(Step(s, es[0]), es[1..], t)
  }

  // ---------------------------------------------------------------- what every state satisfies

  /** At most one write is under way, it is the front of the queue, and nothing is lost, added or
      reordered between acceptance and completion. */
  predicate QueueKept(s: State) {
    && |s.pendingWrites| <= 1
    && (s.pendingWrites != [] ==> s.sendDatas != [] && s.pendingWrites[0] == s.sendDatas[0])
    && s.accepted == s.completed + s.sendDatas
  }

  /** While the session is open, a write is under way exactly when something is queued. */
  predicate OpenKept(s: State) {
    !s.isClosing ==> s.socketOpen && !s.networkError && (s.pendingWrites != [] <==> s.sendDatas != [])
  }

  predicate Ending(a: Action) { a == NotifyClose || a == PostClosed }

  /** What may still happen after the end began. */
  predicate Late(a: Action) { a == PostClosed || a == ArmTimer(PostClose) || a == SocketClosed }

  /** After the first close notice or `PostClose` there is no second notice, no read, no write and
      no ordinary timer. */
  predicate EndsOnce(log: seq<Action>) {
    forall i, j :: 0 <= i < j < |log| && Ending(log[i]) ==> Late(log[j])
  }

  predicate Ended(log: seq<Action>) { exists i :: 0 <= i < |log| && Ending(log[i]) }

  predicate CloseTimersOnEmptyQueue(log: seq<Action>) {
    forall i :: 0 <= i < |log| && log[i].CloseTimerSet? ==> log[i].queued == []
  }

  predicate LogKept(s: State) {
    && EndsOnce(s.log)
    && (s.isClosing <==> Ended(s.log))
    && CloseTimersOnEmptyQueue(s.log)
    && (PostClose in s.timers ==> s.isClosing)
  }

  predicate Safe(s: State) { QueueKept(s) && OpenKept(s) && LogKept(s) }

  lemma LogOne(log: seq<Action>, a: Action)
    requires EndsOnce(log) && (Ended(log) ==> Late(a))
    ensures EndsOnce(log + [a])
    ensures Ended(log + [a]) <==> Ended(log) || Ending(a)
    ensures CloseTimersOnEmptyQueue(log) && (a.CloseTimerSet? ==> a.queued == []) ==> CloseTimersOnEmptyQueue(log + [a])
  {
    var next := log + [a];
    if Ended(log) {
      var i :| 0 <= i < |log| && Ending(log[i]);
      assert next[i] == log[i];
    }
    if Ending(a) { assert Ending(next[|log|]); }
    assert forall i :: 0 <= i < |log| ==> next[i] == log[i];
  }

  // ---------------------------------------------------------------- every handler keeps it

  lemma StartWriteSafe(s: State)
    requires s.sendDatas != [] && s.pendingWrites == [] && !s.isClosing && s.socketOpen && !s.networkError
    requires s.accepted == s.completed + s.sendDatas && LogKept(s)
    ensures Safe(StartWrite(s, s.sendDatas[0]))
  {
    hide EndsOnce, Ended, CloseTimersOnEmptyQueue;
    LogOne(s.log, ArmWrite(s.sendDatas[0]));
  }

  lemma SendLockedSafe(s: State, data: Bytes)
    requires Safe(s)
    ensures Safe(SendLocked(s, data))
  {
    hide EndsOnce, Ended, CloseTimersOnEmptyQueue;
    var pushed := s.(sendDatas := s.sendDatas + [data], accepted := s.accepted + [data]);
    assert pushed.accepted == pushed.completed + pushed.sendDatas;
    if |pushed.sendDatas| == 1 && !pushed.isClosing { StartWriteSafe(pushed); }
  }

  lemma PostCloseSafe(s: State)
    requires QueueKept(s) && LogKept(s)
    ensures Safe(PostCloseStep(s))
  {
    hide EndsOnce, Ended, CloseTimersOnEmptyQueue;
    LogOne(s.log, PostClosed);
    LogOne(s.log + [PostClosed], ArmTimer(PostClose));
  }

  lemma NotifySafe(s: State, held: bool)
    requires QueueKept(s) && LogKept(s)
    ensures Safe(Notify(s, held))
  {
    hide EndsOnce, Ended, CloseTimersOnEmptyQueue;
    if !s.isClosing {
      LogOne(s.log, NotifyClose);
      if held { PostCloseSafe(s.(isClosing := true, log := s.log + [NotifyClose])); }
    }
  }

  lemma SetTimerSafe(s: State, timer: Timer)
    requires Safe(s) && timer != PostClose
    ensures Safe(SetTimer(s, timer))
  {
    hide EndsOnce, Ended, CloseTimersOnEmptyQueue;
    if !s.isClosing { LogOne(s.log, ArmTimer(timer)); }
  }

  lemma OnSendSafe(s: State, error: bool, held: bool)
    requires Safe(s) && s.pendingWrites != []
    ensures Safe(OnSend(s, error, held))
  {
    hide EndsOnce, Ended, CloseTimersOnEmptyQueue, Notify, SetCloseTimer, StartWrite;
    var done := s.(pendingWrites := s.pendingWrites[1..]);
    if error {
      NotifySafe(done.(networkError := true), held);
    } else if !done.isClosing {
      var popped := done.(sendDatas := done.sendDatas[1..], completed := done.completed + [done.sendDatas[0]]);
      assert popped.accepted == popped.completed + popped.sendDatas;
      if popped.sendDatas != [] {
        StartWriteSafe(popped);
      } else if popped.sendCompleteClose {
        SetCloseTimerSafe(popped);
      }
    }
  }

  lemma SetCloseTimerSafe(s: State)
    requires Safe(s) && !s.isClosing && s.sendDatas == []
    ensures Safe(SetCloseTimer(s))
  {
    hide EndsOnce, Ended, CloseTimersOnEmptyQueue;
    LogOne(s.log, CloseTimerSet([]));
    SetTimerSafe(s.(log := s.log + [CloseTimerSet([])]), Close);
  }

  lemma NestSafe(s: State, n: Nested)
    requires Safe(s)
    ensures Safe(Nest(s, n))
  {
    hide EndsOnce, Ended, CloseTimersOnEmptyQueue, SendLocked, PostCloseStep;
    match n {
      case NestedSend(data) => SendLockedSafe(s, data);
      case NestedPostClose => PostCloseSafe(s);
      case NestedCloseWhenSent(_) =>
    }
  }

  lemma {:induction false} NestAllSafe(s: State, ns: seq<Nested>)
    requires Safe(s)
    ensures Safe(NestAll(s, ns))
    decreases |ns|
  {
    hide Nest, Safe;
    if ns != [] {
      NestSafe(s, ns[0]);
      NestAllSafe(Nest(s, ns[0]), ns[1..]);
    }
  }

  lemma StartReadSafe(s: State)
    requires Safe(s)
    ensures Safe(StartRead(s))
  {
    hide EndsOnce, Ended, CloseTimersOnEmptyQueue;
    if !s.isClosing { LogOne(s.log, ArmRead); }
  }

  lemma BeginReadSafe(s: State)
    requires Safe(s) && s.log == []
    ensures Safe(BeginRead(s))
  {
    hide EndsOnce, CloseTimersOnEmptyQueue;
    LogOne(s.log, ArmRead);
  }

  lemma OnReceiveSafe(s: State, error: bool, nested: seq<Nested>, processed: bool, held: bool)
    requires Safe(s) && s.pendingReads > 0
    ensures Safe(OnReceive(s, error, nested, processed, held))
  {
    hide EndsOnce, Ended, CloseTimersOnEmptyQueue, Notify, StartRead, NestAll;
    var done := s.(pendingReads := s.pendingReads - 1);
    if error {
      NotifySafe(done.(networkError := true), held);
    } else if !done.isClosing {
      NestAllSafe(done, nested);
      if processed { StartReadSafe(NestAll(done, nested)); } else { NotifySafe(NestAll(done, nested), held); }
    }
  }

  lemma OnTimerSafe(s: State, timer: Timer, error: bool, again: bool, held: bool)
    requires Safe(s) && timer in s.timers
    ensures Safe(OnTimer(s, timer, error, again, held))
  {
    hide EndsOnce, Ended, CloseTimersOnEmptyQueue, Notify, SetTimer;
    var done := s.(timers := s.timers - multiset{timer});
    if done.isClosing {
      if timer == PostClose { LogOne(done.log, SocketClosed); }
    } else if !error {
      match timer {
        case Close => NotifySafe(done, held);
        case PostClose =>
        case _ => if again { SetTimerSafe(done, timer); }
      }
    }
  }

  /** Two fields that the invariant does not mention. */
  lemma SidelinesSafe(s: State, entering: seq<Bytes>, flag: bool)
    requires Safe(s)
    ensures Safe(s.(entering := entering)) && Safe(s.(sendCompleteClose := flag))
  {
    hide EndsOnce, Ended, CloseTimersOnEmptyQueue;
  }

  lemma KeptWhenSafe(s: State)
    requires Safe(s)
    ensures QueueKept(s) && LogKept(s)
  {}

  lemma StepSafe(s: State, e: Event)
    requires Safe(s) && Enabled(s, e)
    ensures Safe(Step(s, e))
  {
    hide Safe, OnSend, OnReceive, OnTimer, SendLocked, PostCloseStep, SetTimer, BeginRead;
    match e {
      case Started => BeginReadSafe(s);
      case SenderEnters(data) => SidelinesSafe(s, s.entering + [data], s.sendCompleteClose);
      case SenderLocks(i) =>
        SidelinesSafe(s, s.entering[..i] + s.entering[i + 1..], s.sendCompleteClose);
        SendLockedSafe(s.(entering := s.entering[..i] + s.entering[i + 1..]), s.entering[i]);
      case WriteDone(error, held) => OnSendSafe(s, error, held);
      case ReadDone(error, nested, processed, held) => OnReceiveSafe(s, error, nested, processed, held);
      case TimerFired(t, error, again, held) => OnTimerSafe(s, t, error, again, held);
      case KeepaliveSet(t) => SetTimerSafe(s, t);
      case PostCloseCalled =>
        KeptWhenSafe(s);
        PostCloseSafe(s);
      case CloseWhenSent(flag) => SidelinesSafe(s, s.entering, flag);
    }
  }

  /** Every state of every run, whatever the interleaving: the queue is FIFO with at most one write
      under way; while open a write is under way exactly when something is queued; the session
      announces its end at most once, never after `PostClose`, and starts no read, write or
      ordinary timer afterwards; the send-complete timer is set on an empty queue only. */
  lemma {:induction false} RunsAreSafe(s: State, es: seq<Event>, t: State)
    requires Safe(s) && Reaches(s, es, t)
    ensures Safe(t)
    decreases |es|
  {
    hide Safe, Step;
    if es != [] {
      StepSafe(s, es[0]);
      RunsAreSafe(Step(s, es[0]), es[1..], t);
    }
  }

  lemma InitiallySafe()
    ensures Safe(INITIAL)
  {}

  /** From the start of a session: the bytes completed followed by the bytes queued are the bytes
      accepted, and the close notice is given at most once and never after `PostClose`. */
  lemma SessionContract(es: seq<Event>, t: State)
    requires Reaches(INITIAL, es, t)
    ensures Flatten(t.completed) + Flatten(t.sendDatas) == Flatten(t.accepted)
    ensures |t.pendingWrites| <= 1
    ensures !t.isClosing ==> t.pendingWrites == t.sendDatas[..if t.sendDatas == [] then 0 else 1]
    ensures forall i, j :: 0 <= i < j < |t.log| && Ending(t.log[i]) ==> t.log[j] != NotifyClose
    ensures forall i, j :: 0 <= i < j < |t.log| && Ending(t.log[i]) ==>
              t.log[j] != ArmRead && !t.log[j].ArmWrite? && (t.log[j].ArmTimer? ==> t.log[j].timer == PostClose)
  {
    InitiallySafe();
    RunsAreSafe(INITIAL, es, t);
    FlattenConcat(t.completed, t.sendDatas);
  }
}
