/** `TcpNetworkObject`: the handlers as they change the object's fields, each proved to be its
    function in TcpProtocol. Sockets and timers are the operations under way that `View` lists. */
module TcpSession {
  import opened Bytes
  import opened TcpProtocol

  class TcpNetworkObject {
    var sendDatas: seq<Bytes>
    var isClosing: bool
    var networkError: bool
    var sendCompleteClose: bool
    var postCloseTimer: bool
    var socketOpen: bool
    var entering: seq<Bytes>
    var pendingWrites: seq<Bytes>
    var pendingReads: nat
    var timers: multiset<Timer>
    ghost var accepted: seq<Bytes>
    ghost var completed: seq<Bytes>
    ghost var log: seq<Action>

    ghost function View(): State
      reads this
    {
      State(sendDatas, entering, pendingWrites, pendingReads, timers, isClosing, networkError, sendCompleteClose,
            socketOpen, postCloseTimer, accepted, completed, log)
    }

    constructor ()
      ensures View() == INITIAL
    {
      sendDatas, entering, pendingWrites, pendingReads, timers := [], [], [], 0, multiset{};
      isClosing, networkError, sendCompleteClose, socketOpen, postCloseTimer := false, false, false, true, false;
      accepted, completed, log := [], [], [];
    }

    /** `async_write`, if the socket is open. */
    method AsyncWrite(data: Bytes)
      modifies this`pendingWrites, this`log
      ensures View() == StartWrite(old(View()), data)
    {
      if socketOpen {
        pendingWrites := pendingWrites + [data];
        log := log + [ArmWrite(data)];
      }
    }

    /** `PostSend` up to the lock: false if the data is refused. */
    method PostSendCheck(data: Bytes) returns (ok: bool)
      modifies this`entering
      ensures ok == SendAllowed(old(View()), data) && View() == SendEnter(old(View()), data)
    {
      if |data| == 0 { return false; }
      if isClosing { return false; }
      if MAX_WAIT_SEND_DATA_SIZE > 0 && MAX_WAIT_SEND_DATA_SIZE < ToInt32(|data|) { return false; }
      entering := entering + [data];
      return true;
    }

    /** `PostSend` under the lock. */
    method PostSendLocked(data: Bytes)
      modifies this`sendDatas, this`pendingWrites, this`accepted, this`log
      ensures View() == SendLocked(old(View()), data)
    {
      sendDatas := sendDatas + [data];
      accepted := accepted + [data];
      if |sendDatas| == 1 && !isClosing {
        var front := sendDatas[0];
        AsyncWrite(front);
      }
    }

    method PostClose()
      modifies this`isClosing, this`postCloseTimer, this`timers, this`log
      ensures View() == PostCloseStep(old(View()))
    {
      isClosing := true;
      log := log + [PostClosed];
      if postCloseTimer { return; }
      postCloseTimer := true;
      timers := timers + multiset{Timer.PostClose};
      log := log + [ArmTimer(Timer.PostClose)];
    }

    /** The guarded call of `OnNetworkClose`; `held` says whether the manager still has the session
        and so answers with `PostClose`. */
    method NotifyNetworkClose(held: bool)
      modifies this`isClosing, this`postCloseTimer, this`timers, this`log
      ensures View() == Notify(old(View()), held)
    {
      if !isClosing {
        isClosing := true;
        log := log + [NotifyClose];
        if held { PostClose(); }
      }
    }

    method SetNetworkTimer(timer: Timer)
      modifies this`timers, this`log
      ensures View() == SetTimer(old(View()), timer)
    {
      if isClosing { return; }
      timers := timers + multiset{timer};
      log := log + [ArmTimer(timer)];
    }

    method SetCloseTimer()
      modifies this`timers, this`log
      ensures View() == TcpProtocol.SetCloseTimer(old(View()))
    {
      log := log + [CloseTimerSet(sendDatas)];
      SetNetworkTimer(Close);
    }

    /** The completion of the oldest write under way. */
    method OnSend(error: bool, held: bool)
      requires pendingWrites != []
      modifies this
      ensures View() == TcpProtocol.OnSend(old(View()), error, held)
    {
      hide Notify, StartWrite, TcpProtocol.SetCloseTimer;
      pendingWrites := pendingWrites[1..];
      ghost var done := View();
      var isCompleteClose := false;
      if error {
        networkError := true;
        NotifyNetworkClose(held);
        return;
      }
      if isClosing || networkError { return; }
      if sendDatas != [] {
        if sendCompleteClose { isCompleteClose := true; }
        completed := completed + [sendDatas[0]];
        sendDatas := sendDatas[1..];
        assert View() == done.(sendDatas := done.sendDatas[1..], completed := done.completed + [done.sendDatas[0]]);
        if sendDatas != [] {
          isCompleteClose := false;
          if !isClosing {
            var front := sendDatas[0];
            AsyncWrite(front);
          }
        }
      }
      if isCompleteClose { SetCloseTimer(); }
    }

    /** `Start`: false if the socket is not open. */
    method Start() returns (ok: bool)
      modifies this`pendingReads, this`log
      ensures ok == socketOpen && View() == BeginRead(old(View()))
    {
      if !socketOpen { return false; }
      pendingReads := pendingReads + 1;
      log := log + [ArmRead];
      return true;
    }

    method AsyncRead()
      modifies this`pendingReads, this`log
      ensures View() == StartRead(old(View()))
    {
      if !isClosing && socketOpen {
        pendingReads := pendingReads + 1;
        log := log + [ArmRead];
      }
    }

    /** What a derived class does inside `RecvHandler`, call by call. */
    method RunHandler(nested: seq<Nested>)
      modifies this
      ensures View() == NestAll(old(View()), nested)
    {
      hide SendLocked, PostCloseStep, SendAllowed;
      var i := 0;
      assert nested[0..] == nested;
      while i < |nested|
        invariant 0 <= i <= |nested|
        invariant NestAll(View(), nested[i..]) == NestAll(old(View()), nested)
      {
        assert nested[i..][0] == nested[i] && nested[i..][1..] == nested[i + 1..];
        match nested[i] {
          case NestedSend(data) =>
            ghost var before := View();
            var ok := PostSendCheck(data);
            if ok {
              assert SendEnter(before, data).entering == before.entering + [data];
              entering := entering[..|entering| - 1];
              assert View() == before;
              PostSendLocked(data);
            }
          case NestedPostClose => PostClose();
          case NestedCloseWhenSent(flag) => sendCompleteClose := flag;
        }
        i := i + 1;
      }
    }

    /** The completion of a read; reassembly of the bytes is in WebSocketSession. */
    method OnReceive(error: bool, nested: seq<Nested>, processed: bool, held: bool)
      requires pendingReads > 0
      modifies this
      ensures View() == TcpProtocol.OnReceive(old(View()), error, nested, processed, held)
    {
      hide NestAll, Notify, StartRead;
      pendingReads := pendingReads - 1;
      if error {
        networkError := true;
        NotifyNetworkClose(held);
        return;
      }
      if isClosing || networkError { return; }
      RunHandler(nested);
      if !processed {
        NotifyNetworkClose(held);
        return;
      }
      AsyncRead();
    }

    method CloseTimerProc(held: bool)
      modifies this`isClosing, this`postCloseTimer, this`timers, this`log
      ensures View() == Notify(old(View()), held)
    {
      NotifyNetworkClose(held);
    }

    method PostCloseTimerProc()
      modifies this`socketOpen, this`log
      ensures View() == CloseSocket(old(View()))
    {
      socketOpen := false;
      log := log + [SocketClosed];
    }

    method OnNetworkTimer(timer: Timer, error: bool, again: bool, held: bool)
      requires timer in timers
      modifies this
      ensures View() == OnTimer(old(View()), timer, error, again, held)
    {
      hide Notify, SetTimer;
      timers := timers - multiset{timer};
      if isClosing {
        if timer == Timer.PostClose { PostCloseTimerProc(); }
        return;
      }
      if error { return; }
      match timer {
        case KeepaliveSend => if again { SetNetworkTimer(timer); }
        case KeepaliveCheck => if again { SetNetworkTimer(timer); }
        case Close => CloseTimerProc(held);
        case PostClose =>
      }
    }
  }
}
