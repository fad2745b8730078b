/** What becomes of one stream over whole runs: which streams are removed by the check of their shard, and
    which are kept. */
module StreamLives {
  import opened Bytes
  import opened IndexKeys
  import opened StreamRecords
  import opened StreamSystem
  import opened StreamOwners

  /** The age in seconds as a 32-bit `int` keeps it. */
  function Age(now: int, r: Record): int { (now - r.createTime + 0x8000_0000) % 0x1_0000_0000 - 0x8000_0000 }

  /** Does `e` report a failure of the stream? */
  predicate Fails(s: System, e: Event, stream: int)
    requires Sharded(s)
  {
    match e
    case JsonDataFail(k) => k == stream
    case Connected(k, starts, sent) => k == stream && starts && !sent && Insert(s.signalling, k).1 != -1
    case SignallingClosed(key) => key in s.signalling.entries && s.signalling.entries[key] == stream
    case _ => false
  }

  function ErrorOf(e: Event): StreamError {
    if e.JsonDataFail? then SignallingJsonDataFail else if e.Connected? then SignallingServer else SignallingConnectionClose
  }

  /** The record of a stream after an event. */
  function RecordAfter(s: System, e: Event, stream: int, r: Record): Option<Record>
    requires Sharded(s)
  {
    if Fails(s, e, stream) then Some(if r.error == NoError then r.(error := ErrorOf(e)) else r)
    else if e == HandshakeComplete(stream) && Insert(s.ome, stream).1 != -1 then
      Some(r.(omeStreamKey := Insert(s.ome, stream).1, status := SignallingComplete))
    else if e.StatusChanged? && e.stream == stream then Some(r.(status := e.status))
    else if e.GarbageCheck? && e.shard == ShardOf(stream) && (r.error != NoError || (r.status != Streaming && Age(e.now, r) > 30))
    then None
    else Some(r)
  }

  ghost predicate Known(s: System, stream: int) { Normal(s) && 0 <= stream < s.streamIndexKey }

  lemma CheckedRecord(s: System, i: nat, now: int, stream: int)
    requires Known(s, stream) && i < STREAM_MANAGER_OBJECT_COUNT
    ensures Lookup(GarbageStep(s, i, now), stream) ==
              if Lookup(s, stream).Some? then RecordAfter(s, GarbageCheck(i, now), stream, Lookup(s, stream).value) else None
  {
    hide ShardOf;
    if Lookup(s, stream).Some? && ShardOf(stream) == i {
      StaysIff(s.shards[i], now, stream, Age(now, Lookup(s, stream).value));
    }
  }

  lemma ErrorRecord(s: System, k: int, error: StreamError, stream: int)
    requires Known(s, stream)
    ensures Lookup(ErrorStep(s, k, error), stream) ==
              if k == stream && Lookup(s, stream).Some? && Lookup(s, stream).value.error == NoError
              then Some(Lookup(s, stream).value.(error := error)) else Lookup(s, stream)
  {
    hide ShardOf;
  }

  lemma ConnectedRecord(s: System, k: int, starts: bool, sent: bool, stream: int)
    requires Known(s, stream)
    ensures Lookup(ConnectedStep(s, k, starts, sent), stream) ==
              if Lookup(s, stream).Some? then RecordAfter(s, Connected(k, starts, sent), stream, Lookup(s, stream).value) else None
  {
    hide ShardOf, Insert, InsertFailing, ErrorStep;
    var table := if starts then Insert(s.signalling, k).0 else InsertFailing(s.signalling).0;
    assert InsertFailing(s.signalling).1 == -1 by { FailingGivesNoKey(s.signalling); }
    ErrorRecord(s.(signalling := table), k, SignallingServer, stream);
    assert Lookup(s.(signalling := table), stream) == Lookup(s, stream);
  }

  lemma FailingGivesNoKey(r: Registry<int>)
    ensures InsertFailing(r).1 == -1
  {}

  lemma ClosedRecord(s: System, key: int, stream: int)
    requires Known(s, stream)
    ensures Lookup(SignallingClosedStep(s, key), stream) ==
              if Lookup(s, stream).Some? then RecordAfter(s, SignallingClosed(key), stream, Lookup(s, stream).value) else None
  {
    hide ShardOf, ErrorStep;
    var removed := s.(signalling := s.signalling.(entries := s.signalling.entries - {key}));
    assert Lookup(removed, stream) == Lookup(s, stream);
    if key in s.signalling.entries {
      ErrorRecord(removed, s.signalling.entries[key], SignallingConnectionClose, stream);
    }
  }

  /** What every event does to the record of a stream that was created before it. */
  lemma StepRecord(s: System, e: Event, stream: int)
    requires Known(s, stream) && Enabled(s, e)
    ensures Known(Step(s, e), stream)
    ensures Lookup(Step(s, e), stream) ==
              if Lookup(s, stream).Some? then RecordAfter(s, e, stream, Lookup(s, stream).value) else None
  {
    StepNormal(s, e);
    KeyGrows(s, e);
    NormalIs(s);
    hide ShardOf, Insert, HandshakeStep, ConnectedStep, SignallingClosedStep, GarbageStep, ErrorStep, Normal, InRange;
    match e {
      case Create(now) =>
      case Connected(k, starts, sent) => ConnectedRecord(s, k, starts, sent, stream);
      case HandshakeComplete(k) => HandshakeTables(s, k);
      case StatusChanged(k, status) =>
      case JsonDataFail(k) => ErrorRecord(s, k, SignallingJsonDataFail, stream);
      case SignallingClosed(key) => ClosedRecord(s, key, stream);
      case OmeStreamClosed(key) =>
      case GarbageCheck(i, now) => CheckedRecord(s, i, now, stream);
    }
  }

  lemma KeyGrows(s: System, e: Event)
    requires Enabled(s, e)
    ensures Step(s, e).streamIndexKey >= s.streamIndexKey
  {}

  lemma {:induction false} GoneStays(s: System, es: seq<Event>, stream: int)
    requires Known(s, stream) && Run(s, es) && Lookup(s, stream).None?
    ensures Known(After(s, es), stream) && Lookup(After(s, es), stream).None?
    decreases |es|
  {
    hide Step, Enabled, Known, Lookup, RecordAfter;
    if es != [] {
      KnownIs(s, stream);
      StepRecord(s, es[0], stream);
      GoneStays(Step(s, es[0]), es[1..], stream);
    }
  }

  lemma KnownIs(s: System, stream: int)
    requires Known(s, stream)
    ensures Sharded(s)
  {}

  /** The run with one more event. */
  lemma RunEnds(s: System, es: seq<Event>, last: Event)
    requires Run(s, es) && Enabled(After(s, es), last)
    ensures Run(s, es + [last]) && After(s, es + [last]) == Step(After(s, es), last)
  {
    hide Step, Enabled;
    RunMore(After(s, es), last, []);
    assert [last] + [] == [last];
    RunJoin(s, es, [last]);
  }

  // ---------------------------------------------------------------- streams that never stream

  predicate Waits(o: Option<Record>, createTime: int) { o.Some? ==> o.value.createTime == createTime && o.value.status != Streaming }

  lemma {:induction false} WaitsOn(s: System, es: seq<Event>, stream: int, createTime: int)
    requires Known(s, stream) && Run(s, es) && Waits(Lookup(s, stream), createTime)
    requires StatusChanged(stream, Streaming) !in es
    ensures Known(After(s, es), stream) && Waits(Lookup(After(s, es), stream), createTime)
    decreases |es|
  {
    hide Step, Enabled, Known, Lookup, Insert;
    if es != [] {
      KnownIs(s, stream);
      StepRecord(s, es[0], stream);
      WaitsOn(Step(s, es[0]), es[1..], stream, createTime);
    }
  }

  /** A stream that never reaches Streaming is gone after any check of its shard that comes more than 30
      seconds after it was created, whatever else happens. */
  lemma LateStreamGone(s: System, es: seq<Event>, stream: int, now: int)
    requires Known(s, stream) && Run(s, es) && Lookup(s, stream).Some? && Lookup(s, stream).value.status != Streaming
    requires StatusChanged(stream, Streaming) !in es && 30 < now - Lookup(s, stream).value.createTime < 0x8000_0000
    ensures var last := GarbageCheck(ShardOf(stream), now);
            Run(s, es + [last]) && Sharded(After(s, es + [last])) && Lookup(After(s, es + [last]), stream).None?
  {
    hide Step, Known, Lookup;
    KnownIs(s, stream);
    var createTime := Lookup(s, stream).value.createTime;
    WaitsOn(s, es, stream, createTime);
    var t, last := After(s, es), GarbageCheck(ShardOf(stream), now);
    KnownIs(t, stream);
    RunEnds(s, es, last);
    StepRecord(t, last, stream);
    KnownIs(Step(t, last), stream);
  }

  // ---------------------------------------------------------------- streams that failed

  predicate Failed(o: Option<Record>) { o.Some? ==> o.value.error != NoError }

  lemma {:induction false} FailedOn(s: System, es: seq<Event>, stream: int)
    requires Known(s, stream) && Run(s, es) && Failed(Lookup(s, stream))
    ensures Known(After(s, es), stream) && Failed(Lookup(After(s, es), stream))
    decreases |es|
  {
    hide Step, Enabled, Known, Lookup, Insert;
    if es != [] {
      KnownIs(s, stream);
      StepRecord(s, es[0], stream);
      FailedOn(Step(s, es[0]), es[1..], stream);
    }
  }

  /** After a failure, be it bad data, a closed signalling session or a handshake that could not be sent, the
      stream is gone with the next check of its shard, whatever happens in between. */
  lemma FailedStreamGone(s: System, e: Event, es: seq<Event>, stream: int, now: int)
    requires Known(s, stream) && Enabled(s, e) && Fails(s, e, stream) && Run(Step(s, e), es)
    ensures var last := GarbageCheck(ShardOf(stream), now);
            && Run(s, [e] + es + [last]) && Sharded(After(s, [e] + es + [last]))
            && Lookup(After(s, [e] + es + [last]), stream).None?
  {
    hide Step, Known, Lookup, Insert;
    KnownIs(s, stream);
    StepRecord(s, e, stream);
    KnownIs(Step(s, e), stream);
    FailedOn(Step(s, e), es, stream);
    var last := GarbageCheck(ShardOf(stream), now);
    RunMore(s, e, es);
    var t := After(s, [e] + es);
    KnownIs(t, stream);
    RunEnds(s, [e] + es, last);
    StepRecord(t, last, stream);
    KnownIs(Step(t, last), stream);
  }

  // ---------------------------------------------------------------- streams that are kept

  /** Does `e` leave a stream without a failure alone, and check it only while it is young or streams? */
  predicate Spares(s: System, e: Event, stream: int)
    requires Sharded(s)
  {
    && !Fails(s, e, stream)
    && (e.GarbageCheck? && e.shard == ShardOf(stream) && Lookup(s, stream).Some? ==>
          Lookup(s, stream).value.status == Streaming || -0x8000_0000 <= e.now - Lookup(s, stream).value.createTime <= 30)
  }

  ghost predicate SparedRun(s: System, es: seq<Event>, stream: int)
    requires Run(s, es)
    decreases |es|
  {
    es != [] ==> Sharded(s) && Spares(s, es[0], stream) && SparedRun(Step(s, es[0]), es[1..], stream)
  }

  predicate Healthy(o: Option<Record>) { o.Some? && o.value.error == NoError }

  /** A stream without an error is removed only by a check of its shard that finds it late: as long as it
      does not fail and each such check finds it streaming or no older than 30 seconds, it stays. */
  lemma {:induction false} HealthyStreamStays(s: System, es: seq<Event>, stream: int)
    requires Known(s, stream) && Run(s, es) && Healthy(Lookup(s, stream)) && SparedRun(s, es, stream)
    ensures Known(After(s, es), stream) && Healthy(Lookup(After(s, es), stream))
    decreases |es|
  {
    hide Step, Enabled, Known, Insert, ShardOf, Lookup;
    if es != [] {
      KnownIs(s, stream);
      StepRecord(s, es[0], stream);
      HealthyStreamStays(Step(s, es[0]), es[1..], stream);
    }
  }

  /** Events that neither report a failure of the stream nor change its status. */
  ghost predicate QuietRun(s: System, es: seq<Event>, stream: int)
    requires Run(s, es)
    decreases |es|
  {
    es != [] ==>
      && Sharded(s) && !Fails(s, es[0], stream) && es[0] != HandshakeComplete(stream)
      && !(es[0].StatusChanged? && es[0].stream == stream)
      && QuietRun(Step(s, es[0]), es[1..], stream)
  }

  /** A streaming stream without an error survives every check at every time, unchanged. */
  lemma {:induction false} StreamingStreamStays(s: System, es: seq<Event>, stream: int)
    requires Known(s, stream) && Run(s, es) && QuietRun(s, es, stream)
    requires Lookup(s, stream).Some? && Lookup(s, stream).value.status == Streaming && Lookup(s, stream).value.error == NoError
    ensures Known(After(s, es), stream) && Lookup(After(s, es), stream) == Lookup(s, stream)
    decreases |es|
  {
    hide Step, Enabled, Known, Insert, ShardOf, Lookup;
    if es != [] {
      KnownIs(s, stream);
      StepRecord(s, es[0], stream);
      StreamingStreamStays(Step(s, es[0]), es[1..], stream);
    }
  }
}
