/** The whole test client: sharded stream records, the tables of signalling and ome-stream objects,
    and the events of `MainObject` that tie them together by index keys. */
module StreamSystem {
  import opened Bytes
  import opened IndexKeys
  import opened StreamRecords

  const STREAM_MANAGER_OBJECT_COUNT := 100

  /** The tables hold, for each index key, the stream its object was made for. */
  datatype System = System(
    shards: seq<Records>,
    signalling: Registry<int>,
    ome: Registry<int>,
    streamIndexKey: int)

  const INITIAL := System(seq(STREAM_MANAGER_OBJECT_COUNT, _ => map[]), Registry(map[], 0), Registry(map[], 0), 0)

  datatype Event =
    | Create(now: int)
    | Connected(stream: int, starts: bool, handshakeSent: bool)
    | HandshakeComplete(stream: int)
    | StatusChanged(stream: int, status: StreamStatus)
    | JsonDataFail(stream: int)
    | SignallingClosed(indexKey: int)
    | OmeStreamClosed(indexKey: int)
    | GarbageCheck(shard: nat, now: int)

  predicate Sharded(s: System) { |s.shards| == STREAM_MANAGER_OBJECT_COUNT }

  /** `GetStreamManager`, for keys that are not negative. */
  function ShardOf(stream: int): (i: nat)
    ensures i < STREAM_MANAGER_OBJECT_COUNT
  {
    stream % STREAM_MANAGER_OBJECT_COUNT
  }

  /** A hundred shards, each with every hundredth stream. */
  lemma ShardsAre(stream: nat)
    ensures |INITIAL.shards| == 100 && 0 <= ShardOf(stream) < 100 && (stream - ShardOf(stream)) % 100 == 0
  {}

  function Shard(s: System, stream: int): Records
    requires Sharded(s)
  {
    s.shards[ShardOf(stream)]
  }

  function WithShard(s: System, stream: int, m: Records): System
    requires Sharded(s)
  {
    s.(shards := s.shards[ShardOf(stream) := m])
  }

  function Lookup(s: System, stream: int): Option<Record>
    requires Sharded(s)
  {
    if stream in Shard(s, stream) then Some(Shard(s, stream)[stream]) else None
  }

  predicate Enabled(s: System, e: Event) {
    && Sharded(s)
    && (e.Connected? || e.HandshakeComplete? || e.StatusChanged? || e.JsonDataFail? ==> 0 <= e.stream < s.streamIndexKey)
    && (e.GarbageCheck? ==> e.shard < STREAM_MANAGER_OBJECT_COUNT)
  }

  // ---------------------------------------------------------------- events

  /** One pass of the loops in `StartTimeProc` and `StreamCreateTimeProc`. */
  function CreateStep(s: System, now: int): System
    requires Sharded(s)
  {
    var key := s.streamIndexKey;
    WithShard(s, key, Created(Shard(s, key), key, -1, now)).(streamIndexKey := key + 1)
  }

  function ErrorStep(s: System, stream: int, error: StreamError): System
    requires Sharded(s)
  {
    WithShard(s, stream, WithError(Shard(s, stream), stream, error))
  }

  /** `SignallingServerConnectedProc` */
  function ConnectedStep(s: System, stream: int, starts: bool, handshakeSent: bool): System
    requires Sharded(s)
  {
    var (table, key) := if starts then Insert(s.signalling, stream) else InsertFailing(s.signalling);
    var added := s.(signalling := table);
    if key == -1 || handshakeSent then added else ErrorStep(added, stream, SignallingServer)
  }

  /** `OnHandshakeComplete_SignallingServer` */
  function HandshakeStep(s: System, stream: int): System
    requires Sharded(s)
  {
    var (table, key) := Insert(s.ome, stream);
    var added := s.(ome := table);
    if key == -1 then added
    else WithShard(added, stream, WithStatus(WithOmeStream(Shard(s, stream), stream, key), stream, SignallingComplete))
  }

  /** `OnNetworkClose` for a signalling session. */
  function SignallingClosedStep(s: System, indexKey: int): System
    requires Sharded(s)
  {
    var removed := s.(signalling := s.signalling.(entries := s.signalling.entries - {indexKey}));
    if indexKey in s.signalling.entries then ErrorStep(removed, s.signalling.entries[indexKey], SignallingConnectionClose)
    else removed
  }

  /** The network keys of the dead records of a shard. */
  function DeadKeys(m: Records, now: int, ome: bool): set<int> {
    set k | k in m && Dead(m[k], now) :: KeyIn(m[k], ome)
  }

  function GarbageStep(s: System, i: nat, now: int): System
    requires Sharded(s) && i < STREAM_MANAGER_OBJECT_COUNT
  {
    var m := s.shards[i];
    s.(shards := s.shards[i := Survivors(m, now)],
       signalling := s.signalling.(entries := s.signalling.entries - DeadKeys(m, now, false)),
       ome := s.ome.(entries := s.ome.entries - DeadKeys(m, now, true)))
  }

  function Step(s: System, e: Event): System
    requires Enabled(s, e)
  {
    match e
    case Create(now) => CreateStep(s, now)
    case Connected(stream, starts, sent) => ConnectedStep(s, stream, starts, sent)
    case HandshakeComplete(stream) => HandshakeStep(s, stream)
    case StatusChanged(stream, status) => WithShard(s, stream, WithStatus(Shard(s, stream), stream, status))
    case JsonDataFail(stream) => ErrorStep(s, stream, SignallingJsonDataFail)
    case SignallingClosed(key) => SignallingClosedStep(s, key)
    case OmeStreamClosed(key) => s.(ome := s.ome.(entries := s.ome.entries - {key}))
    case GarbageCheck(i, now) => GarbageStep(s, i, now)
  }

  /** Is `es` a run from `s`? */
  predicate Run(s: System, es: seq<Event>)
    decreases |es|
  {
    es != [] ==> Enabled(s, es[0]) && Run(Step(s, es[0]), es[1..])
  }

  function After(s: System, es: seq<Event>): System
    requires Run(s, es)
    decreases |es|
  {
    if es == [] then s else After(Step(s, es[0]), es[1..])
  }

  lemma RunMore(s: System, e: Event, es: seq<Event>)
    requires Enabled(s, e) && Run(Step(s, e), es)
    ensures Run(s, [e] + es) && After(s, [e] + es) == After(Step(s, e), es)
  {
    assert ([e] + es)[0] == e && ([e] + es)[1..] == es;
  }

  lemma {:induction false} RunJoin(s: System, a: seq<Event>, b: seq<Event>)
    requires Run(s, a) && Run(After(s, a), b)
    ensures Run(s, a + b) && After(s, a + b) == After(After(s, a), b)
    decreases |a|
  {
    hide Step, Enabled;
    if a == [] {
      assert a + b == b;
    } else {
      RunJoin(Step(s, a[0]), a[1..], b);
      assert (a + b)[0] == a[0] && (a + b)[1..] == a[1..] + b;
    }
  }

  // ---------------------------------------------------------------- the invariant

  /** If an object lives under the ome-stream key in a record, it is the stream's own. */
  predicate RecordKept(s: System, stream: int, r: Record) {
    && 0 <= stream < s.streamIndexKey
    && r.signallingServerKey == -1
    && (r.omeStreamKey in s.ome.entries ==> s.ome.entries[r.omeStreamKey] == stream)
  }

  predicate TablesKept(s: System) {
    && InRange(s.ome) && InRange(s.signalling)
    && s.streamIndexKey >= 0
    && (forall k :: k in s.signalling.entries ==> 0 <= s.signalling.entries[k] < s.streamIndexKey)
  }

  /** Every record is in the shard of its stream. */
  ghost predicate Placed(s: System) {
    Sharded(s) && forall i, k :: 0 <= i < STREAM_MANAGER_OBJECT_COUNT && k in s.shards[i] ==> ShardOf(k) == i
  }

  ghost predicate Kept(s: System) {
    && Placed(s) && TablesKept(s)
    && (forall k :: Lookup(s, k).Some? ==> RecordKept(s, k, Lookup(s, k).value))
  }

  /** No two records hold the same ome-stream key. */
  ghost predicate Unshared(s: System)
    requires Sharded(s)
  {
    forall j, k ::
      (Lookup(s, j).Some? && Lookup(s, k).Some? && Lookup(s, j).value.omeStreamKey == Lookup(s, k).value.omeStreamKey
       && Lookup(s, j).value.omeStreamKey != -1)
      ==> j == k
  }

  ghost predicate Safe(s: System) { Kept(s) && Unshared(s) }

  /** Changing one record: what is left to show. */
  lemma ChangeKept(s: System, stream: int, m: Records, t: System)
    requires Safe(s) && 0 <= stream < s.streamIndexKey
    requires t == WithShard(s, stream, m)
    requires forall k :: k in m <==> k in Shard(s, stream)
    requires forall k :: k in m && k != stream ==> m[k] == Shard(s, stream)[k]
    requires stream in m ==> m[stream].signallingServerKey == Shard(s, stream)[stream].signallingServerKey
                             && m[stream].omeStreamKey == Shard(s, stream)[stream].omeStreamKey
    ensures Safe(t)
  {
    hide InRange, ShardOf;
    assert forall k :: Lookup(t, k).Some? <==> Lookup(s, k).Some?;
    assert forall k :: Lookup(s, k).Some? ==> Lookup(t, k).value.omeStreamKey == Lookup(s, k).value.omeStreamKey;
    assert forall k :: Lookup(s, k).Some? ==> Lookup(t, k).value.signallingServerKey == Lookup(s, k).value.signallingServerKey;
  }

  lemma ErrorKept(s: System, stream: int, error: StreamError)
    requires Safe(s) && 0 <= stream < s.streamIndexKey
    ensures Safe(ErrorStep(s, stream, error))
  {
    hide Unshared, TablesKept, RecordKept;
    ChangeKept(s, stream, WithError(Shard(s, stream), stream, error), ErrorStep(s, stream, error));
  }

  lemma StatusKept(s: System, stream: int, status: StreamStatus)
    requires Safe(s) && 0 <= stream < s.streamIndexKey
    ensures Safe(WithShard(s, stream, WithStatus(Shard(s, stream), stream, status)))
  {
    hide Unshared, TablesKept, RecordKept;
    var m := WithStatus(Shard(s, stream), stream, status);
    ChangeKept(s, stream, m, WithShard(s, stream, m));
  }

  lemma CreateKept(s: System, now: int)
    requires Safe(s)
    ensures Safe(CreateStep(s, now))
  {
    hide ShardOf;
    var t, key := CreateStep(s, now), s.streamIndexKey;
    assert Lookup(s, key).None?;
    assert forall k :: k != key ==> Lookup(t, k) == Lookup(s, k);
    assert Lookup(t, key) == Some(Record(now, Ready, NoError, -1, -1));
  }

  lemma SignallingKept(s: System, table: Registry<int>)
    requires Safe(s) && InRange(table)
    requires forall k :: k in table.entries ==> 0 <= table.entries[k] < s.streamIndexKey
    ensures Safe(s.(signalling := table))
  {
    hide InRange, ShardOf;
    var t := s.(signalling := table);
    assert forall k :: Lookup(t, k) == Lookup(s, k);
  }

  lemma ConnectedKept(s: System, stream: int, starts: bool, sent: bool)
    requires Safe(s) && 0 <= stream < s.streamIndexKey
    ensures Safe(ConnectedStep(s, stream, starts, sent))
  {
    hide Safe, ShardOf, WithError;
    var table := if starts then Insert(s.signalling, stream).0 else InsertFailing(s.signalling).0;
    assert InRange(table) && forall k :: k in table.entries ==> 0 <= table.entries[k] < s.streamIndexKey by {
      Tables(s);
      InsertContract(s.signalling, stream);
    }
    SignallingKept(s, table);
    if !sent { ErrorKept(s.(signalling := table), stream, SignallingServer); }
  }

  lemma Tables(s: System)
    requires Safe(s)
    ensures TablesKept(s)
  {}

  /** Is the key that a handshake of `stream` would be given held by no other stream's record? */
  ghost predicate FreshKey(s: System, stream: int)
    requires Sharded(s)
  {
    var key := Insert(s.ome, stream).1;
    key == -1 || forall k :: k != stream && Lookup(s, k).Some? ==> Lookup(s, k).value.omeStreamKey != key
  }

  ghost predicate Fresh(s: System, e: Event)
    requires Sharded(s)
  {
    e.HandshakeComplete? ==> FreshKey(s, e.stream)
  }

  lemma HandshakeTables(s: System, stream: int)
    requires Sharded(s) && InRange(s.ome)
    ensures var (t, key) := (HandshakeStep(s, stream), Insert(s.ome, stream).1);
            && InRange(t.ome) && t.signalling == s.signalling && t.streamIndexKey == s.streamIndexKey
            && |t.shards| == |s.shards|
            && (key == -1 ==> t.ome == Registry(s.ome.entries, Start(s.ome.counter)) && t.shards == s.shards)
            && (key != -1 ==> key !in s.ome.entries && t.ome.entries == s.ome.entries[key := stream])
            && (key != -1 ==> Start(s.ome.counter) <= key && t.ome.counter == key + 1)
            && (forall k :: Lookup(t, k) ==
                  if k != stream || key == -1 || Lookup(s, k).None? then Lookup(s, k)
                  else Some(Lookup(s, k).value.(omeStreamKey := key, status := SignallingComplete)))
            && (forall i, k :: 0 <= i < |s.shards| ==> (k in t.shards[i] <==> k in s.shards[i]))
  {
    hide ShardOf, Scan;
    InsertContract(s.ome, stream);
  }

  /** A handshake keeps the agreement exactly when its key is held by no other stream's record. */
  lemma HandshakeKeptIff(s: System, stream: int)
    requires Safe(s) && 0 <= stream < s.streamIndexKey
    ensures Safe(HandshakeStep(s, stream)) <==> FreshKey(s, stream)
  {
    hide ShardOf, Lookup, Insert, HandshakeStep, InRange;
    HandshakeTables(s, stream);
    var t, key := HandshakeStep(s, stream), Insert(s.ome, stream).1;
    if !FreshKey(s, stream) {
      var k :| k != stream && Lookup(s, k).Some? && Lookup(s, k).value.omeStreamKey == key;
      assert !RecordKept(t, k, Lookup(t, k).value);
    }
  }

  lemma OmeClosedKept(s: System, key: int)
    requires Safe(s)
    ensures Safe(s.(ome := s.ome.(entries := s.ome.entries - {key})))
  {
    hide ShardOf;
    var t := s.(ome := s.ome.(entries := s.ome.entries - {key}));
    assert forall k :: Lookup(t, k) == Lookup(s, k);
  }

  lemma SignallingClosedKept(s: System, key: int)
    requires Safe(s)
    ensures Safe(SignallingClosedStep(s, key))
  {
    hide Safe, ShardOf, WithError;
    var table := s.signalling.(entries := s.signalling.entries - {key});
    Tables(s);
    SignallingKept(s, table);
    if key in s.signalling.entries {
      ErrorKept(s.(signalling := table), s.signalling.entries[key], SignallingConnectionClose);
    }
  }

  /** The check of one shard removes exactly the errored and the late non-streaming records of that
      shard. It closes exactly the objects under the ome-stream keys of those records, each of them
      made for the removed stream itself; it closes no signalling session. */
  lemma GarbageClosesOwn(s: System, i: nat, now: int)
    requires Safe(s) && i < STREAM_MANAGER_OBJECT_COUNT
    ensures var t := GarbageStep(s, i, now);
            && (forall k :: Lookup(t, k) ==
                  if ShardOf(k) == i && Lookup(s, k).Some? && Dead(Lookup(s, k).value, now) then None else Lookup(s, k))
            && (forall key :: key in t.ome.entries ==> key in s.ome.entries && t.ome.entries[key] == s.ome.entries[key])
            && (forall key :: key in s.ome.entries && key !in t.ome.entries ==>
                  var stream := s.ome.entries[key];
                  && Lookup(s, stream).Some? && Lookup(t, stream).None?
                  && Dead(Lookup(s, stream).value, now) && Lookup(s, stream).value.omeStreamKey == key)
            && (forall k :: Lookup(s, k).Some? && Lookup(t, k).None? ==> Lookup(s, k).value.omeStreamKey !in t.ome.entries)
            && (forall key :: key in t.signalling.entries <==> key in s.signalling.entries)
  {
    hide Dead, ShardOf, Unshared, RecordKept;
    var t, m := GarbageStep(s, i, now), s.shards[i];
    assert forall k :: ShardOf(k) != i ==> Shard(t, k) == Shard(s, k);
    assert forall k :: k in m ==> ShardOf(k) == i && Lookup(s, k) == Some(m[k]);
    assert forall k :: k in m ==> RecordKept(s, k, m[k]);
    forall key | key in s.ome.entries && key !in t.ome.entries
      ensures var stream := s.ome.entries[key];
              && Lookup(s, stream).Some? && Lookup(t, stream).None?
              && Dead(Lookup(s, stream).value, now) && Lookup(s, stream).value.omeStreamKey == key
    {
      var k :| k in m && Dead(m[k], now) && m[k].omeStreamKey == key;
      assert RecordKept(s, k, m[k]);
      OwnObject(s, k, m[k]);
    }
    forall key | key in s.signalling.entries
      ensures key in t.signalling.entries
    {
      NotNegative(s, key);
      if key in DeadKeys(m, now, false) {
        var k :| k in m && Dead(m[k], now) && m[k].signallingServerKey == key;
        assert RecordKept(s, k, m[k]);
        NoSignallingKey(s, k, m[k]);
      }
    }
  }

  lemma OwnObject(s: System, stream: int, r: Record)
    requires RecordKept(s, stream, r) && TablesKept(s) && r.omeStreamKey in s.ome.entries
    ensures s.ome.entries[r.omeStreamKey] == stream
  {}

  lemma NoSignallingKey(s: System, stream: int, r: Record)
    requires RecordKept(s, stream, r)
    ensures r.signallingServerKey == -1
  {}

  lemma NotNegative(s: System, key: int)
    requires TablesKept(s) && key in s.signalling.entries
    ensures key >= 0
  {}

  lemma GarbageKept(s: System, i: nat, now: int)
    requires Safe(s) && i < STREAM_MANAGER_OBJECT_COUNT
    ensures Safe(GarbageStep(s, i, now))
  {
    hide Dead, ShardOf, RecordKept;
    GarbageClosesOwn(s, i, now);
    var t := GarbageStep(s, i, now);
    assert forall k :: Lookup(t, k).Some? ==> Lookup(t, k) == Lookup(s, k);
    forall k | Lookup(t, k).Some? ensures RecordKept(t, k, Lookup(t, k).value) {
      RecordStays(s, t, k, Lookup(s, k).value);
    }
  }

  lemma RecordStays(s: System, t: System, stream: int, r: Record)
    requires RecordKept(s, stream, r) && t.streamIndexKey == s.streamIndexKey && t.ome.counter == s.ome.counter
    requires forall key :: key in t.ome.entries ==> key in s.ome.entries && t.ome.entries[key] == s.ome.entries[key]
    ensures RecordKept(t, stream, r)
  {}

  /** Every event keeps the agreement, except a handshake that is given a key another record holds. */
  lemma StepKeptIff(s: System, e: Event)
    requires Safe(s) && Enabled(s, e)
    ensures Safe(Step(s, e)) <==> Fresh(s, e)
  {
    hide Safe, CreateStep, ConnectedStep, HandshakeStep, ErrorStep, SignallingClosedStep, GarbageStep, WithShard, FreshKey;
    match e {
      case Create(now) => CreateKept(s, now);
      case Connected(stream, starts, sent) => ConnectedKept(s, stream, starts, sent);
      case HandshakeComplete(stream) => HandshakeKeptIff(s, stream);
      case StatusChanged(stream, status) => StatusKept(s, stream, status);
      case JsonDataFail(stream) => ErrorKept(s, stream, SignallingJsonDataFail);
      case SignallingClosed(key) => SignallingClosedKept(s, key);
      case OmeStreamClosed(key) => OmeClosedKept(s, key);
      case GarbageCheck(i, now) => GarbageKept(s, i, now);
    }
  }

  ghost predicate FreshRun(s: System, es: seq<Event>)
    requires Run(s, es)
    decreases |es|
  {
    es != [] ==> Fresh(s, es[0]) && FreshRun(Step(s, es[0]), es[1..])
  }

  ghost predicate SafeRun(s: System, es: seq<Event>)
    requires Run(s, es)
    decreases |es|
  {
    Safe(s) && (es != [] ==> SafeRun(Step(s, es[0]), es[1..]))
  }

  /** The agreement holds throughout a run exactly when no handshake of it is given a key that another
      stream's record holds. */
  lemma {:induction false} RunSafeIff(s: System, es: seq<Event>)
    requires Safe(s) && Run(s, es)
    ensures SafeRun(s, es) <==> FreshRun(s, es)
    ensures FreshRun(s, es) ==> Safe(After(s, es))
    decreases |es|
  {
    hide Safe, Step, Fresh;
    if es != [] {
      StepKeptIff(s, es[0]);
      if Fresh(s, es[0]) { RunSafeIff(Step(s, es[0]), es[1..]); } else { NotSafeRun(Step(s, es[0]), es[1..]); }
    }
  }

  lemma NotSafeRun(s: System, es: seq<Event>)
    requires Run(s, es) && !Safe(s)
    ensures !SafeRun(s, es)
  {}

  lemma InitiallySafe()
    ensures Safe(INITIAL) && NoKeyAhead(INITIAL)
  {}

  /** In every run in which no handshake is given a key that another record holds, every garbage check
      closes only ome-stream objects made for the streams whose records it removes. */
  lemma RunClosesOwn(es: seq<Event>, i: nat, now: int, key: int)
    requires Run(INITIAL, es) && FreshRun(INITIAL, es) && i < STREAM_MANAGER_OBJECT_COUNT
    requires var t := After(INITIAL, es);
             Sharded(t) && key in t.ome.entries && key !in GarbageStep(t, i, now).ome.entries
    ensures var t := After(INITIAL, es);
            var stream := t.ome.entries[key];
            Lookup(t, stream).Some? && Dead(Lookup(t, stream).value, now) && Lookup(t, stream).value.omeStreamKey == key
  {
    hide GarbageStep, Dead, Lookup;
    InitiallySafe();
    RunSafeIff(INITIAL, es);
    GarbageClosesOwn(After(INITIAL, es), i, now);
  }

  /** The condition is needed at every state: after a handshake that is given the key of another
      record, an error of that other stream and a check of its shard close the new object. */
  lemma StaleKeyClosesAnother(s: System, stream: int, other: int, now: int)
    requires Safe(s) && 0 <= stream < s.streamIndexKey && Insert(s.ome, stream).1 != -1
    requires other != stream && Lookup(s, other).Some? && Lookup(s, other).value.omeStreamKey == Insert(s.ome, stream).1
    ensures var key := Insert(s.ome, stream).1;
            && Run(s, [HandshakeComplete(stream), JsonDataFail(other)])
            && var t := After(s, [HandshakeComplete(stream), JsonDataFail(other)]);
            && Sharded(t) && key in t.ome.entries && t.ome.entries[key] == stream
            && key !in GarbageStep(t, ShardOf(other), now).ome.entries
  {
    hide ShardOf, HandshakeStep, Late, InRange, Insert;
    HandshakeTables(s, stream);
    var a, b := HandshakeComplete(stream), JsonDataFail(other);
    var key := Insert(s.ome, stream).1;
    assert RecordKept(s, other, Lookup(s, other).value);
    var u := Step(s, a);
    assert Lookup(u, other) == Lookup(s, other);
    var t := Step(u, b);
    assert Lookup(t, other).Some? && Lookup(t, other).value.error != NoError && Lookup(t, other).value.omeStreamKey == key;
    var m := t.shards[ShardOf(other)];
    IsDeadKey(m, now, other, true);
    var es := [a, b];
    assert es[1..] == [b] && es[1..][1..] == [] && es[1..][0] == b;
    assert Run(t, es[1..][1..]) && Run(u, es[1..]);
    assert After(u, es[1..]) == After(t, es[1..][1..]) == t;
  }

  // ---------------------------------------------------------------- the counter

  /** Every key a record holds is one the counter has passed. */
  ghost predicate NoKeyAhead(s: System)
    requires Sharded(s)
  {
    forall k :: Lookup(s, k).Some? ==> Lookup(s, k).value.omeStreamKey < s.ome.counter
  }

  /** Does the counter of the ome-stream keys stay below its limit at every handshake? */
  predicate NeverStartsOver(s: System, es: seq<Event>)
    requires Run(s, es)
    decreases |es|
  {
    es != [] ==> (es[0].HandshakeComplete? ==> s.ome.counter < INDEX_KEY_MAX_SIZE)
                 && NeverStartsOver(Step(s, es[0]), es[1..])
  }

  lemma NoKeyAheadStep(s: System, e: Event)
    requires Safe(s) && NoKeyAhead(s) && Enabled(s, e)
    requires e.HandshakeComplete? ==> s.ome.counter < INDEX_KEY_MAX_SIZE
    ensures Fresh(s, e) && Safe(Step(s, e)) && NoKeyAhead(Step(s, e))
  {
    hide ShardOf, Insert, InsertFailing, HandshakeStep, GarbageStep, Safe;
    Tables(s);
    match e {
      case HandshakeComplete(stream) =>
        HandshakeTables(s, stream);
      case GarbageCheck(i, now) =>
        GarbageClosesOwn(s, i, now);
        assert GarbageStep(s, i, now).ome.counter == s.ome.counter by { GarbageCounter(s, i, now); }
      case _ => KeysStay(s, e);
    }
    StepKeptIff(s, e);
  }

  lemma GarbageCounter(s: System, i: nat, now: int)
    requires Sharded(s) && i < STREAM_MANAGER_OBJECT_COUNT
    ensures GarbageStep(s, i, now).ome.counter == s.ome.counter
  {}

  /** The other events leave the ome-stream key of every record as it is; a new record has none. */
  lemma KeysStay(s: System, e: Event)
    requires Enabled(s, e) && !e.HandshakeComplete? && !e.GarbageCheck?
    ensures var t := Step(s, e);
            && Sharded(t) && t.ome.counter == s.ome.counter
            && (e.OmeStreamClosed? || t.ome == s.ome)
            && (forall k :: Lookup(s, k).Some? ==> Lookup(t, k).Some?)
            && (forall k :: Lookup(t, k).Some? ==>
                  Lookup(t, k).value.omeStreamKey == if Lookup(s, k).Some? then Lookup(s, k).value.omeStreamKey else -1)
  {
    hide ShardOf, Insert, InsertFailing;
  }

  /** Until the counter starts over, every handshake is given a key that no record holds. */
  lemma {:induction false} FreshUntilStartingOver(s: System, es: seq<Event>)
    requires Safe(s) && NoKeyAhead(s) && Run(s, es) && NeverStartsOver(s, es)
    ensures FreshRun(s, es)
    decreases |es|
  {
    hide Safe, Step, Enabled, Fresh, NoKeyAhead;
    if es != [] {
      NoKeyAheadStep(s, es[0]);
      FreshUntilStartingOver(Step(s, es[0]), es[1..]);
    }
  }

  /** The lists the records' walk returns hold the keys of the dead records. */
  lemma {:induction false} KeysAreDead(m: Records, now: int, removed: seq<int>, ome: bool)
    requires forall k :: k in removed <==> k in Garbage(m, now)
    ensures forall key :: key in Keys(m, removed, ome) <==> key in DeadKeys(m, now, ome)
  {
    hide Dead;
    forall j | 0 <= j < |removed| ensures removed[j] in m && Dead(m[removed[j]], now) {
      var k: int := removed[j];
      InGarbage(m, now, removed, k);
    }
    assert |Keys(m, removed, ome)| == |removed| by {
      if removed == [] {} else { KeyOf(m, removed, ome, 0); }
    }
    forall i | 0 <= i < |removed|
      ensures Keys(m, removed, ome)[i] == KeyIn(m[removed[i]], ome)
      ensures Keys(m, removed, ome)[i] in DeadKeys(m, now, ome)
    {
      KeyOf(m, removed, ome, i);
      IsDeadKey(m, now, removed[i], ome);
    }
    forall k | k in m && Dead(m[k], now)
      ensures KeyIn(m[k], ome) in Keys(m, removed, ome)
    {
      assert k in Garbage(m, now) && k in removed;
      var i :| 0 <= i < |removed| && removed[i] == k;
      assert Keys(m, removed, ome)[i] == KeyIn(m[k], ome);
    }
  }

  lemma InGarbage(m: Records, now: int, removed: seq<int>, k: int)
    requires k in removed && forall j :: j in removed <==> j in Garbage(m, now)
    ensures k in m && Dead(m[k], now)
  {
    hide Dead;
    assert k in Garbage(m, now);
  }

  lemma IsDeadKey(m: Records, now: int, k: int, ome: bool)
    requires k in m && Dead(m[k], now)
    ensures KeyIn(m[k], ome) in DeadKeys(m, now, ome)
  {
    hide Dead;
  }

  function KeyIn(r: Record, ome: bool): int { if ome then r.omeStreamKey else r.signallingServerKey }

  /** `RemoveNetwork` for a list of keys; `dead` names its members. */
  method RemoveNetwork(table: NetworkManager, keys: seq<int>, ghost dead: set<int>)
    requires table.Valid() && forall k :: k in keys <==> k in dead
    modifies table`networkInfoMap, table.networkInfoMap.Values
    ensures table.Valid()
    ensures forall k :: k in table.networkInfoMap <==> k in old(table.networkInfoMap) && k !in dead
    ensures forall k :: k in table.networkInfoMap ==> table.networkInfoMap[k] == old(table.networkInfoMap)[k]
    ensures forall k :: k in old(table.networkInfoMap) ==>
              old(table.networkInfoMap)[k].postClosed == (old(table.networkInfoMap[k].postClosed) || k in dead)
  {
    if |keys| > 0 {
      table.RemoveKeys(keys);
    } else {
      assert forall k :: k in dead ==> k in keys;
    }
  }

  /** The check of one `StreamManager` on the objects themselves: `GarbageStep` of its records and of
      the two managers. */
  method CheckShard(manager: StreamManager, signalling: NetworkManager, ome: NetworkManager, now: int)
    returns (removeCount: nat)
    requires manager.Valid() && signalling.Valid() && ome.Valid()
    requires signalling != ome && signalling.networkInfoMap.Values !! ome.networkInfoMap.Values
    modifies manager, manager.streamInfoMap.Values
    modifies signalling`networkInfoMap, signalling.networkInfoMap.Values, ome`networkInfoMap, ome.networkInfoMap.Values
    ensures manager.Valid() && signalling.Valid() && ome.Valid()
    ensures manager.View() == Survivors(old(manager.View()), now)
    ensures forall key :: key in ome.networkInfoMap <==>
              key in old(ome.networkInfoMap) && key !in DeadKeys(old(manager.View()), now, true)
    ensures forall key :: key in old(ome.networkInfoMap) ==>
              old(ome.networkInfoMap)[key].postClosed
              == (old(ome.networkInfoMap[key].postClosed) || key in DeadKeys(old(manager.View()), now, true))
    ensures forall key :: key in signalling.networkInfoMap <==>
              key in old(signalling.networkInfoMap) && key !in DeadKeys(old(manager.View()), now, false)
    ensures forall key :: key in old(signalling.networkInfoMap) ==>
              old(signalling.networkInfoMap)[key].postClosed
              == (old(signalling.networkInfoMap[key].postClosed) || key in DeadKeys(old(manager.View()), now, false))
  {
    hide Dead, Survivors, Keys, DeadKeys, Garbage;
    ghost var m := manager.View();
    var signallingServerKeys, omeStreamKeys;
    ghost var removed;
    removeCount, signallingServerKeys, omeStreamKeys, removed := manager.GarbageCheck(now);
    KeysAreDead(m, now, removed, false);
    KeysAreDead(m, now, removed, true);
    RemoveNetwork(signalling, signallingServerKeys, DeadKeys(m, now, false));
    RemoveNetwork(ome, omeStreamKeys, DeadKeys(m, now, true));
  }

  // ---------------------------------------------------------------- stream creation

  function CreateMany(s: System, n: nat, now: int): (r: System)
    requires Sharded(s)
    ensures Sharded(r) && r.streamIndexKey == s.streamIndexKey + n
  {
    if n == 0 then s else CreateStep(CreateMany(s, n - 1, now), now)
  }

  /** How many streams one tick makes: the configured number, cut off at the configured maximum. */
  function Planned(index: int, count: int, max: int): nat {
    if max == 0 then (if count < 0 then 0 else count)
    else if index >= max || count < 0 then 0
    else if count <= max - index then count
    else max - index
  }

  /** Each new stream gets the next key and a fresh record in its own shard; nothing else changes. */
  lemma {:induction false} CreateManyFresh(s: System, n: nat, now: int)
    requires Safe(s)
    ensures var t := CreateMany(s, n, now);
            && Safe(t) && t.ome == s.ome && t.signalling == s.signalling
            && forall k :: Lookup(t, k) ==
                 if s.streamIndexKey <= k < s.streamIndexKey + n then Some(Record(now, Ready, NoError, -1, -1)) else Lookup(s, k)
  {
    if n > 0 {
      CreateManyFresh(s, n - 1, now);
      CreateFresh(CreateMany(s, n - 1, now), now);
      CreateKept(CreateMany(s, n - 1, now), now);
    }
  }

  lemma CreateFresh(s: System, now: int)
    requires Safe(s)
    ensures var t := CreateStep(s, now);
            && t.ome == s.ome && t.signalling == s.signalling
            && forall k :: Lookup(t, k) == if k == s.streamIndexKey then Some(Record(now, Ready, NoError, -1, -1)) else Lookup(s, k)
  {
    hide ShardOf;
    assert Lookup(s, s.streamIndexKey).None?;
  }

  /** `StreamCreateTimeProc`; `StartTimeProc` is the case without a maximum. */
  method StreamCreateTimeProc(s: System, createCount: int, maxCount: int, now: int) returns (r: System)
    requires Sharded(s)
    ensures r == CreateMany(s, Planned(s.streamIndexKey, createCount, maxCount), now)
    ensures maxCount != 0 && s.streamIndexKey <= maxCount ==> r.streamIndexKey <= maxCount
    ensures createCount <= 0 || (maxCount != 0 && s.streamIndexKey >= maxCount) ==> r == s
    ensures createCount > 0 && (maxCount == 0 || s.streamIndexKey + createCount <= maxCount) ==>
              r.streamIndexKey == s.streamIndexKey + createCount
    ensures createCount > 0 && maxCount != 0 && s.streamIndexKey < maxCount < s.streamIndexKey + createCount ==>
              r.streamIndexKey == maxCount
  {
    r := s;
    if maxCount != 0 && r.streamIndexKey >= maxCount { return; }
    var index := 0;
    while index < createCount
      invariant 0 <= index && (index <= createCount || index == 0)
      invariant Sharded(r) && r == CreateMany(s, index, now)
      invariant maxCount != 0 ==> r.streamIndexKey < maxCount
    {
      r := CreateStep(r, now);
      index := index + 1;
      if maxCount != 0 && r.streamIndexKey >= maxCount { return; }
    }
  }
}
