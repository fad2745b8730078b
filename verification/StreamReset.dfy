/** A run in which the counter of the media keys starts over: two thousand million streams come and go,
    each with its handshake, error and garbage check, while stream 0 keeps streaming although its media
    object closed itself long ago. */
module StreamReset {
  import opened Bytes
  import opened IndexKeys
  import opened StreamRecords
  import opened StreamSystem

  const STREAMING_RECORD := Record(0, Streaming, NoError, -1, 0)

  /** Stream 0 streams, its record still holds key 0, and no object is live. */
  ghost predicate Waiting(s: System) {
    && Sharded(s) && s.streamIndexKey >= 1
    && 1 <= s.ome.counter <= INDEX_KEY_MAX_SIZE
    && (forall k :: k !in s.ome.entries)
    && Lookup(s, 0) == Some(STREAMING_RECORD)
    && (forall k :: k >= s.streamIndexKey ==> Lookup(s, k).None?)
  }

  /** One more stream has got its media object. */
  ghost predicate Busy(s: System, stream: int, key: int) {
    && Sharded(s) && s.streamIndexKey == stream + 1 && stream >= 1
    && s.ome == Registry(s.ome.entries, key + 1) && 0 <= key < INDEX_KEY_MAX_SIZE
    && key in s.ome.entries && s.ome.entries[key] == stream && (forall k :: k in s.ome.entries ==> k == key)
    && Lookup(s, 0) == Some(STREAMING_RECORD)
    && Lookup(s, stream) == Some(Record(0, SignallingComplete, NoError, -1, key))
    && (forall k :: k > stream ==> Lookup(s, k).None?)
  }

  lemma Begins(s: System)
    requires Waiting(s)
    ensures var n := s.streamIndexKey;
            && Run(s, [Create(0), HandshakeComplete(n)])
            && Busy(After(s, [Create(0), HandshakeComplete(n)]), n, Start(s.ome.counter))
  {
    hide ShardOf, Insert;
    var n := s.streamIndexKey;
    var a, b := Create(0), HandshakeComplete(n);
    var t := Step(s, a);
    CreatesOne(s);
    assert Busy(Step(t, b), n, Start(s.ome.counter)) by {
      InsertEmpty(t.ome, n);
      HandshakeTables(t, n);
    }
    hide Busy, Step, Waiting;
    TwoSteps(s, a, b);
  }

  lemma TwoSteps(s: System, a: Event, b: Event)
    requires Enabled(s, a) && Enabled(Step(s, a), b)
    ensures Run(s, [a, b]) && After(s, [a, b]) == Step(Step(s, a), b)
  {
    hide Step, Enabled;
    RunMore(Step(s, a), b, []);
    RunMore(s, a, [b] + []);
    assert [a] + ([b] + []) == [a, b];
  }

  lemma InsertEmpty(r: Registry<int>, n: int)
    requires forall k :: k !in r.entries
    requires 0 <= r.counter <= INDEX_KEY_MAX_SIZE
    ensures Insert(r, n).1 == Start(r.counter)
  {}

  lemma CreatesOne(s: System)
    requires Sharded(s) && Lookup(s, s.streamIndexKey).None?
    ensures var t := CreateStep(s, 0);
            && Sharded(t) && t.ome == s.ome && t.streamIndexKey == s.streamIndexKey + 1
            && forall k :: Lookup(t, k) == if k == s.streamIndexKey then Some(Record(0, Ready, NoError, -1, -1)) else Lookup(s, k)
  {
    hide ShardOf;
  }

  lemma Ends(s: System, stream: int, key: int)
    requires Busy(s, stream, key)
    ensures var es := [JsonDataFail(stream), GarbageCheck(ShardOf(stream), 0)];
            Run(s, es) && Waiting(After(s, es)) && After(s, es).ome.counter == key + 1
  {
    hide ShardOf, Late;
    var a, b := JsonDataFail(stream), GarbageCheck(ShardOf(stream), 0);
    var t := Step(s, a);
    assert forall k :: k != stream ==> Lookup(t, k) == Lookup(s, k);
    var dead := Lookup(t, stream).value;
    assert dead == Record(0, SignallingComplete, SignallingJsonDataFail, -1, key);
    IsDeadKey(t.shards[ShardOf(stream)], 0, stream, true);
    var u := Step(t, b);
    assert forall k :: k !in u.ome.entries;
    assert !Dead(STREAMING_RECORD, 0) by { StreamingLives(); }
    assert Lookup(u, 0) == Lookup(t, 0);
    assert forall k :: Lookup(t, k).None? ==> Lookup(u, k).None?;
    TwoSteps(s, a, b);
  }

  lemma StreamingLives()
    ensures !Dead(STREAMING_RECORD, 0)
  {}

  /** One lap: a stream is created, shakes hands, fails and is removed together with its object. */
  lemma Lap(s: System) returns (es: seq<Event>)
    requires Waiting(s) && s.ome.counter < INDEX_KEY_MAX_SIZE
    ensures Run(s, es) && Waiting(After(s, es)) && After(s, es).ome.counter == s.ome.counter + 1
  {
    Begins(s);
    var n := s.streamIndexKey;
    var first := [Create(0), HandshakeComplete(n)];
    var t := After(s, first);
    Ends(t, n, s.ome.counter);
    var second := [JsonDataFail(n), GarbageCheck(ShardOf(n), 0)];
    hide Waiting, Busy, Run, After;
    RunJoin(s, first, second);
    es := first + second;
  }

  lemma {:induction false} Laps(s: System) returns (es: seq<Event>)
    requires Waiting(s)
    ensures Run(s, es) && Waiting(After(s, es)) && After(s, es).ome.counter == INDEX_KEY_MAX_SIZE
    decreases INDEX_KEY_MAX_SIZE - s.ome.counter
  {
    es := [];
    if s.ome.counter < INDEX_KEY_MAX_SIZE {
      var lap := Lap(s);
      var rest := Laps(After(s, lap));
      RunJoin(s, lap, rest);
      es := lap + rest;
    }
  }

  lemma FirstStream() returns (es: seq<Event>)
    ensures Run(INITIAL, es) && Waiting(After(INITIAL, es))
  {
    var a, b, c, d := Create(0), HandshakeComplete(0), StatusChanged(0, Streaming), OmeStreamClosed(0);
    var s1 := Step(INITIAL, a);
    assert s1.ome == Registry(map[], 0) && s1.streamIndexKey == 1;
    assert forall k :: Lookup(s1, k) == if k == 0 then Some(Record(0, Ready, NoError, -1, -1)) else None by {
      CreatesOne(INITIAL);
    }
    var s2 := Step(s1, b);
    assert s2.ome == Registry(map[0 := 0], 1);
    assert Lookup(s2, 0) == Some(Record(0, SignallingComplete, NoError, -1, 0));
    assert forall k :: k != 0 ==> Lookup(s2, k).None?;
    var s3 := Step(s2, c);
    assert Lookup(s3, 0) == Some(STREAMING_RECORD) && s3.ome == s2.ome;
    assert forall k :: k != 0 ==> Lookup(s3, k).None?;
    var s4 := Step(s3, d);
    assert forall k :: Lookup(s4, k) == Lookup(s3, k);
    assert Waiting(s4);
    RunMore(s3, d, []);
    RunMore(s2, c, [d] + []);
    RunMore(s1, b, [c] + ([d] + []));
    RunMore(INITIAL, a, [b] + ([c] + ([d] + [])));
    es := [a] + ([b] + ([c] + ([d] + [])));
  }

  /** When the signalling of a stream that holds a key in use by another stream fails, the check of its
      shard closes the object of that other stream, which keeps its record. */
  lemma FailureClosesAnother(s: System, stream: int)
    requires Busy(s, stream, 0)
    ensures Run(s, [JsonDataFail(0)])
    ensures var t := After(s, [JsonDataFail(0)]);
            && Sharded(t) && 0 in t.ome.entries && t.ome.entries[0] == stream
            && 0 !in GarbageStep(t, ShardOf(0), 0).ome.entries
            && Lookup(GarbageStep(t, ShardOf(0), 0), stream) == Some(Record(0, SignallingComplete, NoError, -1, 0))
  {
    hide ShardOf, Late;
    var e := JsonDataFail(0);
    var t := Step(s, e);
    assert [e] + [] == [e];
    RunMore(s, e, []);
    assert Lookup(t, stream) == Lookup(s, stream);
    assert Lookup(t, 0) == Some(STREAMING_RECORD.(error := SignallingJsonDataFail));
    IsDeadKey(t.shards[ShardOf(0)], 0, 0, true);
    assert !Dead(Record(0, SignallingComplete, NoError, -1, 0), 0) by { YoungLives(); }
    var u := GarbageStep(t, ShardOf(0), 0);
    assert Lookup(u, stream) == Lookup(t, stream);
  }

  lemma YoungLives()
    ensures !Dead(Record(0, SignallingComplete, NoError, -1, 0), 0)
  {}

  /** Once the counter has started over, a garbage check can close the live object of another stream,
      although every other stream was removed in its turn and the one that fails was streaming. */
  lemma ResetClosesAnother() returns (es: seq<Event>, other: int)
    ensures Run(INITIAL, es) && other != 0
    ensures var t := After(INITIAL, es);
            && Sharded(t) && 0 in t.ome.entries && t.ome.entries[0] == other
            && 0 !in GarbageStep(t, ShardOf(0), 0).ome.entries
            && Lookup(GarbageStep(t, ShardOf(0), 0), other) == Some(Record(0, SignallingComplete, NoError, -1, 0))
  {
    hide Waiting, Busy, Run, After, GarbageStep;
    var begin := FirstStream();
    var s := After(INITIAL, begin);
    var laps := Laps(s);
    RunJoin(INITIAL, begin, laps);
    var last := After(s, laps);
    other := Beyond(last);
    var reuse := [Create(0), HandshakeComplete(other)];
    Begins(last);
    RunJoin(INITIAL, begin + laps, reuse);
    FailureClosesAnother(After(last, reuse), other);
    RunJoin(INITIAL, begin + laps + reuse, [JsonDataFail(0)]);
    es := begin + laps + reuse + [JsonDataFail(0)];
  }

  lemma Beyond(s: System) returns (n: int)
    requires Waiting(s)
    ensures n == s.streamIndexKey && n >= 1
  {
    n := s.streamIndexKey;
  }
}
