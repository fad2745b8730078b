/** Which media objects the stream records still reach: one that no record reaches is never closed by a
    garbage check. And a run in which the key counter starts over. */
module StreamOwners {
  import opened Bytes
  import opened IndexKeys
  import opened StreamRecords
  import opened StreamSystem

  /** Is the object under `key` held by the record of the stream it was made for? */
  predicate Holds(s: System, key: int)
    requires Sharded(s) && key in s.ome.entries
  {
    var r := Lookup(s, s.ome.entries[key]);
    r.Some? && r.value.omeStreamKey == key
  }

  /** Every live media object is held by the record of its own stream. */
  ghost predicate Owned(s: System)
    requires Sharded(s)
  {
    forall key :: key in s.ome.entries ==> Holds(s, key)
  }

  predicate HasLiveObject(s: System, stream: int, r: Record) {
    r.omeStreamKey in s.ome.entries && s.ome.entries[r.omeStreamKey] == stream
  }

  /** No object can be made, or the stream still has its record and no live object. */
  predicate CleanHandshake(s: System, stream: int)
    requires Sharded(s)
  {
    || Insert(s.ome, stream).1 == -1
    || (Lookup(s, stream).Some? && !HasLiveObject(s, stream, Lookup(s, stream).value))
  }

  predicate Clean(s: System, e: Event)
    requires Sharded(s)
  {
    e.HandshakeComplete? ==> CleanHandshake(s, e.stream)
  }

  lemma HandshakeOwnedIff(s: System, stream: int)
    requires Sharded(s) && InRange(s.ome) && Owned(s)
    ensures Owned(HandshakeStep(s, stream)) <==> CleanHandshake(s, stream)
  {
    hide ShardOf, Lookup, Insert, HandshakeStep, InRange;
    HandshakeTables(s, stream);
    var t, key := HandshakeStep(s, stream), Insert(s.ome, stream).1;
    if CleanHandshake(s, stream) {
      forall k | k in t.ome.entries ensures Holds(t, k) {
        if k in s.ome.entries { assert Holds(s, k); }
      }
    } else if Lookup(s, stream).None? {
      assert !Holds(t, key);
    } else {
      assert !Holds(t, Lookup(s, stream).value.omeStreamKey);
    }
  }

  lemma GarbageOwned(s: System, i: nat, now: int)
    requires Sharded(s) && Owned(s) && i < STREAM_MANAGER_OBJECT_COUNT
    ensures Owned(GarbageStep(s, i, now)) && GarbageStep(s, i, now).ome.counter == s.ome.counter
  {
    hide ShardOf, Dead;
    var t, m := GarbageStep(s, i, now), s.shards[i];
    forall key | key in t.ome.entries ensures Holds(t, key) {
      assert Holds(s, key);
      var stream := s.ome.entries[key];
      if ShardOf(stream) == i && Dead(m[stream], now) { IsDeadKey(m, now, stream, true); }
    }
  }

  /** Every event keeps every live object held, except a handshake that is not clean. */
  lemma StepOwnedIff(s: System, e: Event)
    requires Enabled(s, e) && InRange(s.ome) && Owned(s)
    ensures InRange(Step(s, e).ome)
    ensures Owned(Step(s, e)) <==> Clean(s, e)
  {
    hide ShardOf, Insert, HandshakeStep, GarbageStep, CleanHandshake;
    match e {
      case HandshakeComplete(stream) =>
        HandshakeTables(s, stream);
        HandshakeOwnedIff(s, stream);
      case GarbageCheck(i, now) =>
        GarbageOwned(s, i, now);
        GarbageRange(s, i, now);
      case _ =>
        KeysStay(s, e);
        forall key | key in Step(s, e).ome.entries ensures Holds(Step(s, e), key) { assert Holds(s, key); }
    }
  }

  lemma GarbageRange(s: System, i: nat, now: int)
    requires Sharded(s) && InRange(s.ome) && i < STREAM_MANAGER_OBJECT_COUNT
    ensures InRange(GarbageStep(s, i, now).ome)
  {}

  predicate CleanRun(s: System, es: seq<Event>)
    requires Run(s, es)
    decreases |es|
  {
    es != [] ==> Clean(s, es[0]) && CleanRun(Step(s, es[0]), es[1..])
  }

  ghost predicate OwnedRun(s: System, es: seq<Event>)
    requires Run(s, es) && Sharded(s)
    decreases |es|
  {
    Owned(s) && (es != [] ==> OwnedRun(Step(s, es[0]), es[1..]))
  }

  /** Every live object stays held throughout a run, counter resets included, exactly when each of its
      handshakes finds the record of its stream, without a live object. */
  lemma {:induction false} RunOwnedIff(s: System, es: seq<Event>)
    requires Run(s, es) && Sharded(s) && InRange(s.ome) && Owned(s)
    ensures OwnedRun(s, es) <==> CleanRun(s, es)
    decreases |es|
  {
    hide Step, Owned, Clean, InRange;
    if es != [] {
      StepOwnedIff(s, es[0]);
      StepSharded(s, es[0]);
      if Clean(s, es[0]) { RunOwnedIff(Step(s, es[0]), es[1..]); } else { NotOwnedRun(Step(s, es[0]), es[1..]); }
    }
  }

  lemma StepSharded(s: System, e: Event)
    requires Enabled(s, e)
    ensures Sharded(Step(s, e))
  {}

  lemma NotOwnedRun(s: System, es: seq<Event>)
    requires Run(s, es) && Sharded(s) && !Owned(s)
    ensures !OwnedRun(s, es)
  {}

  // ---------------------------------------------------------------- orphans

  /** A live object whose key no record holds. */
  ghost predicate Orphan(s: System, key: int)
    requires Sharded(s)
  {
    key in s.ome.entries && forall k :: Lookup(s, k).Some? ==> Lookup(s, k).value.omeStreamKey != key
  }

  lemma OwnedIffNoOrphan(s: System)
    requires Safe(s)
    ensures Owned(s) <==> forall key :: key in s.ome.entries ==> !Orphan(s, key)
  {
    hide ShardOf, Lookup, InRange, Unshared;
    forall key | key in s.ome.entries ensures Holds(s, key) <==> !Orphan(s, key) {
      if !Orphan(s, key) {
        var k :| Lookup(s, k).Some? && Lookup(s, k).value.omeStreamKey == key;
        assert RecordKept(s, k, Lookup(s, k).value);
      }
    }
  }

  /** Exactly which objects a handshake orphans: the new one if the record is gone, or else the one the
      record held until then. */
  lemma HandshakeOrphansIff(s: System, stream: int, key: int)
    requires Safe(s) && FreshKey(s, stream) && 0 <= stream < s.streamIndexKey && Insert(s.ome, stream).1 != -1
    ensures Orphan(HandshakeStep(s, stream), key) <==>
              || Orphan(s, key)
              || (if Lookup(s, stream).None? then key == Insert(s.ome, stream).1
                  else key == Lookup(s, stream).value.omeStreamKey && key in s.ome.entries)
  {
    hide ShardOf, Lookup, Insert, HandshakeStep, InRange;
    HandshakeTables(s, stream);
    var t, issued := HandshakeStep(s, stream), Insert(s.ome, stream).1;
    if key == issued {
      assert Lookup(s, stream).Some? ==> Lookup(t, stream).value.omeStreamKey == issued;
    } else if key in s.ome.entries && !Orphan(s, key) {
      var k :| Lookup(s, k).Some? && Lookup(s, k).value.omeStreamKey == key;
      assert k != stream ==> Lookup(t, k) == Lookup(s, k);
      if k == stream { assert forall j :: Lookup(s, j).Some? && Lookup(s, j).value.omeStreamKey == key ==> j == stream; }
    }
  }

  ghost predicate Normal(s: System) { Placed(s) && InRange(s.ome) }

  lemma StepNormal(s: System, e: Event)
    requires Enabled(s, e) && Normal(s)
    ensures Normal(Step(s, e))
  {
    hide ShardOf, Insert, InsertFailing, Dead;
    match e {
      case HandshakeComplete(stream) => HandshakeTables(s, stream);
      case GarbageCheck(i, now) =>
      case _ => KeysStay(s, e);
    }
  }

  /** An orphan outlives every event but its own closing: no garbage check closes it. */
  lemma OrphanStep(s: System, e: Event, key: int)
    requires Enabled(s, e) && Normal(s) && Orphan(s, key)
    ensures Normal(Step(s, e)) && (Orphan(Step(s, e), key) <==> e != OmeStreamClosed(key))
  {
    StepNormal(s, e);
    hide ShardOf, Insert, HandshakeStep, GarbageStep, Normal, Placed;
    match e {
      case HandshakeComplete(stream) => HandshakeTables(s, stream) by { NormalIs(s); }
      case GarbageCheck(i, now) => GarbageOrphan(s, i, now, key);
      case _ =>
        NormalIs(s);
        KeysStay(s, e);
    }
  }

  lemma NormalIs(s: System)
    requires Normal(s)
    ensures Sharded(s) && InRange(s.ome)
  {}

  lemma GarbageOrphan(s: System, i: nat, now: int, key: int)
    requires Placed(s) && Orphan(s, key) && i < STREAM_MANAGER_OBJECT_COUNT
    ensures Orphan(GarbageStep(s, i, now), key)
  {
    hide ShardOf, Dead;
    var t, m := GarbageStep(s, i, now), s.shards[i];
    assert forall k :: k in m ==> Lookup(s, k) == Some(m[k]);
    assert forall k :: k in m ==> m[k].omeStreamKey != key;
    assert forall k :: Lookup(t, k).Some? ==> Lookup(s, k) == Lookup(t, k);
  }

  /** Once orphaned, an object stays live and unreachable for as long as it does not close itself. */
  lemma {:induction false} OrphanForever(s: System, es: seq<Event>, key: int)
    requires Run(s, es) && Normal(s) && Orphan(s, key) && OmeStreamClosed(key) !in es
    ensures Normal(After(s, es)) && Orphan(After(s, es), key)
    decreases |es|
  {
    hide Step, Orphan, Normal, Enabled;
    if es != [] {
      OrphanStep(s, es[0], key);
      OrphanForever(Step(s, es[0]), es[1..], key);
    }
  }

  /** A second handshake of a stream orphans its first object. */
  lemma SecondHandshakeOrphans(s: System, stream: int)
    requires Safe(s) && Lookup(s, stream).Some? && Insert(s.ome, stream).1 != -1 && FreshKey(s, stream)
    requires var t := HandshakeStep(s, stream); Insert(t.ome, stream).1 != -1 && FreshKey(t, stream)
    ensures Orphan(HandshakeStep(HandshakeStep(s, stream), stream), Insert(s.ome, stream).1)
  {
    hide ShardOf, Insert, HandshakeStep, Orphan, FreshKey;
    var t := HandshakeStep(s, stream);
    assert RecordKept(s, stream, Lookup(s, stream).value);
    HandshakeTables(s, stream);
    HandshakeKeptIff(s, stream);
    HandshakeOrphansIff(t, stream, Insert(s.ome, stream).1);
  }

  /** So does a handshake that completes after the garbage check has removed the stream's record. */
  lemma LateHandshakeOrphans() returns (es: seq<Event>)
    ensures Run(INITIAL, es) && Sharded(After(INITIAL, es)) && Orphan(After(INITIAL, es), 0)
  {
    var a, b, c := Create(0), GarbageCheck(0, STREAMING_STATUS_MAX_WAIT_TIME + 1), HandshakeComplete(0);
    var s1 := Step(INITIAL, a);
    assert s1.ome == Registry(map[], 0) && s1.streamIndexKey == 1;
    assert s1.shards[0] == map[0 := Record(0, Ready, NoError, -1, -1)];
    assert forall k :: Lookup(s1, k).Some? ==> k == 0;
    var s2 := Step(s1, b);
    assert forall k :: Lookup(s2, k).None?;
    var s3 := Step(s2, c);
    RunMore(s2, c, []);
    RunMore(s1, b, [c] + []);
    RunMore(INITIAL, a, [b] + ([c] + []));
    es := [a] + ([b] + ([c] + []));
  }
}
