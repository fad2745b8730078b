/** The stream records of one `StreamManager` and the check that removes dead ones. */
module StreamRecords {
  import opened Bytes

  datatype StreamStatus = Ready | SignallingComplete | DtlsComplete | StunComplete | Streaming

  datatype StreamError =
    | NoError | SignallingServer | OmeStream | StreamCompleteTimerOver | SignallingConnectionFail
    | SignallingConnectionClose | SignallingJsonDataFail | Unknown

  const STREAMING_STATUS_MAX_WAIT_TIME := 30      // seconds

  datatype Record = Record(
    createTime: int,
    status: StreamStatus,
    error: StreamError,
    signallingServerKey: int,
    omeStreamKey: int)

  type Records = map<int, Record>

  function Created(m: Records, key: int, signallingKey: int, now: int): Records {
    if key in m then m else m[key := Record(now, Ready, NoError, signallingKey, -1)]
  }

  /** Only the first error of a stream is kept. */
  function WithError(m: Records, key: int, error: StreamError): Records {
    if key in m && m[key].error == NoError then m[key := m[key].(error := error)] else m
  }

  function WithStatus(m: Records, key: int, status: StreamStatus): Records {
    if key in m then m[key := m[key].(status := status)] else m
  }

  function WithOmeStream(m: Records, key: int, omeStreamKey: int): Records {
    if key in m then m[key := m[key].(omeStreamKey := omeStreamKey)] else m
  }

  /** Errored, or not streaming and too old; the age is an `int`. */
  predicate Late(r: Record, now: int) {
    r.status != Streaming && ToInt32(now - r.createTime) > STREAMING_STATUS_MAX_WAIT_TIME
  }

  predicate Dead(r: Record, now: int) { r.error != NoError || Late(r, now) }

  function Garbage(m: Records, now: int): set<int> { set k | k in m && Dead(m[k], now) }

  function Survivors(m: Records, now: int): Records { map k | k in m && !Dead(m[k], now) :: m[k] }

  /** The network keys held by the records of some streams. */
  function Keys(m: Records, streams: seq<int>, ome: bool): seq<int> {
    if streams == [] then []
    else
      var last := streams[|streams| - 1];
      Keys(m, streams[..|streams| - 1], ome)
      + (if last !in m then [] else if ome then [m[last].omeStreamKey] else [m[last].signallingServerKey])
  }

  lemma {:induction false} KeyOf(m: Records, streams: seq<int>, ome: bool, i: nat)
    requires i < |streams| && forall j :: 0 <= j < |streams| ==> streams[j] in m
    ensures |Keys(m, streams, ome)| == |streams|
    ensures Keys(m, streams, ome)[i] == if ome then m[streams[i]].omeStreamKey else m[streams[i]].signallingServerKey
  {
    if |streams| > 1 { KeyOf(m, streams[..|streams| - 1], ome, if i < |streams| - 1 then i else 0); }
  }

  lemma KeysAppend(m: Records, streams: seq<int>, last: int, ome: bool)
    requires last in m
    ensures Keys(m, streams + [last], ome)
            == Keys(m, streams, ome) + [if ome then m[last].omeStreamKey else m[last].signallingServerKey]
  {
    assert (streams + [last])[..|streams|] == streams;
  }

  lemma SameMap<K, V>(a: map<K, V>, b: map<K, V>)
    requires forall k :: k in a <==> k in b
    requires forall k :: k in a ==> a[k] == b[k]
    ensures a == b
  {}

  lemma SurvivorsAre(m: Records, now: int, left: Records)
    requires forall k :: k in left <==> k in m && !Dead(m[k], now)
    requires forall k :: k in left ==> left[k] == m[k]
    ensures left == Survivors(m, now)
  {
    hide Dead;
    assert forall k :: k in left <==> k in Survivors(m, now);
    assert forall k :: k in left ==> left[k] == Survivors(m, now)[k];
    SameMap(left, Survivors(m, now));
  }

  lemma Pick<T>(s: set<T>) returns (x: T)
    requires s != {}
    ensures x in s
  {
    x :| x in s;
  }

  lemma {:induction false} Least(s: set<int>) returns (x: int)
    requires s != {}
    ensures x in s && forall k :: k in s ==> x <= k
    decreases |s|
  {
    x := Pick(s);
    if s != {x} {
      assert s == s - {x} + {x};
      var m := Least(s - {x});
      forall k | k in s ensures (if m < x then m else x) <= k {
        if k != x { assert k in s - {x}; }
      }
      x := if m < x then m else x;
    }
  }

  /** How far a walk in key order has come: `rest` is still to be visited. */
  predicate Swept(m: Records, now: int, rest: set<int>, removed: seq<int>) {
    && (forall k :: k in rest ==> k in m)
    && (forall k :: k in removed ==> k in m && k !in rest && Dead(m[k], now))
    && (forall k :: k in m && k !in rest && Dead(m[k], now) ==> k in removed)
    && (forall k, r :: k in removed && r in rest ==> k < r)
    && (forall i, j :: 0 <= i < j < |removed| ==> removed[i] < removed[j])
  }

  lemma NothingSwept(m: Records, now: int, rest: set<int>)
    requires forall k :: k in rest <==> k in m
    ensures Swept(m, now, rest, []) && Keys(m, [], false) == [] && Keys(m, [], true) == []
  {}

  lemma SweepStep(m: Records, now: int, rest: set<int>, removed: seq<int>, item: int)
    requires Swept(m, now, rest, removed) && item in rest && (forall k :: k in rest ==> item <= k)
    ensures item in m && item !in removed
    ensures Swept(m, now, rest - {item}, if Dead(m[item], now) then removed + [item] else removed)
  {
    hide Dead;
    assert forall k :: k in removed + [item] <==> k in removed || k == item;
    assert forall k :: k in rest - {item} <==> k in rest && k != item;
    forall i | 0 <= i < |removed| ensures removed[i] < item { assert removed[i] in removed; }
  }

  lemma AllSwept(m: Records, now: int, removed: seq<int>)
    requires Swept(m, now, {}, removed)
    ensures forall k :: k in removed <==> k in Garbage(m, now)
    ensures forall k :: k in m ==> (k in removed <==> Dead(m[k], now))
    ensures forall i, j :: 0 <= i < j < |removed| ==> removed[i] < removed[j]
  {
    hide Dead;
  }

  /** Who stays, said without the names above: a record leaves exactly if its error is set, or if it is older
      than 30 seconds and its stream does not stream yet. `age` is what a 32-bit `int` keeps of it. */
  lemma StaysIff(m: Records, now: int, k: int, age: int)
    requires k in m && -0x8000_0000 <= age < 0x8000_0000 && (now - m[k].createTime - age) % 0x1_0000_0000 == 0
    ensures k in Survivors(m, now) <==>
              m[k].error == NoError && !(age > 30 && m[k].status in {Ready, SignallingComplete, DtlsComplete, StunComplete})
    ensures k in Survivors(m, now) ==> Survivors(m, now)[k] == m[k]
  {
    CutAge(now - m[k].createTime, age);
  }

  lemma CutAge(x: int, age: int)
    requires -0x8000_0000 <= age < 0x8000_0000 && (x - age) % 0x1_0000_0000 == 0
    ensures ToInt32(x) == age
  {
    var k := (x - age) / 0x1_0000_0000;
    assert x + 0x8000_0000 == age + 0x8000_0000 + 0x1_0000_0000 * k;
  }

  class StreamInfo {
    const createTime: int
    var status: StreamStatus
    var error: StreamError
    var signallingServerKey: int
    var omeStreamKey: int

    function View(): Record
      reads this
    {
      Record(createTime, status, error, signallingServerKey, omeStreamKey)
    }

    constructor (signallingServerKey: int, now: int)
      ensures View() == Record(now, Ready, NoError, signallingServerKey, -1)
    {
      createTime, status, error, omeStreamKey := now, Ready, NoError, -1;
      this.signallingServerKey := signallingServerKey;
    }
  }

  class StreamManager {
    var streamInfoMap: map<int, StreamInfo>

    ghost predicate Valid()
      reads this
    {
      forall i, j :: i in streamInfoMap && j in streamInfoMap && i != j ==> streamInfoMap[i] != streamInfoMap[j]
    }

    ghost function View(): Records
      reads this, streamInfoMap.Values
    {
      map k | k in streamInfoMap :: streamInfoMap[k].View()
    }

    constructor ()
      ensures Valid() && View() == map[]
    {
      streamInfoMap := map[];
    }

    method CreateStream(key: int, signallingServerKey: int, now: int) returns (result: bool)
      requires Valid()
      modifies this
      ensures Valid() && result == (key !in old(streamInfoMap))
      ensures View() == Created(old(View()), key, signallingServerKey, now)
    {
      result := false;
      if key !in streamInfoMap {
        var info := new StreamInfo(signallingServerKey, now);
        streamInfoMap := streamInfoMap[key := info];
        result := true;
      }
    }

    method FindStream(key: int, erase: bool) returns (stream: StreamInfo?)
      requires Valid()
      modifies this
      ensures Valid() && (stream == null <==> key !in old(streamInfoMap))
      ensures stream != null ==> stream == old(streamInfoMap)[key]
      ensures streamInfoMap == if erase then old(streamInfoMap) - {key} else old(streamInfoMap)
    {
      stream := null;
      if key in streamInfoMap {
        stream := streamInfoMap[key];
        if erase { streamInfoMap := streamInfoMap - {key}; }
      } else {
        assert streamInfoMap - {key} == streamInfoMap;
      }
    }

    method SetError(key: int, error: StreamError) returns (result: bool)
      requires Valid()
      modifies this, streamInfoMap.Values
      ensures Valid() && result == (key in old(streamInfoMap))
      ensures View() == WithError(old(View()), key, error)
    {
      var info := FindStream(key, false);
      if info != null {
        if info.error == NoError { info.error := error; }
        assert forall k :: k in streamInfoMap && k != key ==> streamInfoMap[k].View() == old(streamInfoMap[k].View());
        assert streamInfoMap[key].View() == info.View();
        return true;
      }
      return false;
    }

    method SetStatus(key: int, status: StreamStatus) returns (result: bool)
      requires Valid()
      modifies this, streamInfoMap.Values
      ensures Valid() && result == (key in old(streamInfoMap))
      ensures View() == WithStatus(old(View()), key, status)
    {
      var info := FindStream(key, false);
      if info != null {
        info.status := status;
        assert forall k :: k in streamInfoMap && k != key ==> streamInfoMap[k].View() == old(streamInfoMap[k].View());
        assert streamInfoMap[key].View() == info.View();
        return true;
      }
      return false;
    }

    method SetOmeStreamInfo(key: int, omeStreamKey: int) returns (result: bool)
      requires Valid()
      modifies this, streamInfoMap.Values
      ensures Valid() && result == (key in old(streamInfoMap))
      ensures View() == WithOmeStream(old(View()), key, omeStreamKey)
    {
      var info := FindStream(key, false);
      if info != null {
        info.omeStreamKey := omeStreamKey;
        assert forall k :: k in streamInfoMap && k != key ==> streamInfoMap[k].View() == old(streamInfoMap[k].View());
        assert streamInfoMap[key].View() == info.View();
        return true;
      }
      return false;
    }

    /** Walks the map in key order, erasing as it goes. The keys of the network objects to close are
        returned to the caller, which hands them to the managers. */
    method GarbageCheck(now: int)
      returns (removeCount: nat, signallingServerKeys: seq<int>, omeStreamKeys: seq<int>, ghost removed: seq<int>)
      requires Valid()
      modifies this, streamInfoMap.Values
      ensures Valid() && View() == Survivors(old(View()), now)
      ensures forall k :: k in old(View()) && -0x8000_0000 <= now - old(View())[k].createTime < 0x8000_0000 ==>
                (k in View() <==> old(View())[k].error == NoError
                                  && (old(View())[k].status == Streaming || now - old(View())[k].createTime <= 30))
      ensures forall k :: k in removed <==> k in Garbage(old(View()), now)
      ensures forall i, j :: 0 <= i < j < |removed| ==> removed[i] < removed[j]
      ensures removeCount == |removed|
      ensures signallingServerKeys == Keys(old(View()), removed, false) && omeStreamKeys == Keys(old(View()), removed, true)
    {
      hide Dead, Keys, Survivors, Swept;
      ghost var view := View();
      removeCount, signallingServerKeys, omeStreamKeys, removed := Walk(now);
      AllSwept(view, now, removed);
      SurvivorsAre(view, now, View());
      forall k | k in view && -0x8000_0000 <= now - view[k].createTime < 0x8000_0000
        ensures k in View() <==> view[k].error == NoError && (view[k].status == Streaming || now - view[k].createTime <= 30)
      {
        StaysIff(view, now, k, now - view[k].createTime);
      }
    }

    /** The walk itself, record by record. */
    method Walk(now: int)
      returns (removeCount: nat, signallingServerKeys: seq<int>, omeStreamKeys: seq<int>, ghost removed: seq<int>)
      requires Valid()
      modifies this, streamInfoMap.Values
      ensures Swept(old(View()), now, {}, removed) && removeCount == |removed|
      ensures forall k :: k in streamInfoMap <==> k in old(streamInfoMap) && k !in removed
      ensures forall k :: k in streamInfoMap ==> streamInfoMap[k] == old(streamInfoMap)[k]
      ensures forall k :: k in streamInfoMap ==> streamInfoMap[k].View() == old(streamInfoMap[k].View())
      ensures signallingServerKeys == Keys(old(View()), removed, false) && omeStreamKeys == Keys(old(View()), removed, true)
    {
      hide Dead, Keys, Survivors, Swept;
      ghost var before, view := streamInfoMap, View();
      var rest := streamInfoMap.Keys;
      removeCount, signallingServerKeys, omeStreamKeys, removed := 0, [], [], [];
      NothingSwept(view, now, rest);
      while rest != {}
        invariant Swept(view, now, rest, removed) && removeCount == |removed|
        invariant forall k :: k in rest ==> k in streamInfoMap
        invariant forall k :: k in streamInfoMap <==> k in before && k !in removed
        invariant forall k :: k in streamInfoMap ==> streamInfoMap[k] == before[k]
        invariant forall k :: k in before && k !in removed ==> before[k].View() == view[k]
        invariant signallingServerKeys == Keys(view, removed, false) && omeStreamKeys == Keys(view, removed, true)
        decreases |rest|
      {
        ghost var least := Least(rest);
        var item :| item in rest && forall k :: k in rest ==> item <= k;
        assert forall k :: k in before && k != item ==> before[k] != before[item];
        SweepStep(view, now, rest, removed, item);
        KeysAppend(view, removed, item, false);
        KeysAppend(view, removed, item, true);
        var remove, signallingServerKey, omeStreamKey := Visit(item, now);
        if remove {
          signallingServerKeys := signallingServerKeys + [signallingServerKey];
          omeStreamKeys := omeStreamKeys + [omeStreamKey];
          removeCount := removeCount + 1;
          removed := removed + [item];
        }
        rest := rest - {item};
      }
    }

    /** The check of one record: a dead one is marked, erased and its network keys returned. */
    method Visit(item: int, now: int) returns (remove: bool, signallingServerKey: int, omeStreamKey: int)
      requires item in streamInfoMap
      modifies this, streamInfoMap[item]
      ensures remove == Dead(old(streamInfoMap[item].View()), now)
      ensures signallingServerKey == old(streamInfoMap[item].signallingServerKey)
      ensures omeStreamKey == old(streamInfoMap[item].omeStreamKey)
      ensures streamInfoMap == if remove then old(streamInfoMap) - {item} else old(streamInfoMap)
      ensures remove ==> old(streamInfoMap)[item].error ==
                           if old(streamInfoMap[item].error) == NoError then StreamCompleteTimerOver else old(streamInfoMap[item].error)
      ensures !remove ==> old(streamInfoMap)[item].View() == old(streamInfoMap[item].View())
    {
      var info := streamInfoMap[item];
      signallingServerKey, omeStreamKey := info.signallingServerKey, info.omeStreamKey;
      remove := false;
      var gap := ToInt32(now - info.createTime);
      if info.error != NoError {
        remove := true;
      } else if info.status != Streaming && gap > STREAMING_STATUS_MAX_WAIT_TIME {
        info.error := StreamCompleteTimerOver;
        remove := true;
      }
      if remove { streamInfoMap := streamInfoMap - {item}; }
    }
  }
}
