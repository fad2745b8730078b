/** The tables of network objects and the allocator of their index keys. */
module IndexKeys {
  import opened Bytes

  const INDEX_KEY_MAX_SIZE := 2_000_000_000

  /** A table and the counter its next key is looked for from. */
  datatype Registry<T> = Registry(entries: map<int, T>, counter: int)

  /** The first unused key, looking upwards only. */
  function Scan(keys: set<int>, from: int): (r: Option<int>)
    ensures r.Some? ==> from <= r.value < INDEX_KEY_MAX_SIZE && r.value !in keys
    ensures r.Some? ==> forall k :: from <= k < r.value ==> k in keys
    ensures r.None? ==> forall k :: from <= k < INDEX_KEY_MAX_SIZE ==> k in keys
    decreases INDEX_KEY_MAX_SIZE - from
  {
    if from >= INDEX_KEY_MAX_SIZE then None
    else if from !in keys then Some(from)
    else Scan(keys, from + 1)
  }

  function Start(counter: int): int { if counter >= INDEX_KEY_MAX_SIZE then 0 else counter }

  /** `Insert` of the UDP manager, and of the TCP manager when the object starts. */
  function Insert<T>(r: Registry<T>, network: T): (Registry<T>, int) {
    match Scan(r.entries.Keys, Start(r.counter))
    case Some(key) => (Registry(r.entries[key := network], key + 1), key)
    case None => (r.(counter := Start(r.counter)), -1)
  }

  /** `Insert` of the TCP manager when the object does not start: a key is used up all the same. */
  function InsertFailing<T>(r: Registry<T>): (Registry<T>, int) {
    match Scan(r.entries.Keys, Start(r.counter))
    case Some(key) => (r.(counter := key + 1), -1)
    case None => (r.(counter := Start(r.counter)), -1)
  }

  predicate InRange<T>(r: Registry<T>) {
    0 <= r.counter <= INDEX_KEY_MAX_SIZE && forall k :: k in r.entries ==> 0 <= k < INDEX_KEY_MAX_SIZE
  }

  // ---------------------------------------------------------------- laws

  /** No live entry is overwritten, keys stay in range, and the insertion fails exactly when every
      key from the counter upwards is in use. */
  lemma InsertContract<T>(r: Registry<T>, network: T)
    requires InRange(r)
    ensures var (after, key) := Insert(r, network);
            && InRange(after)
            && (forall k :: k in r.entries ==> k in after.entries && after.entries[k] == r.entries[k])
            && (key == -1 <==> forall k :: Start(r.counter) <= k < INDEX_KEY_MAX_SIZE ==> k in r.entries)
            && (key == -1 ==> after.entries == r.entries)
            && (key != -1 ==> key !in r.entries && after.entries == r.entries[key := network])
            && (key != -1 ==> forall k :: Start(r.counter) <= k < key ==> k in r.entries)
  {}

  /** Failure is lasting: whatever is removed or added below the counter, no insertion succeeds until
      a key at or above it is released, though all the keys below may be free. */
  lemma FailureLasts<T>(r: Registry<T>, network: T, later: Registry<T>, other: T)
    requires InRange(r) && Insert(r, network).1 == -1
    requires later.counter == Insert(r, network).0.counter
    requires forall k :: later.counter <= k < INDEX_KEY_MAX_SIZE && k in r.entries ==> k in later.entries
    ensures Insert(later, other) == (later, -1)
  {}

  /** Keys end below two thousand million. */
  lemma LimitIs()
    ensures INDEX_KEY_MAX_SIZE == 2000000000
  {}

  /** An object that does not start leaves no entry but uses up the key it would have had: the next one is
      given a later key. */
  lemma FailingUsesKey<T>(r: Registry<T>, network: T, next: T)
    requires InRange(r) && Insert(r, network).1 != -1
    ensures var (after, key) := InsertFailing(r);
            && key == -1 && after.entries == r.entries && after.counter == Insert(r, network).1 + 1
            && (after.counter < INDEX_KEY_MAX_SIZE && Insert(after, next).1 != -1 ==> Insert(after, next).1 > Insert(r, network).1)
  {}

  datatype Operation<T> = Add(network: T) | AddFailing | Drop(key: int)

  function Apply<T>(r: Registry<T>, op: Operation<T>): Registry<T> {
    match op
    case Add(network) => Insert(r, network).0
    case AddFailing => InsertFailing(r).0
    case Drop(key) => r.(entries := r.entries - {key})
  }

  /** The keys handed out over a run, in order. */
  function Issued<T>(r: Registry<T>, ops: seq<Operation<T>>): seq<int>
    decreases |ops|
  {
    if ops == [] then []
    else
      var rest := Issued(Apply(r, ops[0]), ops[1..]);
      if ops[0].Add? && Insert(r, ops[0].network).1 != -1 then [Insert(r, ops[0].network).1] + rest else rest
  }

  /** Does the counter stay below its limit whenever a key is looked for? */
  predicate NeverResets<T>(r: Registry<T>, ops: seq<Operation<T>>)
    decreases |ops|
  {
    ops != [] ==> (ops[0].Drop? || r.counter < INDEX_KEY_MAX_SIZE) && NeverResets(Apply(r, ops[0]), ops[1..])
  }

  /** Until the counter is reset the keys handed out increase strictly, whatever is removed in
      between: no key is issued twice, nor one that was live at the start. */
  lemma {:induction false} KeysIncrease<T>(r: Registry<T>, ops: seq<Operation<T>>)
    requires InRange(r) && NeverResets(r, ops)
    ensures forall i :: 0 <= i < |Issued(r, ops)| ==>
              r.counter <= Issued(r, ops)[i] < INDEX_KEY_MAX_SIZE
    ensures forall i, j :: 0 <= i < j < |Issued(r, ops)| ==> Issued(r, ops)[i] < Issued(r, ops)[j]
    decreases |ops|
  {
    if ops != [] { KeysIncrease(Apply(r, ops[0]), ops[1..]); }
  }

  // ---------------------------------------------------------------- the managers

  class NetworkObject {
    const streamKey: int
    const starts: bool            // what Start returns
    const isOpen: bool            // what IsOpened returns
    var indexKey: int
    var postClosed: bool

    constructor (streamKey: int, starts: bool, isOpen: bool)
      ensures this.streamKey == streamKey && this.starts == starts && this.isOpen == isOpen
      ensures indexKey == -1 && !postClosed
    {
      this.streamKey, this.starts, this.isOpen := streamKey, starts, isOpen;
      indexKey, postClosed := -1, false;
    }

    method PostClose()
      modifies this`postClosed
      ensures postClosed
    {
      postClosed := true;
    }
  }

  /** `TcpNetworkManager` and `UdpNetworkManager`, which differ in `Insert` and `RemoveAll` only. */
  class NetworkManager {
    var networkInfoMap: map<int, NetworkObject>
    var indexKey: int
    var maxCreatingCount: nat

    /** Every object is stored under the key it carries. */
    ghost predicate Valid()
      reads this, networkInfoMap.Values
    {
      InRange(View()) && forall k :: k in networkInfoMap ==> networkInfoMap[k].indexKey == k
    }

    ghost function View(): Registry<NetworkObject>
      reads this
    {
      Registry(networkInfoMap, indexKey)
    }

    constructor ()
      ensures Valid() && View() == Registry(map[], 0) && maxCreatingCount == 0
    {
      networkInfoMap, indexKey, maxCreatingCount := map[], 0, 0;
    }

    /** The search that both versions of `Insert` begin with. */
    method FindFreeKey() returns (found: bool)
      requires Valid()
      modifies this`indexKey
      ensures Valid()
      ensures found == Scan(networkInfoMap.Keys, Start(old(indexKey))).Some?
      ensures found ==> indexKey == Scan(networkInfoMap.Keys, Start(old(indexKey))).value
      ensures !found ==> indexKey == Start(old(indexKey))
    {
      if indexKey >= INDEX_KEY_MAX_SIZE { indexKey := 0; }
      if indexKey in networkInfoMap {
        var index := indexKey;
        while index < INDEX_KEY_MAX_SIZE
          invariant indexKey <= index <= INDEX_KEY_MAX_SIZE && indexKey == Start(old(indexKey)) && Valid()
          invariant Scan(networkInfoMap.Keys, index) == Scan(networkInfoMap.Keys, indexKey)
        {
          if index !in networkInfoMap {
            indexKey := index;
            return true;
          }
          index := index + 1;
        }
        return false;
      }
      return true;
    }

    /** Puts the object in the table under the free key found. */
    method Store(network: NetworkObject)
      requires Valid() && indexKey < INDEX_KEY_MAX_SIZE && indexKey !in networkInfoMap
      requires network !in networkInfoMap.Values
      modifies this`networkInfoMap, this`maxCreatingCount, network`indexKey
      ensures Valid() && network.indexKey == indexKey
      ensures networkInfoMap == old(networkInfoMap)[indexKey := network]
      ensures maxCreatingCount == if |networkInfoMap| > old(maxCreatingCount) then |networkInfoMap| else old(maxCreatingCount)
    {
      assert forall k :: k in networkInfoMap ==> networkInfoMap[k] in networkInfoMap.Values;
      networkInfoMap := networkInfoMap[indexKey := network];
      network.indexKey := indexKey;
      if |networkInfoMap| > maxCreatingCount { maxCreatingCount := |networkInfoMap|; }
    }

    /** `UdpNetworkManager::Insert` */
    method InsertDatagram(network: NetworkObject?) returns (key: int)
      requires Valid() && (network != null ==> network !in networkInfoMap.Values)
      modifies this, if network == null then {} else {network}
      ensures Valid()
      ensures network == null ==> View() == old(View()) && key == -1
      ensures network != null ==> (View(), key) == Insert(old(View()), network) && network.postClosed == old(network.postClosed)
      ensures network != null && key != -1 ==> network.indexKey == key
      ensures maxCreatingCount == if key != -1 && |networkInfoMap| > old(maxCreatingCount) then |networkInfoMap|
                                  else old(maxCreatingCount)
    {
      hide Scan;
      key := -1;
      if network == null { return; }
      var found := FindFreeKey();
      if found {
        Store(network);
        key := indexKey;
        indexKey := indexKey + 1;
      }
    }

    /** Starts the object just stored; one that fails is closed and taken out again. */
    method StartStored(network: NetworkObject) returns (key: int)
      requires Valid() && indexKey in networkInfoMap && networkInfoMap[indexKey] == network
      modifies this`networkInfoMap, network`postClosed
      ensures Valid()
      ensures key == if network.starts && network.isOpen then indexKey else -1
      ensures networkInfoMap == if key == -1 then old(networkInfoMap) - {indexKey} else old(networkInfoMap)
      ensures network.postClosed == (old(network.postClosed) || key == -1)
    {
      key := indexKey;
      if !network.starts { key := -1; }
      if !network.isOpen { key := -1; }
      if key == -1 {
        network.PostClose();
        networkInfoMap := networkInfoMap - {indexKey};
      }
    }

    /** `TcpNetworkManager::Insert` */
    method InsertSession(network: NetworkObject?) returns (key: int)
      requires Valid() && (network != null ==> network !in networkInfoMap.Values)
      modifies this, if network == null then {} else {network}
      ensures Valid()
      ensures network == null ==> View() == old(View()) && key == -1
      ensures network != null && network.starts && network.isOpen ==>
                (View(), key) == Insert(old(View()), network) && network.postClosed == old(network.postClosed)
      ensures network != null && !(network.starts && network.isOpen) ==>
                (View(), key) == InsertFailing(old(View()))
      ensures network != null && !(network.starts && network.isOpen) && indexKey != Start(old(indexKey)) ==> network.postClosed
      ensures network != null && key != -1 ==> network.indexKey == key
    {
      hide Scan;
      key := -1;
      if network == null { return; }
      var found := FindFreeKey();
      if found {
        ghost var before := networkInfoMap;
        Store(network);
        key := StartStored(network);
        assert key == -1 ==> networkInfoMap == before;
        indexKey := indexKey + 1;
      }
    }

    method Find(key: int, erase: bool) returns (network: NetworkObject?)
      requires Valid()
      modifies this`networkInfoMap
      ensures Valid()
      ensures network == if key in old(networkInfoMap) then old(networkInfoMap)[key] else null
      ensures networkInfoMap == if erase then old(networkInfoMap) - {key} else old(networkInfoMap)
    {
      network := null;
      if key in networkInfoMap {
        network := networkInfoMap[key];
        if erase { networkInfoMap := networkInfoMap - {key}; }
      } else {
        assert networkInfoMap - {key} == networkInfoMap;
      }
    }

    method Remove(key: int) returns (result: bool)
      requires Valid()
      modifies this`networkInfoMap, networkInfoMap.Values
      ensures Valid()
      ensures result == (key in old(networkInfoMap)) && networkInfoMap == old(networkInfoMap) - {key}
      ensures forall k :: k in old(networkInfoMap) ==>
                old(networkInfoMap)[k].indexKey == k
                && old(networkInfoMap)[k].postClosed == (old(networkInfoMap[k].postClosed) || k == key)
    {
      result := false;
      var network := Find(key, true);
      if network != null {
        network.PostClose();
        result := true;
      }
    }

    /** `Remove` of a list of keys: exactly the objects under those keys leave and are closed. */
    method RemoveKeys(keys: seq<int>)
      requires Valid()
      modifies this`networkInfoMap, networkInfoMap.Values
      ensures Valid()
      ensures networkInfoMap == old(networkInfoMap) - (set k | k in keys)
      ensures forall k :: k in old(networkInfoMap) ==>
                old(networkInfoMap)[k].indexKey == k
                && old(networkInfoMap)[k].postClosed == (old(networkInfoMap[k].postClosed) || k in keys)
    {
      ghost var before := networkInfoMap;
      var i := 0;
      while i < |keys|
        invariant 0 <= i <= |keys| && Valid()
        invariant networkInfoMap == before - (set k | k in keys[..i])
        invariant forall k :: k in before ==>
                    before[k].indexKey == k && before[k].postClosed == (old(networkInfoMap[k].postClosed) || k in keys[..i])
      {
        assert keys[..i + 1] == keys[..i] + [keys[i]];
        var network := Find(keys[i], true);
        if network != null { network.PostClose(); }
        i := i + 1;
      }
      assert keys[..i] == keys;
    }

    /** `RemoveAll`; only the TCP version closes the objects. */
    method RemoveAll(closes: bool)
      requires Valid()
      modifies this`networkInfoMap, networkInfoMap.Values
      ensures Valid() && networkInfoMap == map[]
      ensures forall k :: k in old(networkInfoMap) ==>
                old(networkInfoMap)[k].postClosed == (old(networkInfoMap[k].postClosed) || closes)
    {
      ghost var before := networkInfoMap;
      while networkInfoMap.Keys != {}
        invariant networkInfoMap.Keys <= before.Keys
        invariant forall k :: k in networkInfoMap ==> networkInfoMap[k] == before[k]
        invariant forall k :: k in before ==> before[k].indexKey == k
        invariant forall k :: k in before ==>
                    before[k].postClosed == (old(networkInfoMap[k].postClosed) || (closes && k !in networkInfoMap))
        decreases |networkInfoMap.Keys|
      {
        var item :| item in networkInfoMap.Keys;
        var network := networkInfoMap[item];
        assert forall k :: k in before && k != item ==> before[k] != network;
        if closes { network.PostClose(); }
        networkInfoMap := networkInfoMap - {item};
      }
      networkInfoMap := map[];
    }
  }
}
