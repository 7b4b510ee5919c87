/**
 The cache of rpc/cache.go as an object: shards, counters and entries updated in place, proved to behave as one map.
 */
module CacheClient {
  import opened Wrappers
  import opened Residues
  import opened AccountCache

  class Cache {
    var shards: seq<Shard>
    const freshFor: int
    var hits: nat
    var misses: nat

    ghost predicate Valid()
      reads this
    {
      Placed(shards)
    }

    /** The one map the shards make up. */
    ghost function Contents(): (m: Shard)
      reads this
    {
      Merged(shards)
    }

    /** The shard count is rounded up to a power of two. */
    constructor (wanted: nat, freshFor: int)
      ensures Valid() && Contents() == map[] && hits == misses == 0 && this.freshFor == freshFor
      ensures |shards| >= wanted && exists k: nat :: |shards| == Pow(2, k)
    {
      this.freshFor := freshFor;
      hits, misses := 0, 0;
      var n := 1;
      ghost var k := 0;
      while n < wanted
        invariant n == Pow(2, k) && n > 0
      {
        n := 2 * n;
        k := k + 1;
      }
      shards := seq(n, _ => map[]);
      new;
      EmptyMerged(shards, |shards|);
      assert shards[..|shards|] == shards;
    }

    method Set(key: Address, w: Write)
      requires Valid()
      modifies this`shards
      ensures Valid() && |shards| == |old(shards)| && Contents() == Store(old(Contents()), key, w)
    {
      hide Placed, Merged, ShardOf;
      PlacedSize(shards);
      var i := ShardOf(key, |shards|);
      var prev := if key in shards[i] then Some(shards[i][key]) else None;
      MergedAt(shards, key);
      MergedUpdate(shards, key, Written(prev, w));
      shards := shards[i := shards[i][key := Written(prev, w)]];
    }

    method Delete(key: Address)
      requires Valid()
      modifies this`shards
      ensures Valid() && |shards| == |old(shards)| && Contents() == old(Contents()) - {key}
    {
      hide Placed, Merged, ShardOf;
      PlacedSize(shards);
      var i := ShardOf(key, |shards|);
      MergedRemove(shards, key);
      shards := shards[i := shards[i] - {key}];
    }

    method LookupAt(key: Address, now: int) returns (r: Option<Value>)
      requires Valid()
      modifies this`shards
      ensures Valid() && |shards| == |old(shards)|
      ensures r == Served(old(Contents()), key, now, freshFor)
      ensures Contents() == Touch(old(Contents()), key, now, freshFor)
    {
      hide Placed, Merged, ShardOf;
      PlacedSize(shards);
      var i := ShardOf(key, |shards|);
      MergedAt(shards, key);
      if key !in shards[i] || !Fresh(shards[i][key], now, freshFor) { return None; }
      var e := shards[i][key];
      MergedUpdate(shards, key, e.(lastRead := now));
      shards := shards[i := shards[i][key := e.(lastRead := now)]];
      r := Some(e.data);
    }

    /** The sizes of the shards add up to the size of the map. */
    method Len() returns (total: nat)
      requires Valid()
      ensures total == |Contents()|
    {
      hide Placed, Merged;
      total := 0;
      NoShards(shards);
      for i := 0 to |shards|
        invariant total == |Merged(shards[..i])|
      {
        MergedSize(shards, i);
        total := total + |shards[i]|;
      }
      assert shards[..|shards|] == shards;
    }

    /** Exactly the entries not read since the cutoff go; a non-positive age evicts nothing. */
    method Tidy(now: int, ttl: int)
      requires Valid()
      modifies this`shards
      ensures Valid()
      ensures Contents() == if ttl <= 0 then old(Contents()) else KeptSince(old(Contents()), now - ttl)
    {
      hide Placed, Merged, KeptSince;
      if ttl <= 0 { return; }
      ghost var was := shards;
      for i := 0 to |shards|
        invariant |shards| == |was|
        invariant forall j :: 0 <= j < i ==> shards[j] == KeptSince(was[j], now - ttl)
        invariant forall j :: i <= j < |was| ==> shards[j] == was[j]
      {
        var tidied := TidyShard(shards[i], now - ttl);
        shards := shards[i := tidied];
      }
      MergedKept(was, shards, now - ttl);
    }

    /** The first pass: serve what can be served, note where each missing key is wanted. */
    method ScanBatch(accounts: seq<Address>, now: int)
      returns (out: seq<Value>, fetchKeys: seq<Address>, positions: Positions)
      requires Valid()
      modifies this
      ensures Valid() && Contents() == TouchAll(old(Contents()), accounts, now, freshFor)
      ensures fetchKeys == Missing(old(Contents()), accounts, now, freshFor)
      ensures ServedOut(old(Contents()), accounts, now, freshFor, out)
      ensures Recorded(old(Contents()), accounts, now, freshFor, |accounts|, positions)
      ensures hits == old(hits) + Hits(old(Contents()), accounts, now, freshFor) && misses == old(misses) + |fetchKeys|
      ensures (forall k :: k in fetchKeys ==> k in positions)
              && hits + Recordings(fetchKeys, positions) == old(hits) + |accounts|
    {
      hide Merged, Touch, Served, Missing, Hits, Recordings, Recorded, Scanned;
      out, fetchKeys, positions := seq(|accounts|, _ => None), [], map[];
      var found := 0;
      ghost var m := Contents();
      NothingScanned(m, accounts, now, freshFor);
      for i := 0 to |accounts|
        invariant Valid() && hits == old(hits) && misses == old(misses) && |out| == |accounts|
        invariant Contents() == TouchAll(m, accounts[..i], now, freshFor)
        invariant forall j :: 0 <= j < |out| ==>
                  out[j] == if j < i then ServedOr(m, accounts[j], now, freshFor) else None
        invariant Scanned(m, accounts, now, freshFor, i, fetchKeys, positions, found)
      {
        var key := accounts[i];
        assert accounts[..i + 1][..i] == accounts[..i];
        TouchServes(m, accounts[..i], now, freshFor, key);
        var data := LookupAt(key, now);
        if data.Some? {
          ScanHit(m, accounts, now, freshFor, i, fetchKeys, positions, found);
          out := out[i := data.value];
          found := found + 1;
        } else {
          fetchKeys, positions := Record(m, accounts, now, freshFor, i, fetchKeys, positions, found);
        }
      }
      AllScanned(m, accounts, now, freshFor, fetchKeys, positions, found);
      assert accounts[..|accounts|] == accounts;
      hits := hits + found;
      misses := misses + |fetchKeys|;
    }

    /** The second pass: each fetched value goes wherever its key is wanted, and into the cache. */
    method DeliverBatch(fetchKeys: seq<Address>, positions: Positions, fetched: seq<Value>, slot: nat, now: int,
                        before: seq<Value>)
      returns (out: seq<Value>)
      requires Valid() && |fetched| <= |fetchKeys| && positions.Keys == set k | k in fetchKeys
      requires forall i, j :: 0 <= i < j < |fetchKeys| ==> fetchKeys[i] != fetchKeys[j]
      requires forall k: Address, x: nat :: Wanted(positions, k, x) ==> x < |before|
      requires forall k: Address, k': Address, x: nat :: Wanted(positions, k, x) && Wanted(positions, k', x) ==> k == k'
      modifies this`shards
      ensures Valid() && Contents() == StoreAll(old(Contents()), fetchKeys, fetched, slot, now)
      ensures Delivered(fetchKeys, positions, fetched, |fetched|, before, out)
    {
      hide Merged, Store, Placed, Delivered;
      out := before;
      ghost var m := Contents();
      NothingDelivered(fetchKeys, positions, fetched, before);
      for i := 0 to |fetched|
        invariant Valid()
        invariant Contents() == StoreAll(m, fetchKeys, fetched[..i], slot, now)
        invariant Delivered(fetchKeys, positions, fetched, i, before, out)
      {
        var key := fetchKeys[i];
        assert fetched[..i + 1][..i] == fetched[..i];
        DeliveredSize(fetchKeys, positions, fetched, i, before, out);
        forall x: nat | x in positions[key] ensures x < |out| {
          assert Wanted(positions, key, x);
        }
        ghost var was := out;
        out := PutAt(out, positions[key], fetched[i]);
        DeliverOne(fetchKeys, positions, fetched, i, before, was, out);
        if fetched[i].Some? {
          Set(key, Write(fetched[i], slot, false, false, now));
        }
      }
      assert fetched[..|fetched|] == fetched;
    }

    /** cachedGetMultipleAccounts. The network is a function from keys to values, or to nothing. It may answer with
        fewer values than keys, and with more, which ends in an index out of range behind the last key. */
    method GetMultiple(accounts: seq<Address>, now: int, fetch: seq<Address> -> Option<seq<Value>>, slot: nat,
                       storedAt: int)
      returns (r: Result<seq<Value>, BatchFailure>)
      requires Valid()
      modifies this
      ensures Valid()
      ensures var m := old(Contents());
        var miss := Missing(m, accounts, now, freshFor);
        && hits == old(hits) + Hits(m, accounts, now, freshFor) && misses == old(misses) + |miss|
        && Contents() == Stored(TouchAll(m, accounts, now, freshFor), miss, Asked(fetch, miss), slot, storedAt)
        && match Asked(fetch, miss)
           case None => r == Err(FetchFailed)
           case Some(got) =>
             if |got| > |miss| then r == Err(OutOfRange)
             else r.Ok? && Answers(m, accounts, now, freshFor, got, r.value)
    {
      hide Merged, Placed, Served, Missing, TouchAll, StoreAll, Hits, ServedOut, Recorded, Answers, Delivered;
      ghost var m := Contents();
      var out, fetchKeys, positions := ScanBatch(accounts, now);
      MissingExact(m, accounts, now, freshFor);
      if |fetchKeys| == 0 {
        AllServed(m, accounts, now, freshFor, out);
        NothingStored(TouchAll(m, accounts, now, freshFor), slot, storedAt);
        return Ok(out);
      }
      var fetched := fetch(fetchKeys);
      if fetched == None { return Err(FetchFailed); }
      RecordedKeys(m, accounts, now, freshFor, |accounts|, positions);
      assert accounts[..|accounts|] == accounts;
      RecordedApart(m, accounts, now, freshFor, positions);
      ServedSize(m, accounts, now, freshFor, out);
      if |fetched.value| > |fetchKeys| {
        out := DeliverBatch(fetchKeys, positions, fetched.value[..|fetchKeys|], slot, storedAt, out);
        return Err(OutOfRange);
      }
      ghost var before := out;
      out := DeliverBatch(fetchKeys, positions, fetched.value, slot, storedAt, out);
      AllAnswered(m, accounts, now, freshFor, positions, fetched.value, before, out);
      r := Ok(out);
    }
  }

  datatype BatchFailure = FetchFailed | OutOfRange

  /** What the network answers; it is not asked for nothing. */
  function Asked(fetch: seq<Address> -> Option<seq<Value>>, miss: seq<Address>): (r: Option<seq<Value>>) {
    if miss == [] then Some([]) else fetch(miss)
  }

  /** The cache behind a batch read: as many values stored as there are keys for. */
  function Stored(m: Shard, miss: seq<Address>, got: Option<seq<Value>>, slot: nat, now: int): (r: Shard) {
    if got == None then m
    else StoreAll(m, miss, if |got.value| > |miss| then got.value[..|miss|] else got.value, slot, now)
  }

  lemma {:induction false} NothingStored(m: Shard, slot: nat, now: int)
    ensures StoreAll(m, [], [], slot, now) == m
  {
  }

  type Positions = map<Address, seq<nat>>

  /** Position x is recorded under k. */
  predicate Wanted(positions: Positions, k: Address, x: nat) {
    k in positions && x in positions[k]
  }

  /** Every position that can be served holds what the cache serves, and the others nothing. */
  ghost predicate ServedOut(m: Shard, accounts: seq<Address>, now: int, freshFor: int, out: seq<Value>) {
    && |out| == |accounts|
    && forall j :: 0 <= j < |accounts| ==> out[j] == ServedOr(m, accounts[j], now, freshFor)
  }

  /** What the first pass leaves for a key. */
  function ServedOr(m: Shard, key: Address, now: int, freshFor: int): (v: Value) {
    match Served(m, key, now, freshFor)
    case Some(v) => v
    case None => None
  }

  /** The first i positions are recorded under their keys, when they cannot be served, and nothing else is. */
  ghost predicate Recorded(m: Shard, accounts: seq<Address>, now: int, freshFor: int, i: nat, positions: Positions)
    requires i <= |accounts|
  {
    && (forall j :: 0 <= j < i && Served(m, accounts[j], now, freshFor).None? ==> Wanted(positions, accounts[j], j))
    && (forall k: Address, x: nat :: Wanted(positions, k, x) ==>
        x < i && accounts[x] == k && Served(m, k, now, freshFor).None?)
    && (forall k :: k in positions ==> positions[k] != [])
  }

  lemma {:induction false} RecordHit(m: Shard, accounts: seq<Address>, now: int, freshFor: int, i: nat,
                                     positions: Positions)
    requires i < |accounts| && Recorded(m, accounts, now, freshFor, i, positions)
             && Served(m, accounts[i], now, freshFor).Some?
    ensures Recorded(m, accounts, now, freshFor, i + 1, positions)
  {
    hide Served;
  }

  lemma {:induction false} RecordMiss(m: Shard, accounts: seq<Address>, now: int, freshFor: int, i: nat,
                                      positions: Positions)
    requires i < |accounts| && Recorded(m, accounts, now, freshFor, i, positions)
             && Served(m, accounts[i], now, freshFor).None?
    ensures var key := accounts[i];
      Recorded(m, accounts, now, freshFor, i + 1,
               positions[key := (if key in positions then positions[key] else []) + [i]])
  {
    hide Served;
    var key := accounts[i];
    var old' := if key in positions then positions[key] else [];
    var more := positions[key := old' + [i]];
    forall k: Address, x: nat ensures Wanted(more, k, x) <==> Wanted(positions, k, x) || (k == key && x == i) {
      assert x in old' + [i] <==> x in old' || x == i;
    }
  }

  /** How many positions are recorded under the given keys. */
  ghost function Recordings(keys: seq<Address>, positions: Positions): (n: nat)
    requires forall k :: k in keys ==> k in positions
  {
    if keys == [] then 0 else Recordings(keys[..|keys| - 1], positions) + |positions[keys[|keys| - 1]]|
  }

  lemma {:induction false} RecordingsSame(keys: seq<Address>, positions: Positions, key: Address, list: seq<nat>)
    requires (forall k :: k in keys ==> k in positions) && key !in keys
    ensures Recordings(keys, positions[key := list]) == Recordings(keys, positions)
    decreases |keys|
  {
    if keys != [] {
      var n := |keys| - 1;
      assert keys[n] in keys && forall k :: k in keys[..n] ==> k in keys;
      RecordingsSame(keys[..n], positions, key, list);
    }
  }

  /** One position more under a key, listed already or new, makes one more in all. */
  lemma {:induction false} RecordingsMore(keys: seq<Address>, positions: Positions, key: Address, i: nat)
    requires (forall k :: k in keys ==> k in positions) && (key in positions ==> key in keys)
    requires forall j, k :: 0 <= j < k < |keys| ==> keys[j] != keys[k]
    ensures key in keys ==> Recordings(keys, positions[key := positions[key] + [i]]) == Recordings(keys, positions) + 1
    ensures key !in keys ==> Recordings(keys + [key], positions[key := [i]]) == Recordings(keys, positions) + 1
    decreases |keys|
  {
    if key !in keys {
      RecordingsSame(keys, positions, key, [i]);
      assert (keys + [key])[..|keys|] == keys;
    } else {
      RecordingsExtended(keys, positions, key, i);
    }
  }

  lemma {:induction false} RecordingsExtended(keys: seq<Address>, positions: Positions, key: Address, i: nat)
    requires (forall k :: k in keys ==> k in positions) && key in keys
    requires forall j, k :: 0 <= j < k < |keys| ==> keys[j] != keys[k]
    ensures Recordings(keys, positions[key := positions[key] + [i]]) == Recordings(keys, positions) + 1
    decreases |keys|
  {
    var n := |keys| - 1;
    assert keys == keys[..n] + [keys[n]];
    if keys[n] == key {
      RecordingsSame(keys[..n], positions, key, positions[key] + [i]);
    } else {
      RecordingsExtended(keys[..n], positions, key, i);
    }
  }

  /** Where the first pass stands after i accounts. */
  ghost predicate Scanned(m: Shard, accounts: seq<Address>, now: int, freshFor: int, i: nat, fetchKeys: seq<Address>,
                          positions: Positions, found: nat)
    requires i <= |accounts|
  {
    && fetchKeys == Missing(m, accounts[..i], now, freshFor) && found == Hits(m, accounts[..i], now, freshFor)
    && Recorded(m, accounts, now, freshFor, i, positions)
    && (forall k :: k in fetchKeys ==> k in positions) && found + Recordings(fetchKeys, positions) == i
  }

  lemma {:induction false} NothingScanned(m: Shard, accounts: seq<Address>, now: int, freshFor: int)
    ensures Scanned(m, accounts, now, freshFor, 0, [], map[], 0)
  {
  }

  lemma {:induction false} ScanHit(m: Shard, accounts: seq<Address>, now: int, freshFor: int, i: nat,
                                   fetchKeys: seq<Address>, positions: Positions, found: nat)
    requires i < |accounts| && Scanned(m, accounts, now, freshFor, i, fetchKeys, positions, found)
             && Served(m, accounts[i], now, freshFor).Some?
    ensures Scanned(m, accounts, now, freshFor, i + 1, fetchKeys, positions, found + 1)
  {
    hide Served, Recorded, Recordings;
    RecordHit(m, accounts, now, freshFor, i, positions);
    assert accounts[..i + 1][..i] == accounts[..i];
  }

  lemma {:induction false} AllScanned(m: Shard, accounts: seq<Address>, now: int, freshFor: int,
                                      fetchKeys: seq<Address>, positions: Positions, found: nat)
    requires Scanned(m, accounts, now, freshFor, |accounts|, fetchKeys, positions, found)
    ensures fetchKeys == Missing(m, accounts, now, freshFor) && found == Hits(m, accounts, now, freshFor)
    ensures Recorded(m, accounts, now, freshFor, |accounts|, positions)
    ensures (forall k :: k in fetchKeys ==> k in positions) && found + Recordings(fetchKeys, positions) == |accounts|
  {
    assert accounts[..|accounts|] == accounts;
  }

  /** A miss: its key is to be fetched, once, and its position noted. */
  method Record(ghost m: Shard, accounts: seq<Address>, ghost now: int, ghost freshFor: int, i: nat,
                fetchKeys: seq<Address>, positions: Positions, ghost found: nat)
    returns (keys: seq<Address>, noted: Positions)
    requires i < |accounts| && Scanned(m, accounts, now, freshFor, i, fetchKeys, positions, found)
             && Served(m, accounts[i], now, freshFor).None?
    ensures Scanned(m, accounts, now, freshFor, i + 1, keys, noted, found)
  {
    hide Served, Recorded, Recordings;
    var key := accounts[i];
    assert accounts[..i + 1][..i] == accounts[..i];
    MissingExact(m, accounts[..i], now, freshFor);
    RecordedKeys(m, accounts, now, freshFor, i, positions);
    RecordMiss(m, accounts, now, freshFor, i, positions);
    RecordingsMore(fetchKeys, positions, key, i);
    keys, noted := fetchKeys, positions;
    if key !in noted {
      keys := keys + [key];
      noted := noted[key := []];
    }
    noted := noted[key := noted[key] + [i]];
    assert noted == positions[key := (if key in positions then positions[key] else []) + [i]];
    assert [] + [i] == [i];
  }

  /** The values of the first i keys stand wherever those keys are wanted; other positions are untouched. */
  ghost predicate Delivered(fetchKeys: seq<Address>, positions: Positions, fetched: seq<Value>, i: nat,
                            before: seq<Value>, out: seq<Value>)
    requires i <= |fetched| <= |fetchKeys|
  {
    && |out| == |before|
    && (forall j: nat, x: nat :: j < i && Wanted(positions, fetchKeys[j], x) ==> x < |out| && out[x] == fetched[j])
    && (forall x: nat :: x < |before| && (forall j: nat :: j < i ==> !Wanted(positions, fetchKeys[j], x)) ==>
        out[x] == before[x])
  }

  lemma {:induction false} NothingDelivered(fetchKeys: seq<Address>, positions: Positions, fetched: seq<Value>,
                                            before: seq<Value>)
    requires |fetched| <= |fetchKeys|
    ensures Delivered(fetchKeys, positions, fetched, 0, before, before)
  {
  }

  lemma {:induction false} DeliveredSize(fetchKeys: seq<Address>, positions: Positions, fetched: seq<Value>, i: nat,
                                         before: seq<Value>, out: seq<Value>)
    requires i <= |fetched| <= |fetchKeys| && Delivered(fetchKeys, positions, fetched, i, before, out)
    ensures |out| == |before|
  {
  }

  lemma {:induction false} DeliverOne(fetchKeys: seq<Address>, positions: Positions, fetched: seq<Value>, i: nat,
                                      before: seq<Value>, was: seq<Value>, out: seq<Value>)
    requires i < |fetched| <= |fetchKeys| && Delivered(fetchKeys, positions, fetched, i, before, was)
             && fetchKeys[i] in positions
    requires forall j, k :: 0 <= j < k < |fetchKeys| ==> fetchKeys[j] != fetchKeys[k]
    requires forall k: Address, x: nat :: Wanted(positions, k, x) ==> x < |before|
    requires forall k: Address, k': Address, x: nat :: Wanted(positions, k, x) && Wanted(positions, k', x) ==> k == k'
    requires |out| == |was| && forall x: nat :: x < |was| ==>
             out[x] == if x in positions[fetchKeys[i]] then fetched[i] else was[x]
    ensures Delivered(fetchKeys, positions, fetched, i + 1, before, out)
  {
    forall j: nat, x: nat | j < i + 1 && Wanted(positions, fetchKeys[j], x) ensures x < |out| && out[x] == fetched[j] {
      if j < i {
        assert fetchKeys[j] != fetchKeys[i];
        assert !Wanted(positions, fetchKeys[i], x);
      }
    }
    forall x: nat | x < |before| && (forall j: nat :: j < i + 1 ==> !Wanted(positions, fetchKeys[j], x))
      ensures out[x] == before[x]
    {
      assert !Wanted(positions, fetchKeys[i], x);
    }
  }

  lemma {:induction false} RecordedKeys(m: Shard, accounts: seq<Address>, now: int, freshFor: int, i: nat,
                                        positions: Positions)
    requires i <= |accounts| && Recorded(m, accounts, now, freshFor, i, positions)
    ensures forall k :: k in positions <==> k in Missing(m, accounts[..i], now, freshFor)
    ensures positions.Keys == set k | k in Missing(m, accounts[..i], now, freshFor)
  {
    hide Served, Missing;
    MissingExact(m, accounts[..i], now, freshFor);
    forall k ensures k in positions <==> k in Missing(m, accounts[..i], now, freshFor) {
      if k in positions {
        var x := positions[k][0];
        assert Wanted(positions, k, x);
        assert accounts[..i][x] == k;
      }
      if k in Missing(m, accounts[..i], now, freshFor) {
        var x: nat :| x < i && accounts[..i][x] == k;
        assert Wanted(positions, accounts[x], x);
      }
    }
  }

  lemma {:induction false} RecordedApart(m: Shard, accounts: seq<Address>, now: int, freshFor: int,
                                         positions: Positions)
    requires Recorded(m, accounts, now, freshFor, |accounts|, positions)
    ensures forall k: Address, x: nat :: Wanted(positions, k, x) ==> x < |accounts|
    ensures forall k: Address, k': Address, x: nat :: Wanted(positions, k, x) && Wanted(positions, k', x) ==> k == k'
  {
    hide Served;
  }

  lemma {:induction false} ServedSize(m: Shard, accounts: seq<Address>, now: int, freshFor: int, out: seq<Value>)
    requires ServedOut(m, accounts, now, freshFor, out)
    ensures |out| == |accounts|
  {
  }

  lemma {:induction false} AllServed(m: Shard, accounts: seq<Address>, now: int, freshFor: int, out: seq<Value>)
    requires ServedOut(m, accounts, now, freshFor, out) && Missing(m, accounts, now, freshFor) == []
    ensures Answers(m, accounts, now, freshFor, [], out)
  {
    hide Served, Missing;
    MissingExact(m, accounts, now, freshFor);
    forall i | 0 <= i < |accounts| ensures Served(m, accounts[i], now, freshFor).Some? {
      assert accounts[i] in accounts;
    }
  }

  lemma {:induction false} AllAnswered(m: Shard, accounts: seq<Address>, now: int, freshFor: int, positions: Positions,
                                       fetched: seq<Value>, before: seq<Value>, out: seq<Value>)
    requires ServedOut(m, accounts, now, freshFor, before)
             && Recorded(m, accounts, now, freshFor, |accounts|, positions)
    requires var miss := Missing(m, accounts, now, freshFor);
      |fetched| <= |miss| && Delivered(miss, positions, fetched, |fetched|, before, out)
    ensures Answers(m, accounts, now, freshFor, fetched, out)
  {
    hide Served, Missing;
    var miss := Missing(m, accounts, now, freshFor);
    MissingExact(m, accounts, now, freshFor);
    forall i: nat, j: nat | i < |accounts| && Served(m, accounts[i], now, freshFor).None? && j < |miss|
        && miss[j] == accounts[i]
      ensures out[i] == FetchedAt(fetched, j)
    {
      assert Wanted(positions, miss[j], i);
      if j >= |fetched| {
        assert forall j': nat :: j' < |fetched| ==> !Wanted(positions, miss[j'], i);
      }
    }
    forall i: nat | i < |accounts| && Served(m, accounts[i], now, freshFor).Some? ensures out[i] == before[i] {
      assert forall k: Address :: !Wanted(positions, k, i);
    }
  }

  method PutAt(out: seq<Value>, positions: seq<nat>, v: Value) returns (r: seq<Value>)
    requires forall x: nat :: x in positions ==> x < |out|
    ensures |r| == |out| && forall x: nat :: 0 <= x < |out| ==> r[x] == if x in positions then v else out[x]
  {
    r := out;
    for i := 0 to |positions|
      invariant |r| == |out| && forall x: nat :: 0 <= x < |out| ==> r[x] == if x in positions[..i] then v else out[x]
    {
      assert positions[i] in positions && positions[..i + 1] == positions[..i] + [positions[i]];
      r := r[positions[i] := v];
    }
    assert positions[..|positions|] == positions;
  }

  lemma {:induction false} EmptyMerged(shards: seq<Shard>, n: nat)
    requires n <= |shards| && forall i :: 0 <= i < |shards| ==> shards[i] == map[]
    ensures Merged(shards[..n]) == map[]
  {
    if n > 0 {
      EmptyMerged(shards, n - 1);
      assert shards[..n][..n - 1] == shards[..n - 1];
    }
  }

  lemma {:induction false} PlacedSize(shards: seq<Shard>)
    requires Placed(shards)
    ensures |shards| > 0
  {
  }

  lemma {:induction false} NoShards(shards: seq<Shard>)
    ensures Merged(shards[..0]) == map[]
  {
  }
}
