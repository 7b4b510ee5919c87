/**
 The slot-ordered sharded account cache (rpc/cache.go): many small maps that behave as one, entries that keep the
 newest data whatever order it arrives in, and batch reads that agree with the plain call. Time is an argument.
 */
module AccountCache {
  import opened Wrappers
  import opened ByteStrings
  import opened WireFormat

  datatype Address = Address(bytes: Key)

  /** An account, or none. */
  type Value = Option<nat>

  datatype Entry = Entry(data: Value, slot: nat, streamed: bool, immutable: bool, cachedAt: int, lastRead: int)

  // ----- one entry -----

  /** A write, with the time it happens. */
  datatype Write = Write(data: Value, slot: nat, streamed: bool, immutable: bool, now: int)

  /** set, for one key. */
  function Written(prev: Option<Entry>, w: Write): (e: Entry) {
    if prev == None then Entry(w.data, w.slot, w.streamed, w.immutable, w.now, w.now)
    else
      var p := prev.value;
      var newer := w.slot >= p.slot;
      Entry(if newer then w.data else p.data, if newer then w.slot else p.slot, p.streamed || w.streamed,
            p.immutable || w.immutable, w.now, p.lastRead)
  }

  function After(ws: seq<Write>): (e: Option<Entry>) {
    if ws == [] then None else Some(Written(After(ws[..|ws| - 1]), ws[|ws| - 1]))
  }

  predicate Fresh(e: Entry, now: int, freshFor: int) {
    e.streamed || e.immutable || now - e.cachedAt < freshFor
  }

  /** i is the last of the writes that carry the highest slot. */
  ghost predicate Decides(ws: seq<Write>, i: nat) {
    && i < |ws|
    && (forall j :: 0 <= j < |ws| ==> ws[j].slot <= ws[i].slot)
    && (forall j :: i < j < |ws| ==> ws[j].slot < ws[i].slot)
  }

  lemma {:induction false} SomeDecides(ws: seq<Write>) returns (i: nat)
    requires ws != []
    ensures Decides(ws, i)
    decreases |ws|
  {
    var n := |ws| - 1;
    if n == 0 {
      i := 0;
    } else {
      i := SomeDecides(ws[..n]);
      if ws[n].slot >= ws[i].slot { i := n; }
    }
  }

  /** After any writes, and only then, there is an entry: it holds the data and slot of the last write with the highest
      slot, every flag that was ever set, and the time of the last write. */
  lemma {:induction false} NewestWins(ws: seq<Write>, i: nat)
    requires Decides(ws, i)
    ensures After(ws).Some?
    ensures var e := After(ws).value;
      && e.data == ws[i].data && e.slot == ws[i].slot && e.cachedAt == ws[|ws| - 1].now && e.lastRead == ws[0].now
      && (e.streamed <==> exists j :: 0 <= j < |ws| && ws[j].streamed)
      && (e.immutable <==> exists j :: 0 <= j < |ws| && ws[j].immutable)
    decreases |ws|
  {
    var n := |ws| - 1;
    if n > 0 {
      var before := ws[..n];
      var k := SomeDecides(before);
      NewestWins(before, k);
      assert forall j :: 0 <= j < n ==> before[j] == ws[j];
      assert ws[k].slot <= ws[i].slot;
      if i < n {
        assert Decides(before, i);
        assert i == k;
      }
    }
  }

  /** Over any writes the slot never goes back and no flag is ever lost. */
  lemma {:induction false} NeverBack(ws: seq<Write>, i: nat)
    requires 0 < i <= |ws|
    ensures After(ws[..i]).Some? && After(ws).Some?
    ensures var before, now := After(ws[..i]).value, After(ws).value;
      before.slot <= now.slot && (before.streamed ==> now.streamed) && (before.immutable ==> now.immutable)
    decreases |ws|
  {
    if i < |ws| {
      var n := |ws| - 1;
      NeverBack(ws[..n], i);
      assert ws[..n][..i] == ws[..i];
    } else {
      assert ws[..i] == ws;
    }
  }

  ghost predicate DistinctSlots(ws: seq<Write>) {
    forall i, j :: 0 <= i < |ws| && 0 <= j < |ws| && ws[i].slot == ws[j].slot ==> i == j
  }

  lemma {:induction false} SameMembers(a: seq<Write>, b: seq<Write>, i: nat) returns (j: nat)
    requires multiset(a) == multiset(b) && i < |a|
    ensures j < |b| && b[j] == a[i]
  {
    assert a[i] in multiset(a);
    assert a[i] in b;
    j :| 0 <= j < |b| && b[j] == a[i];
  }

  /** Writes with distinct slots may arrive in any order: data, slot and flags come out the same. */
  lemma {:induction false} OrderDoesNotMatter(a: seq<Write>, b: seq<Write>)
    requires multiset(a) == multiset(b) && DistinctSlots(a) && a != [] && b != []
    ensures After(a).Some? && After(b).Some?
    ensures var x, y := After(a).value, After(b).value;
      x.data == y.data && x.slot == y.slot && x.streamed == y.streamed && x.immutable == y.immutable
  {
    var i := SomeDecides(a);
    var j := SomeDecides(b);
    NewestWins(a, i);
    NewestWins(b, j);
    var i' := SameMembers(a, b, i);
    var j' := SameMembers(b, a, j);
    assert a[j'].slot <= a[i].slot && b[i'].slot <= b[j].slot;
    assert a[i] == a[j'];
    FlagsAgree(a, b);
    FlagsAgree(b, a);
  }

  lemma {:induction false} FlagsAgree(a: seq<Write>, b: seq<Write>)
    requires multiset(a) == multiset(b)
    ensures (exists i :: 0 <= i < |a| && a[i].streamed) ==> exists j :: 0 <= j < |b| && b[j].streamed
    ensures (exists i :: 0 <= i < |a| && a[i].immutable) ==> exists j :: 0 <= j < |b| && b[j].immutable
  {
    if i :| 0 <= i < |a| && a[i].streamed {
      var j := SameMembers(a, b, i);
    }
    if i :| 0 <= i < |a| && a[i].immutable {
      var j := SameMembers(a, b, i);
    }
  }

  // ----- shards -----

  type Shard = map<Address, Entry>

  /** Picked by the last eight bytes of the key, little-endian, cut to the shard count. */
  function ShardOf(key: Address, n: nat): (i: nat)
    requires n > 0
    ensures i < n
  {
    ReadLE(key.bytes[24..], 8) % n
  }

  /** Every key lives in its own shard. */
  ghost predicate Placed(shards: seq<Shard>) {
    |shards| > 0 && forall i, k :: 0 <= i < |shards| && k in shards[i] ==> ShardOf(k, |shards|) == i
  }

  /** All shards as one map. */
  function Merged(shards: seq<Shard>): (m: Shard) {
    if shards == [] then map[] else Merged(shards[..|shards| - 1]) + shards[|shards| - 1]
  }

  lemma {:induction false} MergedKeys(shards: seq<Shard>, n: nat, k: Address)
    requires n <= |shards| && Placed(shards)
    ensures var i := ShardOf(k, |shards|);
      && (k in Merged(shards[..n]) <==> i < n && k in shards[i])
      && (k in Merged(shards[..n]) ==> Merged(shards[..n])[k] == shards[i][k])
    decreases n
  {
    hide ShardOf;
    if n > 0 {
      MergedKeys(shards, n - 1, k);
      assert shards[..n][..n - 1] == shards[..n - 1] && shards[..n][n - 1] == shards[n - 1];
    }
  }

  /** The merged map answers for a key what the key's own shard answers. */
  lemma {:induction false} MergedAt(shards: seq<Shard>, k: Address)
    requires Placed(shards)
    ensures var i := ShardOf(k, |shards|);
      && (k in Merged(shards) <==> k in shards[i]) && (k in Merged(shards) ==> Merged(shards)[k] == shards[i][k])
  {
    MergedKeys(shards, |shards|, k);
    assert shards[..|shards|] == shards;
  }

  lemma {:induction false} MergedSize(shards: seq<Shard>, n: nat)
    requires n < |shards| && Placed(shards)
    ensures |Merged(shards[..n + 1])| == |Merged(shards[..n])| + |shards[n]|
  {
    hide ShardOf;
    var before, one := Merged(shards[..n]), shards[n];
    assert shards[..n + 1][..n] == shards[..n] && shards[..n + 1][n] == one;
    forall k | k in one ensures k !in before {
      MergedKeys(shards, n, k);
    }
    DisjointSize(before, one);
  }

  lemma {:induction false} DisjointSize(a: Shard, b: Shard)
    requires forall k :: k in b ==> k !in a
    ensures |a + b| == |a| + |b|
  {
    assert (a + b).Keys == a.Keys + b.Keys && a.Keys !! b.Keys;
    assert |a.Keys + b.Keys| == |a.Keys| + |b.Keys|;
    assert |(a + b).Keys| == |a + b| && |a.Keys| == |a| && |b.Keys| == |b|;
  }

  /** Changing one key in its shard changes that key in the whole. */
  lemma {:induction false} MergedUpdate(shards: seq<Shard>, k: Address, e: Entry)
    requires Placed(shards)
    ensures var i := ShardOf(k, |shards|); Placed(shards[i := shards[i][k := e]])
    ensures var i := ShardOf(k, |shards|); Merged(shards[i := shards[i][k := e]]) == Merged(shards)[k := e]
  {
    hide ShardOf;
    var i := ShardOf(k, |shards|);
    var now := shards[i := shards[i][k := e]];
    assert Placed(now);
    forall x ensures x in Merged(now) <==> x in Merged(shards)[k := e] {
      MergedAt(shards, x);
      MergedAt(now, x);
    }
    forall x | x in Merged(now) ensures Merged(now)[x] == Merged(shards)[k := e][x] {
      MergedAt(shards, x);
      MergedAt(now, x);
    }
  }

  lemma {:induction false} MergedRemove(shards: seq<Shard>, k: Address)
    requires Placed(shards)
    ensures var i := ShardOf(k, |shards|); Placed(shards[i := shards[i] - {k}])
    ensures var i := ShardOf(k, |shards|); Merged(shards[i := shards[i] - {k}]) == Merged(shards) - {k}
  {
    hide ShardOf;
    var i := ShardOf(k, |shards|);
    var now := shards[i := shards[i] - {k}];
    assert Placed(now);
    forall x ensures x in Merged(now) <==> x in Merged(shards) - {k} {
      MergedAt(shards, x);
      MergedAt(now, x);
    }
    forall x | x in Merged(now) ensures Merged(now)[x] == (Merged(shards) - {k})[x] {
      MergedAt(shards, x);
      MergedAt(now, x);
    }
  }

  // ----- eviction -----

  function KeptSince(m: Shard, cutoff: int): (r: Shard) {
    map k | k in m && m[k].lastRead >= cutoff :: m[k]
  }

  /** Tidying every shard tidies the whole. */
  lemma {:induction false} MergedKept(shards: seq<Shard>, now: seq<Shard>, cutoff: int)
    requires Placed(shards) && |now| == |shards| && forall i :: 0 <= i < |shards| ==>
             now[i] == KeptSince(shards[i], cutoff)
    ensures Placed(now) && Merged(now) == KeptSince(Merged(shards), cutoff)
  {
    hide ShardOf;
    assert Placed(now);
    forall x ensures x in Merged(now) <==> x in KeptSince(Merged(shards), cutoff) {
      MergedAt(shards, x);
      MergedAt(now, x);
    }
    forall x | x in Merged(now) ensures Merged(now)[x] == KeptSince(Merged(shards), cutoff)[x] {
      MergedAt(shards, x);
      MergedAt(now, x);
    }
  }

  /** One shard: keys in any order, the idle ones deleted. */
  method TidyShard(shard: Shard, cutoff: int) returns (r: Shard)
    ensures r == KeptSince(shard, cutoff)
  {
    r := shard;
    var todo := shard.Keys;
    while todo != {}
      invariant todo <= shard.Keys && r.Keys <= shard.Keys
      invariant forall k :: k in shard ==> (k in r <==> k in todo || shard[k].lastRead >= cutoff)
      invariant forall k :: k in r ==> r[k] == shard[k]
    {
      var k :| k in todo;
      if r[k].lastRead < cutoff { r := r - {k}; }
      todo := todo - {k};
    }
  }

  // ----- batch reads -----

  /** What the cache serves for a key at a given time. */
  function Served(m: Shard, key: Address, now: int, freshFor: int): (r: Option<Value>) {
    if key in m && Fresh(m[key], now, freshFor) then Some(m[key].data) else None
  }

  /** A hit moves the read clock, nothing else. */
  function Touch(m: Shard, key: Address, now: int, freshFor: int): (r: Shard) {
    if Served(m, key, now, freshFor).Some? then m[key := m[key].(lastRead := now)] else m
  }

  function TouchAll(m: Shard, keys: seq<Address>, now: int, freshFor: int): (r: Shard) {
    if keys == [] then m else Touch(TouchAll(m, keys[..|keys| - 1], now, freshFor), keys[|keys| - 1], now, freshFor)
  }

  /** Reading does not change what is served. */
  lemma {:induction false} TouchServes(m: Shard, keys: seq<Address>, now: int, freshFor: int, key: Address)
    ensures Served(TouchAll(m, keys, now, freshFor), key, now, freshFor) == Served(m, key, now, freshFor)
    decreases |keys|
  {
    if keys != [] {
      TouchServes(m, keys[..|keys| - 1], now, freshFor, key);
    }
  }

  /** The keys the cache cannot serve, each once, in order of first appearance. */
  function Missing(m: Shard, keys: seq<Address>, now: int, freshFor: int): (r: seq<Address>) {
    if keys == [] then []
    else
      var before, key := Missing(m, keys[..|keys| - 1], now, freshFor), keys[|keys| - 1];
      if Served(m, key, now, freshFor).Some? || key in before then before else before + [key]
  }

  function Hits(m: Shard, keys: seq<Address>, now: int, freshFor: int): (n: nat) {
    if keys == [] then 0
    else
      var n := |keys| - 1;
      Hits(m, keys[..n], now, freshFor) + (if Served(m, keys[n], now, freshFor).Some? then 1 else 0)
  }

  /** Fetched keys are exactly the unservable ones, without repeats. */
  lemma {:induction false} MissingExact(m: Shard, keys: seq<Address>, now: int, freshFor: int)
    ensures var miss := Missing(m, keys, now, freshFor);
      && (forall i, j :: 0 <= i < j < |miss| ==> miss[i] != miss[j])
      && (forall k :: k in miss <==> k in keys && Served(m, k, now, freshFor).None?)
    decreases |keys|
  {
    if keys != [] {
      var n := |keys| - 1;
      MissingExact(m, keys[..n], now, freshFor);
      assert keys == keys[..n] + [keys[n]];
    }
  }

  /** Every fetched account is stored; a missing one is not. Fewer values than keys leave the last keys alone. */
  function StoreAll(m: Shard, keys: seq<Address>, values: seq<Value>, slot: nat, now: int): (r: Shard)
    requires |values| <= |keys|
    decreases |values|
  {
    if values == [] then m
    else
      var n := |values| - 1;
      var before := StoreAll(m, keys, values[..n], slot, now);
      if values[n] == None then before else Store(before, keys[n], Write(values[n], slot, false, false, now))
  }

  function Store(m: Shard, key: Address, w: Write): (r: Shard) {
    m[key := Written(if key in m then Some(m[key]) else None, w)]
  }

  /** What the batch read answers: the cached account, or what was fetched for that key, or nothing. */
  ghost predicate Answers(m: Shard, keys: seq<Address>, now: int, freshFor: int, fetched: seq<Value>, out: seq<Value>) {
    var miss := Missing(m, keys, now, freshFor);
    && |out| == |keys| && |fetched| <= |miss|
    && forall i :: 0 <= i < |keys| ==>
         match Served(m, keys[i], now, freshFor)
         case Some(v) => out[i] == v
         case None => forall j :: 0 <= j < |miss| && miss[j] == keys[i] ==> out[i] == FetchedAt(fetched, j)
  }

  function FetchedAt(fetched: seq<Value>, j: nat): (v: Value) {
    if j < |fetched| then fetched[j] else None
  }
}
