/**
 NewTransaction pass by pass, as transaction_builder.go runs it: metas sorted and deduplicated in
 one array, the payer rotated to its front, maps and counters updated as keys are placed.
 */
module CompilerLoops {
  import opened Wrappers
  import opened TransactionCompiler
  import opened CompilerMeaning

  method CollectMetas(instrs: seq<Instruction>) returns (metas: seq<Meta>, programs: seq<Key>)
    ensures metas == AllMetas(instrs) && programs == Programs(instrs)
  {
    metas, programs := [], [];
    for i := 0 to |instrs|
      invariant metas == AccountMetas(instrs[..i]) && programs == Programs(instrs[..i])
    {
      assert instrs[..i + 1][..i] == instrs[..i];
      ghost var before := metas;
      for j := 0 to |instrs[i].accounts|
        invariant metas == before + instrs[i].accounts[..j]
      {
        metas := metas + [instrs[i].accounts[j]];
      }
      assert instrs[i].accounts[..|instrs[i].accounts|] == instrs[i].accounts;
      if instrs[i].program !in programs {
        programs := programs + [instrs[i].program];
      }
    }
    assert instrs[..|instrs|] == instrs;
    for j := 0 to |programs|
      invariant metas == AccountMetas(instrs) + ProgramMetas(programs)[..j]
    {
      metas := metas + [Meta(programs[j], false, false)];
    }
  }

  method FindPayer(instrs: seq<Instruction>, option: Key) returns (r: Option<Key>)
    requires instrs != []
    ensures r == Payer(instrs, option)
  {
    if option != 0 {
      return Some(option);
    }
    var accounts := instrs[0].accounts;
    assert accounts[0..] == accounts;
    for i := 0 to |accounts|
      invariant FirstSigner(accounts) == FirstSigner(accounts[i..])
    {
      assert accounts[i..][1..] == accounts[i + 1..];
      if accounts[i].signer {
        return Some(accounts[i].key);
      }
    }
    r := None;
  }

  /** Every address of the tables, tables in ascending order; the first occurrence stays. */
  method IndexTables(tables: Tables) returns (tooLong: Option<Key>, entries: map<Key, Entry>)
    ensures tooLong == FirstLong(tables, Ordered(tables.Keys))
    ensures tooLong == None ==>
            forall k :: (k in entries <==> Find(tables, k).Some?)
                        && (k in entries ==> entries[k] == Find(tables, k).value)
  {
    hide Ordered;
    var order := Ordered(tables.Keys);
    entries := map[];
    for t := 0 to |order|
      invariant FirstLong(tables, order[..t]) == None
      invariant forall k :: (k in entries <==> FindEntry(tables, order[..t], k).Some?)
      invariant forall k :: k in entries ==> entries[k] == FindEntry(tables, order[..t], k).value
    {
      assert order[..t + 1][..t] == order[..t] && order[t] in order;
      var table := tables[order[t]];
      if |table| > 256 {
        LongStays(tables, order, t);
        return Some(order[t]), entries;
      }
      entries := IndexTable(table, order[t], entries);
    }
    assert order[..|order|] == order;
    tooLong := None;
  }

  lemma {:induction false} LongStays(tables: Tables, order: seq<Key>, t: nat)
    requires forall x :: x in order ==> x in tables
    requires t < |order| && FirstLong(tables, order[..t]) == None && |tables[order[t]]| > 256
    ensures FirstLong(tables, order) == Some(order[t])
    decreases |order|
  {
    var n := |order| - 1;
    if t < n {
      assert order[..n][..t] == order[..t];
      LongStays(tables, order[..n], t);
    }
  }

  method IndexTable(table: seq<Key>, key: Key, before: map<Key, Entry>) returns (entries: map<Key, Entry>)
    ensures forall k :: k in entries <==> k in before || IndexIn(table, k) < |table|
    ensures forall k :: k in entries ==> entries[k] == if k in before then before[k] else Entry(key, IndexIn(table, k))
  {
    hide IndexIn;
    entries := before;
    for i := 0 to |table|
      invariant forall k :: k in entries <==> k in before || IndexIn(table, k) < i
      invariant forall k :: k in entries ==>
                entries[k] == if k in before then before[k] else Entry(key, IndexIn(table, k))
    {
      IndexAt(table, i);
      if table[i] !in entries {
        entries := entries[table[i] := Entry(key, i)];
      }
    }
  }

  lemma {:induction false} IndexAt(s: seq<Key>, i: nat)
    requires i < |s|
    ensures IndexIn(s, s[i]) <= i
    ensures forall k :: IndexIn(s, k) == i ==> k == s[i]
  {
    hide IndexIn;
  }

  // ----- deduplication in place -----

  lemma {:induction false} DedupStep(s: seq<Meta>, i: nat)
    requires i < |s|
    ensures var d, d', at := Dedup(s[..i]), Dedup(s[..i + 1]), Position(Dedup(s[..i]), s[i].key);
            if at < |d| then d' == d[at := d[at].(writable := d[at].writable || s[i].writable)] else d' == d + [s[i]]
  {
    var t, t' := s[..i], s[..i + 1];
    assert t'[..i] == t;
    var d, f := Dedup(t), Firsts(t);
    FirstsCorrect(t);
    forall k ensures AnyWritable(t', k) <==> AnyWritable(t, k) || (s[i].key == k && s[i].writable) {
      if AnyWritable(t, k) {
        var j :| 0 <= j < |t| && t[j].key == k && t[j].writable;
        assert t'[j].key == k;
      }
      if s[i].key == k && s[i].writable {
        assert t'[i].key == k;
      }
    }
    var at := Position(d, s[i].key);
    if at < |d| {
      assert f[at].key == s[i].key;
    } else {
      forall j | 0 <= j < |f| ensures f[j].key != s[i].key {
        assert d[j].key == f[j].key;
      }
      assert !HasKey(t, s[i].key) && !AnyWritable(t, s[i].key);
    }
  }

  ghost predicate Indexes(index: map<Key, nat>, s: seq<Meta>) {
    && (forall k :: k in index <==> Position(s, k) < |s|)
    && (forall k :: k in index ==> index[k] == Position(s, k))
  }

  lemma {:induction false} IndexesAppend(index: map<Key, nat>, s: seq<Meta>, m: Meta)
    requires Indexes(index, s) && m.key !in index
    ensures Indexes(index[m.key := |s|], s + [m])
  {
    hide Position;
    forall k ensures Position(s + [m], k) == if k == m.key then |s| else if Position(s, k) < |s| then Position(s, k)
        else |s| + 1 {
      PositionAppend(s, m, k);
    }
  }

  lemma {:induction false} PositionAppend(s: seq<Meta>, m: Meta, k: Key)
    ensures Position(s + [m], k) == if Position(s, k) < |s| then Position(s, k) else if k == m.key then |s| else |s| + 1
  {
    hide Position;
    var p, q := Position(s, k), Position(s + [m], k);
    if p < |s| {
      assert (s + [m])[p].key == k;
    }
    assert forall j :: 0 <= j < |s| ==> (s + [m])[j] == s[j];
    assert (s + [m])[|s|] == m;
  }

  lemma {:induction false} IndexesUpdate(index: map<Key, nat>, s: seq<Meta>, at: nat, w: bool)
    requires Indexes(index, s) && at < |s|
    ensures Indexes(index, s[at := s[at].(writable := w)])
  {
    var t := s[at := s[at].(writable := w)];
    assert KeysOf(t) == KeysOf(s);
  }

  /** Deduplicates into the front of the same array: reads run ahead of writes, so no meta is lost. */
  method DedupInPlace(metas: array<Meta>) returns (n: nat, index: map<Key, nat>)
    modifies metas
    ensures n <= metas.Length && metas[..n] == Dedup(old(metas[..]))
    ensures Indexes(index, metas[..n])
  {
    hide Dedup, Indexes, Position;
    ghost var was := metas[..];
    n, index := 0, map[];
    EmptyDedup(was, index);
    for i := 0 to metas.Length
      invariant n <= i && metas[..n] == Dedup(was[..i])
      invariant Indexes(index, metas[..n])
      invariant forall j :: i <= j < metas.Length ==> metas[j] == was[j]
    {
      var meta := metas[i];
      DedupStep(was, i);
      ghost var d := metas[..n];
      IndexedAt(index, d, meta.key);
      if meta.key in index {
        var at := index[meta.key];
        IndexesUpdate(index, d, at, d[at].writable || meta.writable);
        metas[at] := metas[at].(writable := metas[at].writable || meta.writable);
        assert metas[..n] == d[at := d[at].(writable := d[at].writable || meta.writable)];
      } else {
        IndexesAppend(index, d, meta);
        index := index[meta.key := n];
        metas[n] := meta;
        n := n + 1;
        assert metas[..n] == d + [meta];
      }
    }
    assert was[..metas.Length] == was;
  }

  lemma {:induction false} EmptyDedup(was: seq<Meta>, index: map<Key, nat>)
    requires index == map[]
    ensures Dedup(was[..0]) == [] && Indexes(index, [])
  {
  }

  lemma {:induction false} IndexedAt(index: map<Key, nat>, s: seq<Meta>, k: Key)
    requires Indexes(index, s)
    ensures k in index <==> Position(s, k) < |s|
    ensures k in index ==> index[k] == Position(s, k) && index[k] < |s|
  {
  }

  /** The payer to the front: a rotation of the prefix when it is already there, a new array otherwise. */
  method PlacePayer(metas: array<Meta>, n: nat, index: map<Key, nat>, payer: Key) returns (all: array<Meta>, count: nat)
    requires n <= metas.Length && Indexes(index, metas[..n])
    modifies metas
    ensures count <= all.Length && all[..count] == Ordering(old(metas[..n]), payer)
  {
    hide Indexes, Position;
    ghost var s := metas[..n];
    IndexedAt(index, s, payer);
    if payer in index {
      var at := index[payer];
      ghost var w := s[..at] + s[at + 1..];
      var i := at;
      while i > 0
        invariant 0 <= i <= at < n
        invariant forall j :: 0 <= j < i ==> metas[j] == s[j]
        invariant forall j :: i < j <= at ==> metas[j] == s[j - 1]
        invariant forall j :: at < j < n ==> metas[j] == s[j]
      {
        metas[i] := metas[i - 1];
        i := i - 1;
      }
      metas[0] := Meta(payer, true, true);
      all, count := metas, n;
      assert all[..count] == [Meta(payer, true, true)] + w;
    } else {
      all := new Meta[n + 1](i requires 0 <= i <= n reads metas requires n <= metas.Length => if i == 0
                             then Meta(payer, true, true) else metas[i - 1]);
      count := n + 1;
      assert all[..count] == [Meta(payer, true, true)] + s;
    }
  }

  // ----- placing keys -----

  ghost predicate IndexMap(keyIndex: map<Key, nat>, list: seq<Key>) {
    && (forall k :: k in keyIndex <==> k in list)
    && (forall k :: k in keyIndex ==> keyIndex[k] == KeyIndex(list, k))
  }

  lemma {:induction false} IndexMapAppend(keyIndex: map<Key, nat>, list: seq<Key>, k: Key)
    requires IndexMap(keyIndex, list) && k !in list
    ensures IndexMap(keyIndex[k := |list| % 65536], list + [k])
  {
    hide IndexIn;
    forall x | x in list + [k] ensures IndexIn(list + [k], x) == if x == k then |list| else IndexIn(list, x) {
      IndexInAppend(list, k, x);
    }
  }

  lemma {:induction false} IndexInAppend(list: seq<Key>, k: Key, x: Key)
    requires k !in list && x in list + [k]
    ensures IndexIn(list + [k], x) == if x == k then |list| else IndexIn(list, x)
  {
    hide IndexIn;
    var l := list + [k];
    var p := IndexIn(l, x);
    assert forall j :: 0 <= j < |list| ==> l[j] == list[j];
    assert l[|list|] == k;
    if x != k {
      assert x in list;
    }
  }

  /** Splits the ordered keys, counting roles in eight bits and handing out sixteen-bit indexes. */
  method SplitKeys(tables: Tables, entries: map<Key, Entry>, programs: seq<Key>, all: seq<Meta>)
    returns (keys: seq<Key>, header: Header, loaded: seq<Loaded>, keyIndex: map<Key, nat>, next: nat)
    requires DistinctKeys(all)
    requires forall k :: (k in entries <==> Find(tables, k).Some?)
                         && (k in entries ==> entries[k] == Find(tables, k).value)
    ensures var fixed := StaticMetas(tables, programs, all, |all|);
            keys == KeysOf(fixed) && header == HeaderOf(fixed) && IndexMap(keyIndex, keys) && next == |keys| % 65536
    ensures loaded == LoadedAccounts(tables, programs, all, |all|)
  {
    hide Find, KeyIndex, IndexMap, StaticMetas, LoadedAccounts, HeaderOf, DistinctKeys;
    keys, loaded, keyIndex, next := [], [], map[], 0;
    var required: nat, readonlySigned: nat, readonlyUnsigned: nat := 0, 0, 0;
    EmptyIndexMap(keyIndex);
    NothingSplit(tables, programs, all);
    ghost var fixed: seq<Meta> := [];
    for i := 0 to |all|
      invariant fixed == StaticMetas(tables, programs, all, i) && keys == KeysOf(fixed)
      invariant Header(required, readonlySigned, readonlyUnsigned) == HeaderOf(fixed)
      invariant loaded == LoadedAccounts(tables, programs, all, i)
      invariant IndexMap(keyIndex, keys) && next == |keys| % 65536
    {
      var meta := all[i];
      SplitStep(tables, programs, all, i);
      if meta.key in entries && i != 0 && !meta.signer && meta.key !in programs {
        var entry := entries[meta.key];
        loaded := loaded + [Loaded(meta.key, entry.table, entry.index, meta.writable)];
        continue;
      }
      IndexMapAppend(keyIndex, keys, meta.key);
      HeaderStep(fixed, meta);
      fixed := fixed + [meta];
      keys := keys + [meta.key];
      keyIndex := keyIndex[meta.key := next];
      next := (next + 1) % 65536;
      if meta.signer {
        required := (required + 1) % 256;
        if !meta.writable {
          readonlySigned := (readonlySigned + 1) % 256;
        }
        continue;
      }
      if !meta.writable {
        readonlyUnsigned := (readonlyUnsigned + 1) % 256;
      }
    }
    header := Header(required, readonlySigned, readonlyUnsigned);
  }

  lemma {:induction false} NothingSplit(tables: Tables, programs: seq<Key>, all: seq<Meta>)
    ensures StaticMetas(tables, programs, all, 0) == [] && LoadedAccounts(tables, programs, all, 0) == []
    ensures HeaderOf([]) == Header(0, 0, 0)
  {
  }

  lemma {:induction false} SplitStep(tables: Tables, programs: seq<Key>, all: seq<Meta>, i: nat)
    requires i < |all| && DistinctKeys(all)
    ensures var m, fixed, loaded := all[i], StaticMetas(tables, programs, all, i),
            LoadedAccounts(tables, programs, all, i);
            if IsLoaded(tables, programs, all, i) then
              && StaticMetas(tables, programs, all, i + 1) == fixed
              && LoadedAccounts(tables, programs, all, i + 1)
                 == loaded + [Loaded(m.key, Find(tables, m.key).value.table, Find(tables, m.key).value.index,
                                     m.writable)]
            else
              && StaticMetas(tables, programs, all, i + 1) == fixed + [m]
              && LoadedAccounts(tables, programs, all, i + 1) == loaded
              && m.key !in KeysOf(fixed)
  {
    hide Find;
    StaticPart(tables, programs, all, i);
    var fixed := StaticMetas(tables, programs, all, i);
    forall j | 0 <= j < |fixed| ensures fixed[j].key != all[i].key {
      assert fixed[j] in fixed;
    }
  }

  lemma {:induction false} EmptyIndexMap(keyIndex: map<Key, nat>)
    requires keyIndex == map[]
    ensures IndexMap(keyIndex, [])
  {
  }

  lemma {:induction false} HeaderStep(fixed: seq<Meta>, m: Meta)
    ensures HeaderOf(fixed + [m]) == var h := HeaderOf(fixed);
      Header(if m.signer then (h.required + 1) % 256 else h.required,
             if m.signer && !m.writable then (h.readonlySigned + 1) % 256 else h.readonlySigned,
             if !m.signer && !m.writable then (h.readonlyUnsigned + 1) % 256 else h.readonlyUnsigned)
  {
    CountStep(fixed, m, true, false);
    CountStep(fixed, m, true, true);
    CountStep(fixed, m, false, true);
    hide Count;
    CounterStep(Count(fixed, true, false));
    CounterStep(Count(fixed, true, true));
    CounterStep(Count(fixed, false, true));
  }

  lemma {:induction false} CountStep(fixed: seq<Meta>, m: Meta, signer: bool, readonlyOnly: bool)
    ensures Count(fixed + [m], signer, readonlyOnly) ==
            Count(fixed, signer, readonlyOnly) + (if m.signer == signer && (readonlyOnly ==> !m.writable) then 1 else 0)
  {
    assert (fixed + [m])[..|fixed|] == fixed;
  }

  /** Counting on in eight bits is counting on and cutting to eight bits. */
  lemma {:induction false} CounterStep(n: nat)
    ensures (n + 1) % 256 == (n % 256 + 1) % 256
  {
  }

  /** No account of this table and kind is in the list yet. */
  ghost predicate Unplaced(loaded: seq<Loaded>, table: Key, writable: bool, list: seq<Key>) {
    forall l :: l in loaded && l.table == table && l.writable == writable ==> l.key !in list
  }

  lemma {:induction false} PlaceStep(loaded: seq<Loaded>, j: nat, table: Key, writable: bool, list: seq<Key>)
    requires DistinctLoaded(loaded) && j < |loaded| && Unplaced(loaded, table, writable, list)
    ensures var l, p, p' := loaded[j], Pick(loaded[..j], table, writable), Pick(loaded[..j + 1], table, writable);
            if l.table == table && l.writable == writable then
              && l.key !in list + LoadedKeys(p)
              && list + LoadedKeys(p') == (list + LoadedKeys(p)) + [l.key]
              && LoadedIndexes(p') == LoadedIndexes(p) + [l.index]
            else p' == p
  {
    var l, p := loaded[j], Pick(loaded[..j], table, writable);
    assert loaded[..j + 1][..j] == loaded[..j];
    if l.table == table && l.writable == writable {
      PickMembers(loaded[..j], table, writable);
      assert l in loaded;
      forall i | 0 <= i < |p| ensures p[i].key != l.key {
        assert p[i] in p;
      }
    }
  }

  /** One pass over the loaded accounts for one table: indexes are appended and keys numbered. */
  method PlaceTable(loaded: seq<Loaded>, table: Key, writable: bool, backing0: seq<nat>, keyIndex0: map<Key, nat>,
                    next0: nat, ghost list: seq<Key>)
    returns (backing: seq<nat>, keyIndex: map<Key, nat>, next: nat)
    requires IndexMap(keyIndex0, list) && next0 == |list| % 65536
    requires DistinctLoaded(loaded) && Unplaced(loaded, table, writable, list)
    ensures var picked := Pick(loaded, table, writable);
            && backing == backing0 + LoadedIndexes(picked)
            && IndexMap(keyIndex, list + LoadedKeys(picked)) && next == |list + LoadedKeys(picked)| % 65536
  {
    hide IndexMap, KeyIndex, Pick, LoadedKeys, LoadedIndexes, DistinctLoaded, Unplaced;
    backing, keyIndex, next := backing0, keyIndex0, next0;
    NothingPicked(loaded, table, writable, list, backing0);
    for j := 0 to |loaded|
      invariant backing == backing0 + LoadedIndexes(Pick(loaded[..j], table, writable))
      invariant IndexMap(keyIndex, list + LoadedKeys(Pick(loaded[..j], table, writable)))
      invariant next == |list + LoadedKeys(Pick(loaded[..j], table, writable))| % 65536
    {
      var l := loaded[j];
      PlaceStep(loaded, j, table, writable, list);
      if l.table == table && l.writable == writable {
        IndexMapAppend(keyIndex, list + LoadedKeys(Pick(loaded[..j], table, writable)), l.key);
        backing := backing + [l.index];
        keyIndex := keyIndex[l.key := next];
        next := (next + 1) % 65536;
      }
    }
    assert loaded[..|loaded|] == loaded;
  }

  lemma {:induction false} NothingPicked(loaded: seq<Loaded>, table: Key, writable: bool, list: seq<Key>,
                                         backing: seq<nat>)
    ensures list + LoadedKeys(Pick(loaded[..0], table, writable)) == list
    ensures backing + LoadedIndexes(Pick(loaded[..0], table, writable)) == backing
  {
  }

  lemma {:induction false} TablesUnplaced(loaded: seq<Loaded>, tables: seq<Key>, ti: nat, writable: bool,
                                          list: seq<Key>)
    requires DistinctLoaded(loaded) && Ascending(tables) && ti < |tables|
    requires forall l :: l in loaded && l.writable == writable ==> l.key !in list
    ensures Unplaced(loaded, tables[ti], writable, list + LoadedKeys(PickAll(loaded, tables[..ti], writable)))
  {
    PickAllMembers(loaded, tables[..ti], writable);
    var p := PickAll(loaded, tables[..ti], writable);
    forall l | l in loaded && l.table == tables[ti] && l.writable == writable ensures l.key !in LoadedKeys(p) {
      forall i | 0 <= i < |p| ensures p[i].key != l.key {
        assert p[i] in p;
        SameKeySame(loaded, p[i], l);
      }
    }
  }

  /** The slice of the backing that one table's pass produced. */
  method PlaceTables(loaded: seq<Loaded>, tables: seq<Key>, writable: bool, backing0: seq<nat>,
                     keyIndex0: map<Key, nat>, next0: nat, ghost list: seq<Key>)
    returns (slices: seq<seq<nat>>, backing: seq<nat>, keyIndex: map<Key, nat>, next: nat)
    requires IndexMap(keyIndex0, list) && next0 == |list| % 65536
    requires DistinctLoaded(loaded) && Ascending(tables)
    requires forall l :: l in loaded && l.writable == writable ==> l.key !in list
    ensures |slices| == |tables| && forall ti :: 0 <= ti < |tables| ==>
            slices[ti] == LoadedIndexes(Pick(loaded, tables[ti], writable))
    ensures var placed := list + LoadedKeys(PickAll(loaded, tables, writable));
            IndexMap(keyIndex, placed) && next == |placed| % 65536
  {
    hide IndexMap, KeyIndex, Pick, PickAll, LoadedIndexes, DistinctLoaded;
    slices, backing, keyIndex, next := [], backing0, keyIndex0, next0;
    NoTables(loaded, tables, writable, list);
    for ti := 0 to |tables|
      invariant |slices| == ti && forall i :: 0 <= i < ti ==>
                slices[i] == LoadedIndexes(Pick(loaded, tables[i], writable))
      invariant IndexMap(keyIndex, list + LoadedKeys(PickAll(loaded, tables[..ti], writable)))
      invariant next == |list + LoadedKeys(PickAll(loaded, tables[..ti], writable))| % 65536
    {
      var start := |backing|;
      ghost var before := list + LoadedKeys(PickAll(loaded, tables[..ti], writable));
      TablesUnplaced(loaded, tables, ti, writable, list);
      backing, keyIndex, next := PlaceTable(loaded, tables[ti], writable, backing, keyIndex, next, before);
      NextTable(loaded, tables, ti, writable, list);
      slices := slices + [backing[start..]];
    }
    assert tables[..|tables|] == tables;
  }

  lemma {:induction false} NoTables(loaded: seq<Loaded>, tables: seq<Key>, writable: bool, list: seq<Key>)
    ensures list + LoadedKeys(PickAll(loaded, tables[..0], writable)) == list
  {
  }

  lemma {:induction false} NextTable(loaded: seq<Loaded>, tables: seq<Key>, ti: nat, writable: bool, list: seq<Key>)
    requires ti < |tables|
    ensures list + LoadedKeys(PickAll(loaded, tables[..ti + 1], writable))
         == list + LoadedKeys(PickAll(loaded, tables[..ti], writable)) + LoadedKeys(Pick(loaded, tables[ti], writable))
  {
    assert tables[..ti + 1][..ti] == tables[..ti];
  }

  method TableKeys(loaded: seq<Loaded>) returns (tables: seq<Key>)
    ensures tables == UsedTables(loaded)
  {
    var found: set<Key> := {};
    for j := 0 to |loaded|
      invariant found == set i | 0 <= i < j :: loaded[i].table
    {
      found := found + {loaded[j].table};
    }
    tables := Ordered(found);
  }

  method PlaceLoaded(loaded: seq<Loaded>, keys: seq<Key>, keyIndex0: map<Key, nat>, next0: nat, ghost fixed: seq<Meta>)
    returns (lookups: seq<Lookup>, keyIndex: map<Key, nat>)
    requires keys == KeysOf(fixed) && IndexMap(keyIndex0, keys) && next0 == |keys| % 65536
    requires DistinctLoaded(loaded) && (forall l :: l in loaded ==> l.key !in keys)
    ensures lookups == Lookups(loaded) && IndexMap(keyIndex, KeyList(fixed, loaded))
  {
    hide IndexMap, KeyIndex, Pick, PickAll, LoadedIndexes, DistinctLoaded, UsedTables;
    var tables := TableKeys(loaded);
    UsedAscending(loaded);
    ghost var list1 := keys + LoadedKeys(PickAll(loaded, tables, true));
    var writables, backing, keyIndex1, next1 := PlaceTables(loaded, tables, true, [], keyIndex0, next0, keys);
    ReadonlyUnplaced(loaded, tables, keys);
    var readonlys, backing2, keyIndex2, next2 := PlaceTables(loaded, tables, false, backing, keyIndex1, next1, list1);
    keyIndex := keyIndex2;
    lookups := seq(|tables|, i requires 0 <= i < |tables|
                   && |writables| == |tables| == |readonlys| => Lookup(tables[i], writables[i], readonlys[i]));
  }

  lemma {:induction false} UsedAscending(loaded: seq<Loaded>)
    ensures Ascending(UsedTables(loaded))
  {
  }

  lemma {:induction false} ReadonlyUnplaced(loaded: seq<Loaded>, tables: seq<Key>, keys: seq<Key>)
    requires DistinctLoaded(loaded) && Ascending(tables) && (forall l :: l in loaded ==> l.key !in keys)
    ensures forall l :: l in loaded && !l.writable ==> l.key !in keys + LoadedKeys(PickAll(loaded, tables, true))
  {
    PickAllMembers(loaded, tables, true);
    var p := PickAll(loaded, tables, true);
    forall l, i | l in loaded && !l.writable && 0 <= i < |p| ensures p[i].key != l.key {
      assert p[i] in p;
      SameKeySame(loaded, p[i], l);
    }
  }

  // ----- instructions and the whole -----

  method CompileInstructions(instrs: seq<Instruction>, keyIndex: map<Key, nat>, ghost list: seq<Key>)
    returns (failed: Option<nat>, compiled: seq<CompiledInstruction>)
    requires IndexMap(keyIndex, list)
    ensures failed == FirstFailed(instrs, |instrs|)
    ensures failed == None ==> compiled == CompileAll(list, instrs)
  {
    hide KeyIndex;
    compiled := [];
    for i := 0 to |instrs|
      invariant FirstFailed(instrs, i) == None
      invariant |compiled| == i && forall j :: 0 <= j < i ==> compiled[j] == CompileInstruction(list, instrs[j])
    {
      var accounts := instrs[i].accounts;
      var indexes: seq<nat> := [];
      for j := 0 to |accounts|
        invariant |indexes| == j && forall a :: 0 <= a < j ==> indexes[a] == KeyIndex(list, accounts[a].key)
      {
        var at := IndexOrZero(keyIndex, list, accounts[j].key);
        indexes := indexes + [at];
      }
      if instrs[i].data == None {
        FailedStays(instrs, i, |instrs|);
        return Some(i), [];
      }
      var program := IndexOrZero(keyIndex, list, instrs[i].program);
      compiled := compiled + [CompiledInstruction(program, indexes, instrs[i].data.value)];
    }
    failed := None;
  }

  /** A map read, zero for an absent key. */
  method IndexOrZero(keyIndex: map<Key, nat>, ghost list: seq<Key>, k: Key) returns (i: nat)
    requires IndexMap(keyIndex, list)
    ensures i == KeyIndex(list, k)
  {
    i := if k in keyIndex then keyIndex[k] else 0;
  }

  lemma {:induction false} FailedStays(instrs: seq<Instruction>, i: nat, n: nat)
    requires i < n <= |instrs| && FirstFailed(instrs, i) == None && instrs[i].data == None
    ensures FirstFailed(instrs, n) == Some(i)
  {
    if i < n - 1 {
      FailedStays(instrs, i, n - 1);
    }
  }

  lemma {:induction false} PlanReady(instrs: seq<Instruction>, payer: Key, tables: Tables)
    ensures var p := PlanOf(instrs, payer, tables);
            DistinctKeys(p.all) && DistinctLoaded(p.loaded) && (forall l :: l in p.loaded ==> l.key !in KeysOf(p.fixed))
  {
    hide PlanOf, Mentioned, WantsSigner, WantsWritable;
    var p := PlanOf(instrs, payer, tables);
    OrderingCorrect(instrs, payer);
    assert p.all == OrderedKeys(instrs, payer) by { PlanAll(instrs, payer, tables); }
    PlanDistinct(instrs, payer, tables);
    forall l | l in p.loaded ensures l.key !in KeysOf(p.fixed) {
      var j :| 0 <= j < |p.loaded| && p.loaded[j] == l;
      forall i | 0 <= i < |p.fixed| ensures p.fixed[i].key != l.key {
        FixedAndLoadedDiffer(instrs, payer, tables, i, j);
      }
    }
  }

  lemma {:induction false} PlanAll(instrs: seq<Instruction>, payer: Key, tables: Tables)
    ensures PlanOf(instrs, payer, tables).all == OrderedKeys(instrs, payer)
  {
  }

  /** Sort, deduplicate and rotate in one array. */
  method OrderKeys(instrs: seq<Instruction>, payer: Key) returns (all: seq<Meta>, programs: seq<Key>)
    ensures all == OrderedKeys(instrs, payer) && programs == Programs(instrs)
  {
    hide Sort, Dedup, AllMetas, Indexes, Ordering;
    var collected;
    collected, programs := CollectMetas(instrs);
    var sorted := Sort(collected);
    var metas := new Meta[|sorted|](i requires 0 <= i < |sorted| => sorted[i]);
    assert metas[..] == sorted;
    var n, index := DedupInPlace(metas);
    var placed, count := PlacePayer(metas, n, index, payer);
    all := placed[..count];
  }

  /** NewTransaction, pass by pass, computes Compile. */
  method NewTransaction(instrs: seq<Instruction>, blockhash: nat, option: Key, tables: Tables)
    returns (r: Result<Message, Error>)
    ensures r == Compile(instrs, blockhash, option, tables)
  {
    hide OrderedKeys, StaticMetas, LoadedAccounts, FirstLong, Lookups, KeyList, CompileAll, IndexMap, Find, HeaderOf,
         DistinctLoaded, Ordered;
    if instrs == [] {
      return Err(NoInstructions);
    }
    var payer := FindPayer(instrs, option);
    if payer == None {
      return Err(NoPayer);
    }
    var tooLong, entries := IndexTables(tables);
    if tooLong.Some? {
      return Err(TableTooLong(tooLong.value));
    }
    PlanReady(instrs, payer.value, tables);
    ghost var p := PlanOf(instrs, payer.value, tables);
    var all, programs := OrderKeys(instrs, payer.value);
    var keys, header, loaded, keyIndex, next := SplitKeys(tables, entries, programs, all);
    var version, lookups := Legacy, [];
    if |loaded| > 0 {
      lookups, keyIndex := PlaceLoaded(loaded, keys, keyIndex, next, p.fixed);
      version := V0;
    } else {
      NoLookups(p.fixed);
    }
    var failed, compiled := CompileInstructions(instrs, keyIndex, KeyList(p.fixed, loaded));
    if failed.Some? {
      return Err(DataFailed(failed.value));
    }
    r := Ok(Message(version, keys, header, blockhash, compiled, lookups));
  }

  lemma {:induction false} NoLookups(fixed: seq<Meta>)
    ensures Lookups([]) == [] && KeyList(fixed, []) == KeysOf(fixed)
  {
    var none: seq<Loaded> := [];
    assert forall t :: t !in UsedTables(none);
  }
}
