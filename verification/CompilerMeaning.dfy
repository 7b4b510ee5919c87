/**
 Compilation preserves meaning. The reference is the runtime's side: it resolves the message's
 static keys and lookups against the tables and derives roles from the header.
 */
module CompilerMeaning {
  import opened Wrappers
  import opened TransactionCompiler

  // ----- the runtime's view -----

  predicate Resolvable(tables: Tables, lookups: seq<Lookup>) {
    forall i :: 0 <= i < |lookups| ==>
      && lookups[i].table in tables
      && (forall j :: j in lookups[i].writable ==> j < |tables[lookups[i].table]|)
      && (forall j :: j in lookups[i].readonly ==> j < |tables[lookups[i].table]|)
  }

  function At(table: seq<Key>, indexes: seq<nat>): (r: seq<Key>)
    requires forall j :: j in indexes ==> j < |table|
    ensures |r| == |indexes|
  {
    seq(|indexes|, i requires 0 <= i < |indexes| => assert indexes[i] in indexes; table[indexes[i]])
  }

  function LookupKeys(tables: Tables, lookups: seq<Lookup>, writable: bool): (r: seq<Key>)
    requires Resolvable(tables, lookups)
  {
    if lookups == [] then []
    else
      var l := lookups[|lookups| - 1];
      LookupKeys(tables, lookups[..|lookups| - 1], writable)
          + At(tables[l.table], if writable then l.writable else l.readonly)
  }

  /** Static keys, then all writable lookups by table, then all readonly lookups by table. */
  function Resolve(tables: Tables, msg: Message): (r: seq<Key>)
    requires Resolvable(tables, msg.lookups)
  {
    msg.keys + LookupKeys(tables, msg.lookups, true) + LookupKeys(tables, msg.lookups, false)
  }

  predicate NoDuplicates(s: seq<Key>) {
    forall i, j :: 0 <= i < j < |s| ==> s[i] != s[j]
  }

  // ----- the deduplicated list -----

  lemma {:induction false} DedupCorrect(metas: seq<Meta>)
    ensures var u := Dedup(Sort(metas));
            && DistinctKeys(u)
            && (forall k :: HasKey(u, k) <==> HasKey(metas, k))
            && (forall i :: 0 <= i < |u| ==> u[i].signer == AnySigner(metas, u[i].key))
            && (forall i :: 0 <= i < |u| ==> u[i].writable == AnyWritable(metas, u[i].key))
  {
    var s := Sort(metas);
    var u, f := Dedup(s), Firsts(s);
    SortCorrect(metas);
    SameMembers(metas);
    FirstsCorrect(s);
    FirstsSorted(s);
    forall k ensures HasKey(u, k) <==> HasKey(f, k) {
      if HasKey(f, k) {
        var i :| 0 <= i < |f| && f[i].key == k;
        assert u[i].key == k;
      }
    }
    forall i | 0 <= i < |u| ensures u[i].signer == AnySigner(metas, u[i].key) {
      assert f[i] in s;
      if AnySigner(s, u[i].key) {
        var j :| 0 <= j < |s| && s[j].key == u[i].key && s[j].signer;
        assert LessEq(f[i], s[j]);
      }
    }
  }

  lemma {:induction false} SameMembers(metas: seq<Meta>)
    ensures forall k :: HasKey(Sort(metas), k) <==> HasKey(metas, k)
    ensures forall k :: AnyWritable(Sort(metas), k) <==> AnyWritable(metas, k)
    ensures forall k :: AnySigner(Sort(metas), k) <==> AnySigner(metas, k)
    ensures forall k :: AnyWritableSigner(Sort(metas), k) <==> AnyWritableSigner(metas, k)
  {
    SortMembers(metas);
    SubMembers(metas, Sort(metas));
    SubMembers(Sort(metas), metas);
  }

  lemma {:induction false} SubMembers(s: seq<Meta>, t: seq<Meta>)
    requires forall m :: m in s ==> m in t
    ensures forall k :: HasKey(s, k) ==> HasKey(t, k)
    ensures forall k :: AnyWritable(s, k) ==> AnyWritable(t, k)
    ensures forall k :: AnySigner(s, k) ==> AnySigner(t, k)
    ensures forall k :: AnyWritableSigner(s, k) ==> AnyWritableSigner(t, k)
  {
    forall i | 0 <= i < |s| ensures exists j :: 0 <= j < |t| && t[j] == s[i] {
      assert s[i] in t;
    }
  }

  // ----- the ordering -----

  /** Removing one key keeps everything about the others. */
  lemma {:induction false} WithoutKeeps(s: seq<Meta>, k: Key)
    requires DistinctKeys(s)
    ensures DistinctKeys(Without(s, k)) && !HasKey(Without(s, k), k)
    ensures forall m :: m in Without(s, k) ==> m in s
    ensures forall m :: m in s && m.key != k ==> m in Without(s, k)
  {
    var r, at := Without(s, k), Position(s, k);
    if at < |s| {
      forall m | m in s && m.key != k ensures m in r {
        var i :| 0 <= i < |s| && s[i] == m;
        assert i < at ==> r[i] == m;
        assert i > at ==> r[i - 1] == m;
      }
    }
  }

  /** The keys the instructions mention, with the payer. */
  ghost predicate Mentioned(instrs: seq<Instruction>, payer: Key, k: Key) {
    k == payer || HasKey(AllMetas(instrs), k)
  }

  ghost predicate WantsSigner(instrs: seq<Instruction>, payer: Key, k: Key) {
    k == payer || AnySigner(AllMetas(instrs), k)
  }

  ghost predicate WantsWritable(instrs: seq<Instruction>, payer: Key, k: Key) {
    k == payer || AnyWritable(AllMetas(instrs), k)
  }

  lemma {:induction false} OrderingCorrect(instrs: seq<Instruction>, payer: Key)
    ensures var all := OrderedKeys(instrs, payer);
            && |all| >= 1 && all[0] == Meta(payer, true, true)
            && DistinctKeys(all)
            && (forall k :: HasKey(all, k) <==> Mentioned(instrs, payer, k))
            && (forall i :: 0 <= i < |all| ==> all[i].signer == WantsSigner(instrs, payer, all[i].key))
            && (forall i :: 0 <= i < |all| ==> all[i].writable == WantsWritable(instrs, payer, all[i].key))
  {
    hide Dedup, Sort, AnySigner, AnyWritable, AllMetas;
    var metas := AllMetas(instrs);
    var u := Dedup(Sort(metas));
    DedupCorrect(metas);
    WithoutKeeps(u, payer);
    var w, all := Without(u, payer), OrderedKeys(instrs, payer);
    assert all == [Meta(payer, true, true)] + w;
    forall i | 1 <= i < |all| ensures all[i] in u && all[i].key != payer {
      assert all[i] == w[i - 1] && w[i - 1] in w;
    }
    forall k ensures HasKey(all, k) <==> Mentioned(instrs, payer, k) {
      PayerInFront(u, w, all, payer, k);
    }
  }

  lemma {:induction false} PayerInFront(u: seq<Meta>, w: seq<Meta>, all: seq<Meta>, payer: Key, k: Key)
    requires all == [Meta(payer, true, true)] + w
    requires (forall m :: m in w ==> m in u) && (forall m :: m in u && m.key != payer ==> m in w)
    ensures HasKey(all, k) <==> k == payer || HasKey(u, k)
  {
    if k == payer {
      assert all[0].key == k;
    } else {
      if HasKey(u, k) {
        var i :| 0 <= i < |u| && u[i].key == k;
        assert u[i] in w;
        var j :| 0 <= j < |w| && w[j] == u[i];
        assert all[j + 1].key == k;
      }
      if HasKey(all, k) {
        var j :| 0 <= j < |all| && all[j].key == k;
        assert all[j] == w[j - 1] && w[j - 1] in w;
      }
    }
  }

  // ----- static and loaded -----

  lemma {:induction false} StaticPart(tables: Tables, programs: seq<Key>, all: seq<Meta>, n: nat)
    requires n <= |all| && DistinctKeys(all)
    ensures var r := StaticMetas(tables, programs, all, n);
            && DistinctKeys(r)
            && (forall m :: m in r <==> exists i :: 0 <= i < n && all[i] == m && !IsLoaded(tables, programs, all, i))
  {
    hide Find, IsLoaded;
    if n > 0 {
      StaticPart(tables, programs, all, n - 1);
      var r, r' := StaticMetas(tables, programs, all, n), StaticMetas(tables, programs, all, n - 1);
      forall m | m in r' ensures m.key != all[n - 1].key {
        var i :| 0 <= i < n - 1 && all[i] == m && !IsLoaded(tables, programs, all, i);
      }
      if !IsLoaded(tables, programs, all, n - 1) {
        assert forall i :: 0 <= i < |r'| ==> r'[i] in r';
        forall m ensures m in r <==> exists i :: 0 <= i < n && all[i] == m && !IsLoaded(tables, programs, all, i) {
          assert m in r <==> m in r' || m == all[n - 1];
        }
      }
    }
  }

  predicate FromMeta(tables: Tables, programs: seq<Key>, all: seq<Meta>, i: nat, l: Loaded)
    requires i < |all|
  {
    && IsLoaded(tables, programs, all, i)
    && l.key == all[i].key && l.writable == all[i].writable
    && l.table in tables && l.index < |tables[l.table]| && tables[l.table][l.index] == l.key
  }

  predicate DistinctLoaded(s: seq<Loaded>) {
    forall i, j :: 0 <= i < j < |s| ==> s[i].key != s[j].key
  }

  predicate HasSource(tables: Tables, programs: seq<Key>, all: seq<Meta>, n: nat, l: Loaded)
    requires n <= |all|
  {
    exists i :: 0 <= i < n && FromMeta(tables, programs, all, i, l)
  }

  predicate Holds(loaded: seq<Loaded>, k: Key) {
    exists i :: 0 <= i < |loaded| && loaded[i].key == k
  }

  lemma {:induction false} LoadedPart(tables: Tables, programs: seq<Key>, all: seq<Meta>, n: nat)
    requires n <= |all| && DistinctKeys(all)
    ensures var r := LoadedAccounts(tables, programs, all, n);
            && DistinctLoaded(r)
            && (forall j :: 0 <= j < |r| ==> HasSource(tables, programs, all, n, r[j]))
            && (forall i :: 0 <= i < n && IsLoaded(tables, programs, all, i) ==> Holds(r, all[i].key))
  {
    hide Find, IsLoaded, FromMeta, HasSource, Holds;
    if n > 0 {
      LoadedPart(tables, programs, all, n - 1);
      var r, r' := LoadedAccounts(tables, programs, all, n), LoadedAccounts(tables, programs, all, n - 1);
      LoadedStep(tables, programs, all, n);
      forall j | 0 <= j < |r'| ensures r'[j].key != all[n - 1].key && HasSource(tables, programs, all, n, r'[j]) {
        SourceGrows(tables, programs, all, n, r'[j]);
      }
      forall i | 0 <= i < n - 1 && IsLoaded(tables, programs, all, i) ensures Holds(r, all[i].key) {
        HoldsMore(r', r, all[i].key);
      }
    }
  }

  lemma {:induction false} SourceGrows(tables: Tables, programs: seq<Key>, all: seq<Meta>, n: nat, l: Loaded)
    requires 0 < n <= |all| && DistinctKeys(all) && HasSource(tables, programs, all, n - 1, l)
    ensures l.key != all[n - 1].key && HasSource(tables, programs, all, n, l)
  {
    hide IsLoaded;
    var i :| 0 <= i < n - 1 && FromMeta(tables, programs, all, i, l);
  }

  lemma {:induction false} HoldsMore(r: seq<Loaded>, more: seq<Loaded>, k: Key)
    requires Holds(r, k) && r <= more
    ensures Holds(more, k)
  {
    var j :| 0 <= j < |r| && r[j].key == k;
    assert more[j].key == k;
  }

  lemma {:induction false} LoadedStep(tables: Tables, programs: seq<Key>, all: seq<Meta>, n: nat)
    requires 0 < n <= |all|
    ensures var r, r' := LoadedAccounts(tables, programs, all, n), LoadedAccounts(tables, programs, all, n - 1);
            if IsLoaded(tables, programs, all, n - 1) then
              |r| == |r'| + 1 && r[..|r'|] == r' && r[|r'|].key == all[n - 1].key
              && HasSource(tables, programs, all, n, r[|r'|]) && Holds(r, all[n - 1].key)
            else r == r'
  {
    var r, r' := LoadedAccounts(tables, programs, all, n), LoadedAccounts(tables, programs, all, n - 1);
    if IsLoaded(tables, programs, all, n - 1) {
      assert FromMeta(tables, programs, all, n - 1, r[|r'|]);
    }
  }

  // ----- picking by table -----

  lemma {:induction false} PickMembers(loaded: seq<Loaded>, table: Key, writable: bool)
    requires DistinctLoaded(loaded)
    ensures var r := Pick(loaded, table, writable);
            && DistinctLoaded(r)
            && (forall l :: l in r <==> l in loaded && l.table == table && l.writable == writable)
  {
    if loaded != [] {
      var n := |loaded| - 1;
      PickMembers(loaded[..n], table, writable);
      var r, r' := Pick(loaded, table, writable), Pick(loaded[..n], table, writable);
      assert forall l :: l in loaded <==> l in loaded[..n] || l == loaded[n];
      forall i | 0 <= i < |r'| ensures r'[i].key != loaded[n].key {
        assert r'[i] in r';
        assert r'[i] in loaded[..n];
      }
    }
  }

  lemma {:induction false} PickAllMembers(loaded: seq<Loaded>, tables: seq<Key>, writable: bool)
    requires DistinctLoaded(loaded) && Ascending(tables)
    ensures var r := PickAll(loaded, tables, writable);
            && DistinctLoaded(r)
            && (forall l :: l in r <==> l in loaded && l.table in tables && l.writable == writable)
  {
    if tables != [] {
      var n := |tables| - 1;
      PickAllMembers(loaded, tables[..n], writable);
      PickMembers(loaded, tables[n], writable);
      assert forall t :: t in tables <==> t in tables[..n] || t == tables[n];
      JoinDistinct(loaded, PickAll(loaded, tables[..n], writable), Pick(loaded, tables[n], writable));
    }
  }

  lemma {:induction false} JoinDistinct(loaded: seq<Loaded>, a: seq<Loaded>, b: seq<Loaded>)
    requires DistinctLoaded(loaded) && DistinctLoaded(a) && DistinctLoaded(b)
    requires forall l :: l in a ==> l in loaded
    requires forall l :: l in b ==> l in loaded && l !in a
    ensures DistinctLoaded(a + b)
  {
    forall i, j | 0 <= i < |a| && 0 <= j < |b| ensures a[i].key != b[j].key {
      assert a[i] in a && b[j] in b;
      SameKeySame(loaded, a[i], b[j]);
    }
  }

  lemma {:induction false} SameKeySame(loaded: seq<Loaded>, l: Loaded, l': Loaded)
    requires DistinctLoaded(loaded) && l in loaded && l' in loaded
    ensures l.key == l'.key ==> l == l'
  {
  }

  /** Loaded accounts in index order: writable by table, then readonly by table. */
  function LoadedOrder(loaded: seq<Loaded>): (r: seq<Loaded>) {
    PickAll(loaded, UsedTables(loaded), true) + PickAll(loaded, UsedTables(loaded), false)
  }

  lemma {:induction false} LoadedOrderCorrect(loaded: seq<Loaded>)
    requires DistinctLoaded(loaded)
    ensures DistinctLoaded(LoadedOrder(loaded))
    ensures forall l :: l in LoadedOrder(loaded) <==> l in loaded
    ensures forall l :: l in PickAll(loaded, UsedTables(loaded), true) <==> l in loaded && l.writable
    ensures forall l :: l in PickAll(loaded, UsedTables(loaded), false) <==> l in loaded && !l.writable
  {
    var tables := UsedTables(loaded);
    PickAllMembers(loaded, tables, true);
    PickAllMembers(loaded, tables, false);
    forall l | l in loaded ensures l.table in tables {
      var i :| 0 <= i < |loaded| && loaded[i] == l;
    }
    JoinDistinct(loaded, PickAll(loaded, tables, true), PickAll(loaded, tables, false));
  }

  // ----- the key list -----

  /** What NewTransaction works with once the payer is known. */
  datatype Plan = Plan(all: seq<Meta>, fixed: seq<Meta>, loaded: seq<Loaded>)

  function PlanOf(instrs: seq<Instruction>, payer: Key, tables: Tables): (r: Plan) {
    var all, programs := OrderedKeys(instrs, payer), Programs(instrs);
    Plan(all, StaticMetas(tables, programs, all, |all|), LoadedAccounts(tables, programs, all, |all|))
  }

  lemma {:induction false} FixedAndLoadedDiffer(instrs: seq<Instruction>, payer: Key, tables: Tables, i: nat, j: nat)
    requires var p := PlanOf(instrs, payer, tables); i < |p.fixed| && j < |p.loaded|
    ensures var p := PlanOf(instrs, payer, tables); p.fixed[i].key != p.loaded[j].key
  {
    hide OrderedKeys, StaticMetas, LoadedAccounts, Find, IsLoaded;
    var p, programs := PlanOf(instrs, payer, tables), Programs(instrs);
    OrderingCorrect(instrs, payer);
    StaticPart(tables, programs, p.all, |p.all|);
    LoadedPart(tables, programs, p.all, |p.all|);
    assert p.fixed[i] in p.fixed;
    var a :| 0 <= a < |p.all| && p.all[a] == p.fixed[i] && !IsLoaded(tables, programs, p.all, a);
    assert HasSource(tables, programs, p.all, |p.all|, p.loaded[j]);
    var b :| 0 <= b < |p.all| && FromMeta(tables, programs, p.all, b, p.loaded[j]);
    assert a != b;
  }

  lemma {:induction false} PlanDistinct(instrs: seq<Instruction>, payer: Key, tables: Tables)
    ensures var p := PlanOf(instrs, payer, tables);
            && DistinctKeys(p.fixed) && DistinctLoaded(p.loaded)
            && (forall l :: l in p.loaded ==>
                l.table in tables && l.index < |tables[l.table]| && tables[l.table][l.index] == l.key)
            && (forall k :: Mentioned(instrs, payer, k) <==> HasKey(p.fixed, k) || Holds(p.loaded, k))
  {
    hide OrderedKeys, StaticMetas, LoadedAccounts, Find, IsLoaded, Mentioned;
    var p, programs := PlanOf(instrs, payer, tables), Programs(instrs);
    var n := |p.all|;
    OrderingCorrect(instrs, payer);
    StaticPart(tables, programs, p.all, n);
    LoadedPart(tables, programs, p.all, n);
    forall l | l in p.loaded ensures l.table in tables && l.index < |tables[l.table]|
        && tables[l.table][l.index] == l.key {
      var j :| 0 <= j < |p.loaded| && p.loaded[j] == l;
      assert HasSource(tables, programs, p.all, n, p.loaded[j]);
    }
    forall k ensures HasKey(p.all, k) <==> HasKey(p.fixed, k) || Holds(p.loaded, k) {
      if HasKey(p.all, k) {
        var i :| 0 <= i < n && p.all[i].key == k;
        if !IsLoaded(tables, programs, p.all, i) {
          assert p.all[i] in p.fixed;
        }
      }
      if HasKey(p.fixed, k) {
        var i :| 0 <= i < |p.fixed| && p.fixed[i].key == k;
        assert p.fixed[i] in p.fixed;
      }
      if Holds(p.loaded, k) {
        var j :| 0 <= j < |p.loaded| && p.loaded[j].key == k;
        assert HasSource(tables, programs, p.all, n, p.loaded[j]);
      }
    }
  }

  /** The key list holds every mentioned key once. */
  lemma {:induction false} KeyListCorrect(instrs: seq<Instruction>, payer: Key, tables: Tables)
    ensures var p := PlanOf(instrs, payer, tables);
            var list := KeyList(p.fixed, p.loaded);
            NoDuplicates(list) && (forall k :: k in list <==> Mentioned(instrs, payer, k))
  {
    hide PlanOf, Mentioned, PickAll, UsedTables;
    var p := PlanOf(instrs, payer, tables);
    var list, order := KeyList(p.fixed, p.loaded), LoadedOrder(p.loaded);
    PlanDistinct(instrs, payer, tables);
    LoadedOrderCorrect(p.loaded);
    assert list == KeysOf(p.fixed) + LoadedKeys(order);
    forall i, j | 0 <= i < |p.fixed| && 0 <= j < |order| ensures p.fixed[i].key != order[j].key {
      assert order[j] in order;
      var b :| 0 <= b < |p.loaded| && p.loaded[b] == order[j];
      FixedAndLoadedDiffer(instrs, payer, tables, i, b);
    }
    forall k ensures k in list <==> HasKey(p.fixed, k) || Holds(p.loaded, k) {
      if HasKey(p.fixed, k) {
        var i :| 0 <= i < |p.fixed| && p.fixed[i].key == k;
        assert list[i] == k;
      }
      if Holds(p.loaded, k) {
        var j :| 0 <= j < |p.loaded| && p.loaded[j].key == k;
        assert p.loaded[j] in order;
        var b :| 0 <= b < |order| && order[b] == p.loaded[j];
        assert list[|p.fixed| + b] == k;
      }
      if k in list {
        var i :| 0 <= i < |list| && list[i] == k;
        if i >= |p.fixed| {
          assert order[i - |p.fixed|] in order;
        }
      }
    }
  }

  // ----- resolution -----

  lemma {:induction false} PickedKeys(tables: Tables, table: Key, picked: seq<Loaded>)
    requires table in tables
    requires forall l :: l in picked ==>
             l.table == table && l.index < |tables[table]| && tables[table][l.index] == l.key
    ensures forall j :: j in LoadedIndexes(picked) ==> j < |tables[table]|
    ensures At(tables[table], LoadedIndexes(picked)) == LoadedKeys(picked)
  {
    forall i | 0 <= i < |picked| ensures LoadedIndexes(picked)[i] < |tables[table]|
        && tables[table][LoadedIndexes(picked)[i]] == picked[i].key {
      assert picked[i] in picked;
    }
  }

  ghost predicate Located(tables: Tables, loaded: seq<Loaded>) {
    forall l :: l in loaded ==> l.table in tables && l.index < |tables[l.table]| && tables[l.table][l.index] == l.key
  }

  lemma {:induction false} LookupsResolvable(tables: Tables, loaded: seq<Loaded>)
    requires DistinctLoaded(loaded) && Located(tables, loaded)
    ensures Resolvable(tables, Lookups(loaded))
  {
    var ts := UsedTables(loaded);
    forall i | 0 <= i < |ts|
      ensures ts[i] in tables
      ensures forall j :: j in LoadedIndexes(Pick(loaded, ts[i], true)) ==> j < |tables[ts[i]]|
      ensures forall j :: j in LoadedIndexes(Pick(loaded, ts[i], false)) ==> j < |tables[ts[i]]|
    {
      assert ts[i] in ts;
      var a :| 0 <= a < |loaded| && loaded[a].table == ts[i];
      assert loaded[a] in loaded;
      PickMembers(loaded, ts[i], true);
      PickMembers(loaded, ts[i], false);
      PickedKeys(tables, ts[i], Pick(loaded, ts[i], true));
      PickedKeys(tables, ts[i], Pick(loaded, ts[i], false));
    }
  }

  lemma {:induction false} LookupsResolve(tables: Tables, loaded: seq<Loaded>, n: nat, writable: bool)
    requires DistinctLoaded(loaded) && Located(tables, loaded) && n <= |UsedTables(loaded)|
    requires Resolvable(tables, Lookups(loaded))
    ensures LookupKeys(tables, Lookups(loaded)[..n], writable)
            == LoadedKeys(PickAll(loaded, UsedTables(loaded)[..n], writable))
  {
    hide UsedTables, Pick, LoadedKeys, At;
    if n > 0 {
      var ts, ls := UsedTables(loaded), Lookups(loaded);
      LookupsResolve(tables, loaded, n - 1, writable);
      assert ls[..n][..n - 1] == ls[..n - 1] && ts[..n][..n - 1] == ts[..n - 1];
      PickMembers(loaded, ts[n - 1], writable);
      assert ls[n - 1].table == ts[n - 1] && ts[n - 1] in tables;
      PickedKeys(tables, ts[n - 1], Pick(loaded, ts[n - 1], writable));
      LoadedKeysConcat(PickAll(loaded, ts[..n - 1], writable), Pick(loaded, ts[n - 1], writable));
    }
  }

  lemma {:induction false} LoadedKeysConcat(a: seq<Loaded>, b: seq<Loaded>)
    ensures LoadedKeys(a + b) == LoadedKeys(a) + LoadedKeys(b)
  {
  }

  // ----- the theorem -----

  /** Looking up a key's index in a list without duplicates gives the key back. */
  lemma {:induction false} IndexResolves(list: seq<Key>, k: Key)
    requires k in list && |list| <= 65536
    ensures KeyIndex(list, k) < |list| && list[KeyIndex(list, k)] == k
  {
  }

  lemma {:induction false} AccountMentioned(instrs: seq<Instruction>, i: nat)
    requires i < |instrs|
    ensures instrs[i].program in Programs(instrs)
    ensures forall j :: 0 <= j < |instrs[i].accounts| ==> instrs[i].accounts[j] in AccountMetas(instrs)
    decreases |instrs|
  {
    var n := |instrs| - 1;
    if i < n {
      AccountMentioned(instrs[..n], i);
      assert instrs[..n][i] == instrs[i];
    }
  }

  lemma {:induction false} MetaMentioned(instrs: seq<Instruction>, payer: Key, i: nat)
    requires i < |instrs|
    ensures Mentioned(instrs, payer, instrs[i].program)
    ensures forall j :: 0 <= j < |instrs[i].accounts| ==> Mentioned(instrs, payer, instrs[i].accounts[j].key)
  {
    AccountMentioned(instrs, i);
    var metas, programs := AllMetas(instrs), Programs(instrs);
    var a :| 0 <= a < |programs| && programs[a] == instrs[i].program;
    assert metas[|AccountMetas(instrs)| + a].key == instrs[i].program;
    forall j | 0 <= j < |instrs[i].accounts| ensures HasKey(metas, instrs[i].accounts[j].key) {
      var b :| 0 <= b < |AccountMetas(instrs)| && AccountMetas(instrs)[b] == instrs[i].accounts[j];
      assert metas[b].key == instrs[i].accounts[j].key;
    }
  }

  predicate SameInstruction(list: seq<Key>, c: CompiledInstruction, ins: Instruction) {
    && c.program < |list| && list[c.program] == ins.program
    && |c.accounts| == |ins.accounts|
    && (forall j :: 0 <= j < |c.accounts| ==> c.accounts[j] < |list| && list[c.accounts[j]] == ins.accounts[j].key)
    && ins.data == Some(c.data)
  }

  lemma {:induction false} InstructionKept(list: seq<Key>, ins: Instruction)
    requires |list| <= 65536 && ins.data.Some? && ins.program in list
    requires forall j :: 0 <= j < |ins.accounts| ==> ins.accounts[j].key in list
    ensures SameInstruction(list, CompileInstruction(list, ins), ins)
  {
    IndexResolves(list, ins.program);
    forall j | 0 <= j < |ins.accounts| ensures KeyIndex(list, ins.accounts[j].key) < |list|
        && list[KeyIndex(list, ins.accounts[j].key)] == ins.accounts[j].key {
      IndexResolves(list, ins.accounts[j].key);
    }
  }

  /** Compilation preserves meaning. The runtime can resolve every lookup of a compiled message; the resolved list
      holds exactly the keys the instructions mention and the payer, each once, the payer first; and as long as it
      fits sixteen-bit indexes, every compiled instruction resolves to the one it came from. */
  lemma {:induction false} MeaningPreserved(instrs: seq<Instruction>, blockhash: nat, option: Key, tables: Tables)
    requires Compile(instrs, blockhash, option, tables).Ok?
    ensures Payer(instrs, option).Some?
    ensures var msg, payer := Compile(instrs, blockhash, option, tables).value, Payer(instrs, option).value;
            && Resolvable(tables, msg.lookups)
            && var list := Resolve(tables, msg);
            && NoDuplicates(list) && |list| > 0 && list[0] == payer
            && (forall k :: k in list <==> Mentioned(instrs, payer, k))
            && |msg.instructions| == |instrs|
            && (|list| <= 65536 ==> forall i :: 0 <= i < |instrs| ==>
                SameInstruction(list, msg.instructions[i], instrs[i]))
  {
    hide OrderedKeys, StaticMetas, LoadedAccounts, Mentioned, KeyIndex, CompileInstruction, SameInstruction, FirstLong,
         FirstFailed, LookupKeys, Lookups, PickAll;
    var msg, payer := Compile(instrs, blockhash, option, tables).value, Payer(instrs, option).value;
    var p := PlanOf(instrs, payer, tables);
    var list := KeyList(p.fixed, p.loaded);
    PlanDistinct(instrs, payer, tables);
    LookupsResolvable(tables, p.loaded);
    ResolveIsKeyList(tables, p.fixed, p.loaded);
    KeyListCorrect(instrs, payer, tables);
    PayerFirst(instrs, payer, tables);
    assert Resolve(tables, msg) == list;
    if |list| <= 65536 {
      forall i | 0 <= i < |instrs| ensures SameInstruction(list, msg.instructions[i], instrs[i]) {
        MetaMentioned(instrs, payer, i);
        InstructionKept(list, instrs[i]);
      }
    }
  }

  lemma {:induction false} ResolveIsKeyList(tables: Tables, fixed: seq<Meta>, loaded: seq<Loaded>)
    requires DistinctLoaded(loaded) && Located(tables, loaded) && Resolvable(tables, Lookups(loaded))
    ensures KeysOf(fixed) + LookupKeys(tables, Lookups(loaded), true) + LookupKeys(tables, Lookups(loaded), false)
            == KeyList(fixed, loaded)
  {
    var ts, ls := UsedTables(loaded), Lookups(loaded);
    LookupsResolve(tables, loaded, |ts|, true);
    LookupsResolve(tables, loaded, |ts|, false);
    assert ls[..|ts|] == ls && ts[..|ts|] == ts;
  }

  lemma {:induction false} PayerFirst(instrs: seq<Instruction>, payer: Key, tables: Tables)
    ensures var p := PlanOf(instrs, payer, tables);
            |p.fixed| > 0 && p.fixed[0] == Meta(payer, true, true)
  {
    var all := OrderedKeys(instrs, payer);
    FirstStays(tables, Programs(instrs), all, |all|);
  }

  lemma {:induction false} FirstStays(tables: Tables, programs: seq<Key>, all: seq<Meta>, n: nat)
    requires 1 <= n <= |all|
    ensures var r := StaticMetas(tables, programs, all, n); |r| > 0 && r[0] == all[0]
  {
    hide Find;
    if n > 1 {
      FirstStays(tables, programs, all, n - 1);
    }
  }
}
