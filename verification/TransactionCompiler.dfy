/**
 NewTransaction (transaction_builder.go) as a compiler: what it produces, as functions of the
 instructions, and that it preserves their meaning and the roles they ask for.
 CompilerLoops holds the source's in-place passes, proved to compute these functions.

 A public key is the number its 32 bytes spell, most significant byte first, so that comparing
 bytes is comparing numbers; the zero key is 0.
 */
module TransactionCompiler {
  import opened Wrappers

  type Key = nat

  datatype Meta = Meta(key: Key, signer: bool, writable: bool)

  /** data is None when encoding it fails. */
  datatype Instruction = Instruction(program: Key, accounts: seq<Meta>, data: Option<seq<nat>>)

  datatype Header = Header(required: nat, readonlySigned: nat, readonlyUnsigned: nat)

  datatype CompiledInstruction = CompiledInstruction(program: nat, accounts: seq<nat>, data: seq<nat>)

  datatype Lookup = Lookup(table: Key, writable: seq<nat>, readonly: seq<nat>)

  datatype Version = Legacy | V0

  datatype Message = Message(version: Version, keys: seq<Key>, header: Header, blockhash: nat,
                             instructions: seq<CompiledInstruction>, lookups: seq<Lookup>)

  datatype Error = NoInstructions | NoPayer | TableTooLong(table: Key) | DataFailed(index: nat)

  type Tables = map<Key, seq<Key>>

  // ----- ascending key lists -----

  predicate Ascending(s: seq<nat>) {
    forall i, j :: 0 <= i < j < |s| ==> s[i] < s[j]
  }

  lemma {:induction false} MinExists(s: set<nat>)
    requires s != {}
    ensures exists x :: x in s && forall y :: y in s ==> x <= y
    decreases |s|
  {
    var x := LeastOf(s);
    assert x in s && forall y :: y in s ==> x <= y;
  }

  lemma {:induction false} LeastOf(s: set<nat>) returns (x: nat)
    requires s != {}
    ensures x in s && forall y :: y in s ==> x <= y
    decreases |s|
  {
    x :| x in s;
    var rest := s - {x};
    assert s == rest + {x};
    if rest != {} {
      var b := LeastOf(rest);
      if b < x { x := b; }
    }
  }

  function Min(s: set<nat>): (x: nat)
    requires s != {}
    ensures x in s && forall y :: y in s ==> x <= y
  {
    MinExists(s);
    var x :| x in s && forall y :: y in s ==> x <= y;
    x
  }

  /** The elements of a set in ascending order. */
  function Ordered(s: set<nat>): (r: seq<nat>)
    ensures forall x :: x in r <==> x in s
    ensures Ascending(r)
    decreases |s|
  {
    if s == {} then []
    else
      var x := Min(s);
      [x] + Ordered(s - {x})
  }

  lemma {:induction false} AscendingUnique(r: seq<nat>, s: seq<nat>)
    requires Ascending(r) && Ascending(s) && (forall x :: x in r <==> x in s)
    ensures r == s
  {
    assert r != [] ==> r[0] in s;
    assert s != [] ==> s[0] in r;
    if r != [] && s != [] {
      forall x ensures x in r[1..] <==> x in s[1..] {
        assert x in r[1..] <==> x in r && x != r[0];
        assert x in s[1..] <==> x in s && x != s[0];
      }
      AscendingUnique(r[1..], s[1..]);
    }
  }

  // ----- the order of metas -----

  function Rank(m: Meta): (r: nat) {
    if m.signer then (if m.writable then 0 else 1) else (if m.writable then 2 else 3)
  }

  /** Signers first, then writable, ties broken by key. */
  predicate LessEq(a: Meta, b: Meta) {
    Rank(a) < Rank(b) || (Rank(a) == Rank(b) && a.key <= b.key)
  }

  predicate Sorted(s: seq<Meta>) {
    forall i, j :: 0 <= i < j < |s| ==> LessEq(s[i], s[j])
  }

  function Insert(s: seq<Meta>, m: Meta): (r: seq<Meta>) {
    if s == [] then [m]
    else if LessEq(m, s[0]) then [m] + s
    else [s[0]] + Insert(s[1..], m)
  }

  function Sort(s: seq<Meta>): (r: seq<Meta>) {
    if s == [] then [] else Insert(Sort(s[..|s| - 1]), s[|s| - 1])
  }

  lemma {:induction false} InsertMultiset(s: seq<Meta>, m: Meta)
    ensures multiset(Insert(s, m)) == multiset(s) + multiset{m}
  {
    if s != [] {
      assert s == [s[0]] + s[1..];
      if !LessEq(m, s[0]) {
        InsertMultiset(s[1..], m);
      }
    }
  }

  lemma {:induction false} InsertSorted(s: seq<Meta>, m: Meta)
    requires Sorted(s)
    ensures Sorted(Insert(s, m))
  {
    if s != [] && !LessEq(m, s[0]) {
      InsertSorted(s[1..], m);
      var r := Insert(s[1..], m);
      forall j | 0 <= j < |r| ensures LessEq(s[0], r[j]) {
        InsertMember(s[1..], m, j);
      }
    }
  }

  lemma {:induction false} InsertMember(s: seq<Meta>, m: Meta, j: nat)
    requires j < |Insert(s, m)|
    ensures Insert(s, m)[j] == m || Insert(s, m)[j] in s
  {
    InsertMultiset(s, m);
    assert Insert(s, m)[j] in multiset(Insert(s, m));
  }

  lemma {:induction false} SortCorrect(s: seq<Meta>)
    ensures Sorted(Sort(s)) && multiset(Sort(s)) == multiset(s)
  {
    if s != [] {
      var n := |s| - 1;
      SortCorrect(s[..n]);
      InsertSorted(Sort(s[..n]), s[n]);
      InsertMultiset(Sort(s[..n]), s[n]);
      assert s == s[..n] + [s[n]];
    }
  }

  lemma {:induction false} SortedHead(r: seq<Meta>, m: Meta)
    requires Sorted(r) && r != [] && m in multiset(r)
    ensures LessEq(r[0], m)
  {
    assert m in r;
  }

  lemma {:induction false} TailMultiset(r: seq<Meta>)
    requires r != []
    ensures multiset(r[1..]) == multiset(r) - multiset{r[0]}
  {
    assert r == [r[0]] + r[1..];
  }

  /** The order is total on metas, so whatever sorts them produces this sequence. */
  lemma {:induction false} SortUnique(r: seq<Meta>, s: seq<Meta>)
    requires Sorted(r) && Sorted(s) && multiset(r) == multiset(s)
    ensures r == s
  {
    assert |r| == |multiset(r)| && |s| == |multiset(s)|;
    if r != [] {
      assert r[0] in multiset(r) && s[0] in multiset(s);
      SortedHead(r, s[0]);
      SortedHead(s, r[0]);
      assert r[0] == s[0];
      TailMultiset(r);
      TailMultiset(s);
      SortUnique(r[1..], s[1..]);
      assert r == [r[0]] + r[1..] && s == [s[0]] + s[1..];
    }
  }

  lemma {:induction false} SortMembers(s: seq<Meta>)
    ensures forall m :: m in Sort(s) <==> m in s
  {
    SortCorrect(s);
    forall m ensures m in Sort(s) <==> m in s {
      assert m in multiset(Sort(s)) <==> m in multiset(s);
    }
  }

  // ----- collecting -----

  /** Invoked programs, each once, in order of first use. */
  function Programs(instrs: seq<Instruction>): (r: seq<Key>) {
    if instrs == [] then []
    else
      var n := |instrs| - 1;
      var before := Programs(instrs[..n]);
      if instrs[n].program in before then before else before + [instrs[n].program]
  }

  function AccountMetas(instrs: seq<Instruction>): (r: seq<Meta>) {
    if instrs == [] then []
    else AccountMetas(instrs[..|instrs| - 1]) + instrs[|instrs| - 1].accounts
  }

  function ProgramMetas(programs: seq<Key>): (r: seq<Meta>)
    ensures |r| == |programs|
  {
    seq(|programs|, i requires 0 <= i < |programs| => Meta(programs[i], false, false))
  }

  function AllMetas(instrs: seq<Instruction>): (r: seq<Meta>) {
    AccountMetas(instrs) + ProgramMetas(Programs(instrs))
  }

  // ----- deduplication -----

  predicate HasKey(s: seq<Meta>, k: Key) {
    exists i :: 0 <= i < |s| && s[i].key == k
  }

  predicate AnyWritable(s: seq<Meta>, k: Key) {
    exists i :: 0 <= i < |s| && s[i].key == k && s[i].writable
  }

  predicate AnySigner(s: seq<Meta>, k: Key) {
    exists i :: 0 <= i < |s| && s[i].key == k && s[i].signer
  }

  predicate AnyWritableSigner(s: seq<Meta>, k: Key) {
    exists i :: 0 <= i < |s| && s[i].key == k && s[i].signer && s[i].writable
  }

  /** The first meta of every key. */
  function Firsts(s: seq<Meta>): (r: seq<Meta>) {
    if s == [] then []
    else
      var n := |s| - 1;
      var before := Firsts(s[..n]);
      if HasKey(before, s[n].key) then before else before + [s[n]]
  }

  /** One meta per key: the first one, made writable when any meta of the key is. */
  function Dedup(s: seq<Meta>): (r: seq<Meta>)
    ensures |r| == |Firsts(s)|
  {
    var f := Firsts(s);
    seq(|f|, i requires 0 <= i < |f| => Meta(f[i].key, f[i].signer, AnyWritable(s, f[i].key)))
  }

  predicate DistinctKeys(s: seq<Meta>) {
    forall i, j :: 0 <= i < j < |s| ==> s[i].key != s[j].key
  }

  lemma {:induction false} FirstsCorrect(s: seq<Meta>)
    ensures DistinctKeys(Firsts(s))
    ensures forall k :: HasKey(Firsts(s), k) <==> HasKey(s, k)
    ensures forall i :: 0 <= i < |Firsts(s)| ==> Firsts(s)[i] in s
  {
    if s != [] {
      var n := |s| - 1;
      FirstsCorrect(s[..n]);
      assert forall k :: HasKey(s, k) <==> HasKey(s[..n], k) || s[n].key == k;
      var f, g := Firsts(s), Firsts(s[..n]);
      forall k ensures HasKey(f, k) <==> HasKey(s, k) {
        if HasKey(g, k) {
          var i :| 0 <= i < |g| && g[i].key == k;
          assert f[i].key == k;
        }
        if |f| > |g| && k == s[n].key {
          assert f[|g|].key == k;
        }
      }
    }
  }

  /** In a sorted list the first meta of a key is its strongest, and the firsts are themselves sorted. */
  lemma {:induction false} FirstsSorted(s: seq<Meta>)
    requires Sorted(s)
    ensures Sorted(Firsts(s))
    ensures forall i, j :: 0 <= i < |Firsts(s)| && 0 <= j < |s| && s[j].key == Firsts(s)[i].key ==>
            LessEq(Firsts(s)[i], s[j])
  {
    if s != [] {
      var n := |s| - 1;
      FirstsSorted(s[..n]);
      FirstsCorrect(s[..n]);
      var f, g := Firsts(s), Firsts(s[..n]);
      assert forall i :: 0 <= i < |g| ==> g[i] in s[..n];
      forall i, j | 0 <= i < |f| && 0 <= j < |s| && s[j].key == f[i].key ensures LessEq(f[i], s[j]) {
        assert i < |g| ==> f[i] in s[..n];
        assert j < n ==> s[..n][j] == s[j] && HasKey(s[..n], s[j].key);
      }
    }
  }

  // ----- payer -----

  function FirstSigner(accounts: seq<Meta>): (r: Option<Key>) {
    if accounts == [] then None
    else if accounts[0].signer then Some(accounts[0].key)
    else FirstSigner(accounts[1..])
  }

  /** The payer option, or the first signer of the first instruction. */
  function Payer(instrs: seq<Instruction>, option: Key): (r: Option<Key>)
    requires instrs != []
  {
    if option != 0 then Some(option) else FirstSigner(instrs[0].accounts)
  }

  /** The position of the meta of key k, or |s|. */
  function Position(s: seq<Meta>, k: Key): (i: nat)
    ensures i <= |s|
    ensures i < |s| ==> s[i].key == k
    ensures forall j :: 0 <= j < i ==> s[j].key != k
  {
    assert forall j :: 0 <= j < |s| ==> KeysOf(s)[j] == s[j].key;
    IndexIn(KeysOf(s), k)
  }

  function Without(s: seq<Meta>, k: Key): (r: seq<Meta>) {
    var at := Position(s, k);
    if at < |s| then s[..at] + s[at + 1..] else s
  }

  /** All keys in message order: the payer first, signer and writable, then the rest as sorted. */
  function Ordering(uniq: seq<Meta>, payer: Key): (r: seq<Meta>) {
    [Meta(payer, true, true)] + Without(uniq, payer)
  }

  function OrderedKeys(instrs: seq<Instruction>, payer: Key): (r: seq<Meta>) {
    Ordering(Dedup(Sort(AllMetas(instrs))), payer)
  }

  // ----- lookup tables -----

  datatype Entry = Entry(table: Key, index: nat)

  /** Where address k is found: in the first table of the list that holds it, at its first position. */
  function FindEntry(tables: Tables, order: seq<Key>, k: Key): (r: Option<Entry>)
    requires forall t :: t in order ==> t in tables
    ensures r.Some? ==> r.value.table in tables && r.value.index < |tables[r.value.table]|
                        && tables[r.value.table][r.value.index] == k
  {
    if order == [] then None
    else
      var n := |order| - 1;
      var before := FindEntry(tables, order[..n], k);
      if before.Some? then before
      else
        var at := IndexIn(tables[order[n]], k);
        if at < |tables[order[n]]| then Some(Entry(order[n], at)) else None
  }

  /** The first position of k in s, or |s|. */
  function IndexIn(s: seq<Key>, k: Key): (i: nat)
    ensures i <= |s|
    ensures i < |s| ==> s[i] == k
    ensures forall j :: 0 <= j < i ==> s[j] != k
  {
    if s == [] then 0
    else if s[0] == k then 0
    else
      var i := IndexIn(s[1..], k);
      assert forall j :: 0 < j < i + 1 ==> s[j] == s[1..][j - 1];
      i + 1
  }

  function Find(tables: Tables, k: Key): (r: Option<Entry>)
    ensures r.Some? ==> r.value.table in tables && r.value.index < |tables[r.value.table]|
                        && tables[r.value.table][r.value.index] == k
  {
    FindEntry(tables, Ordered(tables.Keys), k)
  }

  function FirstLong(tables: Tables, order: seq<Key>): (r: Option<Key>)
    requires forall t :: t in order ==> t in tables
    ensures r.Some? <==> exists t :: t in order && |tables[t]| > 256
  {
    if order == [] then None
    else
      var n := |order| - 1;
      assert forall t :: t in order <==> t in order[..n] || t == order[n];
      var before := FirstLong(tables, order[..n]);
      if before.Some? then before
      else if |tables[order[n]]| > 256 then Some(order[n]) else None
  }

  // ----- static and loaded keys -----

  datatype Loaded = Loaded(key: Key, table: Key, index: nat, writable: bool)

  /** Key number i of the ordering is loaded through a table. */
  predicate IsLoaded(tables: Tables, programs: seq<Key>, all: seq<Meta>, i: nat)
    requires i < |all|
  {
    i != 0 && !all[i].signer && all[i].key !in programs && Find(tables, all[i].key).Some?
  }

  /** The positions among the first n that stay static. */
  function StaticMetas(tables: Tables, programs: seq<Key>, all: seq<Meta>, n: nat): (r: seq<Meta>)
    requires n <= |all|
  {
    if n == 0 then []
    else
      var before := StaticMetas(tables, programs, all, n - 1);
      if IsLoaded(tables, programs, all, n - 1) then before else before + [all[n - 1]]
  }

  function LoadedAccounts(tables: Tables, programs: seq<Key>, all: seq<Meta>, n: nat): (r: seq<Loaded>)
    requires n <= |all|
  {
    if n == 0 then []
    else
      var before := LoadedAccounts(tables, programs, all, n - 1);
      if IsLoaded(tables, programs, all, n - 1) then
        var m, e := all[n - 1], Find(tables, all[n - 1].key).value;
        before + [Loaded(m.key, e.table, e.index, m.writable)]
      else before
  }

  function KeysOf(s: seq<Meta>): (r: seq<Key>)
    ensures |r| == |s|
  {
    seq(|s|, i requires 0 <= i < |s| => s[i].key)
  }

  function LoadedKeys(s: seq<Loaded>): (r: seq<Key>)
    ensures |r| == |s|
  {
    seq(|s|, i requires 0 <= i < |s| => s[i].key)
  }

  function LoadedIndexes(s: seq<Loaded>): (r: seq<nat>)
    ensures |r| == |s|
  {
    seq(|s|, i requires 0 <= i < |s| => s[i].index)
  }

  function Count(s: seq<Meta>, signer: bool, readonlyOnly: bool): (n: nat)
    ensures n <= |s|
  {
    if s == [] then 0
    else
      var m := s[|s| - 1];
      Count(s[..|s| - 1], signer, readonlyOnly)
      + (if m.signer == signer && (readonlyOnly ==> !m.writable) then 1 else 0)
  }

  /** Eight-bit counters, as the header keeps them. */
  function HeaderOf(s: seq<Meta>): (h: Header) {
    Header(Count(s, true, false) % 256, Count(s, true, true) % 256, Count(s, false, true) % 256)
  }

  // ----- loaded keys by table -----

  function Pick(loaded: seq<Loaded>, table: Key, writable: bool): (r: seq<Loaded>) {
    if loaded == [] then []
    else
      var l := loaded[|loaded| - 1];
      var before := Pick(loaded[..|loaded| - 1], table, writable);
      if l.table == table && l.writable == writable then before + [l] else before
  }

  function PickAll(loaded: seq<Loaded>, tables: seq<Key>, writable: bool): (r: seq<Loaded>) {
    if tables == [] then []
    else PickAll(loaded, tables[..|tables| - 1], writable) + Pick(loaded, tables[|tables| - 1], writable)
  }

  function UsedTables(loaded: seq<Loaded>): (r: seq<Key>) {
    Ordered(set i | 0 <= i < |loaded| :: loaded[i].table)
  }

  function Lookups(loaded: seq<Loaded>): (r: seq<Lookup>) {
    var tables := UsedTables(loaded);
    seq(|tables|, i requires 0 <= i < |tables| =>
      Lookup(tables[i], LoadedIndexes(Pick(loaded, tables[i], true)), LoadedIndexes(Pick(loaded, tables[i], false))))
  }

  /** Every key of the message in the order of its index: static, writable lookups by table, readonly lookups by
      table. */
  function KeyList(fixed: seq<Meta>, loaded: seq<Loaded>): (r: seq<Key>) {
    var tables := UsedTables(loaded);
    KeysOf(fixed) + LoadedKeys(PickAll(loaded, tables, true)) + LoadedKeys(PickAll(loaded, tables, false))
  }

  // ----- instructions -----

  /** Sixteen-bit index of a key in the list; 0 for a key the list does not hold. */
  function KeyIndex(list: seq<Key>, k: Key): (i: nat) {
    if k in list then IndexIn(list, k) % 65536 else 0
  }

  function CompileInstruction(list: seq<Key>, ins: Instruction): (r: CompiledInstruction)
    requires ins.data.Some?
  {
    CompiledInstruction(KeyIndex(list, ins.program),
                        seq(|ins.accounts|, i requires 0 <= i < |ins.accounts| => KeyIndex(list, ins.accounts[i].key)),
                        ins.data.value)
  }

  function FirstFailed(instrs: seq<Instruction>, n: nat): (r: Option<nat>)
    requires n <= |instrs|
    ensures r == None ==> forall i :: 0 <= i < n ==> instrs[i].data.Some?
    ensures r.Some? ==> r.value < n && instrs[r.value].data == None
  {
    if n == 0 then None
    else
      var before := FirstFailed(instrs, n - 1);
      if before.Some? then before
      else if instrs[n - 1].data == None then Some(n - 1) else None
  }

  function CompileAll(list: seq<Key>, instrs: seq<Instruction>): (r: seq<CompiledInstruction>)
    requires forall i :: 0 <= i < |instrs| ==> instrs[i].data.Some?
    ensures |r| == |instrs|
  {
    seq(|instrs|, i requires 0 <= i < |instrs| => CompileInstruction(list, instrs[i]))
  }

  /** NewTransaction. */
  function Compile(instrs: seq<Instruction>, blockhash: nat, option: Key, tables: Tables): (r: Result<Message, Error>) {
    if instrs == [] then Err(NoInstructions)
    else
      var payer := Payer(instrs, option);
      if payer == None then Err(NoPayer)
      else
        var tooLong := FirstLong(tables, Ordered(tables.Keys));
        if tooLong.Some? then Err(TableTooLong(tooLong.value))
        else
          var all, programs := OrderedKeys(instrs, payer.value), Programs(instrs);
          var fixed := StaticMetas(tables, programs, all, |all|);
          var loaded := LoadedAccounts(tables, programs, all, |all|);
          var failed := FirstFailed(instrs, |instrs|);
          if failed.Some? then Err(DataFailed(failed.value))
          else
            Ok(Message(if loaded == [] then Legacy else V0, KeysOf(fixed), HeaderOf(fixed), blockhash,
                       CompileAll(KeyList(fixed, loaded), instrs), Lookups(loaded)))
  }
}
