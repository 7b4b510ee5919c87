/**
 Roles after compilation: the header's view of signers and writable accounts (message.go)
 against what the instructions ask for.
 */
module CompilerRoles {
  import opened Wrappers
  import opened TransactionCompiler
  import opened CompilerMeaning

  // ----- the header's view -----

  /** staticIndexIsWritable. */
  predicate StaticWritable(msg: Message, index: nat) {
    var h := msg.header;
    if index >= h.required then
      var free := |msg.keys| - h.required - h.readonlyUnsigned;
      index - h.required < (if free > 0 then free else 0)
    else
      var free := h.required - h.readonlySigned;
      index < (if free > 0 then free else 0)
  }

  predicate StaticSigner(msg: Message, index: nat) {
    index < msg.header.required
  }

  // ----- counting a prefix -----

  function CountWritable(s: seq<Meta>): (n: nat)
    ensures n <= |s|
  {
    if s == [] then 0 else CountWritable(s[..|s| - 1]) + (if s[|s| - 1].writable then 1 else 0)
  }

  predicate WritableFirst(s: seq<Meta>) {
    forall i, j :: 0 <= i < j < |s| && s[j].writable ==> s[i].writable
  }

  predicate AllSigners(s: seq<Meta>, signer: bool) {
    forall i :: 0 <= i < |s| ==> s[i].signer == signer
  }

  lemma {:induction false} CountAll(s: seq<Meta>)
    ensures CountWritable(s) == |s| <==> (forall i :: 0 <= i < |s| ==> s[i].writable)
  {
    if s != [] {
      CountAll(s[..|s| - 1]);
    }
  }

  /** Writable metas are counted by position exactly when they come first. */
  lemma {:induction false} CountIsPrefix(s: seq<Meta>)
    ensures WritableFirst(s) <==> (forall i :: 0 <= i < |s| ==> (s[i].writable <==> i < CountWritable(s)))
  {
    if s != [] {
      var n := |s| - 1;
      var t := s[..n];
      CountIsPrefix(t);
      CountAll(t);
      if WritableFirst(s) {
        assert WritableFirst(t);
        forall i | 0 <= i < |s| ensures s[i].writable <==> i < CountWritable(s) {
          if i < n {
            assert t[i].writable <==> i < CountWritable(t);
          } else if s[n].writable {
            assert forall j :: 0 <= j < n ==> t[j].writable;
          }
        }
      }
    }
  }

  lemma {:induction false} CountJoin(a: seq<Meta>, b: seq<Meta>, signer: bool, readonlyOnly: bool)
    ensures Count(a + b, signer, readonlyOnly) == Count(a, signer, readonlyOnly) + Count(b, signer, readonlyOnly)
  {
    if b == [] {
      assert a + b == a;
    } else {
      CountJoin(a, b[..|b| - 1], signer, readonlyOnly);
      assert (a + b)[..|a + b| - 1] == a + b[..|b| - 1];
    }
  }

  lemma {:induction false} CountClass(s: seq<Meta>, signer: bool)
    requires AllSigners(s, signer)
    ensures Count(s, signer, false) == |s| && Count(s, !signer, false) == 0 == Count(s, !signer, true)
    ensures Count(s, signer, true) == |s| - CountWritable(s)
  {
    if s != [] {
      CountClass(s[..|s| - 1], signer);
    }
  }

  /** Signers first, split at c: the header's counts in terms of the two halves. */
  lemma {:induction false} CountSplit(s: seq<Meta>, c: nat)
    requires c <= |s| && AllSigners(s[..c], true) && AllSigners(s[c..], false)
    ensures Count(s, true, false) == c
    ensures Count(s, true, true) == c - CountWritable(s[..c])
    ensures Count(s, false, true) == |s| - c - CountWritable(s[c..])
  {
    assert s == s[..c] + s[c..];
    CountClass(s[..c], true);
    CountClass(s[c..], false);
    CountJoin(s[..c], s[c..], true, false);
    CountJoin(s[..c], s[c..], true, true);
    CountJoin(s[..c], s[c..], false, true);
  }

  // ----- the order of keys -----

  /** The strongest class any single meta asks for. */
  function Class(metas: seq<Meta>, k: Key): (r: nat) {
    if AnyWritableSigner(metas, k) then 0
    else if AnySigner(metas, k) then 1
    else if AnyWritable(metas, k) then 2
    else 3
  }

  predicate KeyBefore(metas: seq<Meta>, a: Key, b: Key) {
    Class(metas, a) < Class(metas, b) || (Class(metas, a) == Class(metas, b) && a < b)
  }

  predicate KeysInOrder(metas: seq<Meta>, s: seq<Meta>) {
    forall i, j :: 0 <= i < j < |s| ==> KeyBefore(metas, s[i].key, s[j].key)
  }

  lemma {:induction false} FirstClass(s: seq<Meta>, i: nat)
    requires Sorted(s) && i < |Firsts(s)|
    ensures Rank(Firsts(s)[i]) == Class(s, Firsts(s)[i].key)
  {
    FirstsCorrect(s);
    FirstsSorted(s);
    var f := Firsts(s)[i];
    assert f in s;
    var a :| 0 <= a < |s| && s[a] == f;
    if AnyWritableSigner(s, f.key) {
      var j :| 0 <= j < |s| && s[j].key == f.key && s[j].signer && s[j].writable;
      assert LessEq(f, s[j]);
    } else if AnySigner(s, f.key) {
      var j :| 0 <= j < |s| && s[j].key == f.key && s[j].signer;
      assert LessEq(f, s[j]);
    } else if AnyWritable(s, f.key) {
      var j :| 0 <= j < |s| && s[j].key == f.key && s[j].writable;
      assert LessEq(f, s[j]);
    }
  }

  lemma {:induction false} DedupInOrder(metas: seq<Meta>)
    ensures KeysInOrder(metas, Dedup(Sort(metas)))
  {
    hide Sort, Class, Rank;
    var s := Sort(metas);
    var u, f := Dedup(s), Firsts(s);
    SortCorrect(metas);
    FirstsSorted(s);
    FirstsCorrect(s);
    forall i, j | 0 <= i < j < |u| ensures KeyBefore(metas, u[i].key, u[j].key) {
      FirstClass(s, i);
      FirstClass(s, j);
      SameClass(metas, u[i].key);
      SameClass(metas, u[j].key);
      assert LessEq(f[i], f[j]);
    }
  }

  lemma {:induction false} SameClass(metas: seq<Meta>, k: Key)
    ensures Class(Sort(metas), k) == Class(metas, k)
  {
    SameMembers(metas);
  }

  lemma {:induction false} OrderingInOrder(instrs: seq<Instruction>, payer: Key)
    ensures KeysInOrder(AllMetas(instrs), OrderedKeys(instrs, payer)[1..])
  {
    hide Sort, Dedup, KeyBefore, AllMetas;
    var metas := AllMetas(instrs);
    var u := Dedup(Sort(metas));
    DedupInOrder(metas);
    assert OrderedKeys(instrs, payer)[1..] == Without(u, payer);
  }

  /** m is one of all[1], ..., all[n - 1]. */
  predicate InTail(all: seq<Meta>, n: nat, m: Meta)
    requires n <= |all|
  {
    exists i :: 1 <= i < n && all[i] == m
  }

  /** The keys of r after its first are among all[1..n], in order. */
  predicate TailInOrder(metas: seq<Meta>, all: seq<Meta>, n: nat, r: seq<Meta>)
    requires n <= |all|
  {
    && |r| > 0
    && (forall i, j :: 1 <= i < j < |r| ==> KeyBefore(metas, r[i].key, r[j].key))
    && (forall j :: 1 <= j < |r| ==> InTail(all, n, r[j]))
  }

  lemma {:induction false} TailStep(metas: seq<Meta>, all: seq<Meta>, n: nat, r: seq<Meta>)
    requires 1 <= n < |all| && KeysInOrder(metas, all[1..]) && TailInOrder(metas, all, n, r)
    ensures TailInOrder(metas, all, n + 1, r) && TailInOrder(metas, all, n + 1, r + [all[n]])
  {
    hide KeyBefore;
    forall j | 1 <= j < |r| ensures InTail(all, n + 1, r[j]) && KeyBefore(metas, r[j].key, all[n].key) {
      assert InTail(all, n, r[j]);
      TailGrows(metas, all, n, r[j]);
    }
    assert InTail(all, n + 1, all[n]);
  }

  lemma {:induction false} TailGrows(metas: seq<Meta>, all: seq<Meta>, n: nat, m: Meta)
    requires 1 <= n < |all| && KeysInOrder(metas, all[1..]) && InTail(all, n, m)
    ensures InTail(all, n + 1, m) && KeyBefore(metas, m.key, all[n].key)
  {
    hide KeyBefore;
    var i :| 1 <= i < n && all[i] == m;
    assert all[1..][i - 1] == all[i] && all[1..][n - 1] == all[n];
  }

  lemma {:induction false} StaticInOrder(tables: Tables, programs: seq<Key>, all: seq<Meta>, n: nat, metas: seq<Meta>)
    requires 1 <= n <= |all| && KeysInOrder(metas, all[1..])
    ensures TailInOrder(metas, all, n, StaticMetas(tables, programs, all, n))
  {
    hide Find, KeysInOrder, TailInOrder;
    if n == 1 {
      assert StaticMetas(tables, programs, all, 0) == [] && !IsLoaded(tables, programs, all, 0);
      OneInOrder(metas, all, StaticMetas(tables, programs, all, 1));
    } else {
      StaticInOrder(tables, programs, all, n - 1, metas);
      TailStep(metas, all, n - 1, StaticMetas(tables, programs, all, n - 1));
    }
  }

  lemma {:induction false} OneInOrder(metas: seq<Meta>, all: seq<Meta>, r: seq<Meta>)
    requires 1 <= |all| && |r| == 1
    ensures TailInOrder(metas, all, 1, r)
  {
  }

  lemma {:induction false} TailIsKeysInOrder(metas: seq<Meta>, all: seq<Meta>, n: nat, r: seq<Meta>)
    requires n <= |all| && TailInOrder(metas, all, n, r)
    ensures KeysInOrder(metas, r[1..])
  {
    hide KeyBefore;
  }

  // ----- the static keys -----

  /** Everything about the static part of a compiled message. */
  ghost predicate StaticFacts(instrs: seq<Instruction>, payer: Key, fixed: seq<Meta>) {
    && |fixed| > 0 && fixed[0] == Meta(payer, true, true)
    && DistinctKeys(fixed)
    && KeysInOrder(AllMetas(instrs), fixed[1..])
    && (forall i :: 0 <= i < |fixed| ==> fixed[i].signer == WantsSigner(instrs, payer, fixed[i].key))
    && (forall i :: 0 <= i < |fixed| ==> fixed[i].writable == WantsWritable(instrs, payer, fixed[i].key))
    && (forall k :: WantsSigner(instrs, payer, k) ==> HasKey(fixed, k))
  }

  lemma {:induction false} StaticFactsHold(instrs: seq<Instruction>, payer: Key, tables: Tables)
    ensures StaticFacts(instrs, payer, PlanOf(instrs, payer, tables).fixed)
  {
    hide OrderedKeys, StaticMetas, LoadedAccounts, WantsSigner, WantsWritable, Mentioned, KeysInOrder, Find,
         TailInOrder;
    var p, programs := PlanOf(instrs, payer, tables), Programs(instrs);
    var all := p.all;
    OrderingCorrect(instrs, payer);
    OrderingInOrder(instrs, payer);
    StaticInOrder(tables, programs, all, |all|, AllMetas(instrs));
    TailIsKeysInOrder(AllMetas(instrs), all, |all|, p.fixed);
    StaticPart(tables, programs, all, |all|);
    PayerFirst(instrs, payer, tables);
    forall i | 0 <= i < |p.fixed| ensures p.fixed[i].signer == WantsSigner(instrs, payer, p.fixed[i].key)
                                       && p.fixed[i].writable == WantsWritable(instrs, payer, p.fixed[i].key) {
      assert p.fixed[i] in p.fixed;
    }
    forall k | WantsSigner(instrs, payer, k) ensures HasKey(p.fixed, k) {
      SignerMentioned(instrs, payer, k);
      var i :| 0 <= i < |all| && all[i].key == k;
      assert !IsLoaded(tables, programs, all, i);
      assert all[i] in p.fixed;
    }
  }

  lemma {:induction false} SignerMentioned(instrs: seq<Instruction>, payer: Key, k: Key)
    requires WantsSigner(instrs, payer, k)
    ensures Mentioned(instrs, payer, k)
  {
  }

  lemma {:induction false} ClassFacts(metas: seq<Meta>, k: Key)
    ensures Class(metas, k) <= 1 <==> AnySigner(metas, k)
    ensures Class(metas, k) == 0 ==> AnyWritable(metas, k)
    ensures Class(metas, k) == 1 ==> !AnyWritableSigner(metas, k)
    ensures Class(metas, k) == 2 <==> !AnySigner(metas, k) && AnyWritable(metas, k)
    ensures Class(metas, k) == 0 <==> AnyWritableSigner(metas, k)
  {
  }

  lemma {:induction false} SignersComeFirst(instrs: seq<Instruction>, payer: Key, fixed: seq<Meta>)
    requires StaticFacts(instrs, payer, fixed)
    ensures forall i, j :: 0 <= i < j < |fixed| && fixed[j].signer ==> fixed[i].signer
    ensures forall i, j :: 0 <= i < j < |fixed| && !fixed[i].signer && fixed[j].writable ==> fixed[i].writable
  {
    hide Class, AllMetas, AnySigner, AnyWritable, AnyWritableSigner;
    var metas := AllMetas(instrs);
    forall i, j | 0 <= i < j < |fixed| && i > 0
      ensures fixed[j].signer ==> fixed[i].signer
      ensures !fixed[i].signer && fixed[j].writable ==> fixed[i].writable
    {
      assert fixed[1..][i - 1] == fixed[i] && fixed[1..][j - 1] == fixed[j];
      assert KeyBefore(metas, fixed[i].key, fixed[j].key);
      assert fixed[i].key != payer && fixed[j].key != payer;
      ClassFacts(metas, fixed[i].key);
      ClassFacts(metas, fixed[j].key);
    }
  }

  /** The number of signers at the front of the static keys. */
  lemma {:induction false} SignerSplit(fixed: seq<Meta>, n: nat) returns (c: nat)
    requires n <= |fixed|
    requires forall i, j :: 0 <= i < j < |fixed| && fixed[j].signer ==> fixed[i].signer
    ensures c <= n && (forall i :: 0 <= i < n ==> (fixed[i].signer <==> i < c))
  {
    if n == 0 {
      c := 0;
    } else {
      c := SignerSplit(fixed, n - 1);
      if fixed[n - 1].signer {
        assert forall i :: 0 <= i < n - 1 ==> fixed[i].signer;
        c := n;
      }
    }
  }

  // ----- the theorems -----

  /** r is a read-only signer that sorts before u, a signer made writable only by a non-signer meta. */
  ghost predicate Misplaced(instrs: seq<Instruction>, payer: Key, r: Key, u: Key) {
    var metas := AllMetas(instrs);
    && r != payer && u != payer && r < u
    && AnySigner(metas, r) && !AnyWritable(metas, r)
    && AnySigner(metas, u) && !AnyWritableSigner(metas, u) && AnyWritable(metas, u)
  }

  lemma {:induction false} SignerOrderExact(instrs: seq<Instruction>, payer: Key, fixed: seq<Meta>, c: nat)
    requires StaticFacts(instrs, payer, fixed) && c <= |fixed|
    requires forall i :: 0 <= i < |fixed| ==> (fixed[i].signer <==> i < c)
    ensures WritableFirst(fixed[..c]) <==> !exists r, u :: Misplaced(instrs, payer, r, u)
  {
    hide StaticFacts, Misplaced;
    if !WritableFirst(fixed[..c]) {
      var i, j :| 0 <= i < j < c && fixed[j].writable && !fixed[i].writable;
      MisplacedFrom(instrs, payer, fixed, i, j);
    }
    if r, u :| Misplaced(instrs, payer, r, u) {
      var i, j := MisplacedAt(instrs, payer, fixed, r, u);
      assert fixed[..c][i] == fixed[i] && fixed[..c][j] == fixed[j];
    }
  }

  lemma {:induction false} MisplacedFrom(instrs: seq<Instruction>, payer: Key, fixed: seq<Meta>, i: nat, j: nat)
    requires StaticFacts(instrs, payer, fixed) && i < j < |fixed|
    requires fixed[i].signer && fixed[j].signer && fixed[j].writable && !fixed[i].writable
    ensures Misplaced(instrs, payer, fixed[i].key, fixed[j].key)
  {
    hide Class, AllMetas, AnySigner, AnyWritable, AnyWritableSigner;
    var metas := AllMetas(instrs);
    assert fixed[1..][i - 1] == fixed[i] && fixed[1..][j - 1] == fixed[j];
    assert KeyBefore(metas, fixed[i].key, fixed[j].key);
    ClassFacts(metas, fixed[i].key);
    ClassFacts(metas, fixed[j].key);
  }

  lemma {:induction false} MisplacedAt(instrs: seq<Instruction>, payer: Key, fixed: seq<Meta>, r: Key, u: Key)
    returns (i: nat, j: nat)
    requires StaticFacts(instrs, payer, fixed) && Misplaced(instrs, payer, r, u)
    ensures i < j < |fixed| && fixed[i].signer && fixed[j].signer && fixed[j].writable && !fixed[i].writable
  {
    hide Class, AllMetas, AnySigner, AnyWritable, AnyWritableSigner;
    var metas := AllMetas(instrs);
    assert HasKey(fixed, r) && HasKey(fixed, u);
    i :| 0 <= i < |fixed| && fixed[i].key == r;
    j :| 0 <= j < |fixed| && fixed[j].key == u;
    ClassFacts(metas, r);
    ClassFacts(metas, u);
    assert KeyBefore(metas, r, u) && !KeyBefore(metas, u, r);
    assert fixed[1..][i - 1] == fixed[i] && fixed[1..][j - 1] == fixed[j];
  }

  lemma {:induction false} UnsignedInOrder(fixed: seq<Meta>, c: nat)
    requires c <= |fixed| && (forall i :: 0 <= i < |fixed| ==> (fixed[i].signer <==> i < c))
    requires forall i, j :: 0 <= i < j < |fixed| && !fixed[i].signer && fixed[j].writable ==> fixed[i].writable
    ensures WritableFirst(fixed[c..])
  {
    var t := fixed[c..];
    forall i, j | 0 <= i < j < |t| && t[j].writable ensures t[i].writable {
      assert t[i] == fixed[c + i] && t[j] == fixed[c + j];
    }
  }

  /** Signers are exactly a prefix of the static keys, the payer first; and the header's writable accounts are
      exactly those some instruction wants writable (with the payer) if and only if no read-only signer sorts
      before a signer that only a non-signer meta made writable. */
  lemma {:induction false} RolesExact(instrs: seq<Instruction>, blockhash: nat, option: Key, tables: Tables)
    requires Compile(instrs, blockhash, option, tables).Ok?
    requires |Compile(instrs, blockhash, option, tables).value.keys| <= 255
    ensures Payer(instrs, option).Some?
    ensures var msg, payer := Compile(instrs, blockhash, option, tables).value, Payer(instrs, option).value;
            && |msg.keys| > 0 && msg.keys[0] == payer
            && (forall i :: 0 <= i < |msg.keys| ==> (StaticSigner(msg, i) <==> WantsSigner(instrs, payer, msg.keys[i])))
            && (forall k :: WantsSigner(instrs, payer, k) ==> k in msg.keys)
    ensures var msg, payer := Compile(instrs, blockhash, option, tables).value, Payer(instrs, option).value;
            (forall i :: 0 <= i < |msg.keys| ==>
             (StaticWritable(msg, i) <==> WantsWritable(instrs, payer, msg.keys[i])))
            <==> !exists r, u :: Misplaced(instrs, payer, r, u)
  {
    hide OrderedKeys, StaticMetas, LoadedAccounts, FirstLong, FirstFailed, Lookups, KeyList, CompileAll, Misplaced,
         WantsSigner, WantsWritable, StaticFacts, StaticWritable, StaticSigner, Count;
    var msg, payer := Compile(instrs, blockhash, option, tables).value, Payer(instrs, option).value;
    var fixed := PlanOf(instrs, payer, tables).fixed;
    StaticFactsHold(instrs, payer, tables);
    assert msg.keys == KeysOf(fixed) && msg.header == HeaderOf(fixed);
    RolesOfStatic(instrs, payer, fixed, msg);
  }

  lemma {:induction false} RolesOfStatic(instrs: seq<Instruction>, payer: Key, fixed: seq<Meta>, msg: Message)
    requires StaticFacts(instrs, payer, fixed) && |fixed| <= 255
    requires msg.keys == KeysOf(fixed) && msg.header == HeaderOf(fixed)
    ensures |msg.keys| > 0 && msg.keys[0] == payer
    ensures forall i :: 0 <= i < |msg.keys| ==> (StaticSigner(msg, i) <==> WantsSigner(instrs, payer, msg.keys[i]))
    ensures forall k :: WantsSigner(instrs, payer, k) ==> k in msg.keys
    ensures (forall i :: 0 <= i < |msg.keys| ==>
             (StaticWritable(msg, i) <==> WantsWritable(instrs, payer, msg.keys[i])))
            <==> !exists r, u :: Misplaced(instrs, payer, r, u)
  {
    hide Misplaced, WantsSigner, WantsWritable, KeysInOrder, StaticWritable, Count, CountWritable, WritableFirst;
    SignersComeFirst(instrs, payer, fixed);
    var c := SignerSplit(fixed, |fixed|);
    assert AllSigners(fixed[..c], true) && AllSigners(fixed[c..], false);
    CountSplit(fixed, c);
    assert msg.header == Header(c, c - CountWritable(fixed[..c]), |fixed| - c - CountWritable(fixed[c..]));
    SignerOrderExact(instrs, payer, fixed, c);
    UnsignedInOrder(fixed, c);
    WritableAgrees(msg, fixed, c);
    forall k | WantsSigner(instrs, payer, k) ensures k in msg.keys {
      var i :| 0 <= i < |fixed| && fixed[i].key == k;
      assert msg.keys[i] == k;
    }
    assert forall i :: 0 <= i < |fixed| ==> msg.keys[i] == fixed[i].key;
    assert forall i :: 0 <= i < |fixed| ==> (fixed[i].writable <==> WantsWritable(instrs, payer, msg.keys[i]));
  }

  lemma {:induction false} WritableAgrees(msg: Message, fixed: seq<Meta>, c: nat)
    requires c <= |fixed| == |msg.keys|
    requires msg.header == Header(c, c - CountWritable(fixed[..c]), |fixed| - c - CountWritable(fixed[c..]))
    requires WritableFirst(fixed[c..])
    ensures (forall i :: 0 <= i < |fixed| ==> (StaticWritable(msg, i) <==> fixed[i].writable))
            <==> WritableFirst(fixed[..c])
  {
    var a, b := fixed[..c], fixed[c..];
    CountIsPrefix(a);
    CountIsPrefix(b);
    forall i | c <= i < |fixed| ensures StaticWritable(msg, i) <==> fixed[i].writable {
      assert b[i - c] == fixed[i];
    }
    forall i | 0 <= i < c ensures StaticWritable(msg, i) <==> i < CountWritable(a) {
    }
    assert forall i :: 0 <= i < c ==> a[i] == fixed[i];
    if forall i :: 0 <= i < |fixed| ==> (StaticWritable(msg, i) <==> fixed[i].writable) {
      forall i | 0 <= i < |a| ensures a[i].writable <==> i < CountWritable(a) {
        assert StaticWritable(msg, i) <==> fixed[i].writable;
      }
    }
  }

  /** An account loaded through a table is never a signer or an invoked program, and it is among the writable
      lookups exactly when some instruction wants it writable. */
  lemma {:induction false} LoadedRoles(instrs: seq<Instruction>, blockhash: nat, option: Key, tables: Tables)
    requires Compile(instrs, blockhash, option, tables).Ok?
    ensures var msg := Compile(instrs, blockhash, option, tables).value;
            && Payer(instrs, option).Some? && Resolvable(tables, msg.lookups)
            && var payer := Payer(instrs, option).value;
            && (forall k :: k in LookupKeys(tables, msg.lookups, true) ==>
                  WantsWritable(instrs, payer, k) && !WantsSigner(instrs, payer, k) && k !in Programs(instrs))
            && (forall k :: k in LookupKeys(tables, msg.lookups, false) ==>
                  !WantsWritable(instrs, payer, k) && !WantsSigner(instrs, payer, k) && k !in Programs(instrs))
            && (msg.version == V0
                <==> |LookupKeys(tables, msg.lookups, true)| + |LookupKeys(tables, msg.lookups, false)| > 0)
  {
    hide OrderedKeys, StaticMetas, LoadedAccounts, FirstLong, FirstFailed, Lookups, KeyList, CompileAll, WantsSigner,
         WantsWritable, LookupKeys, PickAll, UsedTables, Find;
    var msg, payer := Compile(instrs, blockhash, option, tables).value, Payer(instrs, option).value;
    var p := PlanOf(instrs, payer, tables);
    var ts := UsedTables(p.loaded);
    PlanDistinct(instrs, payer, tables);
    LookupsResolvable(tables, p.loaded);
    LoadedOrderCorrect(p.loaded);
    LookupsWhole(tables, p.loaded, true);
    LookupsWhole(tables, p.loaded, false);
    forall k | k in LoadedKeys(PickAll(p.loaded, ts, true))
      ensures WantsWritable(instrs, payer, k) && !WantsSigner(instrs, payer, k) && k !in Programs(instrs)
    {
      var j :| 0 <= j < |PickAll(p.loaded, ts, true)| && PickAll(p.loaded, ts, true)[j].key == k;
      LoadedRole(instrs, payer, tables, PickAll(p.loaded, ts, true)[j]);
    }
    forall k | k in LoadedKeys(PickAll(p.loaded, ts, false))
      ensures !WantsWritable(instrs, payer, k) && !WantsSigner(instrs, payer, k) && k !in Programs(instrs)
    {
      var j :| 0 <= j < |PickAll(p.loaded, ts, false)| && PickAll(p.loaded, ts, false)[j].key == k;
      LoadedRole(instrs, payer, tables, PickAll(p.loaded, ts, false)[j]);
    }
    LoadedNonempty(p.loaded);
  }

  lemma {:induction false} LoadedNonempty(loaded: seq<Loaded>)
    requires DistinctLoaded(loaded)
    ensures loaded != []
            <==> |PickAll(loaded, UsedTables(loaded), true)| + |PickAll(loaded, UsedTables(loaded), false)| > 0
  {
    hide PickAll, UsedTables;
    LoadedOrderCorrect(loaded);
    var order := LoadedOrder(loaded);
    assert loaded != [] ==> loaded[0] in order;
    assert order != [] ==> order[0] in order;
  }

  lemma {:induction false} LookupsWhole(tables: Tables, loaded: seq<Loaded>, writable: bool)
    requires DistinctLoaded(loaded) && Located(tables, loaded) && Resolvable(tables, Lookups(loaded))
    ensures LookupKeys(tables, Lookups(loaded), writable) == LoadedKeys(PickAll(loaded, UsedTables(loaded), writable))
  {
    var ts, ls := UsedTables(loaded), Lookups(loaded);
    LookupsResolve(tables, loaded, |ts|, writable);
    assert ls[..|ts|] == ls && ts[..|ts|] == ts;
  }

  lemma {:induction false} LoadedRole(instrs: seq<Instruction>, payer: Key, tables: Tables, l: Loaded)
    requires l in PlanOf(instrs, payer, tables).loaded
    ensures l.writable == WantsWritable(instrs, payer, l.key)
    ensures !WantsSigner(instrs, payer, l.key) && l.key !in Programs(instrs)
  {
    hide OrderedKeys, StaticMetas, LoadedAccounts, WantsSigner, WantsWritable, Mentioned, Find;
    var p, programs := PlanOf(instrs, payer, tables), Programs(instrs);
    OrderingCorrect(instrs, payer);
    LoadedPart(tables, programs, p.all, |p.all|);
    var j :| 0 <= j < |p.loaded| && p.loaded[j] == l;
    assert HasSource(tables, programs, p.all, |p.all|, p.loaded[j]);
    var i :| 0 <= i < |p.all| && FromMeta(tables, programs, p.all, i, l);
  }

  lemma {:induction false} FirstsBound(s: seq<Meta>)
    ensures |Firsts(s)| <= |s|
  {
    if s != [] {
      FirstsBound(s[..|s| - 1]);
    }
  }

  lemma {:induction false} StaticBound(tables: Tables, programs: seq<Key>, all: seq<Meta>, n: nat)
    requires n <= |all|
    ensures |StaticMetas(tables, programs, all, n)| <= n
  {
    hide IsLoaded;
    if n > 0 {
      StaticBound(tables, programs, all, n - 1);
    }
  }

  lemma {:induction false} KeyCountBound(instrs: seq<Instruction>, payer: Key, tables: Tables)
    ensures |PlanOf(instrs, payer, tables).fixed| <= 1 + |AllMetas(instrs)|
  {
    hide Firsts, Sort;
    var metas := AllMetas(instrs);
    SortCorrect(metas);
    assert |Sort(metas)| == |multiset(Sort(metas))| == |multiset(metas)| == |metas|;
    FirstsBound(Sort(metas));
    var all := OrderedKeys(instrs, payer);
    StaticBound(tables, Programs(instrs), all, |all|);
  }

  /** The condition can be met: three signers, and the header marks the wrong one of them writable. */
  lemma {:induction false} ThreeSignerCounterexample(blockhash: nat)
    ensures var instrs := [Instruction(9, [Meta(2, true, false), Meta(3, true, false), Meta(3, false, true)],
                                       Some([]))];
            && Compile(instrs, blockhash, 1, map[]).Ok?
            && var msg := Compile(instrs, blockhash, 1, map[]).value;
            exists i :: 0 <= i < |msg.keys| && StaticWritable(msg, i) != WantsWritable(instrs, 1, msg.keys[i])
  {
    var instrs := [Instruction(9, [Meta(2, true, false), Meta(3, true, false), Meta(3, false, true)], Some([]))];
    var none: Tables := map[];
    ThreeSignersMisplaced(instrs);
    OneCompiles(instrs[0], blockhash, 1);
    hide StaticWritable, WantsWritable, Misplaced, Compile, AllMetas;
    KeyCountBound(instrs, 1, none);
    RolesExact(instrs, blockhash, 1, none);
  }

  lemma {:induction false} ThreeSignersMisplaced(instrs: seq<Instruction>)
    requires instrs == [Instruction(9, [Meta(2, true, false), Meta(3, true, false), Meta(3, false, true)], Some([]))]
    ensures |AllMetas(instrs)| == 4 && Misplaced(instrs, 1, 2, 3)
  {
    assert instrs[..0] == [];
    assert AccountMetas(instrs) == instrs[0].accounts;
    assert Programs(instrs) == [9];
    var metas := AllMetas(instrs);
    assert metas == [Meta(2, true, false), Meta(3, true, false), Meta(3, false, true), Meta(9, false, false)];
    assert metas[0].key == 2 && metas[1].key == 3 && metas[2].key == 3;
  }

  /** A single instruction with data and an explicit payer compiles, to the keys of its plan. */
  lemma {:induction false} OneCompiles(ins: Instruction, blockhash: nat, payer: Key)
    requires ins.data.Some? && payer != 0
    ensures Payer([ins], payer) == Some(payer)
    ensures Compile([ins], blockhash, payer, map[]).Ok?
    ensures |Compile([ins], blockhash, payer, map[]).value.keys| == |PlanOf([ins], payer, map[]).fixed|
  {
    hide OrderedKeys, StaticMetas, LoadedAccounts, KeyList, Lookups, HeaderOf, CompileAll;
    var none: Tables := map[];
    assert Ordered(none.Keys) == [];
    assert FirstFailed([ins], 1) == None;
  }
}
