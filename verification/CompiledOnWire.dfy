/**
 From instructions to bytes and back: what NewTransaction compiles is carried by the wire format, and the decoded
 message still resolves to the instructions it was compiled from.

 The compiler works on keys as numbers and the format on keys as 32 bytes; here the one is written as the other.
 */
module CompiledOnWire {
  import opened Wrappers
  import opened ByteStrings
  import C = TransactionCompiler
  import M = CompilerMeaning
  import W = WireFormat
  import T = WireTheorems
  import V = Varints

  // ----- numbers as bytes, most significant first -----

  function BigEndian(n: nat, k: nat): (r: Bytes)
    ensures |r| == k
  {
    if k == 0 then [] else BigEndian(n / 256, k - 1) + [n % 256]
  }

  function NumberOf(b: Bytes): (n: nat) {
    if b == [] then 0 else 256 * NumberOf(b[..|b| - 1]) + (b[|b| - 1] as int)
  }

  lemma {:induction false} NumberOfBytes(n: nat, k: nat)
    requires n < Pow256(k)
    ensures NumberOf(BigEndian(n, k)) == n
    decreases k
  {
    if k > 0 {
      NumberOfBytes(n / 256, k - 1);
      assert BigEndian(n, k)[..k - 1] == BigEndian(n / 256, k - 1);
    }
  }

  predicate KeyFits(k: nat) {
    k < Pow256(32)
  }

  function KeyBytes(k: nat): (r: W.Key) {
    BigEndian(k, 32)
  }

  predicate AllBytes(xs: seq<nat>) {
    forall i :: 0 <= i < |xs| ==> xs[i] < 256
  }

  function AsBytes(xs: seq<nat>): (b: Bytes)
    requires AllBytes(xs)
    ensures |b| == |xs|
  {
    seq(|xs|, i requires 0 <= i < |xs| => xs[i])
  }

  function AsNats(b: Bytes): (xs: seq<nat>)
    ensures |xs| == |b|
  {
    seq(|b|, i requires 0 <= i < |b| => b[i])
  }

  predicate AllIndexes(xs: seq<nat>) {
    forall i :: 0 <= i < |xs| ==> xs[i] < 65536
  }

  function AsIndexes(xs: seq<nat>): (r: seq<W.Index>)
    requires AllIndexes(xs)
    ensures |r| == |xs|
  {
    seq(|xs|, i requires 0 <= i < |xs| => xs[i])
  }

  function FromIndexes(r: seq<W.Index>): (xs: seq<nat>)
    ensures |xs| == |r|
  {
    seq(|r|, i requires 0 <= i < |r| => r[i])
  }

  // ----- messages -----

  predicate InstructionFits(c: C.CompiledInstruction) {
    c.program < 65536 && AllIndexes(c.accounts) && AllBytes(c.data)
  }

  predicate LookupFits(l: C.Lookup) {
    KeyFits(l.table) && AllBytes(l.writable) && AllBytes(l.readonly)
  }

  /** Every number of the message fits the field that holds it. */
  predicate MessageFits(m: C.Message) {
    && KeyFits(m.blockhash) && (forall i :: 0 <= i < |m.keys| ==> KeyFits(m.keys[i]))
    && m.header.required < 256 && m.header.readonlySigned < 256 && m.header.readonlyUnsigned < 256
    && (forall i :: 0 <= i < |m.instructions| ==> InstructionFits(m.instructions[i]))
    && (forall i :: 0 <= i < |m.lookups| ==> LookupFits(m.lookups[i]))
  }

  function InstructionToWire(c: C.CompiledInstruction): (r: W.Instruction)
    requires InstructionFits(c)
  {
    W.Instruction(c.program, AsIndexes(c.accounts), AsBytes(c.data))
  }

  function LookupToWire(l: C.Lookup): (r: W.Lookup)
    requires LookupFits(l)
  {
    W.Lookup(KeyBytes(l.table), AsBytes(l.writable), AsBytes(l.readonly))
  }

  function ToWire(m: C.Message): (r: W.Message)
    requires MessageFits(m)
    ensures |r.keys| == |m.keys| && |r.instructions| == |m.instructions| && |r.lookups| == |m.lookups|
  {
    W.Message(if m.version == C.Legacy then W.Legacy else W.V0,
              W.Header(m.header.required, m.header.readonlySigned, m.header.readonlyUnsigned),
              seq(|m.keys|, i requires 0 <= i < |m.keys| => KeyBytes(m.keys[i])), KeyBytes(m.blockhash),
              seq(|m.instructions|, i requires 0 <= i < |m.instructions| => InstructionToWire(m.instructions[i])),
              seq(|m.lookups|, i requires 0 <= i < |m.lookups| => LookupToWire(m.lookups[i])))
  }

  function InstructionFromWire(c: W.Instruction): (r: C.CompiledInstruction) {
    C.CompiledInstruction(c.program, FromIndexes(c.accounts), AsNats(c.data))
  }

  function LookupFromWire(l: W.Lookup): (r: C.Lookup) {
    C.Lookup(NumberOf(l.key), AsNats(l.writable), AsNats(l.readonly))
  }

  function FromWire(w: W.Message): (r: C.Message) {
    C.Message(if w.version == W.Legacy then C.Legacy else C.V0,
              seq(|w.keys|, i requires 0 <= i < |w.keys| => NumberOf(w.keys[i])),
              C.Header(w.header.required, w.header.readonlySigned, w.header.readonlyUnsigned), NumberOf(w.blockhash),
              seq(|w.instructions|, i requires 0 <= i < |w.instructions| => InstructionFromWire(w.instructions[i])),
              seq(|w.lookups|, i requires 0 <= i < |w.lookups| => LookupFromWire(w.lookups[i])))
  }

  lemma {:induction false} InstructionBack(c: C.CompiledInstruction)
    requires InstructionFits(c)
    ensures InstructionFromWire(InstructionToWire(c)) == c
  {
    assert FromIndexes(AsIndexes(c.accounts)) == c.accounts && AsNats(AsBytes(c.data)) == c.data;
  }

  lemma {:induction false} LookupBack(l: C.Lookup)
    requires LookupFits(l)
    ensures LookupFromWire(LookupToWire(l)) == l
  {
    NumberOfBytes(l.table, 32);
    assert AsNats(AsBytes(l.writable)) == l.writable && AsNats(AsBytes(l.readonly)) == l.readonly;
  }

  /** Nothing of a message that fits is lost in its fields. */
  lemma {:induction false} WireBack(m: C.Message)
    requires MessageFits(m)
    ensures FromWire(ToWire(m)) == m
  {
    hide BigEndian, NumberOf, Pow256, InstructionToWire, LookupToWire, InstructionFromWire, LookupFromWire,
         InstructionFits, LookupFits;
    var r := FromWire(ToWire(m));
    NumberOfBytes(m.blockhash, 32);
    forall i | 0 <= i < |m.keys| ensures r.keys[i] == m.keys[i] {
      NumberOfBytes(m.keys[i], 32);
    }
    forall i | 0 <= i < |m.instructions| ensures r.instructions[i] == m.instructions[i] {
      InstructionBack(m.instructions[i]);
    }
    forall i | 0 <= i < |m.lookups| ensures r.lookups[i] == m.lookups[i] {
      LookupBack(m.lookups[i]);
    }
    assert r.keys == m.keys && r.instructions == m.instructions && r.lookups == m.lookups;
  }

  // ----- counting lookups -----

  lemma {:induction false} LookupLengths(tables: C.Tables, lookups: seq<C.Lookup>)
    requires M.Resolvable(tables, lookups) && forall i :: 0 <= i < |lookups| ==>
             |lookups[i].writable| + |lookups[i].readonly| > 0
    ensures var w, r := |M.LookupKeys(tables, lookups, true)|, |M.LookupKeys(tables, lookups, false)|;
      && |lookups| <= w + r
      && (forall i :: 0 <= i < |lookups| ==> |lookups[i].writable| <= w && |lookups[i].readonly| <= r)
    decreases |lookups|
  {
    if lookups != [] {
      var n := |lookups| - 1;
      assert M.Resolvable(tables, lookups[..n]);
      LookupLengths(tables, lookups[..n]);
      assert forall i :: 0 <= i < n ==> lookups[..n][i] == lookups[i];
    }
  }

  /** A table is listed only when something is loaded through it. */
  lemma {:induction false} NoEmptyLookup(loaded: seq<C.Loaded>)
    requires M.DistinctLoaded(loaded)
    ensures var ls := C.Lookups(loaded); forall i :: 0 <= i < |ls| ==> |ls[i].writable| + |ls[i].readonly| > 0
  {
    var ts, ls := C.UsedTables(loaded), C.Lookups(loaded);
    forall i | 0 <= i < |ls| ensures |ls[i].writable| + |ls[i].readonly| > 0 {
      assert ts[i] in ts;
      var a :| 0 <= a < |loaded| && loaded[a].table == ts[i];
      assert loaded[a] in loaded;
      M.PickMembers(loaded, ts[i], true);
      M.PickMembers(loaded, ts[i], false);
      assert loaded[a] in C.Pick(loaded, ts[i], loaded[a].writable);
    }
  }

  // ----- the whole way -----

  /** What the caller hands over fits: keys and table addresses of 32 bytes, data of bytes, lists the format can
      count. */
  ghost predicate InputsFit(instrs: seq<C.Instruction>, blockhash: nat, payer: nat, tables: C.Tables) {
    && KeyFits(blockhash) && (forall k :: M.Mentioned(instrs, payer, k) ==> KeyFits(k))
    && (forall t :: t in tables ==> KeyFits(t))
    && |instrs| <= V.MAX16
    && (forall i :: 0 <= i < |instrs| ==> InputFits(instrs[i]))
  }

  predicate InputFits(ins: C.Instruction) {
    |ins.accounts| <= V.MAX16 && (ins.data.Some? ==> |ins.data.value| <= V.MAX16 && AllBytes(ins.data.value))
  }

  /** The compiled parts, for the counting lemmas. */
  lemma {:induction false} CompiledParts(instrs: seq<C.Instruction>, blockhash: nat, option: nat, tables: C.Tables)
    requires C.Compile(instrs, blockhash, option, tables).Ok?
    ensures C.Payer(instrs, option).Some?
    ensures var msg, p := C.Compile(instrs, blockhash, option, tables).value,
            M.PlanOf(instrs, C.Payer(instrs, option).value, tables);
      && msg.blockhash == blockhash && msg.lookups == C.Lookups(p.loaded) && M.DistinctLoaded(p.loaded)
      && msg.header == C.HeaderOf(p.fixed) && (msg.version == C.Legacy ==> msg.lookups == [])
    ensures forall t :: t in tables ==> |tables[t]| <= 256
  {
    hide C.OrderedKeys, C.StaticMetas, C.LoadedAccounts, C.KeyList, C.CompileAll, C.HeaderOf;
    M.PlanDistinct(instrs, C.Payer(instrs, option).value, tables);
    var order := C.Ordered(tables.Keys);
    assert forall t :: t in tables ==> t in order;
  }

  lemma {:induction false} CompiledFits(instrs: seq<C.Instruction>, blockhash: nat, option: nat, tables: C.Tables)
    requires C.Compile(instrs, blockhash, option, tables).Ok? && C.Payer(instrs, option).Some?
    requires InputsFit(instrs, blockhash, C.Payer(instrs, option).value, tables)
    requires var msg := C.Compile(instrs, blockhash, option, tables).value;
             M.Resolvable(tables, msg.lookups) && |M.Resolve(tables, msg)| <= 256
    ensures var msg := C.Compile(instrs, blockhash, option, tables).value;
      && MessageFits(msg) && W.BodyCarried(ToWire(msg)) && W.TablesCarried(ToWire(msg).lookups)
  {
    assert instrs != [];
    hide C.Compile, M.Mentioned, M.LookupKeys, C.HeaderOf, C.Lookups, M.PlanOf, KeyFits, InstructionFits, LookupFits,
         W.Carried, InstructionToWire, M.SameInstruction, W.BodyCarried, W.TablesCarried, ToWire, InputFits;
    var msg, payer := C.Compile(instrs, blockhash, option, tables).value, C.Payer(instrs, option).value;
    var list := M.Resolve(tables, msg);
    M.MeaningPreserved(instrs, blockhash, option, tables);
    CompiledParts(instrs, blockhash, option, tables);
    HeaderBytes(M.PlanOf(instrs, payer, tables).fixed);
    NoEmptyLookup(M.PlanOf(instrs, payer, tables).loaded);
    LookupLengths(tables, msg.lookups);
    forall i | 0 <= i < |msg.keys| ensures KeyFits(msg.keys[i]) {
      assert list[i] == msg.keys[i] && list[i] in list;
    }
    forall i | 0 <= i < |msg.instructions| ensures InstructionFits(msg.instructions[i])
        && W.Carried(InstructionToWire(msg.instructions[i])) {
      InstructionCarried(list, msg.instructions[i], instrs[i]);
    }
    forall i | 0 <= i < |msg.lookups| ensures LookupFits(msg.lookups[i]) {
      LookupIndexesFit(tables, msg.lookups, i);
    }
    PartsCarried(msg);
  }

  /** Parts that fit and lists short enough make a message the format carries. */
  lemma {:induction false} PartsCarried(msg: C.Message)
    requires MessageFits(msg) && |msg.keys| <= 256 && |msg.instructions| <= V.MAX16 && |msg.lookups| <= 256
    requires forall i :: 0 <= i < |msg.instructions| ==> W.Carried(InstructionToWire(msg.instructions[i]))
    requires forall i :: 0 <= i < |msg.lookups| ==> |msg.lookups[i].writable| <= 256 && |msg.lookups[i].readonly| <= 256
    ensures W.BodyCarried(ToWire(msg)) && W.TablesCarried(ToWire(msg).lookups)
  {
    hide BigEndian, KeyFits, W.Carried, InstructionToWire, InstructionFits;
  }

  lemma {:induction false} HeaderBytes(fixed: seq<C.Meta>)
    ensures var h := C.HeaderOf(fixed); h.required < 256 && h.readonlySigned < 256 && h.readonlyUnsigned < 256
  {
  }

  lemma {:induction false} InstructionCarried(list: seq<nat>, c: C.CompiledInstruction, ins: C.Instruction)
    requires M.SameInstruction(list, c, ins) && |list| <= 256 && InputFits(ins)
    ensures InstructionFits(c) && W.Carried(InstructionToWire(c))
  {
  }

  lemma {:induction false} LookupIndexesFit(tables: C.Tables, lookups: seq<C.Lookup>, i: nat)
    requires M.Resolvable(tables, lookups) && i < |lookups|
             && (forall t :: t in tables ==> |tables[t]| <= 256 && KeyFits(t))
    ensures LookupFits(lookups[i])
  {
    hide Pow256;
    var l := lookups[i];
    forall j | 0 <= j < |l.writable| ensures l.writable[j] < 256 {
      assert l.writable[j] in l.writable;
    }
    forall j | 0 <= j < |l.readonly| ensures l.readonly[j] < 256 {
      assert l.readonly[j] in l.readonly;
    }
  }

  /** Every instruction of the message names, in the keys the message resolves to, what it was given. */
  ghost predicate SameProgram(instrs: seq<C.Instruction>, tables: C.Tables, msg: C.Message) {
    && M.Resolvable(tables, msg.lookups) && |msg.instructions| == |instrs|
    && forall i :: 0 <= i < |instrs| ==>
         M.SameInstruction(M.Resolve(tables, msg), msg.instructions[i], instrs[i])
  }

  /** Compiled, written, read back in front of any bytes and resolved: with at most 256 keys in all, every instruction
      names the keys and carries the data it was given. A legacy message must ask for fewer than 128 signatures. */
  lemma {:induction false} CompiledSurvivesWire(instrs: seq<C.Instruction>, blockhash: nat, option: nat,
                                                tables: C.Tables, tail: Bytes)
    requires C.Compile(instrs, blockhash, option, tables).Ok? && C.Payer(instrs, option).Some?
    requires InputsFit(instrs, blockhash, C.Payer(instrs, option).value, tables)
    requires var msg := C.Compile(instrs, blockhash, option, tables).value;
             M.Resolvable(tables, msg.lookups) && |M.Resolve(tables, msg)| <= 256
    ensures var msg := C.Compile(instrs, blockhash, option, tables).value;
      && MessageFits(msg)
      && var read := W.ParseMessage(T.EncodeMessage(ToWire(msg)) + tail);
      && (read == W.Parsed(ToWire(msg), tail) <==> (msg.version == C.Legacy ==> msg.header.required < 128))
      && (read == W.Parsed(ToWire(msg), tail) ==>
            FromWire(read.value) == msg && SameProgram(instrs, tables, FromWire(read.value)))
  {
    hide C.Compile, C.Payer, M.Resolve, W.ParseMessage, T.EncodeMessage, W.BodyCarried, W.TablesCarried, FromWire,
         InputsFit, M.Resolvable, M.SameInstruction;
    var msg := C.Compile(instrs, blockhash, option, tables).value;
    CompiledFits(instrs, blockhash, option, tables);
    CompiledParts(instrs, blockhash, option, tables);
    M.MeaningPreserved(instrs, blockhash, option, tables);
    WireBack(msg);
    T.MessageRoundTrip(ToWire(msg), tail);
  }
}
