/**
 The wire format of legacy and versioned messages and of transactions (message.go, transaction.go) as a printer and
 a parser, and that they are inverse to each other.

 A printer puts the bytes of a value in front of the bytes that follow it, so that parsing goes with printing piece
 by piece. WireLoops holds the source's loops, proved to compute these functions.
 */
module WireFormat {
  import opened Wrappers
  import opened ByteStrings
  import opened Varints

  type Index = x: int | 0 <= x < 65536

  /** 32 bytes: a public key or a hash. */
  type Key = k: Bytes | |k| == 32 witness seq(32, _ => 0)

  /** 64 bytes. */
  type Signature = s: Bytes | |s| == 64 witness seq(64, _ => 0)

  datatype Header = Header(required: Byte, readonlySigned: Byte, readonlyUnsigned: Byte)

  datatype Instruction = Instruction(program: Index, accounts: seq<Index>, data: Bytes)

  datatype Lookup = Lookup(key: Key, writable: Bytes, readonly: Bytes)

  datatype Version = Legacy | V0

  datatype Message = Message(version: Version, header: Header, keys: seq<Key>, blockhash: Key,
                             instructions: seq<Instruction>, lookups: seq<Lookup>)

  datatype Transaction = Transaction(signatures: seq<Signature>, message: Message)

  /** A value and the bytes behind it, or nothing when the bytes are malformed. */
  datatype Parsed<+T> = Parsed(value: T, rest: Bytes) | Malformed

  // ----- lengths -----

  function PutLen(n: nat, tail: Bytes): (r: Bytes) {
    Encode(n) + tail
  }

  function ParseLen(data: Bytes): (r: Parsed<nat>)
    ensures r.Parsed? ==> |r.rest| < |data|
  {
    match Decode16(data)
    case Ok((n, k)) => if k <= |data| then Parsed(n, data[k..]) else Malformed
    case Err(_) => Malformed
  }

  lemma {:induction false} LenParses(n: nat, tail: Bytes)
    requires n <= MAX16
    ensures ParseLen(PutLen(n, tail)) == Parsed(n, tail)
  {
    var data := PutLen(n, tail);
    assert data[..|Encode(n)|] == Encode(n);
    Decode16Exact(data, n, |Encode(n)|);
  }

  lemma {:induction false} LenPrinted(data: Bytes)
    ensures var r := ParseLen(data); r.Parsed? ==> r.value <= MAX16 && data == PutLen(r.value, r.rest)
  {
    match Decode16(data)
    case Ok((n, k)) => Decode16Exact(data, n, k);
    case Err(_) =>
  }

  // ----- byte strings with their length in front -----

  function PutString(b: Bytes, tail: Bytes): (r: Bytes) {
    PutLen(|b|, b + tail)
  }

  function ParseString(data: Bytes): (r: Parsed<Bytes>)
    ensures r.Parsed? ==> |r.rest| < |data|
  {
    match ParseLen(data)
    case Malformed => Malformed
    case Parsed(n, rest) => if n > |rest| then Malformed else Parsed(rest[..n], rest[n..])
  }

  lemma {:induction false} StringParses(b: Bytes, tail: Bytes)
    requires |b| <= MAX16
    ensures ParseString(PutString(b, tail)) == Parsed(b, tail)
  {
    LenParses(|b|, b + tail);
  }

  lemma {:induction false} StringPrinted(data: Bytes)
    ensures var r := ParseString(data); r.Parsed? ==> |r.value| <= MAX16 && data == PutString(r.value, r.rest)
  {
    LenPrinted(data);
    match ParseLen(data)
    case Malformed =>
    case Parsed(n, rest) => if n <= |rest| { assert rest == rest[..n] + rest[n..]; }
  }

  // ----- fixed-size items -----

  function PutAll(items: seq<Bytes>, tail: Bytes): (r: Bytes) {
    if items == [] then tail else items[0] + PutAll(items[1..], tail)
  }

  /** The first n blocks of w bytes. */
  function Blocks(data: Bytes, n: nat, w: nat): (r: seq<Bytes>)
    requires n * w <= |data|
    ensures |r| == n && forall i :: 0 <= i < n ==> |r[i]| == w
  {
    if n == 0 then [] else FirstBlock(n, w); [data[..w]] + Blocks(data[w..], n - 1, w)
  }

  lemma {:induction false} FirstBlock(n: nat, w: nat)
    requires n > 0
    ensures w <= n * w && n * w == (n - 1) * w + w
  {
  }

  /** As many blocks as a claimed count says, unless it claims more than the data can hold. */
  function ParseBlocks(data: Bytes, n: nat, w: nat): (r: Parsed<seq<Bytes>>)
    requires w > 0
    ensures r.Parsed? ==> |r.value| == n && |r.rest| <= |data| && forall i :: 0 <= i < n ==> |r.value[i]| == w
  {
    if n > |data| / w then Malformed else Fits(n, w, |data|); Parsed(Blocks(data, n, w), data[n * w..])
  }

  lemma {:induction false} Fits(n: nat, w: nat, size: nat)
    requires w > 0
    ensures n <= size / w <==> n * w <= size
  {
    if n <= size / w {
      assert n * w <= (size / w) * w;
    } else {
      assert n * w >= (size / w + 1) * w;
    }
  }

  lemma {:induction false} AllSize(items: seq<Bytes>, w: nat, tail: Bytes)
    requires forall i :: 0 <= i < |items| ==> |items[i]| == w
    ensures |PutAll(items, tail)| == |items| * w + |tail|
    decreases |items|
  {
    if items != [] {
      AllSize(items[1..], w, tail);
      FirstBlock(|items|, w);
    }
  }

  lemma {:induction false} BlocksOfAll(items: seq<Bytes>, w: nat, tail: Bytes)
    requires forall i :: 0 <= i < |items| ==> |items[i]| == w
    requires |PutAll(items, tail)| == |items| * w + |tail|
    ensures Blocks(PutAll(items, tail), |items|, w) == items
    ensures PutAll(items, tail)[|items| * w..] == tail
    decreases |items|
  {
    var n := |items|;
    if n > 0 {
      var data, rest := PutAll(items, tail), PutAll(items[1..], tail);
      FirstBlock(n, w);
      assert data[..w] == items[0] && data[w..] == rest;
      BlocksOfAll(items[1..], w, tail);
      assert data[n * w..] == rest[(n - 1) * w..];
    }
  }

  lemma {:induction false} BlocksParse(items: seq<Bytes>, w: nat, tail: Bytes)
    requires w > 0 && forall i :: 0 <= i < |items| ==> |items[i]| == w
    ensures ParseBlocks(PutAll(items, tail), |items|, w) == Parsed(items, tail)
  {
    AllSize(items, w, tail);
    Fits(|items|, w, |PutAll(items, tail)|);
    BlocksOfAll(items, w, tail);
  }

  lemma {:induction false} BlocksPrinted(data: Bytes, n: nat, w: nat)
    requires w > 0
    ensures var r := ParseBlocks(data, n, w); r.Parsed? ==> data == PutAll(r.value, r.rest)
    decreases n
  {
    if n > 0 && n <= |data| / w {
      Fits(n, w, |data|);
      FirstBlock(n, w);
      Fits(n - 1, w, |data| - w);
      BlocksPrinted(data[w..], n - 1, w);
      assert data[w..][(n - 1) * w..] == data[n * w..];
      assert data == data[..w] + data[w..];
    }
  }

  // ----- instructions -----

  function Lows(xs: seq<Index>): (r: Bytes)
    ensures |r| == |xs|
  {
    seq(|xs|, i requires 0 <= i < |xs| => xs[i] % 256)
  }

  function Widened(b: Bytes): (r: seq<Index>)
    ensures |r| == |b|
  {
    seq(|b|, i requires 0 <= i < |b| => b[i])
  }

  /** Everything about an instruction that the format can carry. */
  predicate Carried(ins: Instruction) {
    && ins.program < 256 && |ins.accounts| <= MAX16 && |ins.data| <= MAX16
    && forall i :: 0 <= i < |ins.accounts| ==> ins.accounts[i] < 256
  }

  function PutInstruction(ins: Instruction, tail: Bytes): (r: Bytes) {
    [ins.program % 256] + PutString(Lows(ins.accounts), PutString(ins.data, tail))
  }

  function ParseInstruction(data: Bytes): (r: Parsed<Instruction>)
    ensures r.Parsed? ==> |r.rest| < |data|
  {
    if data == [] then Malformed
    else
      match ParseString(data[1..])
      case Malformed => Malformed
      case Parsed(accounts, rest) =>
        match ParseString(rest)
        case Malformed => Malformed
        case Parsed(payload, rest') => Parsed(Instruction(data[0], Widened(accounts), payload), rest')
  }

  lemma {:induction false} WidenedLows(xs: seq<Index>)
    ensures (forall i :: 0 <= i < |xs| ==> xs[i] < 256) ==> Widened(Lows(xs)) == xs
  {
  }

  lemma {:induction false} LowsWidened(b: Bytes)
    ensures Lows(Widened(b)) == b && forall i :: 0 <= i < |b| ==> Widened(b)[i] < 256
  {
  }

  lemma {:induction false} InstructionParses(ins: Instruction, tail: Bytes)
    requires Carried(ins)
    ensures ParseInstruction(PutInstruction(ins, tail)) == Parsed(ins, tail)
  {
    hide PutString, ParseString, Lows, Widened;
    var rest := PutString(ins.data, tail);
    StringParses(Lows(ins.accounts), rest);
    StringParses(ins.data, tail);
    assert PutInstruction(ins, tail)[1..] == PutString(Lows(ins.accounts), rest);
    WidenedLows(ins.accounts);
  }

  lemma {:induction false} InstructionPrinted(data: Bytes)
    ensures var r := ParseInstruction(data); r.Parsed? ==> Carried(r.value) && data == PutInstruction(r.value, r.rest)
  {
    hide PutString, ParseString, Lows, Widened;
    if data != [] {
      StringPrinted(data[1..]);
      match ParseString(data[1..])
      case Malformed =>
      case Parsed(accounts, rest) =>
        StringPrinted(rest);
        LowsWidened(accounts);
        assert data == [data[0]] + data[1..];
    }
  }

  function PutInstructions(list: seq<Instruction>, tail: Bytes): (r: Bytes) {
    if list == [] then tail else PutInstruction(list[0], PutInstructions(list[1..], tail))
  }

  function ParseInstructions(data: Bytes, n: nat): (r: Parsed<seq<Instruction>>)
    ensures r.Parsed? ==> |r.value| == n
    decreases n
  {
    if n == 0 then Parsed([], data)
    else
      match ParseInstruction(data)
      case Malformed => Malformed
      case Parsed(first, rest) =>
        match ParseInstructions(rest, n - 1)
        case Malformed => Malformed
        case Parsed(others, rest') => Parsed([first] + others, rest')
  }

  lemma {:induction false} InstructionsParse(list: seq<Instruction>, tail: Bytes)
    requires forall i :: 0 <= i < |list| ==> Carried(list[i])
    ensures ParseInstructions(PutInstructions(list, tail), |list|) == Parsed(list, tail)
    decreases |list|
  {
    hide PutInstruction, ParseInstruction, Carried;
    if list != [] {
      var first, others := list[0], list[1..];
      var rest := PutInstructions(others, tail);
      assert forall i :: 0 <= i < |others| ==> others[i] == list[i + 1];
      InstructionsParse(others, tail);
      InstructionParses(first, rest);
      assert PutInstructions(list, tail) == PutInstruction(first, rest);
      assert [first] + others == list;
    }
  }

  /** An instruction takes at least a byte, so the count can be checked against what is left. */
  lemma {:induction false} InstructionsSize(list: seq<Instruction>, tail: Bytes)
    ensures |PutInstructions(list, tail)| >= |list| + |tail|
    decreases |list|
  {
    if list != [] {
      InstructionsSize(list[1..], tail);
    }
  }

  lemma {:induction false} InstructionsCons(first: Instruction, others: seq<Instruction>, tail: Bytes)
    ensures PutInstructions([first] + others, tail) == PutInstruction(first, PutInstructions(others, tail))
  {
    hide PutInstruction;
    assert ([first] + others)[1..] == others;
  }

  lemma {:induction false} InstructionsPrinted(data: Bytes, n: nat)
    ensures var r := ParseInstructions(data, n);
      r.Parsed? ==> (forall i :: 0 <= i < n ==> Carried(r.value[i])) && data == PutInstructions(r.value, r.rest)
    decreases n
  {
    hide PutInstruction, ParseInstruction, Carried, PutInstructions;
    if n == 0 {
      NoInstructions(data);
    } else {
      InstructionPrinted(data);
      var first := ParseInstruction(data);
      if first.Parsed? {
        InstructionsPrinted(first.rest, n - 1);
        var others := ParseInstructions(first.rest, n - 1);
        if others.Parsed? {
          InstructionsCons(first.value, others.value, others.rest);
        }
      }
    }
  }

  lemma {:induction false} NoInstructions(tail: Bytes)
    ensures PutInstructions([], tail) == tail
  {
  }

  // ----- lookups -----

  predicate LookupCarried(l: Lookup) {
    |l.writable| <= MAX16 && |l.readonly| <= MAX16
  }

  function PutLookup(l: Lookup, tail: Bytes): (r: Bytes) {
    l.key + PutString(l.writable, PutString(l.readonly, tail))
  }

  function ParseLookup(data: Bytes): (r: Parsed<Lookup>)
    ensures r.Parsed? ==> |r.rest| < |data|
  {
    if |data| < 32 then Malformed
    else
      match ParseString(data[32..])
      case Malformed => Malformed
      case Parsed(writable, rest) =>
        match ParseString(rest)
        case Malformed => Malformed
        case Parsed(readonly, rest') => Parsed(Lookup(data[..32], writable, readonly), rest')
  }

  lemma {:induction false} LookupParses(l: Lookup, tail: Bytes)
    requires LookupCarried(l)
    ensures ParseLookup(PutLookup(l, tail)) == Parsed(l, tail)
    ensures |PutLookup(l, tail)| >= 34 + |tail|
  {
    var rest := PutString(l.readonly, tail);
    StringParses(l.writable, rest);
    StringParses(l.readonly, tail);
    assert PutLookup(l, tail)[32..] == PutString(l.writable, rest);
    assert PutLookup(l, tail)[..32] == l.key;
  }

  lemma {:induction false} LookupPrinted(data: Bytes)
    ensures var r := ParseLookup(data); r.Parsed? ==> LookupCarried(r.value) && data == PutLookup(r.value, r.rest)
  {
    if |data| >= 32 {
      StringPrinted(data[32..]);
      match ParseString(data[32..])
      case Malformed =>
      case Parsed(writable, rest) =>
        StringPrinted(rest);
        assert data == data[..32] + data[32..];
    }
  }

  function PutLookups(list: seq<Lookup>, tail: Bytes): (r: Bytes) {
    if list == [] then tail else PutLookup(list[0], PutLookups(list[1..], tail))
  }

  function ParseLookups(data: Bytes, n: nat): (r: Parsed<seq<Lookup>>)
    ensures r.Parsed? ==> |r.value| == n
    decreases n
  {
    if n == 0 then Parsed([], data)
    else
      match ParseLookup(data)
      case Malformed => Malformed
      case Parsed(first, rest) =>
        match ParseLookups(rest, n - 1)
        case Malformed => Malformed
        case Parsed(others, rest') => Parsed([first] + others, rest')
  }

  lemma {:induction false} LookupsParse(list: seq<Lookup>, tail: Bytes)
    requires forall i :: 0 <= i < |list| ==> LookupCarried(list[i])
    ensures ParseLookups(PutLookups(list, tail), |list|) == Parsed(list, tail)
    decreases |list|
  {
    hide PutLookup, ParseLookup, LookupCarried;
    if list != [] {
      var first, others := list[0], list[1..];
      var rest := PutLookups(others, tail);
      assert forall i :: 0 <= i < |others| ==> others[i] == list[i + 1];
      LookupsParse(others, tail);
      LookupParses(first, rest);
      assert PutLookups(list, tail) == PutLookup(first, rest);
      assert [first] + others == list;
    }
  }

  /** A lookup takes at least 34 bytes, so the count can be checked against what is left. */
  lemma {:induction false} LookupsSize(list: seq<Lookup>, tail: Bytes)
    requires forall i :: 0 <= i < |list| ==> LookupCarried(list[i])
    ensures |PutLookups(list, tail)| >= 34 * |list| + |tail|
    decreases |list|
  {
    hide PutLookup, LookupCarried;
    if list != [] {
      LookupsSize(list[1..], tail);
      LookupParses(list[0], PutLookups(list[1..], tail));
    }
  }

  lemma {:induction false} LookupsCons(first: Lookup, others: seq<Lookup>, tail: Bytes)
    ensures PutLookups([first] + others, tail) == PutLookup(first, PutLookups(others, tail))
  {
    hide PutLookup;
    assert ([first] + others)[1..] == others;
  }

  lemma {:induction false} LookupsPrinted(data: Bytes, n: nat)
    ensures var r := ParseLookups(data, n);
      r.Parsed? ==> (forall i :: 0 <= i < n ==> LookupCarried(r.value[i])) && data == PutLookups(r.value, r.rest)
    decreases n
  {
    hide PutLookup, ParseLookup, LookupCarried, PutLookups;
    if n == 0 {
      NoLookups(data);
    } else {
      LookupPrinted(data);
      var first := ParseLookup(data);
      if first.Parsed? {
        LookupsPrinted(first.rest, n - 1);
        var others := ParseLookups(first.rest, n - 1);
        if others.Parsed? {
          LookupsCons(first.value, others.value, others.rest);
        }
      }
    }
  }

  lemma {:induction false} NoLookups(tail: Bytes)
    ensures PutLookups([], tail) == tail
  {
  }

  // ----- counted lists -----

  function PutCounted(items: seq<Bytes>, tail: Bytes): (r: Bytes) {
    PutLen(|items|, PutAll(items, tail))
  }

  /** A count and that many blocks of w bytes. */
  function ParseCounted(data: Bytes, w: nat): (r: Parsed<seq<Bytes>>)
    requires w > 0
    ensures r.Parsed? ==> |r.rest| <= |data| && forall i :: 0 <= i < |r.value| ==> |r.value[i]| == w
  {
    match ParseLen(data)
    case Malformed => Malformed
    case Parsed(n, rest) => ParseBlocks(rest, n, w)
  }

  lemma {:induction false} CountedParses(items: seq<Bytes>, w: nat, tail: Bytes)
    requires w > 0 && |items| <= MAX16 && forall i :: 0 <= i < |items| ==> |items[i]| == w
    ensures ParseCounted(PutCounted(items, tail), w) == Parsed(items, tail)
  {
    hide PutLen, ParseLen, ParseBlocks;
    LenParses(|items|, PutAll(items, tail));
    BlocksParse(items, w, tail);
  }

  lemma {:induction false} CountedPrinted(data: Bytes, w: nat)
    requires w > 0
    ensures var r := ParseCounted(data, w); r.Parsed? ==> |r.value| <= MAX16 && data == PutCounted(r.value, r.rest)
  {
    hide PutLen, ParseLen, ParseBlocks;
    LenPrinted(data);
    match ParseLen(data)
    case Malformed =>
    case Parsed(n, rest) => BlocksPrinted(rest, n, w); BlocksCount(rest, n, w);
  }

  lemma {:induction false} BlocksCount(data: Bytes, n: nat, w: nat)
    requires w > 0
    ensures var r := ParseBlocks(data, n, w); r.Parsed? ==> |r.value| == n
  {
  }

  function PutProgram(list: seq<Instruction>, tail: Bytes): (r: Bytes) {
    PutLen(|list|, PutInstructions(list, tail))
  }

  function ParseProgram(data: Bytes): (r: Parsed<seq<Instruction>>) {
    match ParseLen(data)
    case Malformed => Malformed
    case Parsed(n, rest) => if n > |rest| then Malformed else ParseInstructions(rest, n)
  }

  predicate ProgramCarried(list: seq<Instruction>) {
    |list| <= MAX16 && forall i :: 0 <= i < |list| ==> Carried(list[i])
  }

  lemma {:induction false} ProgramParses(list: seq<Instruction>, tail: Bytes)
    requires ProgramCarried(list)
    ensures ParseProgram(PutProgram(list, tail)) == Parsed(list, tail)
  {
    hide PutLen, ParseLen, Carried, ParseInstructions, PutInstructions;
    LenParses(|list|, PutInstructions(list, tail));
    InstructionsSize(list, tail);
    InstructionsParse(list, tail);
  }

  lemma {:induction false} ProgramPrinted(data: Bytes)
    ensures var r := ParseProgram(data); r.Parsed? ==> ProgramCarried(r.value) && data == PutProgram(r.value, r.rest)
  {
    hide PutLen, ParseLen, Carried, ParseInstructions, PutInstructions;
    LenPrinted(data);
    match ParseLen(data)
    case Malformed =>
    case Parsed(n, rest) => InstructionsPrinted(rest, n);
  }

  function PutTables(list: seq<Lookup>, tail: Bytes): (r: Bytes) {
    PutLen(|list|, PutLookups(list, tail))
  }

  function ParseTables(data: Bytes): (r: Parsed<seq<Lookup>>) {
    match ParseLen(data)
    case Malformed => Malformed
    case Parsed(n, rest) =>
      if n == 0 then Parsed([], rest) else if n > |rest| / 34 then Malformed else ParseLookups(rest, n)
  }

  predicate TablesCarried(list: seq<Lookup>) {
    |list| <= MAX16 && forall i :: 0 <= i < |list| ==> LookupCarried(list[i])
  }

  lemma {:induction false} TablesParse(list: seq<Lookup>, tail: Bytes)
    requires TablesCarried(list)
    ensures ParseTables(PutTables(list, tail)) == Parsed(list, tail)
  {
    hide PutLen, ParseLen, LookupCarried, ParseLookups;
    LenParses(|list|, PutLookups(list, tail));
    LookupsParse(list, tail);
    LookupsSize(list, tail);
  }

  lemma {:induction false} TablesPrinted(data: Bytes)
    ensures var r := ParseTables(data); r.Parsed? ==> TablesCarried(r.value) && data == PutTables(r.value, r.rest)
  {
    hide PutLen, ParseLen, LookupCarried, ParseLookups;
    LenPrinted(data);
    match ParseLen(data)
    case Malformed =>
    case Parsed(n, rest) => LookupsPrinted(rest, n);
  }

  // ----- messages -----

  function PutBody(m: Message, tail: Bytes): (r: Bytes) {
    [m.header.required, m.header.readonlySigned, m.header.readonlyUnsigned]
    + PutCounted(m.keys, m.blockhash + PutProgram(m.instructions, tail))
  }

  /** The version-independent part. */
  function ParseBody(data: Bytes, version: Version): (r: Parsed<Message>) {
    if |data| < 3 then Malformed
    else
      match ParseCounted(data[3..], 32)
      case Malformed => Malformed
      case Parsed(keys, rest) =>
        if |rest| < 32 then Malformed
        else
          match ParseProgram(rest[32..])
          case Malformed => Malformed
          case Parsed(instructions, rest') =>
            Parsed(Message(version, Header(data[0], data[1], data[2]), keys, rest[..32], instructions, []), rest')
  }

  predicate BodyCarried(m: Message) {
    |m.keys| <= MAX16 && ProgramCarried(m.instructions)
  }

  lemma {:induction false} BodyParses(m: Message, tail: Bytes)
    requires BodyCarried(m)
    ensures ParseBody(PutBody(m, tail), m.version) == Parsed(m.(lookups := []), tail)
  {
    hide PutCounted, ParseCounted, PutProgram, ParseProgram, ProgramCarried;
    var program := PutProgram(m.instructions, tail);
    var data := PutBody(m, tail);
    CountedParses(m.keys, 32, m.blockhash + program);
    ProgramParses(m.instructions, tail);
    assert data[3..] == PutCounted(m.keys, m.blockhash + program);
    assert (m.blockhash + program)[..32] == m.blockhash && (m.blockhash + program)[32..] == program;
  }

  lemma {:induction false} BodyPrinted(data: Bytes, version: Version)
    ensures var r := ParseBody(data, version);
      r.Parsed? ==> BodyCarried(r.value) && r.value.version == version && r.value.lookups == []
                    && data == PutBody(r.value, r.rest)
  {
    hide PutCounted, ParseCounted, PutProgram, ParseProgram, ProgramCarried;
    if |data| >= 3 {
      CountedPrinted(data[3..], 32);
      match ParseCounted(data[3..], 32)
      case Malformed =>
      case Parsed(keys, rest) =>
        if |rest| >= 32 {
          ProgramPrinted(rest[32..]);
          assert rest == rest[..32] + rest[32..];
          assert data == [data[0], data[1], data[2]] + data[3..];
        }
    }
  }

  /** The bytes of a message in front of `tail`. */
  function PutMessage(m: Message, tail: Bytes): (r: Bytes) {
    match m.version
    case Legacy => PutBody(m, tail)
    case V0 => [128] + PutBody(m, PutTables(m.lookups, tail))
  }

  function ParseMessage(data: Bytes): (r: Parsed<Message>) {
    if data == [] then Malformed
    else if data[0] >= 128 then
      if data[0] % 128 != 0 then Malformed
      else
        match ParseBody(data[1..], V0)
        case Malformed => Malformed
        case Parsed(m, rest) =>
          match ParseTables(rest)
          case Malformed => Malformed
          case Parsed(lookups, rest') => Parsed(m.(lookups := lookups), rest')
    else ParseBody(data, Legacy)
  }

  /** Exactly what the format can carry: counts within 16 bits, indexes within a byte; and for a legacy message no
      lookups and a first byte that does not read as a version. */
  predicate MessageCarried(m: Message) {
    && BodyCarried(m)
    && (m.version == V0 ==> TablesCarried(m.lookups))
    && (m.version == Legacy ==> m.lookups == [] && m.header.required < 128)
  }

  lemma {:induction false} MessageParses(m: Message, tail: Bytes)
    requires MessageCarried(m)
    ensures ParseMessage(PutMessage(m, tail)) == Parsed(m, tail)
  {
    hide ParseBody, PutTables, ParseTables, BodyCarried, TablesCarried, PutCounted, PutProgram;
    var data := PutMessage(m, tail);
    if m.version == V0 {
      var rest := PutTables(m.lookups, tail);
      BodyParses(m, rest);
      TablesParse(m.lookups, tail);
      assert data[1..] == PutBody(m, rest);
    } else {
      BodyParses(m, tail);
      assert data[0] == m.header.required;
    }
  }

  lemma {:induction false} MessagePrinted(data: Bytes)
    ensures var r := ParseMessage(data); r.Parsed? ==> MessageCarried(r.value) && data == PutMessage(r.value, r.rest)
  {
    hide ParseBody, PutTables, ParseTables, BodyCarried, TablesCarried, PutCounted, PutProgram;
    if data != [] && data[0] == 128 {
      BodyPrinted(data[1..], V0);
      match ParseBody(data[1..], V0)
      case Malformed =>
      case Parsed(m, rest) =>
        TablesPrinted(rest);
        CarriedWithLookups(m, ParseTables(rest));
        assert data == [data[0]] + data[1..];
    } else if data != [] && data[0] < 128 {
      BodyPrinted(data, Legacy);
    }
  }

  lemma {:induction false} CarriedWithLookups(m: Message, tables: Parsed<seq<Lookup>>)
    requires BodyCarried(m)
    ensures tables.Parsed? ==> BodyCarried(m.(lookups := tables.value))
  {
  }

  // ----- transactions -----

  /** The bytes of a transaction in front of `tail`: missing signatures are written as zeros. */
  function PutTransaction(tx: Transaction, tail: Bytes): (r: Bytes) {
    PutCounted(Padded(tx), PutMessage(tx.message, tail))
  }

  function Zero(): (s: Signature) {
    seq(64, _ => 0)
  }

  function Padded(tx: Transaction): (r: seq<Signature>)
    ensures |r| >= |tx.signatures| && |r| >= tx.message.header.required && tx.signatures <= r
  {
    var missing := tx.message.header.required - |tx.signatures|;
    if missing > 0 then tx.signatures + seq(missing, _ => Zero()) else tx.signatures
  }

  function ParseTransaction(data: Bytes): (r: Parsed<Transaction>) {
    match ParseCounted(data, 64)
    case Malformed => Malformed
    case Parsed(signatures, rest) =>
      match ParseMessage(rest)
      case Malformed => Malformed
      case Parsed(m, rest') => Parsed(Transaction(signatures, m), rest')
  }

  predicate TransactionCarried(tx: Transaction) {
    |tx.signatures| <= MAX16 && MessageCarried(tx.message)
  }

  /** A transaction in front of any bytes comes back with its signatures padded, and the bytes behind it untouched. */
  lemma {:induction false} TransactionParses(tx: Transaction, tail: Bytes)
    requires TransactionCarried(tx)
    ensures ParseTransaction(PutTransaction(tx, tail)) == Parsed(tx.(signatures := Padded(tx)), tail)
  {
    hide PutCounted, ParseCounted, ParseMessage, PutMessage, MessageCarried;
    CountedParses(Padded(tx), 64, PutMessage(tx.message, tail));
    MessageParses(tx.message, tail);
  }

  lemma {:induction false} TransactionPrinted(data: Bytes)
    ensures var r := ParseTransaction(data);
      r.Parsed? ==> TransactionCarried(r.value)
                    && data == PutCounted(r.value.signatures, PutMessage(r.value.message, r.rest))
  {
    hide PutCounted, ParseCounted, ParseMessage, PutMessage, MessageCarried;
    CountedPrinted(data, 64);
    match ParseCounted(data, 64)
    case Malformed =>
    case Parsed(signatures, rest) => MessagePrinted(rest);
  }
}
