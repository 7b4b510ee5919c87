/**
 Version 1 transactions (transaction_v1.go, SIMD-0385): the wire format with its config mask, its instruction headers
 split from their payloads and its trailing signatures. UnmarshalBinary accepts exactly what MarshalBinary produces,
 and each undoes the other.
 */
module TransactionV1 {
  import opened Wrappers
  import opened ByteStrings
  import opened Words
  import opened WireFormat

  const VERSION: Byte := 129
  const MAX_SIZE := 4096
  const MAX_SIGNATURES := 12
  const MAX_ADDRESSES := 64
  const MAX_INSTRUCTIONS := 64
  const HEAP_MIN := 32 * 1024
  const HEAP_MAX := 256 * 1024
  const HEAP_UNIT := 1024

  datatype Config = Config(fee: Option<U64>, units: Option<U32>, dataSize: Option<U32>, heap: Option<U32>)

  datatype Tx = Tx(header: Header, config: Config, lifetime: Key, keys: seq<Key>, instructions: seq<Instruction>,
                   signatures: seq<Signature>)

  // ----- the config -----

  /** Two bits for the fee, one for each other field. */
  function Mask(c: Config): (m: nat)
    ensures m < 32
  {
    (if c.fee.Some? then 3 else 0) + (if c.units.Some? then 4 else 0)
    + (if c.dataSize.Some? then 8 else 0) + (if c.heap.Some? then 16 else 0)
  }

  predicate Bit(mask: nat, weight: nat)
    requires weight > 0
  {
    mask / weight % 2 == 1
  }

  /** No unknown bits, and the two fee bits together. */
  predicate KnownMask(mask: nat) {
    mask < 32 && (Bit(mask, 1) <==> Bit(mask, 2))
  }

  function PutValue(v: Option<nat>, k: nat, tail: Bytes): (r: Bytes) {
    if v.None? then tail else PutLE(v.value, k, tail)
  }

  function ParseValue(present: bool, k: nat, data: Bytes): (r: Parsed<Option<nat>>)
    ensures r.Parsed? ==> r.value.Some? == present && (present ==> r.value.value < Pow256(k))
  {
    if !present then Parsed(None, data)
    else if |data| < k then Malformed
    else Parsed(Some(ReadLE(data, k)), data[k..])
  }

  lemma {:induction false} ValueParses(v: Option<nat>, k: nat, tail: Bytes)
    requires v.Some? ==> v.value < Pow256(k)
    ensures ParseValue(v.Some?, k, PutValue(v, k, tail)) == Parsed(v, tail)
  {
    if v.Some? {
      ReadPut(v.value, k, tail);
    }
  }

  lemma {:induction false} ValuePrinted(present: bool, k: nat, data: Bytes)
    ensures var r := ParseValue(present, k, data); r.Parsed? ==> data == PutValue(r.value, k, r.rest)
  {
    if present && |data| >= k {
      PutRead(data, k);
    }
  }

  /** The values of the set fields, in the order of their bits. */
  function PutValues(c: Config, tail: Bytes): (r: Bytes) {
    PutValue(c.fee, 8, PutValue(c.units, 4, PutValue(c.dataSize, 4, PutValue(c.heap, 4, tail))))
  }

  function ParseValues(mask: nat, data: Bytes): (r: Parsed<Config>) {
    Widths();
    match ParseValue(Bit(mask, 1), 8, data)
    case Malformed => Malformed
    case Parsed(fee, rest) =>
      match ParseValue(Bit(mask, 4), 4, rest)
      case Malformed => Malformed
      case Parsed(units, rest) =>
        match ParseValue(Bit(mask, 8), 4, rest)
        case Malformed => Malformed
        case Parsed(dataSize, rest) =>
          match ParseValue(Bit(mask, 16), 4, rest)
          case Malformed => Malformed
          case Parsed(heap, rest) => Parsed(Config(fee, units, dataSize, heap), rest)
  }

  lemma {:induction false} MaskBits(c: Config)
    ensures KnownMask(Mask(c))
    ensures Bit(Mask(c), 1) == c.fee.Some? && Bit(Mask(c), 4) == c.units.Some?
    ensures Bit(Mask(c), 8) == c.dataSize.Some? && Bit(Mask(c), 16) == c.heap.Some?
  {
  }

  lemma {:induction false} BitsMask(mask: nat, c: Config)
    requires KnownMask(mask)
    requires c.fee.Some? == Bit(mask, 1) && c.units.Some? == Bit(mask, 4)
    requires c.dataSize.Some? == Bit(mask, 8) && c.heap.Some? == Bit(mask, 16)
    ensures Mask(c) == mask
  {
  }

  lemma {:induction false} ValuesParse(c: Config, tail: Bytes)
    ensures ParseValues(Mask(c), PutValues(c, tail)) == Parsed(c, tail)
  {
    hide Bit, Mask, ParseValue, PutValue;
    Widths();
    MaskBits(c);
    var heap := PutValue(c.heap, 4, tail);
    var dataSize := PutValue(c.dataSize, 4, heap);
    ValueParses(c.heap, 4, tail);
    ValueParses(c.dataSize, 4, heap);
    ValueParses(c.units, 4, dataSize);
    ValueParses(c.fee, 8, PutValue(c.units, 4, dataSize));
  }

  lemma {:induction false} ValuesPrinted(mask: nat, data: Bytes)
    requires KnownMask(mask)
    ensures var r := ParseValues(mask, data); r.Parsed? ==> Mask(r.value) == mask && data == PutValues(r.value, r.rest)
  {
    hide Bit, Mask, ParseValue, PutValue, KnownMask;
    var fee := ParseValue(Bit(mask, 1), 8, data);
    ValuePrinted(Bit(mask, 1), 8, data);
    if fee.Parsed? {
      var units := ParseValue(Bit(mask, 4), 4, fee.rest);
      ValuePrinted(Bit(mask, 4), 4, fee.rest);
      if units.Parsed? {
        var dataSize := ParseValue(Bit(mask, 8), 4, units.rest);
        ValuePrinted(Bit(mask, 8), 4, units.rest);
        if dataSize.Parsed? {
          ValuePrinted(Bit(mask, 16), 4, dataSize.rest);
          var r := ParseValues(mask, data);
          if r.Parsed? {
            BitsMask(mask, r.value);
          }
        }
      }
    }
  }

  // ----- instructions: all the headers, then all the payloads -----

  function PutHead(ins: Instruction, tail: Bytes): (r: Bytes) {
    [ins.program % 256, |ins.accounts| % 256] + PutLE(|ins.data| % 65536, 2, tail)
  }

  function PutHeads(list: seq<Instruction>, tail: Bytes): (r: Bytes)
    ensures |r| == 4 * |list| + |tail| && r[4 * |list|..] == tail
  {
    if list == [] then tail else PutHead(list[0], PutHeads(list[1..], tail))
  }

  function PutPayload(ins: Instruction, tail: Bytes): (r: Bytes) {
    Lows(ins.accounts) + (ins.data + tail)
  }

  function PutPayloads(list: seq<Instruction>, tail: Bytes): (r: Bytes) {
    if list == [] then tail else PutPayload(list[0], PutPayloads(list[1..], tail))
  }

  function ParsePayload(head: Bytes, data: Bytes): (r: Parsed<Instruction>)
    requires |head| >= 4
  {
    var accounts, size := head[1], ReadLE(head[2..], 2);
    if |data| < accounts + size then Malformed
    else Parsed(Instruction(head[0], Widened(data[..accounts]), data[accounts..accounts + size]),
                data[accounts + size..])
  }

  /** The payloads of the instructions whose headers stand at the front of `heads`. */
  function ParsePayloads(heads: Bytes, n: nat, data: Bytes): (r: Parsed<seq<Instruction>>)
    requires 4 * n <= |heads|
    ensures r.Parsed? ==> |r.value| == n
    decreases n
  {
    if n == 0 then Parsed([], data)
    else
      match ParsePayload(heads, data)
      case Malformed => Malformed
      case Parsed(first, rest) =>
        match ParsePayloads(heads[4..], n - 1, rest)
        case Malformed => Malformed
        case Parsed(others, rest') => Parsed([first] + others, rest')
  }

  /** What a header and a payload can carry. */
  predicate Fitting(ins: Instruction) {
    && ins.program < 256 && |ins.accounts| < 256 && |ins.data| < 65536
    && forall i :: 0 <= i < |ins.accounts| ==> ins.accounts[i] < 256
  }

  lemma {:induction false} PayloadParses(ins: Instruction, heads: Bytes, tail: Bytes)
    requires Fitting(ins)
    ensures |PutHead(ins, heads)| >= 4 && PutHead(ins, heads)[4..] == heads
    ensures ParsePayload(PutHead(ins, heads), PutPayload(ins, tail)) == Parsed(ins, tail)
  {
    hide Lows, Widened, ReadLE, PutLE;
    Widths();
    hide Pow256;
    var head := PutHead(ins, heads);
    assert head[2..] == PutLE(|ins.data|, 2, heads);
    assert head[4..] == head[2..][2..];
    ReadPut(|ins.data|, 2, heads);
    WidenedLows(ins.accounts);
    ThreeSlices(Lows(ins.accounts), ins.data, tail);
  }

  lemma {:induction false} ThreeSlices(a: Bytes, b: Bytes, c: Bytes)
    ensures var s := a + (b + c);
      |s| == |a| + |b| + |c| && s[..|a|] == a && s[|a|..|a| + |b|] == b && s[|a| + |b|..] == c
  {
  }

  lemma {:induction false} PayloadPrinted(head: Bytes, data: Bytes)
    requires |head| >= 4
    ensures var r := ParsePayload(head, data);
      r.Parsed? ==> Fitting(r.value) && head == PutHead(r.value, head[4..]) && data == PutPayload(r.value, r.rest)
  {
    hide Lows, Widened, ReadLE, PutLE;
    Widths();
    hide Pow256;
    var accounts, size := head[1], ReadLE(head[2..], 2);
    if |data| >= accounts + size {
      LowsWidened(data[..accounts]);
      PutRead(head[2..], 2);
      assert head[2..][2..] == head[4..];
      assert head == [head[0], head[1]] + head[2..];
      ThreeParts(data, accounts, accounts + size);
    }
  }

  lemma {:induction false} ThreeParts(data: Bytes, i: nat, j: nat)
    requires i <= j <= |data|
    ensures data == data[..i] + (data[i..j] + data[j..])
  {
  }

  lemma {:induction false} PayloadsParse(list: seq<Instruction>, heads: Bytes, tail: Bytes)
    requires forall i :: 0 <= i < |list| ==> Fitting(list[i])
    ensures ParsePayloads(PutHeads(list, heads), |list|, PutPayloads(list, tail)) == Parsed(list, tail)
    decreases |list|
  {
    hide Fitting, PutHead, PutPayload, ParsePayload;
    if list != [] {
      var first, others := list[0], list[1..];
      assert forall i :: 0 <= i < |others| ==> others[i] == list[i + 1];
      PayloadsParse(others, heads, tail);
      PayloadParses(first, PutHeads(others, heads), PutPayloads(others, tail));
      assert [first] + others == list;
    }
  }

  lemma {:induction false} PutListsCons(first: Instruction, others: seq<Instruction>, tail: Bytes)
    ensures PutHeads([first] + others, tail) == PutHead(first, PutHeads(others, tail))
    ensures PutPayloads([first] + others, tail) == PutPayload(first, PutPayloads(others, tail))
  {
    hide PutHead, PutPayload;
    assert ([first] + others)[1..] == others;
  }

  lemma {:induction false} NoInstructionBytes(tail: Bytes)
    ensures PutHeads([], tail) == tail && PutPayloads([], tail) == tail
  {
  }

  lemma {:induction false} PayloadsPrinted(heads: Bytes, n: nat, data: Bytes)
    requires 4 * n <= |heads|
    ensures var r := ParsePayloads(heads, n, data);
      r.Parsed? ==>
        && (forall i :: 0 <= i < n ==> Fitting(r.value[i]))
        && heads == PutHeads(r.value, heads[4 * n..]) && data == PutPayloads(r.value, r.rest)
    decreases n
  {
    hide Fitting, PutHead, PutPayload, ParsePayload, PutHeads, PutPayloads;
    if n == 0 {
      NoInstructionBytes(heads);
      NoInstructionBytes(data);
    } else {
      PayloadPrinted(heads, data);
      var first := ParsePayload(heads, data);
      if first.Parsed? {
        PayloadsPrinted(heads[4..], n - 1, first.rest);
        var others := ParsePayloads(heads[4..], n - 1, first.rest);
        if others.Parsed? {
          assert heads[4..][4 * (n - 1)..] == heads[4 * n..];
          PutListsCons(first.value, others.value, heads[4 * n..]);
          PutListsCons(first.value, others.value, others.rest);
        }
      }
    }
  }

  // ----- the whole transaction -----

  predicate ValidHeap(c: Config) {
    c.heap.Some? ==> HEAP_MIN <= c.heap.value <= HEAP_MAX && c.heap.value % HEAP_UNIT == 0
  }

  predicate Distinct(keys: seq<Key>) {
    forall i, j :: 0 <= i < j < |keys| ==> keys[i] != keys[j]
  }

  /** Indexes that name keys, and lengths that fit their header. */
  predicate ValidInstruction(ins: Instruction, numKeys: nat) {
    && ins.program < numKeys && |ins.accounts| <= 255 && |ins.data| <= 0xFFFF
    && forall i :: 0 <= i < |ins.accounts| ==> ins.accounts[i] < numKeys
  }

  /** sanitize: the rules that do not depend on the size. */
  predicate Sanitized(tx: Tx) {
    && 1 <= tx.header.required <= MAX_SIGNATURES
    && tx.header.readonlySigned < tx.header.required
    && tx.header.required + (tx.header.readonlyUnsigned as int) <= |tx.keys| <= MAX_ADDRESSES
    && Distinct(tx.keys)
    && |tx.instructions| <= MAX_INSTRUCTIONS
    && (forall i :: 0 <= i < |tx.instructions| ==> ValidInstruction(tx.instructions[i], |tx.keys|))
    && ValidHeap(tx.config)
  }

  /** Everything after the fixed part. */
  function PutRest(tx: Tx, tail: Bytes): (r: Bytes) {
    PutAll(tx.keys, PutValues(tx.config, PutHeads(tx.instructions, PutPayloads(tx.instructions, tail))))
  }

  function PutSigned(tx: Tx, tail: Bytes): (r: Bytes) {
    [VERSION, tx.header.required, tx.header.readonlySigned, tx.header.readonlyUnsigned]
    + PutLE(Mask(tx.config), 4, tx.lifetime + ([|tx.instructions| % 256, |tx.keys| % 256] + PutRest(tx, tail)))
  }

  /** MarshalBinary. */
  function Marshal(tx: Tx): (r: Option<Bytes>) {
    var bytes := PutSigned(tx, PutAll(tx.signatures, []));
    if Sanitized(tx) && |tx.signatures| == tx.header.required && |bytes| <= MAX_SIZE then Some(bytes) else None
  }

  /** The part after the keys: config values, instruction headers, payloads and signatures, and nothing else. */
  function ParseRest(header: Header, mask: nat, lifetime: Key, keys: seq<Key>, n: nat, data: Bytes): (r: Option<Tx>) {
    match ParseValues(mask, data)
    case Malformed => None
    case Parsed(config, rest) =>
      if |rest| < 4 * n then None
      else
        match ParsePayloads(rest[..4 * n], n, rest[4 * n..])
        case Malformed => None
        case Parsed(instructions, rest) =>
          match ParseBlocks(rest, header.required, 64)
          case Malformed => None
          case Parsed(signatures, rest) =>
            if rest != [] then None else Some(Tx(header, config, lifetime, keys, instructions, signatures))
  }

  /** UnmarshalBinary. */
  function Unmarshal(data: Bytes): (r: Option<Tx>) {
    if |data| > MAX_SIZE || |data| < 42 || data[0] != VERSION then None
    else
      var header, mask := Header(data[1], data[2], data[3]), ReadLE(data[4..], 4);
      if !KnownMask(mask) then None
      else
        match ParseBlocks(data[42..], data[41], 32)
        case Malformed => None
        case Parsed(keys, rest) =>
          var tx := ParseRest(header, mask, data[8..40], keys, data[40], rest);
          if tx.Some? && Sanitized(tx.value) then tx else None
  }

  lemma {:induction false} SanitizedFits(tx: Tx)
    requires Sanitized(tx)
    ensures forall i :: 0 <= i < |tx.instructions| ==> Fitting(tx.instructions[i])
    ensures |tx.instructions| < 256 && |tx.keys| < 256
  {
  }

  lemma {:induction false} RestParses(tx: Tx)
    requires forall i :: 0 <= i < |tx.instructions| ==> Fitting(tx.instructions[i])
    requires |tx.signatures| == tx.header.required
    ensures var data := PutValues(tx.config,
                                  PutHeads(tx.instructions, PutPayloads(tx.instructions, PutAll(tx.signatures, []))));
      ParseRest(tx.header, Mask(tx.config), tx.lifetime, tx.keys, |tx.instructions|, data) == Some(tx)
  {
    hide PutValues, ParseValues, Mask, ParsePayloads, ParseBlocks, Fitting, PutAll, PutPayloads, PutHeads;
    var list := tx.instructions;
    var n := |list|;
    var payloads := PutPayloads(list, PutAll(tx.signatures, []));
    var heads := PutHeads(list, payloads);
    ValuesParse(tx.config, heads);
    HeadsSplit(list, payloads);
    PayloadsParse(list, [], PutAll(tx.signatures, []));
    BlocksParse(tx.signatures, 64, []);
  }

  lemma {:induction false} HeadsSplit(list: seq<Instruction>, tail: Bytes)
    ensures |PutHeads(list, tail)| == 4 * |list| + |tail|
    ensures PutHeads(list, tail)[..4 * |list|] == PutHeads(list, []) && PutHeads(list, tail)[4 * |list|..] == tail
  {
    HeadsAppend(list, tail);
    var heads := PutHeads(list, []);
    assert (heads + tail)[..|heads|] == heads && (heads + tail)[|heads|..] == tail;
  }

  lemma {:induction false} HeadsAppend(list: seq<Instruction>, tail: Bytes)
    ensures |PutHeads(list, [])| == 4 * |list| && PutHeads(list, tail) == PutHeads(list, []) + tail
    decreases |list|
  {
    hide PutHead;
    if list == [] {
      assert [] + tail == tail;
    } else {
      HeadsAppend(list[1..], tail);
      var more := PutHeads(list[1..], []);
      HeadSplit(list[0], more + tail);
      HeadSplit(list[0], more);
      assert PutHead(list[0], []) + (more + tail) == (PutHead(list[0], []) + more) + tail;
    }
  }

  lemma {:induction false} HeadSplit(ins: Instruction, tail: Bytes)
    ensures |PutHead(ins, [])| == 4 && PutHead(ins, tail) == PutHead(ins, []) + tail
  {
    var size := |ins.data| % 65536;
    assert PutLE(size, 2, tail) == [size % 256] + ([size / 256 % 256] + tail);
    assert PutLE(size, 2, []) == [size % 256] + ([size / 256 % 256] + []);
  }

  lemma {:induction false} RestPrinted(header: Header, mask: nat, lifetime: Key, keys: seq<Key>, n: nat, data: Bytes)
    requires KnownMask(mask)
    ensures var r := ParseRest(header, mask, lifetime, keys, n, data);
      r.Some? ==>
        && r.value.header == header && r.value.lifetime == lifetime && r.value.keys == keys
        && Mask(r.value.config) == mask && |r.value.instructions| == n && |r.value.signatures| == header.required
        && data == PutValues(r.value.config,
                             PutHeads(r.value.instructions,
                                      PutPayloads(r.value.instructions, PutAll(r.value.signatures, []))))
  {
    hide PutValues, ParseValues, Mask, ParsePayloads, ParseBlocks, Fitting, PutAll, PutPayloads, PutHeads, KnownMask;
    ValuesPrinted(mask, data);
    match ParseValues(mask, data)
    case Malformed =>
    case Parsed(config, rest) =>
      if |rest| >= 4 * n {
        PayloadsPrinted(rest[..4 * n], n, rest[4 * n..]);
        match ParsePayloads(rest[..4 * n], n, rest[4 * n..])
        case Malformed =>
        case Parsed(list, rest') =>
          BlocksPrinted(rest', header.required, 64);
          HeadsSplit(list, rest[4 * n..]);
          assert rest[..4 * n][4 * n..] == [];
          assert rest == rest[..4 * n] + rest[4 * n..];
          assert PutHeads(list, rest[4 * n..]) == PutHeads(list, []) + rest[4 * n..];
      }
  }

  /** The fixed part: where everything is. */
  lemma {:induction false} FixedPart(tx: Tx, tail: Bytes)
    requires |tx.instructions| < 256 && |tx.keys| < 256
    ensures var data := PutSigned(tx, tail);
      && |data| >= 42 && data[0] == VERSION && Header(data[1], data[2], data[3]) == tx.header
      && ReadLE(data[4..], 4) == Mask(tx.config) && data[8..40] == tx.lifetime
      && data[40] == |tx.instructions| && data[41] == |tx.keys| && data[42..] == PutRest(tx, tail)
  {
    hide Mask, PutRest, Pow256;
    var data, rest := PutSigned(tx, tail), [|tx.instructions| % 256, |tx.keys| % 256] + PutRest(tx, tail);
    Widths();
    ReadPut(Mask(tx.config), 4, tx.lifetime + rest);
    assert data[4..] == PutLE(Mask(tx.config), 4, tx.lifetime + rest);
    assert data[8..] == data[4..][4..] == tx.lifetime + rest;
    assert data[8..40] == data[8..][..32];
    assert data[40..] == data[8..][32..] == rest;
    assert data[42..] == data[40..][2..];
  }

  lemma {:induction false} FixedSlices(data: Bytes)
    requires |data| >= 42
    ensures data[8..] == data[8..40] + ([data[40], data[41]] + data[42..])
    ensures data == [data[0], data[1], data[2], data[3]] + data[4..]
  {
  }

  lemma {:induction false} FixedPartPrinted(data: Bytes, tx: Tx, tail: Bytes)
    requires |data| >= 42 && data[0] == VERSION && Header(data[1], data[2], data[3]) == tx.header
    requires ReadLE(data[4..], 4) == Mask(tx.config) && data[8..40] == tx.lifetime
    requires data[40] == |tx.instructions| && data[41] == |tx.keys| && data[42..] == PutRest(tx, tail)
    ensures data == PutSigned(tx, tail)
  {
    hide Mask, PutRest, ReadLE, PutLE;
    PutRead(data[4..], 4);
    assert data[4..][4..] == data[8..];
    FixedSlices(data);
  }

  /** The two codecs are inverse to each other, and the decoder accepts exactly what the encoder produces. */
  lemma {:induction false} MutualInverse(data: Bytes, tx: Tx)
    ensures Unmarshal(data) == Some(tx) <==> Marshal(tx) == Some(data)
  {
    if Marshal(tx) == Some(data) {
      MarshalledAccepted(data, tx);
    }
    if Unmarshal(data) == Some(tx) {
      AcceptedMarshalled(data, tx);
    }
  }

  lemma {:induction false} MarshalledAccepted(data: Bytes, tx: Tx)
    requires Marshal(tx) == Some(data)
    ensures Unmarshal(data) == Some(tx)
  {
    hide PutSigned, ParseRest, PutValues, ParseBlocks, PutHeads, PutPayloads, PutAll, Mask, KnownMask, Sanitized,
         ReadLE;
    SanitizedFits(tx);
    var tail := PutAll(tx.signatures, []);
    FixedPart(tx, tail);
    MaskBits(tx.config);
    BlocksParse(tx.keys, 32, PutValues(tx.config, PutHeads(tx.instructions, PutPayloads(tx.instructions, tail))));
    RestParses(tx);
  }

  lemma {:induction false} AcceptedMarshalled(data: Bytes, tx: Tx)
    requires Unmarshal(data) == Some(tx)
    ensures Marshal(tx) == Some(data)
  {
    hide PutSigned, ParseRest, PutValues, ParseBlocks, PutHeads, PutPayloads, PutAll, Mask, KnownMask, Sanitized,
         ReadLE;
    var mask := ReadLE(data[4..], 4);
    BlocksPrinted(data[42..], data[41], 32);
    var keys := ParseBlocks(data[42..], data[41], 32);
    RestPrinted(Header(data[1], data[2], data[3]), mask, data[8..40], keys.value, data[40], keys.rest);
    FixedPartPrinted(data, tx, PutAll(tx.signatures, []));
  }

  // ----- sizes -----

  function OnesCount(mask: nat): (n: nat) {
    if mask == 0 then 0 else mask % 2 + OnesCount(mask / 2)
  }

  /** signedSize. */
  function SignedSize(tx: Tx): (n: nat) {
    42 + 32 * |tx.keys| + 4 * OnesCount(Mask(tx.config)) + 4 * |tx.instructions| + PayloadSizes(tx.instructions)
  }

  function PayloadSizes(list: seq<Instruction>): (n: nat) {
    if list == [] then 0 else |list[0].accounts| + |list[0].data| + PayloadSizes(list[1..])
  }

  lemma {:induction false} PayloadsLength(list: seq<Instruction>, tail: Bytes)
    ensures |PutPayloads(list, tail)| == PayloadSizes(list) + |tail|
    decreases |list|
  {
    if list != [] {
      PayloadsLength(list[1..], tail);
    }
  }

  lemma {:induction false} ValuesLength(c: Config, tail: Bytes)
    ensures |PutValues(c, tail)| == 4 * OnesCount(Mask(c)) + |tail|
  {
    var fee, units := if c.fee.Some? then 1 else 0, if c.units.Some? then 1 else 0;
    var dataSize, heap := if c.dataSize.Some? then 1 else 0, if c.heap.Some? then 1 else 0;
    assert Mask(c) == fee + 2 * (fee + 2 * (units + 2 * (dataSize + 2 * heap)));
    OnesOf(fee, units, dataSize, heap);
    hide OnesCount, Mask, PutLE;
  }

  lemma {:induction false} OnesOf(fee: nat, units: nat, dataSize: nat, heap: nat)
    requires fee < 2 && units < 2 && dataSize < 2 && heap < 2
    ensures OnesCount(fee + 2 * (fee + 2 * (units + 2 * (dataSize + 2 * heap)))) == 2 * fee + units + dataSize + heap
  {
    OnesStep(heap, 0);
    OnesStep(dataSize, heap);
    OnesStep(units, dataSize + 2 * heap);
    OnesStep(fee, units + 2 * (dataSize + 2 * heap));
    OnesStep(fee, fee + 2 * (units + 2 * (dataSize + 2 * heap)));
    hide OnesCount;
  }

  lemma {:induction false} OnesStep(bit: nat, rest: nat)
    requires bit < 2
    ensures OnesCount(bit + 2 * rest) == bit + OnesCount(rest)
  {
    if rest > 0 {
      assert (bit + 2 * rest) % 2 == bit && (bit + 2 * rest) / 2 == rest;
    }
  }

  /** The size computed beforehand is exact, whatever the transaction. */
  lemma {:induction false} SizeExact(tx: Tx, tail: Bytes)
    ensures |PutSigned(tx, tail)| == SignedSize(tx) + |tail|
  {
    hide PutValues, PutHeads, PutPayloads, PutAll, Mask, OnesCount, PayloadSizes;
    var list := tx.instructions;
    var payloads := PutPayloads(list, tail);
    PayloadsLength(list, tail);
    ValuesLength(tx.config, PutHeads(list, payloads));
    AllSize(tx.keys, 32, PutValues(tx.config, PutHeads(list, payloads)));
  }

  /** Whatever is marshalled has the announced size and at most 4096 bytes. */
  lemma {:induction false} MarshalSize(tx: Tx)
    ensures Marshal(tx).Some? ==> |Marshal(tx).value| == SignedSize(tx) + 64 * |tx.signatures| <= MAX_SIZE
    ensures Marshal(tx).Some?
            <==> Sanitized(tx) && |tx.signatures| == tx.header.required
                 && SignedSize(tx) + 64 * |tx.signatures| <= MAX_SIZE
  {
    hide PutSigned, SignedSize, PutAll, Sanitized;
    SizeExact(tx, PutAll(tx.signatures, []));
    AllSize(tx.signatures, 64, []);
  }
}
