/**
 transaction_v1.go as the source runs it: the duplicate search, the sizes added up, the appends and the cursor that
 walks headers and payloads together. Each computes its function of TransactionV1.
 */
module TransactionV1Loops {
  import opened Wrappers
  import opened Words
  import opened ByteStrings
  import opened WireFormat
  import opened WireTheorems
  import opened WireLoops
  import opened TransactionV1

  // ----- sanitize -----

  /** One pass with a set of the keys seen so far. */
  method NoDuplicates(keys: seq<Key>) returns (ok: bool)
    ensures ok == Distinct(keys)
  {
    var seen: set<Key> := {};
    for i := 0 to |keys|
      invariant seen == set j | 0 <= j < i :: keys[j]
      invariant Distinct(keys[..i])
    {
      if keys[i] in seen {
        var j :| 0 <= j < i && keys[j] == keys[i];
        return false;
      }
      assert keys[..i + 1] == keys[..i] + [keys[i]];
      seen := seen + {keys[i]};
    }
    assert keys[..|keys|] == keys;
    ok := true;
  }

  method CheckInstruction(ins: Instruction, numKeys: nat) returns (ok: bool)
    ensures ok == ValidInstruction(ins, numKeys)
  {
    if ins.program >= numKeys || |ins.accounts| > 255 { return false; }
    for i := 0 to |ins.accounts|
      invariant forall j :: 0 <= j < i ==> ins.accounts[j] < numKeys
    {
      if ins.accounts[i] >= numKeys { return false; }
    }
    ok := |ins.data| <= 0xFFFF;
  }

  method Sanitize(tx: Tx) returns (ok: bool)
    ensures ok == Sanitized(tx)
  {
    hide Distinct, ValidInstruction;
    var h, numKeys := tx.header, |tx.keys|;
    if h.required < 1 || h.required > MAX_SIGNATURES || h.readonlySigned >= h.required { return false; }
    if numKeys > MAX_ADDRESSES || numKeys < (h.required as int) + (h.readonlyUnsigned as int) { return false; }
    var distinct := NoDuplicates(tx.keys);
    if !distinct || |tx.instructions| > MAX_INSTRUCTIONS { return false; }
    for i := 0 to |tx.instructions|
      invariant forall j :: 0 <= j < i ==> ValidInstruction(tx.instructions[j], numKeys)
    {
      var valid := CheckInstruction(tx.instructions[i], numKeys);
      if !valid { return false; }
    }
    ok := ValidHeap(tx.config);
  }

  // ----- encoding -----

  /** mask: one field after the other sets its bits. */
  method ConfigMask(c: Config) returns (m: nat)
    ensures m == Mask(c)
  {
    m := 0;
    if c.fee.Some? { m := m + 3; }
    if c.units.Some? { m := m + 4; }
    if c.dataSize.Some? { m := m + 8; }
    if c.heap.Some? { m := m + 16; }
  }

  method SumSizes(tx: Tx) returns (size: nat)
    ensures size == SignedSize(tx)
  {
    hide OnesCount;
    var mask := ConfigMask(tx.config);
    size := 42 + 32 * |tx.keys| + 4 * OnesCount(mask) + 4 * |tx.instructions|;
    ghost var base := size;
    for i := 0 to |tx.instructions|
      invariant size + PayloadSizes(tx.instructions[i..]) == base + PayloadSizes(tx.instructions)
    {
      assert tx.instructions[i..][0] == tx.instructions[i] && tx.instructions[i..][1..] == tx.instructions[i + 1..];
      size := size + |tx.instructions[i].accounts| + |tx.instructions[i].data|;
    }
  }

  lemma {:induction false} LEAppend(n: nat, k: nat, more: Bytes, tail: Bytes)
    ensures PutLE(n, k, more + tail) == PutLE(n, k, more) + tail
    decreases k
  {
    if k > 0 {
      LEAppend(n / 256, k - 1, more, tail);
      ConsAppend(n % 256, PutLE(n / 256, k - 1, more), tail);
    }
  }

  lemma {:induction false} ConsAppend(b: Byte, s: Bytes, tail: Bytes)
    ensures [b] + (s + tail) == ([b] + s) + tail
  {
  }

  lemma {:induction false} ValuesAppend(c: Config, more: Bytes, tail: Bytes)
    ensures PutValues(c, more + tail) == PutValues(c, more) + tail
  {
    hide PutLE;
    ValueAppend(c.heap, 4, more, tail);
    var heap := PutValue(c.heap, 4, more);
    ValueAppend(c.dataSize, 4, heap, tail);
    var dataSize := PutValue(c.dataSize, 4, heap);
    ValueAppend(c.units, 4, dataSize, tail);
    ValueAppend(c.fee, 8, PutValue(c.units, 4, dataSize), tail);
  }

  lemma {:induction false} ValueAppend(v: Option<nat>, k: nat, more: Bytes, tail: Bytes)
    ensures PutValue(v, k, more + tail) == PutValue(v, k, more) + tail
  {
    if v.Some? {
      LEAppend(v.value, k, more, tail);
    }
  }

  method AppendLE(buf: Bytes, n: nat, k: nat) returns (r: Bytes)
    ensures r == buf + PutLE(n, k, [])
  {
    var m := n;
    r := buf;
    for i := 0 to k
      invariant r + PutLE(m, k - i, []) == buf + PutLE(n, k, [])
    {
      assert r + ([m % 256] + PutLE(m / 256, k - i - 1, [])) == (r + [m % 256]) + PutLE(m / 256, k - i - 1, []);
      r, m := r + [m % 256], m / 256;
    }
  }

  method AppendValue(buf: Bytes, v: Option<nat>, k: nat) returns (r: Bytes)
    ensures r == buf + PutValue(v, k, [])
  {
    if v.Some? {
      r := AppendLE(buf, v.value, k);
    } else {
      r := buf;
    }
  }

  /** appendValues, in ascending bit order. */
  method AppendValues(buf: Bytes, c: Config) returns (r: Bytes)
    ensures r == buf + PutValues(c, [])
  {
    hide PutValue;
    r := AppendValue(buf, c.fee, 8);
    r := AppendValue(r, c.units, 4);
    r := AppendValue(r, c.dataSize, 4);
    r := AppendValue(r, c.heap, 4);
    ghost var heap := PutValue(c.heap, 4, []);
    ghost var dataSize := PutValue(c.dataSize, 4, heap);
    ghost var units := PutValue(c.units, 4, dataSize);
    ValueAppend(c.dataSize, 4, [], heap);
    ValueAppend(c.units, 4, [], dataSize);
    ValueAppend(c.fee, 8, [], units);
    assert [] + heap == heap && [] + dataSize == dataSize && [] + units == units;
  }

  method AppendHeads(buf: Bytes, list: seq<Instruction>) returns (r: Bytes)
    ensures r == buf + PutHeads(list, [])
  {
    hide PutLE;
    r := buf;
    for i := 0 to |list|
      invariant r + PutHeads(list[i..], []) == buf + PutHeads(list, [])
    {
      ghost var was, more := r, PutHeads(list[i + 1..], []);
      assert list[i..][0] == list[i] && list[i..][1..] == list[i + 1..];
      var size := |list[i].data| % 65536;
      r := r + [list[i].program % 256, |list[i].accounts| % 256];
      r := AppendLE(r, size, 2);
      HeadSplit(list[i], more);
      assert r == was + PutHead(list[i], []);
      assert was + (PutHead(list[i], []) + more) == r + more;
    }
  }

  method AppendPayloads(buf: Bytes, list: seq<Instruction>) returns (r: Bytes)
    ensures r == buf + PutPayloads(list, [])
  {
    hide Lows;
    r := buf;
    for i := 0 to |list|
      invariant r + PutPayloads(list[i..], []) == buf + PutPayloads(list, [])
    {
      ghost var was, more := r, PutPayloads(list[i + 1..], []);
      assert list[i..][0] == list[i] && list[i..][1..] == list[i + 1..];
      r := AppendIndexes(r, list[i].accounts);
      r := r + list[i].data;
      assert was + (Lows(list[i].accounts) + (list[i].data + more)) == r + more;
    }
  }

  lemma {:induction false} PayloadsAppend(list: seq<Instruction>, tail: Bytes)
    ensures PutPayloads(list, tail) == PutPayloads(list, []) + tail
    decreases |list|
  {
    hide Lows;
    if list == [] {
      assert [] + tail == tail;
    } else {
      PayloadsAppend(list[1..], tail);
      var a, d, more := Lows(list[0].accounts), list[0].data, PutPayloads(list[1..], []);
      assert a + (d + (more + tail)) == (a + (d + more)) + tail;
    }
  }

  /** The parts that follow the fixed part, one after the other. */
  lemma {:induction false} RestIs(tx: Tx, tail: Bytes)
    ensures PutRest(tx, tail) ==
            PutAll(tx.keys, [])
            + (PutValues(tx.config, []) + (PutHeads(tx.instructions, []) + (PutPayloads(tx.instructions, []) + tail)))
  {
    hide PutAll, PutValues, PutHeads, PutPayloads;
    var list := tx.instructions;
    PayloadsAppend(list, tail);
    var payloads := PutPayloads(list, []) + tail;
    HeadsSplit(list, payloads);
    var heads := PutHeads(list, payloads);
    assert heads == heads[..4 * |list|] + heads[4 * |list|..];
    ValuesAppend(tx.config, [], heads);
    assert [] + heads == heads;
    var values := PutValues(tx.config, heads);
    AllAppend(tx.keys, [], values);
    assert [] + values == values;
  }

  method AppendRest(buf: Bytes, tx: Tx) returns (r: Bytes)
    ensures forall tail :: r + tail == buf + PutRest(tx, tail)
  {
    hide PutAll, PutValues, PutHeads, PutPayloads, PutRest;
    r := AppendAll(buf, tx.keys);
    r := AppendValues(r, tx.config);
    r := AppendHeads(r, tx.instructions);
    r := AppendPayloads(r, tx.instructions);
    forall tail ensures r + tail == buf + PutRest(tx, tail) {
      RestIs(tx, tail);
    }
  }

  lemma {:induction false} SignedIs(tx: Tx, tail: Bytes)
    ensures PutSigned(tx, tail) ==
            [VERSION, tx.header.required, tx.header.readonlySigned, tx.header.readonlyUnsigned]
                + PutLE(Mask(tx.config), 4, [])
            + tx.lifetime + [|tx.instructions| % 256, |tx.keys| % 256] + PutRest(tx, tail)
  {
    hide PutRest, Mask, PutLE;
    var counts, rest := [|tx.instructions| % 256, |tx.keys| % 256], PutRest(tx, tail);
    var more := tx.lifetime + (counts + rest);
    LEAppend(Mask(tx.config), 4, [], more);
    assert [] + more == more;
    Regrouped([VERSION, tx.header.required, tx.header.readonlySigned, tx.header.readonlyUnsigned],
              PutLE(Mask(tx.config), 4, []),
              tx.lifetime, counts, rest);
  }

  lemma {:induction false} Regrouped(a: Bytes, b: Bytes, c: Bytes, d: Bytes, e: Bytes)
    ensures a + (b + (c + (d + e))) == a + b + c + d + e
  {
  }

  /** appendSigned. */
  method AppendSigned(tx: Tx) returns (r: Bytes)
    ensures forall tail :: r + tail == PutSigned(tx, tail)
  {
    hide PutRest, Mask, PutLE, PutSigned;
    var mask := ConfigMask(tx.config);
    var fixedPart := [VERSION, tx.header.required, tx.header.readonlySigned, tx.header.readonlyUnsigned];
    fixedPart := AppendLE(fixedPart, mask, 4);
    fixedPart := fixedPart + tx.lifetime + [|tx.instructions| % 256, |tx.keys| % 256];
    r := AppendRest(fixedPart, tx);
    forall tail ensures r + tail == PutSigned(tx, tail) {
      SignedIs(tx, tail);
    }
  }

  /** MarshalBinary. */
  method MarshalBinary(tx: Tx) returns (r: Option<Bytes>)
    ensures r == Marshal(tx)
  {
    hide Sanitized, PutSigned, SignedSize, PutAll;
    MarshalSize(tx);
    var ok := Sanitize(tx);
    if !ok || |tx.signatures| != tx.header.required { return None; }
    var size := SumSizes(tx);
    size := size + 64 * |tx.signatures|;
    if size > MAX_SIZE { return None; }
    var signedPart := AppendSigned(tx);
    var bytes := AppendAll(signedPart, tx.signatures);
    r := Some(bytes);
  }

  // ----- decoding -----

  method DecodeLE(data: Bytes, k: nat) returns (n: nat)
    requires k <= |data|
    ensures n == ReadLE(data, k)
  {
    n := 0;
    assert data[k..k] == [];
    for i := k downto 0
      invariant n == ReadLE(data[i..], k - i)
    {
      assert data[i..][0] == data[i] && data[i..][1..] == data[i + 1..];
      n := data[i] + 256 * (n as int);
    }
    assert data[0..] == data;
  }

  lemma {:induction false} ValuesSize(mask: nat, data: Bytes)
    requires KnownMask(mask)
    ensures ParseValues(mask, data).Malformed? <==> |data| < 4 * OnesCount(mask)
    ensures 4 * OnesCount(mask) == (if Bit(mask, 1) then 8 else 0) + (if Bit(mask, 4) then 4 else 0)
                                   + (if Bit(mask, 8) then 4 else 0) + (if Bit(mask, 16) then 4 else 0)
  {
    hide ReadLE, Pow256;
    MaskOnes(mask);
    hide OnesCount, Bit, KnownMask;
  }

  lemma {:induction false} MaskOnes(mask: nat)
    requires KnownMask(mask)
    ensures OnesCount(mask) == (if Bit(mask, 1) then 2 else 0) + (if Bit(mask, 4) then 1 else 0)
                               + (if Bit(mask, 8) then 1 else 0) + (if Bit(mask, 16) then 1 else 0)
  {
    var c := Config(if Bit(mask, 1) then Some(0) else None, if Bit(mask, 4) then Some(0) else None,
                    if Bit(mask, 8) then Some(0) else None, if Bit(mask, 16) then Some(0) else None);
    BitsMask(mask, c);
    ValuesLength(c, []);
    hide OnesCount, Bit, KnownMask, Mask;
  }

  /** The config values: their whole length is checked once, then the set fields are read in turn. */
  method DecodeValues(mask: nat, data: Bytes) returns (r: Parsed<Config>)
    requires KnownMask(mask)
    ensures r == ParseValues(mask, data)
  {
    ValuesSize(mask, data);
    hide Bit, KnownMask, OnesCount, ReadLE;
    Widths();
    if |data| < 4 * OnesCount(mask) { return Malformed; }
    var fee, units, dataSize, heap := None, None, None, None;
    var values := data;
    if Bit(mask, 1) {
      var v := DecodeLE(values, 8);
      fee, values := Some(v), values[8..];
    }
    if Bit(mask, 4) {
      var v := DecodeLE(values, 4);
      units, values := Some(v), values[4..];
    }
    if Bit(mask, 8) {
      var v := DecodeLE(values, 4);
      dataSize, values := Some(v), values[4..];
    }
    if Bit(mask, 16) {
      var v := DecodeLE(values, 4);
      heap, values := Some(v), values[4..];
    }
    r := Parsed(Config(fee, units, dataSize, heap), values);
  }

  method DecodePayload(head: Bytes, data: Bytes) returns (r: Parsed<Instruction>)
    requires |head| >= 4
    ensures r == ParsePayload(head, data)
  {
    hide Widened, ReadLE;
    var accounts := head[1];
    var size := DecodeLE(head[2..], 2);
    if |data| < accounts + size { return Malformed; }
    var indexes := WidenIndexes(data[..accounts]);
    r := Parsed(Instruction(head[0], indexes, data[accounts..accounts + size]), data[accounts + size..]);
  }

  lemma {:induction false} PrependPayload(list: seq<Instruction>, heads: Bytes, n: nat, data: Bytes)
    requires n > 0 && 4 * n <= |heads|
    ensures var next := ParsePayload(heads, data);
      Prepend(list, ParsePayloads(heads, n, data)) ==
      if next.Malformed? then Malformed else Prepend(list + [next.value], ParsePayloads(heads[4..], n - 1, next.rest))
  {
    hide ParsePayload;
    match ParsePayload(heads, data)
    case Malformed =>
    case Parsed(first, rest) =>
      match ParsePayloads(heads[4..], n - 1, rest)
      case Malformed =>
      case Parsed(others, _) => assert list + ([first] + others) == (list + [first]) + others;
  }

  /** Headers and payloads walked together: header i stands at 4i, its payload at the cursor. */
  method DecodePayloads(heads: Bytes, n: nat, data: Bytes) returns (r: Parsed<seq<Instruction>>)
    requires |heads| == 4 * n
    ensures r == ParsePayloads(heads, n, data)
  {
    hide ParsePayload;
    var list, rest := [], data;
    PrependNothing(ParsePayloads(heads, n, data));
    assert heads[0..] == heads;
    for i := 0 to n
      invariant ParsePayloads(heads, n, data) == Prepend(list, ParsePayloads(heads[4 * i..], n - i, rest))
    {
      HeadAt(heads, i, rest);
      var next := DecodePayload(heads[4 * i..4 * i + 4], rest);
      PrependPayload(list, heads[4 * i..], n - i, rest);
      if next == Malformed { return Malformed; }
      assert heads[4 * i..][4..] == heads[4 * (i + 1)..];
      list, rest := list + [next.value], next.rest;
    }
    assert list + [] == list;
    r := Parsed(list, rest);
  }

  lemma {:induction false} HeadAt(heads: Bytes, i: nat, data: Bytes)
    requires 4 * i + 4 <= |heads|
    ensures ParsePayload(heads[4 * i..4 * i + 4], data) == ParsePayload(heads[4 * i..], data)
  {
    var short, long := heads[4 * i..4 * i + 4], heads[4 * i..];
    assert short[2..] == [short[2], short[3]] && long[2..][0] == short[2] && long[2..][1] == short[3];
    TwoBytes(short[2..]);
    TwoBytes(long[2..]);
  }

  lemma {:induction false} TwoBytes(data: Bytes)
    requires |data| >= 2
    ensures ReadLE(data, 2) == data[0] + 256 * (data[1] as int)
  {
    assert ReadLE(data[1..], 1) == data[1] + 256 * (ReadLE(data[1..][1..], 0) as int);
  }

  method DecodeBlocks(data: Bytes, n: nat, w: nat) returns (r: Parsed<seq<Bytes>>)
    requires w > 0
    ensures r == ParseBlocks(data, n, w)
  {
    hide Blocks;
    Fits(n, w, |data|);
    if |data| < n * w { return Malformed; }
    var items := TakeBlocks(data, n, w);
    r := Parsed(items, data[n * w..]);
  }

  method DecodeRest(header: Header, mask: nat, lifetime: Key, keys: seq<Key>, n: nat, data: Bytes)
    returns (r: Option<Tx>)
    requires KnownMask(mask)
    ensures r == ParseRest(header, mask, lifetime, keys, n, data)
  {
    hide KnownMask, ParseValues, ParsePayloads, ParseBlocks;
    var config := DecodeValues(mask, data);
    if config == Malformed || |config.rest| < 4 * n { return None; }
    var list := DecodePayloads(config.rest[..4 * n], n, config.rest[4 * n..]);
    if list == Malformed { return None; }
    var signatures := DecodeBlocks(list.rest, header.required, 64);
    if signatures == Malformed || |signatures.rest| != 0 { return None; }
    r := Some(Tx(header, config.value, lifetime, keys, list.value, signatures.value));
  }

  /** UnmarshalBinary. */
  method UnmarshalBinary(data: Bytes) returns (r: Option<Tx>)
    ensures r == Unmarshal(data)
  {
    hide KnownMask, ParseRest, ParseBlocks, Sanitized, ReadLE;
    if |data| > MAX_SIZE || |data| < 42 || data[0] != VERSION { return None; }
    var mask := DecodeLE(data[4..], 4);
    if !KnownMask(mask) { return None; }
    var keys := DecodeBlocks(data[42..], data[41], 32);
    if keys == Malformed { return None; }
    r := DecodeRest(Header(data[1], data[2], data[3]), mask, data[8..40], keys.value, data[40], keys.rest);
    if r == None { return None; }
    var ok := Sanitize(r.value);
    if !ok { return None; }
  }
}
