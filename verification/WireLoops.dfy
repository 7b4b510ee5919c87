/**
 The encoders and decoders of message.go and transaction.go as the source runs them: buffers appended to, cursors
 advanced, sizes added up beforehand. Each computes the printer or parser of WireFormat.
 */
module WireLoops {
  import opened Wrappers
  import opened ByteStrings
  import opened Varints
  import opened WireFormat
  import opened WireTheorems

  // ----- sizes, before anything is written -----

  lemma {:induction false} InstructionLength(ins: Instruction, tail: Bytes)
    ensures |PutInstruction(ins, tail)| ==
            1 + |Encode(|ins.accounts|)| + |ins.accounts| + |Encode(|ins.data|)| + |ins.data| + |tail|
  {
  }

  lemma {:induction false} LookupLength(l: Lookup, tail: Bytes)
    ensures |PutLookup(l, tail)| ==
            32 + |Encode(|l.writable|)| + |l.writable| + |Encode(|l.readonly|)| + |l.readonly| + |tail|
  {
  }

  /** bodySize: exactly the bytes appendBody appends. */
  method BodySize(m: Message) returns (size: nat)
    ensures size == |PutBody(m, [])|
  {
    hide Encode, PutInstruction, PutAll, PutInstructions;
    var keys := ShortvecLen(|m.keys|);
    var count := ShortvecLen(|m.instructions|);
    size := 3 + keys + 32 * |m.keys| + 32 + count;
    var list := m.instructions;
    AllSize(m.keys, 32, m.blockhash + PutProgram(list, []));
    assert size + |PutInstructions(list, [])| == |PutBody(m, [])|;
    size := InstructionSizes(list, size);
  }

  method InstructionSizes(list: seq<Instruction>, base: nat) returns (size: nat)
    ensures size == base + |PutInstructions(list, [])|
  {
    hide Encode, PutInstruction;
    size := base;
    for i := 0 to |list|
      invariant size + |PutInstructions(list[i..], [])| == base + |PutInstructions(list, [])|
    {
      InstructionLength(list[i], PutInstructions(list[i + 1..], []));
      assert list[i..][0] == list[i] && list[i..][1..] == list[i + 1..];
      var accounts := ShortvecLen(|list[i].accounts|);
      var data := ShortvecLen(|list[i].data|);
      size := size + 1 + accounts + |list[i].accounts| + data + |list[i].data|;
    }
  }

  method LookupSizes(list: seq<Lookup>, base: nat) returns (size: nat)
    ensures size == base + |PutLookups(list, [])|
  {
    hide Encode, PutLookup;
    size := base;
    for i := 0 to |list|
      invariant size + |PutLookups(list[i..], [])| == base + |PutLookups(list, [])|
    {
      LookupLength(list[i], PutLookups(list[i + 1..], []));
      assert list[i..][0] == list[i] && list[i..][1..] == list[i + 1..];
      var writable := ShortvecLen(|list[i].writable|);
      var readonly := ShortvecLen(|list[i].readonly|);
      size := size + 32 + writable + |list[i].writable| + readonly + |list[i].readonly|;
    }
  }

  // ----- appending -----

  method AppendAll(buf: Bytes, items: seq<Bytes>) returns (r: Bytes)
    ensures r == buf + PutAll(items, [])
  {
    r := buf;
    for i := 0 to |items|
      invariant r + PutAll(items[i..], []) == buf + PutAll(items, [])
    {
      assert items[i..][0] == items[i] && items[i..][1..] == items[i + 1..];
      assert r + (items[i] + PutAll(items[i + 1..], [])) == (r + items[i]) + PutAll(items[i + 1..], []);
      r := r + items[i];
    }
  }

  /** Account indexes, each cut to its low byte. */
  method AppendIndexes(buf: Bytes, accounts: seq<Index>) returns (r: Bytes)
    ensures r == buf + Lows(accounts)
  {
    r := buf;
    for i := 0 to |accounts|
      invariant r == buf + Lows(accounts)[..i]
    {
      assert Lows(accounts)[..i] + [accounts[i] % 256] == Lows(accounts)[..i + 1];
      r := r + [accounts[i] % 256];
    }
  }

  method AppendInstruction(buf: Bytes, ins: Instruction) returns (r: Bytes)
    ensures r == buf + PutInstruction(ins, [])
  {
    hide Encode, Lows;
    r := buf + [ins.program % 256];
    r := AppendShortvecLen(r, |ins.accounts|);
    r := AppendIndexes(r, ins.accounts);
    r := AppendShortvecLen(r, |ins.data|);
    r := r + ins.data;
    assert r == buf + ([ins.program % 256] + (Encode(|ins.accounts|)
                                              + (Lows(ins.accounts) + (Encode(|ins.data|) + (ins.data + [])))));
  }

  method AppendInstructions(buf: Bytes, list: seq<Instruction>) returns (r: Bytes)
    ensures r == buf + PutInstructions(list, [])
  {
    hide PutInstruction;
    r := buf;
    for i := 0 to |list|
      invariant r + PutInstructions(list[i..], []) == buf + PutInstructions(list, [])
    {
      var more := PutInstructions(list[i + 1..], []);
      assert list[i..][0] == list[i] && list[i..][1..] == list[i + 1..];
      InstructionAppend(list[i], [], more);
      assert [] + more == more;
      assert r + (PutInstruction(list[i], []) + more) == (r + PutInstruction(list[i], [])) + more;
      r := AppendInstruction(r, list[i]);
    }
  }

  method AppendLookup(buf: Bytes, l: Lookup) returns (r: Bytes)
    ensures r == buf + PutLookup(l, [])
  {
    hide Encode;
    r := buf + l.key;
    r := AppendShortvecLen(r, |l.writable|);
    r := r + l.writable;
    r := AppendShortvecLen(r, |l.readonly|);
    r := r + l.readonly;
    assert r == buf + (l.key + (Encode(|l.writable|) + (l.writable + (Encode(|l.readonly|) + (l.readonly + [])))));
  }

  method AppendLookups(buf: Bytes, list: seq<Lookup>) returns (r: Bytes)
    ensures r == buf + PutLookups(list, [])
  {
    hide PutLookup;
    r := buf;
    for i := 0 to |list|
      invariant r + PutLookups(list[i..], []) == buf + PutLookups(list, [])
    {
      var more := PutLookups(list[i + 1..], []);
      assert list[i..][0] == list[i] && list[i..][1..] == list[i + 1..];
      LookupAppend(list[i], [], more);
      assert [] + more == more;
      assert r + (PutLookup(list[i], []) + more) == (r + PutLookup(list[i], [])) + more;
      r := AppendLookup(r, list[i]);
    }
  }

  /** appendBody. */
  method AppendBody(buf: Bytes, m: Message) returns (r: Bytes)
    ensures r == buf + PutBody(m, [])
  {
    hide PutCounted, PutProgram;
    ghost var h := [m.header.required, m.header.readonlySigned, m.header.readonlyUnsigned];
    ghost var program := PutProgram(m.instructions, []);
    r := buf + [m.header.required, m.header.readonlySigned, m.header.readonlyUnsigned];
    r := AppendCounted(r, m.keys);
    r := r + m.blockhash;
    r := AppendProgram(r, m.instructions);
    CountedAppend(m.keys, [], m.blockhash + program);
    assert [] + (m.blockhash + program) == m.blockhash + program;
    assert r == buf + (h + (PutCounted(m.keys, []) + (m.blockhash + program)));
  }

  method AppendCounted(buf: Bytes, items: seq<Bytes>) returns (r: Bytes)
    ensures r == buf + PutCounted(items, [])
  {
    hide Encode, PutAll;
    r := AppendShortvecLen(buf, |items|);
    r := AppendAll(r, items);
    assert r == buf + (Encode(|items|) + PutAll(items, []));
  }

  method AppendProgram(buf: Bytes, list: seq<Instruction>) returns (r: Bytes)
    ensures r == buf + PutProgram(list, [])
  {
    hide Encode, PutInstructions;
    r := AppendShortvecLen(buf, |list|);
    r := AppendInstructions(r, list);
    assert r == buf + (Encode(|list|) + PutInstructions(list, []));
  }

  /** MarshalBinary of a message, into a buffer of exactly the size computed beforehand. */
  method MarshalMessage(m: Message) returns (r: Bytes, size: nat)
    ensures r == EncodeMessage(m) && size == |r|
  {
    hide PutBody, Encode, PutLookups;
    var body := BodySize(m);
    if m.version == Legacy {
      r := AppendBody([], m);
      assert [] + PutBody(m, []) == PutBody(m, []);
      size := body;
    } else {
      var count := ShortvecLen(|m.lookups|);
      size := LookupSizes(m.lookups, 1 + body + count);
      r := AppendBody([128], m);
      r := AppendShortvecLen(r, |m.lookups|);
      r := AppendLookups(r, m.lookups);
      ghost var tables := PutTables(m.lookups, []);
      BodyAppend(m, [], tables);
      assert [] + tables == tables;
      assert r == [128] + (PutBody(m, []) + tables);
    }
  }

  /** MarshalBinary of a transaction: zeros in place of missing signatures. */
  method MarshalTransaction(tx: Transaction) returns (r: Bytes, size: nat)
    ensures r == EncodeTransaction(tx) && size == |r|
  {
    hide PutMessage, Encode, PutAll, Padded;
    var content, contentSize := MarshalMessage(tx.message);
    var required := tx.message.header.required;
    var numSigs := |tx.signatures|;
    if numSigs < required { numSigs := required; }
    var count := ShortvecLen(numSigs);
    size := count + numSigs * 64 + contentSize;
    r := AppendShortvecLen([], numSigs);
    PaddedIs(tx, numSigs);
    r := AppendAll(r, tx.signatures);
    r := AppendZeros(r, numSigs - |tx.signatures|);
    r := r + content;
    AllConcat(tx.signatures, seq(numSigs - |tx.signatures|, _ => Zero()));
    AllAppend(Padded(tx), [], content);
    AllSize(Padded(tx), 64, []);
    assert [] + content == content;
    assert r == Encode(numSigs) + (PutAll(Padded(tx), []) + content);
  }

  lemma {:induction false} PaddedIs(tx: Transaction, numSigs: nat)
    requires numSigs == if |tx.signatures| < tx.message.header.required then tx.message.header.required
             else |tx.signatures|
    ensures Padded(tx) == tx.signatures + seq(numSigs - |tx.signatures|, _ => Zero()) && |Padded(tx)| == numSigs
  {
  }

  lemma {:induction false} AllConcat(a: seq<Bytes>, b: seq<Bytes>)
    ensures PutAll(a + b, []) == PutAll(a, []) + PutAll(b, [])
    decreases |a|
  {
    if a == [] {
      assert a + b == b && [] + PutAll(b, []) == PutAll(b, []);
    } else {
      AllConcat(a[1..], b);
      assert (a + b)[1..] == a[1..] + b;
      assert a[0] + (PutAll(a[1..], []) + PutAll(b, [])) == (a[0] + PutAll(a[1..], [])) + PutAll(b, []);
    }
  }

  method AppendZeros(buf: Bytes, n: nat) returns (r: Bytes)
    ensures r == buf + PutAll(seq(n, _ => Zero()), [])
  {
    var zero := Zero();
    r := buf;
    ghost var items := seq(n, _ => Zero());
    for i := 0 to n
      invariant r + PutAll(items[i..], []) == buf + PutAll(items, [])
    {
      assert items[i..][0] == items[i] && items[i..][1..] == items[i + 1..];
      assert r + (items[i] + PutAll(items[i + 1..], [])) == (r + items[i]) + PutAll(items[i + 1..], []);
      r := r + zero;
    }
  }

  // ----- decoding -----

  method DecodeLen(data: Bytes) returns (r: Parsed<nat>)
    ensures r == ParseLen(data)
  {
    var length := DecodeShortvecLen(data);
    match length
    case Ok((n, k)) =>
      Decode16Exact(data, n, k);
      r := Parsed(n, data[k..]);
    case Err(_) => r := Malformed;
  }

  method TakeBlocks(data: Bytes, n: nat, w: nat) returns (r: seq<Bytes>)
    requires n * w <= |data|
    ensures r == Blocks(data, n, w)
  {
    r := [];
    assert data[0 * w..] == data;
    for i := 0 to n
      invariant i * w + (n - i) * w == n * w && 0 <= i * w && 0 <= (n - i) * w
      invariant r + Blocks(data[i * w..], n - i, w) == Blocks(data, n, w)
    {
      FirstBlock(n - i, w);
      NextBlock(i, w);
      assert data[i * w..][..w] == data[i * w..(i + 1) * w];
      assert data[i * w..][w..] == data[(i + 1) * w..];
      ghost var more := Blocks(data[(i + 1) * w..], n - (i + 1), w);
      assert r + ([data[i * w..(i + 1) * w]] + more) == (r + [data[i * w..(i + 1) * w]]) + more;
      r := r + [data[i * w..(i + 1) * w]];
    }
  }

  lemma {:induction false} NextBlock(i: nat, w: nat)
    ensures (i + 1) * w == i * w + w && 0 <= i * w
  {
  }

  /** A counted list of fixed-size items; the count is checked before anything is taken. */
  method DecodeCounted(data: Bytes, w: nat) returns (r: Parsed<seq<Bytes>>)
    requires w > 0
    ensures r == ParseCounted(data, w)
  {
    hide ParseLen, Blocks;
    var length := DecodeLen(data);
    match length
    case Malformed => r := Malformed;
    case Parsed(n, rest) =>
      if n > |rest| / w {
        r := Malformed;
      } else {
        Fits(n, w, |rest|);
        var items := TakeBlocks(rest, n, w);
        r := Parsed(items, rest[n * w..]);
      }
  }

  /** decodeLookupIndexes, and the way instruction data is taken. */
  method DecodeString(data: Bytes) returns (r: Parsed<Bytes>)
    ensures r == ParseString(data)
  {
    hide ParseLen;
    var length := DecodeLen(data);
    match length
    case Malformed => r := Malformed;
    case Parsed(n, rest) => r := if n > |rest| then Malformed else Parsed(rest[..n], rest[n..]);
  }

  method WidenIndexes(b: Bytes) returns (r: seq<Index>)
    ensures r == Widened(b)
  {
    r := [];
    for i := 0 to |b|
      invariant r == Widened(b)[..i]
    {
      r := r + [b[i]];
    }
  }

  method DecodeInstruction(data: Bytes) returns (r: Parsed<Instruction>)
    ensures r == ParseInstruction(data)
  {
    hide ParseString, Widened;
    if |data| == 0 { return Malformed; }
    var accounts := DecodeString(data[1..]);
    if accounts == Malformed { return Malformed; }
    var indexes := WidenIndexes(accounts.value);
    var payload := DecodeString(accounts.rest);
    if payload == Malformed { return Malformed; }
    r := Parsed(Instruction(data[0], indexes, payload.value), payload.rest);
  }

  /** The loop over instructions. */
  method DecodeInstructions(data: Bytes, n: nat) returns (r: Parsed<seq<Instruction>>)
    ensures r == ParseInstructions(data, n)
  {
    hide ParseInstruction;
    var list, rest := [], data;
    PrependNothing(ParseInstructions(data, n));
    for i := 0 to n
      invariant ParseInstructions(data, n) == Prepend(list, ParseInstructions(rest, n - i))
    {
      var next := DecodeInstruction(rest);
      PrependMore(list, rest, n - i);
      if next == Malformed { return Malformed; }
      list, rest := list + [next.value], next.rest;
    }
    assert list + [] == list;
    r := Parsed(list, rest);
  }

  function Prepend<T>(list: seq<T>, more: Parsed<seq<T>>): (r: Parsed<seq<T>>) {
    if more.Malformed? then Malformed else Parsed(list + more.value, more.rest)
  }

  lemma {:induction false} PrependNothing<T>(more: Parsed<seq<T>>)
    ensures Prepend([], more) == more
  {
    assert more.Parsed? ==> [] + more.value == more.value;
  }

  lemma {:induction false} PrependMore(list: seq<Instruction>, data: Bytes, n: nat)
    requires n > 0
    ensures var next := ParseInstruction(data);
      Prepend(list, ParseInstructions(data, n)) ==
      if next.Malformed? then Malformed else Prepend(list + [next.value], ParseInstructions(next.rest, n - 1))
  {
    hide ParseInstruction;
    match ParseInstruction(data)
    case Malformed =>
    case Parsed(first, rest) =>
      match ParseInstructions(rest, n - 1)
      case Malformed =>
      case Parsed(others, _) => assert list + ([first] + others) == (list + [first]) + others;
  }

  /** unmarshalBody. */
  method DecodeBody(data: Bytes, version: Version) returns (r: Parsed<Message>)
    ensures r == ParseBody(data, version)
  {
    hide ParseCounted, ParseLen, ParseInstructions;
    if |data| < 3 { return Malformed; }
    var keys := DecodeCounted(data[3..], 32);
    if keys == Malformed || |keys.rest| < 32 { return Malformed; }
    var count := DecodeLen(keys.rest[32..]);
    if count == Malformed || count.value > |count.rest| { return Malformed; }
    var instructions := DecodeInstructions(count.rest, count.value);
    if instructions == Malformed { return Malformed; }
    r := Parsed(Message(version, Header(data[0], data[1], data[2]), keys.value, keys.rest[..32], instructions.value,
                        []), instructions.rest);
  }

  method DecodeLookup(data: Bytes) returns (r: Parsed<Lookup>)
    ensures r == ParseLookup(data)
  {
    hide ParseString;
    if |data| < 32 { return Malformed; }
    var writable := DecodeString(data[32..]);
    if writable == Malformed { return Malformed; }
    var readonly := DecodeString(writable.rest);
    if readonly == Malformed { return Malformed; }
    r := Parsed(Lookup(data[..32], writable.value, readonly.value), readonly.rest);
  }

  lemma {:induction false} PrependLookup(list: seq<Lookup>, data: Bytes, n: nat)
    requires n > 0
    ensures var next := ParseLookup(data);
      Prepend(list, ParseLookups(data, n)) ==
      if next.Malformed? then Malformed else Prepend(list + [next.value], ParseLookups(next.rest, n - 1))
  {
    hide ParseLookup;
    match ParseLookup(data)
    case Malformed =>
    case Parsed(first, rest) =>
      match ParseLookups(rest, n - 1)
      case Malformed =>
      case Parsed(others, _) => assert list + ([first] + others) == (list + [first]) + others;
  }

  /** unmarshalLookups. */
  method DecodeTables(data: Bytes) returns (r: Parsed<seq<Lookup>>)
    ensures r == ParseTables(data)
  {
    hide ParseLookup, ParseLen;
    var count := DecodeLen(data);
    if count == Malformed { return Malformed; }
    var n := count.value;
    if n == 0 { return Parsed([], count.rest); }
    if n > |count.rest| / 34 { return Malformed; }
    var list, rest := [], count.rest;
    PrependNothing(ParseLookups(rest, n));
    for i := 0 to n
      invariant ParseLookups(count.rest, n) == Prepend(list, ParseLookups(rest, n - i))
    {
      var next := DecodeLookup(rest);
      PrependLookup(list, rest, n - i);
      if next == Malformed { return Malformed; }
      list, rest := list + [next.value], next.rest;
    }
    assert list + [] == list;
    r := Parsed(list, rest);
  }

  /** unmarshalBinaryConsumed of a message: the bytes consumed are everything in front of what is left. */
  method UnmarshalMessage(data: Bytes) returns (r: Parsed<Message>, consumed: nat)
    ensures r == ParseMessage(data)
    ensures r.Parsed? ==> consumed <= |data| && data[..consumed] == EncodeMessage(r.value) && data[consumed..] == r.rest
  {
    r := DecodeMessage(data);
    consumed := 0;
    if r.Parsed? {
      hide ParseMessage, PutMessage, MessageCarried;
      MessagePrinted(data);
      MessageBytes(r.value, r.rest);
      consumed := |data| - |r.rest|;
      assert data == EncodeMessage(r.value) + r.rest;
    }
  }

  method DecodeMessage(data: Bytes) returns (r: Parsed<Message>)
    ensures r == ParseMessage(data)
  {
    hide ParseBody, ParseTables;
    if |data| == 0 { return Malformed; }
    if data[0] >= 128 {
      if data[0] % 128 != 0 { return Malformed; }
      var body := DecodeBody(data[1..], V0);
      if body == Malformed { return Malformed; }
      var lookups := DecodeTables(body.rest);
      if lookups == Malformed { return Malformed; }
      r := Parsed(body.value.(lookups := lookups.value), lookups.rest);
    } else {
      r := DecodeBody(data, Legacy);
    }
  }

  /** unmarshalBinaryConsumed of a transaction. */
  method UnmarshalTransaction(data: Bytes) returns (r: Parsed<Transaction>, consumed: nat)
    ensures r == ParseTransaction(data)
    ensures r.Parsed? ==> consumed <= |data| && data[consumed..] == r.rest
  {
    hide ParseCounted, ParseMessage;
    consumed := 0;
    var signatures := DecodeCounted(data, 64);
    if signatures == Malformed { return Malformed, 0; }
    var m, used := UnmarshalMessage(signatures.rest);
    if m == Malformed { return Malformed, 0; }
    r := Parsed(Transaction(signatures.value, m.value), m.rest);
    CountedRest(data, 64);
    consumed := |data| - |signatures.rest| + used;
  }

  lemma {:induction false} CountedRest(data: Bytes, w: nat)
    requires w > 0
    ensures var r := ParseCounted(data, w); r.Parsed? ==> |r.rest| <= |data| && data[|data| - |r.rest|..] == r.rest
  {
    hide ParseCounted, PutCounted;
    CountedPrinted(data, w);
    var r := ParseCounted(data, w);
    if r.Parsed? {
      CountedAppend(r.value, [], r.rest);
      assert [] + r.rest == r.rest;
    }
  }
}
