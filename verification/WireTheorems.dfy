/**
 What the message and transaction codecs promise as a whole: exact round trips, canonical encodings, and walking
 concatenated transactions.
 */
module WireTheorems {
  import opened ByteStrings
  import opened Varints
  import opened WireFormat

  // ----- what is in front of the tail does not depend on it -----

  lemma {:induction false} StringAppend(b: Bytes, more: Bytes, tail: Bytes)
    ensures PutString(b, more + tail) == PutString(b, more) + tail
  {
    assert Encode(|b|) + (b + (more + tail)) == (Encode(|b|) + (b + more)) + tail;
  }

  lemma {:induction false} AllAppend(items: seq<Bytes>, more: Bytes, tail: Bytes)
    ensures PutAll(items, more + tail) == PutAll(items, more) + tail
    decreases |items|
  {
    if items != [] {
      AllAppend(items[1..], more, tail);
      assert items[0] + (PutAll(items[1..], more) + tail) == (items[0] + PutAll(items[1..], more)) + tail;
    }
  }

  lemma {:induction false} CountedAppend(items: seq<Bytes>, more: Bytes, tail: Bytes)
    ensures PutCounted(items, more + tail) == PutCounted(items, more) + tail
  {
    hide Encode, PutAll;
    AllAppend(items, more, tail);
    assert Encode(|items|) + (PutAll(items, more) + tail) == (Encode(|items|) + PutAll(items, more)) + tail;
  }

  lemma {:induction false} InstructionAppend(ins: Instruction, more: Bytes, tail: Bytes)
    ensures PutInstruction(ins, more + tail) == PutInstruction(ins, more) + tail
  {
    hide PutString, Lows;
    var accounts := Lows(ins.accounts);
    StringAppend(ins.data, more, tail);
    StringAppend(accounts, PutString(ins.data, more), tail);
    var p := [ins.program % 256];
    assert p + (PutString(accounts, PutString(ins.data, more)) + tail)
           == (p + PutString(accounts, PutString(ins.data, more))) + tail;
  }

  lemma {:induction false} InstructionsAppend(list: seq<Instruction>, more: Bytes, tail: Bytes)
    ensures PutInstructions(list, more + tail) == PutInstructions(list, more) + tail
    decreases |list|
  {
    hide PutInstruction;
    if list != [] {
      InstructionsAppend(list[1..], more, tail);
      InstructionAppend(list[0], PutInstructions(list[1..], more), tail);
    }
  }

  lemma {:induction false} ProgramAppend(list: seq<Instruction>, more: Bytes, tail: Bytes)
    ensures PutProgram(list, more + tail) == PutProgram(list, more) + tail
  {
    hide Encode, PutInstructions;
    InstructionsAppend(list, more, tail);
    assert Encode(|list|) + (PutInstructions(list, more) + tail)
           == (Encode(|list|) + PutInstructions(list, more)) + tail;
  }

  lemma {:induction false} LookupAppend(l: Lookup, more: Bytes, tail: Bytes)
    ensures PutLookup(l, more + tail) == PutLookup(l, more) + tail
  {
    hide PutString;
    StringAppend(l.readonly, more, tail);
    StringAppend(l.writable, PutString(l.readonly, more), tail);
    var w := PutString(l.writable, PutString(l.readonly, more));
    assert l.key + (w + tail) == (l.key + w) + tail;
  }

  lemma {:induction false} LookupsAppend(list: seq<Lookup>, more: Bytes, tail: Bytes)
    ensures PutLookups(list, more + tail) == PutLookups(list, more) + tail
    decreases |list|
  {
    hide PutLookup;
    if list != [] {
      LookupsAppend(list[1..], more, tail);
      LookupAppend(list[0], PutLookups(list[1..], more), tail);
    }
  }

  lemma {:induction false} TablesAppend(list: seq<Lookup>, more: Bytes, tail: Bytes)
    ensures PutTables(list, more + tail) == PutTables(list, more) + tail
  {
    hide Encode, PutLookups;
    LookupsAppend(list, more, tail);
    assert Encode(|list|) + (PutLookups(list, more) + tail) == (Encode(|list|) + PutLookups(list, more)) + tail;
  }

  lemma {:induction false} BodyAppend(m: Message, more: Bytes, tail: Bytes)
    ensures PutBody(m, more + tail) == PutBody(m, more) + tail
  {
    hide PutCounted, PutProgram;
    ProgramAppend(m.instructions, more, tail);
    var program := PutProgram(m.instructions, more);
    assert m.blockhash + (program + tail) == (m.blockhash + program) + tail;
    CountedAppend(m.keys, m.blockhash + program, tail);
    var h := [m.header.required, m.header.readonlySigned, m.header.readonlyUnsigned];
    var c := PutCounted(m.keys, m.blockhash + program);
    assert h + (c + tail) == (h + c) + tail;
  }

  lemma {:induction false} MessageAppend(m: Message, more: Bytes, tail: Bytes)
    ensures PutMessage(m, more + tail) == PutMessage(m, more) + tail
  {
    hide PutBody, PutTables;
    TablesAppend(m.lookups, more, tail);
    BodyAppend(m, more, tail);
    BodyAppend(m, PutTables(m.lookups, more), tail);
    var b := PutBody(m, PutTables(m.lookups, more));
    assert [128] + (b + tail) == ([128] + b) + tail;
  }

  lemma {:induction false} TransactionAppend(tx: Transaction, more: Bytes, tail: Bytes)
    ensures PutTransaction(tx, more + tail) == PutTransaction(tx, more) + tail
  {
    hide PutCounted, PutMessage, Padded;
    MessageAppend(tx.message, more, tail);
    CountedAppend(Padded(tx), PutMessage(tx.message, more), tail);
  }

  // ----- messages -----

  function EncodeMessage(m: Message): (r: Bytes) {
    PutMessage(m, [])
  }

  lemma {:induction false} MessageBytes(m: Message, tail: Bytes)
    ensures PutMessage(m, tail) == EncodeMessage(m) + tail
  {
    hide PutMessage;
    MessageAppend(m, [], tail);
    assert [] + tail == tail;
  }

  /** The decoder reads m from the first k bytes exactly when those are the encoding of m and the format can carry m:
      round trip, exact consumption and canonicity in one. */
  lemma {:induction false} MessageExact(data: Bytes, m: Message, k: nat)
    requires k <= |data|
    ensures ParseMessage(data) == Parsed(m, data[k..]) <==> MessageCarried(m) && data[..k] == EncodeMessage(m)
  {
    hide PutMessage, ParseMessage, MessageCarried;
    var rest := data[k..];
    assert data == data[..k] + rest;
    MessageBytes(m, rest);
    if ParseMessage(data) == Parsed(m, rest) {
      MessagePrinted(data);
      assert EncodeMessage(m) == (EncodeMessage(m) + rest)[..k];
    }
    if MessageCarried(m) && data[..k] == EncodeMessage(m) {
      MessageParses(m, rest);
    }
  }

  /** The messages that survive a round trip are exactly those the format can carry. */
  lemma {:induction false} MessageRoundTrip(m: Message, tail: Bytes)
    ensures ParseMessage(EncodeMessage(m) + tail) == Parsed(m, tail) <==> MessageCarried(m)
  {
    hide PutMessage, ParseMessage, MessageCarried;
    var data, k := EncodeMessage(m) + tail, |EncodeMessage(m)|;
    assert data[..k] == EncodeMessage(m) && data[k..] == tail;
    MessageExact(data, m, k);
  }

  // ----- transactions -----

  function EncodeTransaction(tx: Transaction): (r: Bytes) {
    PutTransaction(tx, [])
  }

  lemma {:induction false} TransactionBytes(tx: Transaction, tail: Bytes)
    ensures PutTransaction(tx, tail) == EncodeTransaction(tx) + tail
  {
    hide PutTransaction;
    TransactionAppend(tx, [], tail);
    assert [] + tail == tail;
  }

  predicate FullySigned(tx: Transaction) {
    |tx.signatures| >= tx.message.header.required
  }

  /** A transaction survives a round trip exactly when the format can carry it and no signature is missing. */
  lemma {:induction false} TransactionRoundTrip(tx: Transaction, tail: Bytes)
    ensures ParseTransaction(EncodeTransaction(tx) + tail) == Parsed(tx, tail)
            <==> TransactionCarried(tx) && FullySigned(tx)
  {
    hide PutTransaction, ParseTransaction, TransactionCarried;
    TransactionBytes(tx, tail);
    if TransactionCarried(tx) {
      TransactionParses(tx, tail);
    } else {
      TransactionPrinted(EncodeTransaction(tx) + tail);
    }
  }

  /** Whatever the decoder accepts is the encoding of what it returns, unless signatures are missing: then encoding
      pads them. */
  lemma {:induction false} TransactionCanonical(data: Bytes)
    ensures var r := ParseTransaction(data);
      r.Parsed? ==>
        TransactionCarried(r.value) && (data == EncodeTransaction(r.value) + r.rest <==> FullySigned(r.value))
  {
    hide ParseTransaction, TransactionCarried, PutTransaction;
    TransactionPrinted(data);
    var r := ParseTransaction(data);
    if r.Parsed? {
      TransactionBytes(r.value, r.rest);
      TransactionRoundTrip(r.value, r.rest);
      SignedPut(r.value, r.rest);
    }
  }

  lemma {:induction false} SignedPut(tx: Transaction, tail: Bytes)
    ensures FullySigned(tx) ==> PutTransaction(tx, tail) == PutCounted(tx.signatures, PutMessage(tx.message, tail))
  {
    hide PutMessage, PutCounted;
  }

  /** The bytes of a transaction with the signatures it has, however few, are accepted as that transaction; encoding it
      gives them back exactly when none is missing. */
  lemma {:induction false} ShortAccepted(tx: Transaction, tail: Bytes)
    requires TransactionCarried(tx)
    ensures var data := PutCounted(tx.signatures, PutMessage(tx.message, tail));
            ParseTransaction(data) == Parsed(tx, tail) && (data == EncodeTransaction(tx) + tail <==> FullySigned(tx))
  {
    hide PutCounted, ParseCounted, PutMessage, ParseMessage, MessageCarried, PutTransaction, FullySigned;
    CountedParses(tx.signatures, 64, PutMessage(tx.message, tail));
    MessageParses(tx.message, tail);
    TransactionCanonical(PutCounted(tx.signatures, PutMessage(tx.message, tail)));
  }

  /** 38 bytes that ask for one signature and hold none: accepted, and not what they encode to. */
  lemma {:induction false} UnsignedNotCanonical(data: Bytes)
    requires data == [0, 1, 0, 0, 0] + seq(32, _ => 0) + [0]
    ensures ParseTransaction(data).Parsed? && ParseTransaction(data).rest == []
    ensures data != EncodeTransaction(ParseTransaction(data).value)
  {
    var blockhash: Key := seq(32, _ => 0);
    var m := Message(Legacy, Header(1, 0, 0), [], blockhash, [], []);
    var tx := Transaction([], m);
    assert PutProgram([], []) == [0] by {
      assert Encode(0) == [0];
    }
    assert PutCounted([], blockhash + [0]) == [0] + (blockhash + [0]);
    assert PutMessage(m, []) == [1, 0, 0] + ([0] + (blockhash + [0]));
    assert PutCounted([], PutMessage(m, [])) == [0] + PutMessage(m, []) == data;
    ShortAccepted(tx, []);
    assert EncodeTransaction(tx) + [] == EncodeTransaction(tx);
  }

  // ----- buffers of concatenated transactions -----

  function Concatenated(txs: seq<Transaction>): (r: Bytes) {
    if txs == [] then [] else EncodeTransaction(txs[0]) + Concatenated(txs[1..])
  }

  /** Taking n transactions off the front, one after the other. */
  function Walk(data: Bytes, n: nat): (r: Parsed<seq<Transaction>>)
    decreases n
  {
    if n == 0 then Parsed([], data)
    else
      match ParseTransaction(data)
      case Malformed => Malformed
      case Parsed(tx, rest) =>
        match Walk(rest, n - 1)
        case Malformed => Malformed
        case Parsed(txs, rest') => Parsed([tx] + txs, rest')
  }

  lemma {:induction false} WalkRecovers(txs: seq<Transaction>, tail: Bytes)
    requires forall i :: 0 <= i < |txs| ==> TransactionCarried(txs[i]) && FullySigned(txs[i])
    ensures Walk(Concatenated(txs) + tail, |txs|) == Parsed(txs, tail)
    decreases |txs|
  {
    hide ParseTransaction, TransactionCarried, FullySigned, EncodeTransaction;
    if txs == [] {
      assert [] + tail == tail;
    } else {
      var first, others := txs[0], txs[1..];
      assert forall i :: 0 <= i < |others| ==> others[i] == txs[i + 1];
      WalkRecovers(others, tail);
      TransactionRoundTrip(first, Concatenated(others) + tail);
      assert Concatenated(txs) + tail == EncodeTransaction(first) + (Concatenated(others) + tail);
      assert [first] + others == txs;
    }
  }
}
