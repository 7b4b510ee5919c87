/**
 Moving encrypted amounts (programs/token-2022/confidential_composed.go, confidential_mint_burn_composed.go): the new
 balance is computed twice, in the clear and on the ciphertext, and three proofs say so. The two stay in step over any
 run of operations, every recipient can decrypt what was moved, and the proofs verify.
 */
module ConfidentialTransfers {
  import opened Wrappers
  import opened Words
  import opened Residues
  import opened Vectors
  import opened Transcripts
  import InnerProduct
  import opened RangeProof
  import opened ElGamal
  import opened SigmaProofs
  import opened EqualityProofs
  import opened ValidityProofs
  import Data = RangeProofData

  /** Sixteen low bits and thirty-two high bits; more is refused. */
  function SplitAmount(amount: nat): (r: Option<(nat, nat)>)
    ensures r.Some? <==> amount < WORD48
    ensures r.Some? ==> r.value.0 < SPLIT && r.value.1 < WORD32 && r.value.0 + r.value.1 * SPLIT == amount
  {
    if amount >= WORD48 then None else Some((amount % SPLIT, amount / SPLIT))
  }

  /** What one operation computes. */
  datatype Moved = Moved(lo: nat, hi: nat, groupedLo: Vector, groupedHi: Vector, newAmount: nat, newCt: Ciphertext)

  /** confidentialAmountAfterOperation. */
  function AfterOperation(p: Params, current: nat, amount: nat, ct: Ciphertext, amountCt: Ciphertext,
                          add: bool): (r: Option<(nat, Ciphertext)>)
    requires p.m > 0
  {
    if add then
      if current + amount >= WORD64 then None else Some((current + amount, AddCiphertexts(p, ct, amountCt)))
    else
      if current < amount then None else Some((current - amount, SubtractCiphertexts(p, ct, amountCt)))
  }

  /** The first half of generateConfidentialAmountProofValues: split, encrypt for all keys, combine for one, apply. */
  function Move(p: Params, ct: Ciphertext, current: nat, amount: nat, keys: Vector, handle: nat, add: bool, rLo: Scalar,
                rHi: Scalar): (r: Option<Moved>)
    requires p.m > 0 && handle < |keys|
  {
    var split := SplitAmount(amount);
    if split == None then None
    else
      var (lo, hi) := split.value;
      var groupedLo, groupedHi := Encrypt(p, keys, lo, rLo), Encrypt(p, keys, hi, rHi);
      var amountCt := CombineCiphertexts(p, HandleOf(groupedLo, handle), HandleOf(groupedHi, handle));
      var after := AfterOperation(p, current, amount, ct, amountCt, add);
      if after == None then None else Some(Moved(lo, hi, groupedLo, groupedHi, after.value.0, after.value.1))
  }

  /** Every recipient's two halves decrypt and combine to exactly the amount. */
  lemma {:induction false} RecipientGetsAmount(p: Params, keys: Vector, amount: nat, lo: nat, hi: nat, rLo: Scalar,
                                               rHi: Scalar, i: nat, secret: Scalar)
    requires Prime(p.m) && i < |keys| && !IsIdentity(p.m, secret) && keys[i] == PublicKey(p, secret)
             && lo + hi * SPLIT == amount
    ensures var low, high := HandleOf(Encrypt(p, keys, lo, rLo), i), HandleOf(Encrypt(p, keys, hi, rHi), i);
      && Decrypts(p, secret, low, lo) && Decrypts(p, secret, high, hi)
      && Decrypts(p, secret, CombineCiphertexts(p, low, high), amount)
  {
    hide Encrypt, Decrypts, PublicKey, CombineCiphertexts;
    EncryptDecrypts(p, keys, lo, rLo, i, secret);
    EncryptDecrypts(p, keys, hi, rHi, i, secret);
    CombineDecrypts(p, secret, HandleOf(Encrypt(p, keys, lo, rLo), i), lo, HandleOf(Encrypt(p, keys, hi, rHi), i), hi);
  }

  /** A ciphertext in step with its plaintext stays in step, the amount moved is exact, and only an amount beyond 48
      bits, an overflow or a lack of funds is refused. */
  lemma {:induction false} MoveKeepsStep(p: Params, ct: Ciphertext, current: nat, amount: nat, keys: Vector,
                                         handle: nat, add: bool, rLo: Scalar, rHi: Scalar, secret: Scalar)
    requires Prime(p.m) && handle < |keys| && !IsIdentity(p.m, secret) && keys[handle] == PublicKey(p, secret)
    requires Decrypts(p, secret, ct, current)
    ensures var r := Move(p, ct, current, amount, keys, handle, add, rLo, rHi);
      && (r.Some? <==> amount < WORD48 && (if add then current + amount < WORD64 else amount <= current))
      && (r.Some? ==> r.value.newAmount == (if add then current + amount else current - amount))
      && (r.Some? ==> Decrypts(p, secret, r.value.newCt, r.value.newAmount))
      && (r.Some? ==> r.value.lo < SPLIT && r.value.hi < WORD32 && r.value.lo + r.value.hi * SPLIT == amount)
  {
    hide Encrypt, Decrypts, PublicKey, CombineCiphertexts, IsIdentity, AddCiphertexts, SubtractCiphertexts;
    var split := SplitAmount(amount);
    if split.Some? {
      var (lo, hi) := split.value;
      RecipientGetsAmount(p, keys, amount, lo, hi, rLo, rHi, handle, secret);
      var amountCt := CombineCiphertexts(p, HandleOf(Encrypt(p, keys, lo, rLo), handle),
                                         HandleOf(Encrypt(p, keys, hi, rHi), handle));
      AddDecrypts(p, secret, ct, current, amountCt, amount);
      SubtractDecrypts(p, secret, ct, current, amountCt, amount);
    }
  }

  // ----- runs -----

  /** Transfers and burns take from the balance, mints add to it, withdrawals take a public amount. */
  datatype Operation =
    | Hidden(amount: nat, keys: Vector, handle: nat, add: bool, rLo: Scalar, rHi: Scalar)
    | Withdraw(amount: nat)

  datatype Balance = Balance(amount: nat, ct: Ciphertext)

  /** The handle names one of the keys. */
  predicate Indexed(op: Operation) {
    op.Hidden? ==> op.handle < |op.keys|
  }

  /** An operation of the owner: that key is the owner's. */
  predicate Owned(p: Params, secret: Scalar, op: Operation)
    requires p.m > 0
  {
    Indexed(op) && (op.Hidden? ==> op.keys[op.handle] == PublicKey(p, secret))
  }

  /** A refused operation leaves the balance alone. */
  function Apply(p: Params, b: Balance, op: Operation): (r: Balance)
    requires p.m > 0 && Indexed(op)
  {
    match op
    case Hidden(amount, keys, handle, add, rLo, rHi) =>
      var m := Move(p, b.ct, b.amount, amount, keys, handle, add, rLo, rHi);
      if m == None then b else Balance(m.value.newAmount, m.value.newCt)
    case Withdraw(amount) =>
      if b.amount < amount then b else Balance(b.amount - amount, SubtractAmount(p, b.ct, amount))
  }

  function ApplyAll(p: Params, b: Balance, ops: seq<Operation>): (r: Balance)
    requires p.m > 0 && forall op :: op in ops ==> Indexed(op)
    decreases |ops|
  {
    if ops == [] then b else Apply(p, ApplyAll(p, b, ops[..|ops| - 1]), ops[|ops| - 1])
  }

  /** What an operation does to the plain amount. */
  function Change(b: Balance, op: Operation): (d: int) {
    match op
    case Withdraw(amount) => if amount <= b.amount then -(amount as int) else 0
    case Hidden(amount, _, _, add, _, _) =>
      if amount >= WORD48 then 0
      else if add then (if b.amount + amount < WORD64 then amount else 0)
      else (if amount <= b.amount then -(amount as int) else 0)
  }

  lemma {:induction false} ApplyKeepsStep(p: Params, secret: Scalar, b: Balance, op: Operation)
    requires Prime(p.m) && !IsIdentity(p.m, secret) && Owned(p, secret, op) && b.amount < WORD64
             && Decrypts(p, secret, b.ct, b.amount)
    ensures var r := Apply(p, b, op);
      Decrypts(p, secret, r.ct, r.amount) && r.amount == b.amount + Change(b, op) && r.amount < WORD64
  {
    hide Decrypts, PublicKey, IsIdentity, Move, SubtractAmount;
    match op
    case Hidden(amount, keys, handle, add, rLo, rHi) =>
      MoveKeepsStep(p, b.ct, b.amount, amount, keys, handle, add, rLo, rHi, secret);
    case Withdraw(amount) =>
      SubtractAmountDecrypts(p, secret, b.ct, b.amount, amount);
  }

  /** What a run does to the plain amount: what each operation does to what it finds. */
  function Flow(p: Params, b: Balance, ops: seq<Operation>): (d: int)
    requires p.m > 0 && forall op :: op in ops ==> Indexed(op)
    decreases |ops|
  {
    if ops == [] then 0
    else
      var n := |ops| - 1;
      Flow(p, b, ops[..n]) + Change(ApplyAll(p, b, ops[..n]), ops[n])
  }

  /** Over every run of operations the ciphertext decrypts to the plain amount, which stays within 64 bits and has
      changed by just what the operations moved. */
  lemma {:induction false} RunKeepsStep(p: Params, secret: Scalar, b: Balance, ops: seq<Operation>)
    requires Prime(p.m) && !IsIdentity(p.m, secret) && b.amount < WORD64 && Decrypts(p, secret, b.ct, b.amount)
    requires forall op :: op in ops ==> Indexed(op) && Owned(p, secret, op)
    ensures var r := ApplyAll(p, b, ops);
      Decrypts(p, secret, r.ct, r.amount) && r.amount == b.amount + Flow(p, b, ops) && r.amount < WORD64
    decreases |ops|
  {
    hide Decrypts, IsIdentity, Apply, Change;
    if ops != [] {
      var n := |ops| - 1;
      assert forall op :: op in ops[..n] ==> op in ops;
      RunKeepsStep(p, secret, b, ops[..n]);
      assert ops[n] in ops;
      ApplyKeepsStep(p, secret, ApplyAll(p, b, ops[..n]), ops[n]);
    }
  }

  // ----- the proofs -----

  /** The openings and nonces one operation draws. */
  datatype Randomness = Randomness(lo: Scalar, hi: Scalar, renewed: Scalar, padding: Scalar, equality: Vector,
                                   validity: Vector, range: Nonces)

  predicate WellDrawn(m: int, r: Randomness, size: nat) {
    && |r.equality| == 3 && |r.validity| == 2 && |r.range.sLeft| == |r.range.sRight| == size
    && Decodes(m, r.lo) && Decodes(m, r.hi) && Decodes(m, r.renewed) && Decodes(m, r.padding)
  }

  const AMOUNT_BITS: seq<nat> := [64, 16, 32, 16]

  function NewCommitment(p: Params, amount: nat, opening: Scalar): (c: Point)
    requires p.m > 0
  {
    Canon(p.m, Commit(p, amount, opening))
  }

  /** The equality proof: the new ciphertext and a fresh commitment hold the new amount. */
  function EqualityOf(p: Params, secret: Scalar, m: Moved, r: Randomness): (proof: Option<SigmaProof>)
    requires p.m > 0 && |r.equality| == 3
    ensures proof.Some? ==> |proof.value.announced| == 3 && |proof.value.responses| == 3
  {
    GenerateCommitmentEquality(p, secret, PublicKey(p, secret), m.newCt, NewCommitment(p, m.newAmount, r.renewed),
                               r.renewed, m.newAmount, r.equality)
  }

  function ValidityOf(p: Params, tag: string, keys: Vector, m: Moved, r: Randomness): (proof: Option<SigmaProof>)
    requires p.m > 0 && |r.validity| == 2
    ensures proof.Some? ==> |proof.value.announced| == |keys| + 1 && |proof.value.responses| == 2
  {
    GenerateValidity(p, tag, keys, [m.groupedLo, m.groupedHi], [m.lo, m.hi], [r.lo, r.hi], r.validity)
  }

  function RangeCommitments(p: Params, m: Moved, r: Randomness): (cs: Vector)
    requires p.m > 0 && |m.groupedLo| > 0 && |m.groupedHi| > 0
    ensures |cs| == 4
  {
    [NewCommitment(p, m.newAmount, r.renewed), m.groupedLo[0], m.groupedHi[0], NewCommitment(p, 0, r.padding)]
  }

  function RangeAmounts(m: Moved): (xs: seq<nat>)
    ensures |xs| == 4
  {
    [m.newAmount, m.lo, m.hi, 0]
  }

  function RangeOpenings(r: Randomness): (os: Vector)
    ensures |os| == 4
  {
    [r.renewed, r.lo, r.hi, r.padding]
  }

  /** A successful move is what Move computes from its inputs. */
  lemma {:induction false} MovedIs(p: Params, ct: Ciphertext, current: nat, amount: nat, keys: Vector, handle: nat,
                                   add: bool, rLo: Scalar, rHi: Scalar)
    requires p.m > 0 && handle < |keys| && Move(p, ct, current, amount, keys, handle, add, rLo, rHi).Some?
    ensures var m := Move(p, ct, current, amount, keys, handle, add, rLo, rHi).value;
      m.groupedLo == Encrypt(p, keys, m.lo, rLo) && m.groupedHi == Encrypt(p, keys, m.hi, rHi)
  {
  }

  /** The equality and validity proofs of any move are generated and verify, unless a checked point is the identity. */
  lemma {:induction false} MoveProofsVerify(p: Params, tag: string, secret: Scalar, ct: Ciphertext, current: nat,
                                            amount: nat, keys: Vector, handle: nat, add: bool, r: Randomness)
    requires Prime(p.m) && handle < |keys| && !IsIdentity(p.m, secret) && keys[handle] == PublicKey(p, secret)
    requires Decrypts(p, secret, ct, current) && |r.equality| == 3 && |r.validity| == 2
    requires Move(p, ct, current, amount, keys, handle, add, r.lo, r.hi).Some?
    ensures var m := Move(p, ct, current, amount, keys, handle, add, r.lo, r.hi).value;
      var commitment := NewCommitment(p, m.newAmount, r.renewed);
      var equality, validity := EqualityOf(p, secret, m, r), ValidityOf(p, tag, keys, m, r);
      && equality.Some? && validity.Some?
      && (VerifyCommitmentEquality(p, keys[handle], m.newCt, commitment, equality.value) <==>
          ProperPoints(p.m, [keys[handle], m.newCt.commitment, m.newCt.handle, commitment])
              && ProperPoints(p.m, equality.value.announced))
      && |m.groupedLo| == |m.groupedHi| == |keys| + 1
      && (VerifyValidity(p, tag, keys, [m.groupedLo, m.groupedHi], validity.value) <==>
          PointsAccepted(p.m, keys, [m.groupedLo, m.groupedHi], validity.value.announced))
  {
    hide Encrypt, Decrypts, PublicKey, IsIdentity, ProperPoints, PointsAccepted, Canon, Move,
         GenerateCommitmentEquality, GenerateValidity, VerifyValidity, VerifyCommitmentEquality, Commit;
    var m := Move(p, ct, current, amount, keys, handle, add, r.lo, r.hi).value;
    MoveKeepsStep(p, ct, current, amount, keys, handle, add, r.lo, r.hi, secret);
    MovedIs(p, ct, current, amount, keys, handle, add, r.lo, r.hi);
    var commitment := NewCommitment(p, m.newAmount, r.renewed);
    CommitmentEqualityComplete(p, secret, keys[handle], m.newCt, commitment, r.renewed, m.newAmount, r.equality);
    ValidityComplete(p, tag, keys, [m.groupedLo, m.groupedHi], [m.lo, m.hi], [r.lo, r.hi], r.validity);
    assert ValidityWitness(p, keys, [m.groupedLo, m.groupedHi], [m.lo, m.hi], [r.lo, r.hi]);
  }

  lemma {:induction false} BitBounds()
    ensures Pow(2, 16) == SPLIT && Pow(2, 32) == WORD32 && Pow(2, 64) == WORD64
    ensures Total(AMOUNT_BITS) == 128
  {
    assert Pow(2, 8) == 256 by { assert Pow(2, 4) == 16; }
    PowAdd(2, 8, 8);
    PowAdd(2, 16, 16);
    PowAdd(2, 32, 32);
    TotalFour(64, 16, 32, 16);
  }

  lemma {:induction false} TotalFour(a: nat, b: nat, c: nat, d: nat)
    ensures Total([a, b, c, d]) == a + b + c + d
  {
    assert [a, b, c, d][..3] == [a, b, c] && [a, b, c][..2] == [a, b] && [a, b][..1] == [a] && [a][..0] == [];
    assert Total([a]) == a;
    assert Total([a, b]) == a + b;
    assert Total([a, b, c]) == a + b + c;
  }

  /** The range proof of any move: all four values fit their bit lengths, so it is generated and accepted unless one of
      the commitments or a point of the proof is the identity. */
  lemma {:induction false} MoveRangeVerifies(p: Params, secret: Scalar, ct: Ciphertext, current: nat, amount: nat,
                                             keys: Vector, handle: nat, add: bool, r: Randomness)
    requires Prime(p.m) && handle < |keys| && !IsIdentity(p.m, secret) && keys[handle] == PublicKey(p, secret)
    requires current < WORD64 && Decrypts(p, secret, ct, current) && WellDrawn(p.m, r, 128)
    requires Move(p, ct, current, amount, keys, handle, add, r.lo, r.hi).Some?
    requires var m := Move(p, ct, current, amount, keys, handle, add, r.lo, r.hi).value;
      |m.groupedLo| > 0 && |m.groupedHi| > 0 && ProperPoints(p.m, RangeCommitments(p, m, r))
    requires var m := Move(p, ct, current, amount, keys, handle, add, r.lo, r.hi).value;
      Shape(RangeAmounts(m), AMOUNT_BITS, RangeOpenings(r), r.range) ==>
          Data.Usable(p, RangeCommitments(p, m, r), RangeAmounts(m), AMOUNT_BITS, RangeOpenings(r), r.range)
    ensures var m := Move(p, ct, current, amount, keys, handle, add, r.lo, r.hi).value;
      var cs, xs, os := RangeCommitments(p, m, r), RangeAmounts(m), RangeOpenings(r);
      && Shape(xs, AMOUNT_BITS, os, r.range) && Total(AMOUNT_BITS) == 128
      && Data.Generate(p, cs, xs, AMOUNT_BITS, os, r.range).Some?
      && (Data.Verify(p, Data.Generate(p, cs, xs, AMOUNT_BITS, os, r.range).value) <==>
          NoIdentity(p.m, Prove(p, xs, AMOUNT_BITS, os, r.range,
                                Data.ContextTranscript(Data.BuildContext(cs, AMOUNT_BITS))).proof))
  {
    hide Encrypt, Decrypts, PublicKey, IsIdentity, NoIdentity, Move, Commit, Total, Prove, InnerProduct.IsPowerOfTwo,
         Data.Generate, Data.Verify, Data.Usable, Pow;
    var m := Move(p, ct, current, amount, keys, handle, add, r.lo, r.hi).value;
    MoveKeepsStep(p, ct, current, amount, keys, handle, add, r.lo, r.hi, secret);
    MovedIs(p, ct, current, amount, keys, handle, add, r.lo, r.hi);
    BitBounds();
    Data.SizeIsPower(128);
    RangeMatches(p, m, keys, r);
    var cs, xs, os := RangeCommitments(p, m, r), RangeAmounts(m), RangeOpenings(r);
    Data.GeneratedProofComplete(p, cs, xs, AMOUNT_BITS, os, r.range);
  }

  lemma {:induction false} RangeMatches(p: Params, m: Moved, keys: Vector, r: Randomness)
    requires p.m > 0 && m.groupedLo == Encrypt(p, keys, m.lo, r.lo) && m.groupedHi == Encrypt(p, keys, m.hi, r.hi)
    ensures var cs, xs, os := RangeCommitments(p, m, r), RangeAmounts(m), RangeOpenings(r);
      forall i :: 0 <= i < 4 ==> Decodes(p.m, cs[i]) && Cong(p.m, cs[i], Commit(p, xs[i], os[i]))
  {
    CanonCong(p.m, Commit(p, m.newAmount, r.renewed));
    CanonCong(p.m, Commit(p, m.lo, r.lo));
    CanonCong(p.m, Commit(p, m.hi, r.hi));
    CanonCong(p.m, Commit(p, 0, r.padding));
  }
}
