/**
 The transfer with a hidden fee (programs/token-2022/confidential_fee_composed.go, confidential_arithmetic.go):
 commitments to the amount, the fee, what is left and the rounding are derived from one another, and the proofs about
 them verify. Nothing in the flow overflows, wraps or fails once the amount itself was accepted.
 */
module FeeTransfers {
  import opened Wrappers
  import opened Words
  import opened Residues
  import opened Vectors
  import opened Transcripts
  import InnerProduct
  import opened RangeProof
  import opened ElGamal
  import opened SigmaProofs
  import opened EqualityProofs
  import opened ValidityProofs
  import opened PercentageProofs
  import opened Fees
  import opened ConfidentialTransfers
  import Data = RangeProofData

  // ----- arithmetic on commitments and openings -----

  /** c is the commitment to x under r. */
  predicate Opened(p: Params, c: Point, x: int, r: Scalar)
    requires p.m > 0
  {
    c == Canon(p.m, Commit(p, x, r))
  }

  function Plus(m: int, a: int, b: int): (r: int)
    requires m > 0
  {
    Canon(m, a + b)
  }

  function Minus(m: int, a: int, b: int): (r: int)
    requires m > 0
  {
    Canon(m, a - b)
  }

  function Scaled(m: int, a: int, k: nat): (r: int)
    requires m > 0
  {
    Canon(m, a * k)
  }

  /** The low half plus 65536 times the high half, of commitments as of openings. */
  function Joined(m: int, low: int, high: int): (r: int)
    requires m > 0
  {
    Plus(m, low, Scaled(m, high, SPLIT))
  }

  lemma {:induction false} CanonOpening(p: Params, x: int, r: Scalar)
    requires p.m > 0
    ensures Canon(p.m, Commit(p, x, Canon(p.m, r))) == Canon(p.m, Commit(p, x, r))
  {
    CanonCong(p.m, r);
    CongScale(p.m, p.blind, Canon(p.m, r), r);
    CongRefl(p.m, x * p.base);
    CongAdd(p.m, x * p.base, x * p.base, p.blind * Canon(p.m, r), p.blind * r);
    CanonEqual(p.m, Commit(p, x, Canon(p.m, r)), Commit(p, x, r));
  }

  /** A point congruent to a commitment encodes as it. */
  lemma {:induction false} OpenedBy(p: Params, point: Point, x: int, r: Scalar)
    requires p.m > 0 && Cong(p.m, point, Commit(p, x, r))
    ensures Opened(p, Canon(p.m, point), x, Canon(p.m, r))
  {
    CanonEqual(p.m, point, Commit(p, x, r));
    CanonOpening(p, x, r);
  }

  lemma {:induction false} OpenedCong(p: Params, c: Point, x: int, r: Scalar)
    requires p.m > 0 && Opened(p, c, x, r)
    ensures Cong(p.m, c, Commit(p, x, r))
  {
    CanonCong(p.m, Commit(p, x, r));
  }

  lemma {:induction false} PlusOpened(p: Params, c: Point, x: int, r: Scalar, c': Point, x': int, r': Scalar)
    requires p.m > 0 && Opened(p, c, x, r) && Opened(p, c', x', r')
    ensures Opened(p, Plus(p.m, c, c'), x + x', Plus(p.m, r, r'))
  {
    hide Canon;
    OpenedCong(p, c, x, r);
    OpenedCong(p, c', x', r');
    CongAdd(p.m, c, Commit(p, x, r), c', Commit(p, x', r'));
    SumArithmetic(x, x', p.base, r, r', p.blind);
    OpenedBy(p, c + c', x + x', r + r');
  }

  lemma {:induction false} MinusOpened(p: Params, c: Point, x: int, r: Scalar, c': Point, x': int, r': Scalar)
    requires p.m > 0 && Opened(p, c, x, r) && Opened(p, c', x', r')
    ensures Opened(p, Minus(p.m, c, c'), x - x', Minus(p.m, r, r'))
  {
    hide Canon;
    OpenedCong(p, c, x, r);
    OpenedCong(p, c', x', r');
    CongSub(p.m, c, Commit(p, x, r), c', Commit(p, x', r'));
    SumArithmetic(x, x', p.base, r, r', p.blind);
    OpenedBy(p, c - c', x - x', r - r');
  }

  lemma {:induction false} SumArithmetic(x: int, x': int, g: int, r: int, r': int, h: int)
    ensures (x + x') * g + (r + r') * h == (x * g + r * h) + (x' * g + r' * h)
    ensures (x - x') * g + (r - r') * h == (x * g + r * h) - (x' * g + r' * h)
  {
  }

  lemma {:induction false} ScaledOpened(p: Params, c: Point, x: int, r: Scalar, k: nat)
    requires p.m > 0 && Opened(p, c, x, r)
    ensures Opened(p, Scaled(p.m, c, k), x * k, Scaled(p.m, r, k))
  {
    hide Canon;
    OpenedCong(p, c, x, r);
    CongScale(p.m, k, c, Commit(p, x, r));
    assert k * c == c * k && k * (x * p.base + r * p.blind) == (x * k) * p.base + (r * k) * p.blind;
    OpenedBy(p, c * k, x * k, r * k);
  }

  lemma {:induction false} JoinedOpened(p: Params, c: Point, x: int, r: Scalar, c': Point, x': int, r': Scalar)
    requires p.m > 0 && Opened(p, c, x, r) && Opened(p, c', x', r')
    ensures Opened(p, Joined(p.m, c, c'), x + x' * SPLIT, Joined(p.m, r, r'))
  {
    hide Canon, Opened;
    ScaledOpened(p, c', x', r', SPLIT);
    PlusOpened(p, c, x, r, Scaled(p.m, c', SPLIT), x' * SPLIT, Scaled(p.m, r', SPLIT));
  }

  // ----- the values of the flow -----

  /** What the flow knows when it makes its proofs: the transfer, the fee split in two, the claimed rounding. */
  datatype FeeValues = FeeValues(moved: Moved, amount: nat, fee: nat, feeLo: nat, feeHi: nat, delta: nat,
                                 groupedFeeLo: Vector, groupedFeeHi: Vector)

  datatype FeeRandomness = FeeRandomness(transfer: Randomness, feeLo: Scalar, feeHi: Scalar, claimed: Scalar,
                                         validity: Vector, above: Vector, below: Vector, range: Nonces)

  function Plan(p: Params, ct: Ciphertext, current: nat, amount: U64, keys: Vector, feeKeys: Vector, basisPoints: nat,
                maximum: U64, r: FeeRandomness): (v: Option<FeeValues>)
    requires p.m > 0 && |keys| > 0
  {
    var moved := Move(p, ct, current, amount, keys, 0, false, r.transfer.lo, r.transfer.hi);
    var fee := CalculateFee(amount, basisPoints, maximum);
    if moved == None || fee == None then None
    else
      var split := SplitAmount(fee.value.0);
      if split == None then None
      else Some(FeeValues(moved.value, amount, fee.value.0, split.value.0, split.value.1, fee.value.1,
                          Encrypt(p, feeKeys, split.value.0, r.feeLo), Encrypt(p, feeKeys, split.value.1, r.feeHi)))
  }

  /** The grouped ciphertexts have their commitments. */
  predicate Planned(v: FeeValues) {
    |v.moved.groupedLo| > 0 && |v.moved.groupedHi| > 0 && |v.groupedFeeLo| > 0 && |v.groupedFeeHi| > 0
  }

  function TransferCommitment(m: int, v: FeeValues): (c: Point)
    requires m > 0 && Planned(v)
  {
    Joined(m, v.moved.groupedLo[0], v.moved.groupedHi[0])
  }

  function FeeCommitment(m: int, v: FeeValues): (c: Point)
    requires m > 0 && Planned(v)
  {
    Joined(m, v.groupedFeeLo[0], v.groupedFeeHi[0])
  }

  function TransferOpening(m: int, r: FeeRandomness): (s: Scalar)
    requires m > 0
  {
    Joined(m, r.transfer.lo, r.transfer.hi)
  }

  function FeeOpening(m: int, r: FeeRandomness): (s: Scalar)
    requires m > 0
  {
    Joined(m, r.feeLo, r.feeHi)
  }

  /** confidentialFeeDelta, for commitments and for openings alike. */
  function DeltaOf(m: int, transfer: int, fee: int, basisPoints: nat): (d: int)
    requires m > 0
  {
    Minus(m, Scaled(m, fee, 10000), Scaled(m, transfer, basisPoints))
  }

  /** The claim of the percentage proof. */
  function FeeClaim(p: Params, v: FeeValues, basisPoints: nat, maximum: nat, r: FeeRandomness): (c: Claim)
    requires p.m > 0 && Planned(v)
  {
    Claim(FeeCommitment(p.m, v), DeltaOf(p.m, TransferCommitment(p.m, v), FeeCommitment(p.m, v), basisPoints),
          Canon(p.m, Commit(p, v.delta, r.claimed)), maximum)
  }

  function FeeKnowledge(m: int, v: FeeValues, basisPoints: nat, r: FeeRandomness): (k: Knowledge)
    requires m > 0
  {
    Knowledge(v.fee, FeeOpening(m, r), v.delta, DeltaOf(m, TransferOpening(m, r), FeeOpening(m, r), basisPoints),
              r.claimed)
  }

  const FEE_BITS: seq<nat> := [64, 16, 32, 16, 16, 16, 32, 64]

  function FeeAmounts(v: FeeValues): (xs: seq<nat>)
    requires v.delta <= 9999 && v.fee <= v.amount
    ensures |xs| == 8
  {
    [v.moved.newAmount, v.moved.lo, v.moved.hi, v.delta, 9999 - v.delta, v.feeLo, v.feeHi, v.amount - v.fee]
  }

  function FeeCommitments(p: Params, v: FeeValues, r: FeeRandomness): (cs: Vector)
    requires p.m > 0 && Planned(v)
    ensures |cs| == 8
  {
    var claimed := Canon(p.m, Commit(p, v.delta, r.claimed));
    [NewCommitment(p, v.moved.newAmount, r.transfer.renewed), v.moved.groupedLo[0], v.moved.groupedHi[0], claimed,
     Minus(p.m, Canon(p.m, Commit(p, 9999, 0)), claimed), v.groupedFeeLo[0], v.groupedFeeHi[0],
     Minus(p.m, TransferCommitment(p.m, v), FeeCommitment(p.m, v))]
  }

  function FeeOpenings(m: int, r: FeeRandomness): (os: Vector)
    requires m > 0
    ensures |os| == 8
  {
    [r.transfer.renewed, r.transfer.lo, r.transfer.hi, r.claimed, Minus(m, 0, r.claimed), r.feeLo, r.feeHi,
     Minus(m, TransferOpening(m, r), FeeOpening(m, r))]
  }

  // ----- consistency -----

  /** Once the amount was accepted the rest cannot fail: only too many basis points stop the plan; the fee is at most
      the amount, so it splits and what is left does not wrap; and all eight values fit their bit lengths. */
  lemma {:induction false} PlanConsistent(p: Params, ct: Ciphertext, current: nat, amount: U64, keys: Vector,
                                          feeKeys: Vector, basisPoints: nat, maximum: U64, r: FeeRandomness,
                                          secret: Scalar)
    requires Prime(p.m) && |keys| > 0 && !IsIdentity(p.m, secret) && keys[0] == PublicKey(p, secret)
    requires current < WORD64 && Decrypts(p, secret, ct, current)
    ensures var v := Plan(p, ct, current, amount, keys, feeKeys, basisPoints, maximum, r);
      && (v.Some? <==> amount < WORD48 && amount <= current && basisPoints <= 10000)
      && (v.Some? ==> v.value.fee <= amount && v.value.fee <= maximum
                      && v.value.feeLo + v.value.feeHi * SPLIT == v.value.fee)
      && (v.Some? ==> v.value.fee < maximum ==> v.value.delta == 10000 * v.value.fee - amount * basisPoints)
      && (v.Some? ==> v.value.delta <= 9999 && v.value.amount == amount && Fitting(FeeAmounts(v.value)))
  {
    hide Move, CalculateFee, Decrypts, PublicKey, IsIdentity, Encrypt, RoundedUp;
    MoveKeepsStep(p, ct, current, amount, keys, 0, false, r.transfer.lo, r.transfer.hi, secret);
    FeeExact(amount, basisPoints, maximum);
  }

  /** Every value fits its bit length. */
  predicate Fitting(xs: seq<nat>) {
    |xs| == 8 && forall i :: 0 <= i < 8 ==>
        xs[i] < (if FEE_BITS[i] == 16 then SPLIT else if FEE_BITS[i] == 32 then WORD32 else WORD64)
  }

  lemma {:induction false} PlanIs(p: Params, ct: Ciphertext, current: nat, amount: U64, keys: Vector, feeKeys: Vector,
                                  basisPoints: nat, maximum: U64, r: FeeRandomness)
    requires p.m > 0 && |keys| > 0 && Plan(p, ct, current, amount, keys, feeKeys, basisPoints, maximum, r).Some?
    ensures var v := Plan(p, ct, current, amount, keys, feeKeys, basisPoints, maximum, r).value;
      && v.amount == amount
      && v.moved.groupedLo == Encrypt(p, keys, v.moved.lo, r.transfer.lo)
      && v.moved.groupedHi == Encrypt(p, keys, v.moved.hi, r.transfer.hi)
      && v.groupedFeeLo == Encrypt(p, feeKeys, v.feeLo, r.feeLo)
      && v.groupedFeeHi == Encrypt(p, feeKeys, v.feeHi, r.feeHi)
      && v.moved.lo + v.moved.hi * SPLIT == amount && v.feeLo + v.feeHi * SPLIT == v.fee
  {
    hide Encrypt, CalculateFee, CombineCiphertexts, AddCiphertexts, SubtractCiphertexts;
  }

  /** Every derived commitment is the commitment to its value under its derived opening. */
  lemma {:induction false} DerivedOpened(p: Params, ct: Ciphertext, current: nat, amount: U64, keys: Vector,
                                         feeKeys: Vector, basisPoints: nat, maximum: U64, r: FeeRandomness)
    requires p.m > 0 && |keys| > 0 && Plan(p, ct, current, amount, keys, feeKeys, basisPoints, maximum, r).Some?
    ensures var v := Plan(p, ct, current, amount, keys, feeKeys, basisPoints, maximum, r).value;
      && Planned(v)
      && Opened(p, TransferCommitment(p.m, v), amount, TransferOpening(p.m, r))
      && Opened(p, FeeCommitment(p.m, v), v.fee, FeeOpening(p.m, r))
      && Opened(p, DeltaOf(p.m, TransferCommitment(p.m, v), FeeCommitment(p.m, v), basisPoints),
                10000 * v.fee - amount * basisPoints,
                DeltaOf(p.m, TransferOpening(p.m, r), FeeOpening(p.m, r), basisPoints))
      && Opened(p, Minus(p.m, TransferCommitment(p.m, v), FeeCommitment(p.m, v)), amount - v.fee,
                Minus(p.m, TransferOpening(p.m, r), FeeOpening(p.m, r)))
  {
    PlanIs(p, ct, current, amount, keys, feeKeys, basisPoints, maximum, r);
    var v := Plan(p, ct, current, amount, keys, feeKeys, basisPoints, maximum, r).value;
    assert Opened(p, v.moved.groupedLo[0], v.moved.lo, r.transfer.lo)
           && Opened(p, v.moved.groupedHi[0], v.moved.hi, r.transfer.hi);
    assert Opened(p, v.groupedFeeLo[0], v.feeLo, r.feeLo) && Opened(p, v.groupedFeeHi[0], v.feeHi, r.feeHi);
    hide Opened, Canon, Plan, Encrypt, Minus, Scaled, Joined;
    JoinedOpened(p, v.moved.groupedLo[0], v.moved.lo, r.transfer.lo, v.moved.groupedHi[0], v.moved.hi, r.transfer.hi);
    JoinedOpened(p, v.groupedFeeLo[0], v.feeLo, r.feeLo, v.groupedFeeHi[0], v.feeHi, r.feeHi);
    var t, f, tr, fr := TransferCommitment(p.m, v), FeeCommitment(p.m, v), TransferOpening(p.m, r), FeeOpening(p.m, r);
    ScaledOpened(p, f, v.fee, fr, 10000);
    ScaledOpened(p, t, amount, tr, basisPoints);
    MinusOpened(p, Scaled(p.m, f, 10000), v.fee * 10000, Scaled(p.m, fr, 10000), Scaled(p.m, t, basisPoints),
                amount * basisPoints, Scaled(p.m, tr, basisPoints));
    MinusOpened(p, t, amount, tr, f, v.fee, fr);
  }

  // ----- the proofs verify -----

  /** The percentage proof, in either branch, and the validity proof of the fee. */
  lemma {:induction false} FeeProofsVerify(p: Params, tag: string, ct: Ciphertext, current: nat, amount: U64,
                                           keys: Vector, feeKeys: Vector, basisPoints: nat, maximum: U64,
                                           r: FeeRandomness, secret: Scalar)
    requires Prime(p.m) && |keys| > 0 && |feeKeys| > 0 && !IsIdentity(p.m, secret) && keys[0] == PublicKey(p, secret)
    requires current < WORD64 && Decrypts(p, secret, ct, current) && |r.above| == |r.below| == 5 && |r.validity| == 2
    requires Plan(p, ct, current, amount, keys, feeKeys, basisPoints, maximum, r).Some?
    ensures var v := Plan(p, ct, current, amount, keys, feeKeys, basisPoints, maximum, r).value;
      && Planned(v) && |v.groupedFeeLo| == |v.groupedFeeHi| == |feeKeys| + 1
      && var claim := FeeClaim(p, v, basisPoints, maximum, r);
      var cap := GenerateCap(p, claim, FeeKnowledge(p.m, v, basisPoints, r), r.above, r.below);
      var validity := GenerateValidity(p, tag, feeKeys, [v.groupedFeeLo, v.groupedFeeHi], [v.feeLo, v.feeHi],
                                       [r.feeLo, r.feeHi], r.validity);
      && cap.Some? && (VerifyCap(p, claim, cap.value) <==> CapPointsAccepted(p.m, claim, cap.value))
      && validity.Some? && (VerifyValidity(p, tag, feeKeys, [v.groupedFeeLo, v.groupedFeeHi], validity.value) <==>
                            PointsAccepted(p.m, feeKeys, [v.groupedFeeLo, v.groupedFeeHi], validity.value.announced))
  {
    hide Plan, Canon, Encrypt, Decrypts, PublicKey, IsIdentity, GenerateCap, VerifyCap, CapPointsAccepted,
         GenerateValidity, VerifyValidity, PointsAccepted, DeltaOf, Joined, Commit, TransferCommitment, FeeCommitment,
         TransferOpening, FeeOpening, Fitting, Minus;
    var v := Plan(p, ct, current, amount, keys, feeKeys, basisPoints, maximum, r).value;
    PlanIs(p, ct, current, amount, keys, feeKeys, basisPoints, maximum, r);
    PlanConsistent(p, ct, current, amount, keys, feeKeys, basisPoints, maximum, r, secret);
    DerivedOpened(p, ct, current, amount, keys, feeKeys, basisPoints, maximum, r);
    CapComplete(p, FeeClaim(p, v, basisPoints, maximum, r), FeeKnowledge(p.m, v, basisPoints, r), r.above, r.below);
    ValidityComplete(p, tag, feeKeys, [v.groupedFeeLo, v.groupedFeeHi], [v.feeLo, v.feeHi], [r.feeLo, r.feeHi],
                     r.validity);
    assert ValidityWitness(p, feeKeys, [v.groupedFeeLo, v.groupedFeeHi], [v.feeLo, v.feeHi], [r.feeLo, r.feeHi]);
  }

  lemma {:induction false} FeeBits()
    ensures Total(FEE_BITS) == 256
    ensures forall i :: 0 <= i < 8 ==>
            Pow(2, FEE_BITS[i]) == (if FEE_BITS[i] == 16 then SPLIT else if FEE_BITS[i] == 32 then WORD32 else WORD64)
  {
    BitBounds();
    TotalFour(64, 16, 32, 16);
    TotalMore([64, 16, 32, 16], 16);
    TotalMore([64, 16, 32, 16, 16], 16);
    TotalMore([64, 16, 32, 16, 16, 16], 32);
    TotalMore([64, 16, 32, 16, 16, 16, 32], 64);
    hide Total, Pow;
    assert FEE_BITS == [64, 16, 32, 16, 16, 16, 32] + [64];
    assert [64, 16, 32, 16, 16, 16, 32] == [64, 16, 32, 16, 16, 16] + [32];
    assert [64, 16, 32, 16, 16, 16] == [64, 16, 32, 16, 16] + [16];
    assert [64, 16, 32, 16, 16] == [64, 16, 32, 16] + [16];
  }

  lemma {:induction false} TotalMore(lens: seq<nat>, n: nat)
    ensures Total(lens + [n]) == Total(lens) + n
  {
    assert (lens + [n])[..|lens|] == lens;
  }

  /** The openings are canonical scalars. */
  predicate FeeDrawn(m: int, r: FeeRandomness) {
    && Decodes(m, r.transfer.renewed) && Decodes(m, r.transfer.lo) && Decodes(m, r.transfer.hi)
    && Decodes(m, r.claimed) && Decodes(m, r.feeLo) && Decodes(m, r.feeHi)
    && |r.range.sLeft| == |r.range.sRight| == 256
  }

  /** All eight commitments match their values and openings. */
  lemma {:induction false} FeeCommitmentsMatch(p: Params, ct: Ciphertext, current: nat, amount: U64, keys: Vector,
                                               feeKeys: Vector, basisPoints: nat, maximum: U64, r: FeeRandomness)
    requires p.m > 0 && |keys| > 0 && Plan(p, ct, current, amount, keys, feeKeys, basisPoints, maximum, r).Some?
             && FeeDrawn(p.m, r)
    requires var v := Plan(p, ct, current, amount, keys, feeKeys, basisPoints, maximum, r).value;
             v.delta <= 9999 && v.fee <= v.amount
    ensures var v := Plan(p, ct, current, amount, keys, feeKeys, basisPoints, maximum, r).value;
      && Planned(v)
      && var cs, xs, os := FeeCommitments(p, v, r), FeeAmounts(v), FeeOpenings(p.m, r);
      forall i :: 0 <= i < 8 ==> Opened(p, cs[i], xs[i], os[i]) && Decodes(p.m, cs[i]) && Decodes(p.m, os[i])
  {
    PlanIs(p, ct, current, amount, keys, feeKeys, basisPoints, maximum, r);
    DerivedOpened(p, ct, current, amount, keys, feeKeys, basisPoints, maximum, r);
    var v := Plan(p, ct, current, amount, keys, feeKeys, basisPoints, maximum, r).value;
    hide Plan, TransferCommitment, FeeCommitment, TransferOpening, FeeOpening, DeltaOf;
    MinusOpened(p, Canon(p.m, Commit(p, 9999, 0)), 9999, 0, Canon(p.m, Commit(p, v.delta, r.claimed)), v.delta,
                r.claimed);
  }

  /** The range proof over all eight values is generated and accepted, unless a commitment or a point of the proof is
      the identity. */
  lemma {:induction false} FeeRangeVerifies(p: Params, ct: Ciphertext, current: nat, amount: U64, keys: Vector,
                                            feeKeys: Vector, basisPoints: nat, maximum: U64, r: FeeRandomness,
                                            secret: Scalar, v: FeeValues)
    requires Prime(p.m) && |keys| > 0 && !IsIdentity(p.m, secret) && keys[0] == PublicKey(p, secret)
    requires current < WORD64 && Decrypts(p, secret, ct, current) && FeeDrawn(p.m, r)
    requires Plan(p, ct, current, amount, keys, feeKeys, basisPoints, maximum, r) == Some(v)
    requires v.delta <= 9999 && v.fee <= v.amount && Planned(v) && ProperPoints(p.m, FeeCommitments(p, v, r))
    requires Shape(FeeAmounts(v), FEE_BITS, FeeOpenings(p.m, r), r.range)
    requires Data.Usable(p, FeeCommitments(p, v, r), FeeAmounts(v), FEE_BITS, FeeOpenings(p.m, r), r.range)
    ensures Total(FEE_BITS) == 256
    ensures var cs, xs, os := FeeCommitments(p, v, r), FeeAmounts(v), FeeOpenings(p.m, r);
      && Data.Generate(p, cs, xs, FEE_BITS, os, r.range).Some?
      && (Data.Verify(p, Data.Generate(p, cs, xs, FEE_BITS, os, r.range).value) <==>
          NoIdentity(p.m, Prove(p, xs, FEE_BITS, os, r.range,
                                Data.ContextTranscript(Data.BuildContext(cs, FEE_BITS))).proof))
  {
    hide Plan, Decrypts, PublicKey, IsIdentity, NoIdentity, Commit, Total, Prove, InnerProduct.IsPowerOfTwo,
         Data.Generate, Data.Verify, Data.Usable, Pow, Opened, FeeOpenings, FeeCommitments, FeeAmounts, Canon;
    PlanConsistent(p, ct, current, amount, keys, feeKeys, basisPoints, maximum, r, secret);
    FeeCommitmentsMatch(p, ct, current, amount, keys, feeKeys, basisPoints, maximum, r);
    FeeBits();
    Data.SizeIsPower(256);
    var cs, xs, os := FeeCommitments(p, v, r), FeeAmounts(v), FeeOpenings(p.m, r);
    forall i | 0 <= i < 8 ensures Cong(p.m, cs[i], Commit(p, xs[i], os[i])) {
      OpenedCong(p, cs[i], xs[i], os[i]);
    }
    Data.GeneratedProofComplete(p, cs, xs, FEE_BITS, os, r.range);
  }
}
