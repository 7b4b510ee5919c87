/**
 The percentage-with-cap proof (programs/token-2022/confidential_percentage.go): either a commitment holds exactly the
 cap, or two other commitments hold the same remainder. One branch is proved, the other simulated, and the verifier
 cannot tell which: the two challenges only have to add up to the transcript's.
 */
module PercentageProofs {
  import opened Wrappers
  import opened Residues
  import opened Vectors
  import opened Transcripts
  import opened InnerProduct
  import opened RangeProof
  import opened SigmaProofs
  import opened EqualityProofs

  /** The three commitments and the cap. */
  datatype Claim = Claim(percentage: Point, delta: Point, claimed: Point, cap: nat)

  /** All points and scalars in canonical encoding. */
  datatype CapProof = CapProof(yMax: Point, zMax: Scalar, cMax: Scalar, yDelta: Point, yClaimed: Point, zX: Scalar,
                               zDelta: Scalar, zClaimed: Scalar)

  /** What the prover knows: the committed amount with its opening, and the remainder with its two openings. */
  datatype Knowledge = Knowledge(amount: nat, opening: Scalar, remainder: nat, deltaOpening: Scalar,
                                 claimedOpening: Scalar)

  function Start(claim: Claim): (t: Transcript) {
    [Domain("percentage-with-cap-instruction"), Message("percentage-commitment", [claim.percentage]),
     Message("delta-commitment", [claim.delta]),
     Message("claimed-commitment", [claim.claimed]), Message("max-value", [claim.cap]),
         Domain("percentage-with-cap-proof")]
  }

  function Challenge(o: Oracle, claim: Claim, yMax: Point, yDelta: Point, yClaimed: Point): (c: Scalar) {
    o(Append(Append(Append(Start(claim), "Y_max_proof", yMax), "Y_delta", yDelta), "Y_claimed", yClaimed), "c")
  }

  /** At the cap: the remainder half is simulated with a challenge of the prover's choice. */
  function ProveAbove(p: Params, claim: Claim, k: Knowledge, zX: Scalar, zDelta: Scalar, zClaimed: Scalar, e: Scalar,
                      n: Scalar): (proof: CapProof)
    requires p.m > 0
  {
    var yDelta := Canon(p.m, zX * p.base + zDelta * p.blind - e * claim.delta);
    var yClaimed := Canon(p.m, zX * p.base + zClaimed * p.blind - e * claim.claimed);
    var yMax := Canon(p.m, p.blind * n);
    var cMax := Challenge(p.o, claim, yMax, yDelta, yClaimed) - e;
    CapProof(yMax, Canon(p.m, cMax * k.opening + n), Canon(p.m, cMax), yDelta, yClaimed, Canon(p.m, zX),
             Canon(p.m, zDelta), Canon(p.m, zClaimed))
  }

  /** Below the cap: the cap half is simulated. */
  function ProveBelow(p: Params, claim: Claim, k: Knowledge, zMax: Scalar, cMax: Scalar, nX: Scalar, nDelta: Scalar,
                      nClaimed: Scalar): (proof: CapProof)
    requires p.m > 0
  {
    var yMax := Canon(p.m, zMax * p.blind - cMax * claim.percentage + cMax * claim.cap * p.base);
    var yDelta := Canon(p.m, nX * p.base + nDelta * p.blind);
    var yClaimed := Canon(p.m, nX * p.base + nClaimed * p.blind);
    var e := Challenge(p.o, claim, yMax, yDelta, yClaimed) - cMax;
    CapProof(yMax, Canon(p.m, zMax), Canon(p.m, cMax), yDelta, yClaimed,
             Canon(p.m, e * k.remainder + nX), Canon(p.m, e * k.deltaOpening + nDelta),
                 Canon(p.m, e * k.claimedOpening + nClaimed))
  }

  /** The generator's checks. The remainder commitment is checked below the cap only. */
  predicate CapWitness(p: Params, claim: Claim, k: Knowledge)
    requires p.m > 0
  {
    && claim.percentage == Canon(p.m, Commit(p, k.amount, k.opening))
    && claim.claimed == Canon(p.m, Commit(p, k.remainder, k.claimedOpening))
    && k.amount <= claim.cap
    && (k.amount < claim.cap ==> claim.delta == Canon(p.m, Commit(p, k.remainder, k.deltaOpening)))
  }

  /** Both proofs are made, one is selected. */
  function GenerateCap(p: Params, claim: Claim, k: Knowledge, above: Vector, below: Vector): (r: Option<CapProof>)
    requires p.m > 0 && |above| == |below| == 5
  {
    if !CapWitness(p, claim, k) then None
    else if k.amount < claim.cap then Some(ProveBelow(p, claim, k, below[0], below[1], below[2], below[3], below[4]))
    else Some(ProveAbove(p, claim, k, above[0], above[1], above[2], above[3], above[4]))
  }

  // ----- the verifier -----

  function Batching(o: Oracle, claim: Claim, proof: CapProof): (w: Scalar) {
    var t := Append(Append(Append(Start(claim), "Y_max_proof", proof.yMax), "Y_delta", proof.yDelta), "Y_claimed",
                    proof.yClaimed) + [Extracted("c")];
    o(AppendWords(t, ["z_max", "c_max_proof", "z_x", "z_delta_real", "z_claimed"],
                  [proof.zMax, proof.cMax, proof.zX, proof.zDelta, proof.zClaimed]), "w")
  }

  /** The twelve terms of the verifier's multiscalar multiplication. */
  function CapCheck(p: Params, claim: Claim, proof: CapProof, c: Scalar, w: Scalar): (r: Point) {
    var e, ww := c - proof.cMax, w * w;
    Dot([proof.cMax, -(proof.cMax * claim.cap), -proof.zMax, 1] + [w * proof.zX, w * proof.zDelta, -(w * e), -w]
        + [ww * proof.zX, ww * proof.zClaimed, -(ww * e), -ww],
        [claim.percentage, p.base, p.blind, proof.yMax] + [p.base, p.blind, claim.delta, proof.yDelta]
            + [p.base, p.blind, claim.claimed, proof.yClaimed])
  }

  predicate CapPointsAccepted(m: int, claim: Claim, proof: CapProof)
    requires m > 0
  {
    ProperPoints(m, [claim.percentage, claim.delta, claim.claimed])
        && ProperPoints(m, [proof.yMax, proof.yDelta, proof.yClaimed])
  }

  predicate VerifyCap(p: Params, claim: Claim, proof: CapProof)
    requires p.m > 0
  {
    && CapPointsAccepted(p.m, claim, proof)
    && IsIdentity(p.m, CapCheck(p, claim, proof, Challenge(p.o, claim, proof.yMax, proof.yDelta, proof.yClaimed),
                                Batching(p.o, claim, proof)))
  }

  /** The half that says: the percentage commitment holds the cap. */
  function CapRow(p: Params, claim: Claim, proof: CapProof): (r: Point) {
    proof.cMax * claim.percentage - (proof.cMax * claim.cap) * p.base - proof.zMax * p.blind + proof.yMax
  }

  /** The half that says: this commitment holds the remainder. */
  function RemainderRow(p: Params, e: Scalar, x: Scalar, z: Scalar, commitment: Point, y: Point): (r: Point) {
    x * p.base + z * p.blind - e * commitment - y
  }

  lemma {:induction false} CapCheckRows(p: Params, claim: Claim, proof: CapProof, c: Scalar, w: Scalar)
    ensures var e := c - proof.cMax;
      CapCheck(p, claim, proof, c, w) ==
      CapRow(p, claim, proof) + w * RemainderRow(p, e, proof.zX, proof.zDelta, claim.delta, proof.yDelta)
      + (w * w) * RemainderRow(p, e, proof.zX, proof.zClaimed, claim.claimed, proof.yClaimed)
  {
    hide Dot;
    var e, ww := c - proof.cMax, w * w;
    DotFour(proof.cMax, -(proof.cMax * claim.cap), -proof.zMax, 1, claim.percentage, p.base, p.blind, proof.yMax);
    FourTerms(w, proof.zX, proof.zDelta, e, p.base, p.blind, claim.delta, proof.yDelta);
    FourTerms(ww, proof.zX, proof.zClaimed, e, p.base, p.blind, claim.claimed, proof.yClaimed);
    assert -(w * e) == -w * e && -(ww * e) == -ww * e;
    DotConcat([proof.cMax, -(proof.cMax * claim.cap), -proof.zMax, 1], [w * proof.zX, w * proof.zDelta, -(w * e), -w],
              [claim.percentage, p.base, p.blind, proof.yMax], [p.base, p.blind, claim.delta, proof.yDelta]);
    DotConcat([proof.cMax, -(proof.cMax * claim.cap), -proof.zMax, 1] + [w * proof.zX, w * proof.zDelta, -(w * e), -w],
              [ww * proof.zX, ww * proof.zClaimed, -(ww * e), -ww],
              [claim.percentage, p.base, p.blind, proof.yMax] + [p.base, p.blind, claim.delta, proof.yDelta],
                  [p.base, p.blind, claim.claimed, proof.yClaimed]);
  }

  lemma {:induction false} RowsVanish(m: int, a: int, b: int, c: int, w: int)
    requires m > 0 && Cong(m, a, 0) && Cong(m, b, 0) && Cong(m, c, 0)
    ensures IsIdentity(m, a + w * b + (w * w) * c)
  {
    CongScale(m, w, b, 0);
    CongScale(m, w * w, c, 0);
    CongAdd(m, a, 0, w * b, 0);
    CongAdd(m, a + w * b, 0, (w * w) * c, 0);
    IdentityCong(m, a + w * b + (w * w) * c);
  }

  // ----- each half, proved or simulated -----

  /** A sum of three products and a point may be computed with any representatives of its scalars. */
  lemma {:induction false} Representatives(m: int, a: int, a': int, p: int, b: int, b': int, q: int, c: int, c': int,
                                           r: int, y: int, y': int)
    requires Cong(m, a, a') && Cong(m, b, b') && Cong(m, c, c') && Cong(m, y, y')
    ensures Cong(m, a * p + b * q + c * r + y, a' * p + b' * q + c' * r + y')
  {
    CongScale(m, p, a, a');
    CongScale(m, q, b, b');
    CongScale(m, r, c, c');
    CongAdd(m, p * a, p * a', q * b, q * b');
    CongAdd(m, p * a + q * b, p * a' + q * b', r * c, r * c');
    CongAdd(m, p * a + q * b + r * c, p * a' + q * b' + r * c', y, y');
  }

  lemma {:induction false} NegatedCong(m: int, x: int, y: int)
    requires Cong(m, x, y)
    ensures Cong(m, -x, -y)
  {
    CongScale(m, -1, x, y);
  }

  /** A simulated remainder half vanishes whatever the commitment holds. */
  lemma {:induction false} SimulatedRemainder(p: Params, e: Scalar, e': Scalar, x: Scalar, z: Scalar, commitment: Point)
    requires p.m > 0 && Cong(p.m, e', e)
    ensures Cong(p.m, RemainderRow(p, e', Canon(p.m, x), Canon(p.m, z), commitment,
                                   Canon(p.m, x * p.base + z * p.blind - e * commitment)), 0)
  {
    hide Canon;
    var y := x * p.base + z * p.blind - e * commitment;
    CanonCong(p.m, x);
    CanonCong(p.m, z);
    CanonCong(p.m, y);
    NegatedCong(p.m, e', e);
    NegatedCong(p.m, Canon(p.m, y), y);
    Representatives(p.m, Canon(p.m, x), x, p.base, Canon(p.m, z), z, p.blind, -e', -e, commitment, -Canon(p.m, y), -y);
    assert x * p.base + z * p.blind + -e * commitment + -y == 0;
    assert -e' * commitment == -(e' * commitment);
  }

  /** A proved remainder half misses by the challenge times what the commitment misses. */
  lemma {:induction false} ProvedRemainder(p: Params, e: Scalar, e': Scalar, x: Scalar, nX: Scalar, opening: Scalar,
                                           n: Scalar, commitment: Point)
    requires p.m > 0 && Cong(p.m, e', e) && commitment == Canon(p.m, Commit(p, x, opening))
    ensures Cong(p.m, RemainderRow(p, e', Canon(p.m, e * x + nX), Canon(p.m, e * opening + n), commitment,
                                   Canon(p.m, nX * p.base + n * p.blind)), 0)
  {
    hide Canon;
    var y, zx, z := nX * p.base + n * p.blind, e * x + nX, e * opening + n;
    CanonCong(p.m, zx);
    CanonCong(p.m, z);
    CanonCong(p.m, y);
    NegatedCong(p.m, e', e);
    NegatedCong(p.m, Canon(p.m, y), y);
    Representatives(p.m, Canon(p.m, zx), zx, p.base, Canon(p.m, z), z, p.blind, -e', -e, commitment, -Canon(p.m, y),
                    -y);
    CanonCong(p.m, Commit(p, x, opening));
    CongScale(p.m, e, commitment, Commit(p, x, opening));
    Vanishes(p.m, e * commitment, e * Commit(p, x, opening));
    Negated(p.m, e * commitment - e * Commit(p, x, opening));
    RemainderArithmetic(e, x, nX, opening, n, p.base, p.blind, commitment);
    assert -e' * commitment == -(e' * commitment);
    CongTrans(p.m, RemainderRow(p, e', Canon(p.m, zx), Canon(p.m, z), commitment, Canon(p.m, y)),
              -(e * commitment - e * Commit(p, x, opening)), 0);
  }

  lemma {:induction false} RemainderArithmetic(e: int, x: int, nX: int, r: int, n: int, g: int, h: int, c: int)
    ensures (e * x + nX) * g + (e * r + n) * h + -e * c + -(nX * g + n * h) == -(e * c - e * (x * g + r * h))
  {
    assert e * (x * g + r * h) == (e * x) * g + (e * r) * h;
  }

  /** A simulated cap half vanishes whatever the commitment holds. */
  lemma {:induction false} SimulatedCap(p: Params, claim: Claim, z: Scalar, c: Scalar, proof: CapProof)
    requires p.m > 0 && proof.zMax == Canon(p.m, z) && proof.cMax == Canon(p.m, c)
    requires proof.yMax == Canon(p.m, z * p.blind - c * claim.percentage + c * claim.cap * p.base)
    ensures Cong(p.m, CapRow(p, claim, proof), 0)
  {
    hide Canon;
    var y := z * p.blind - c * claim.percentage + c * claim.cap * p.base;
    CanonCong(p.m, z);
    CanonCong(p.m, c);
    CanonCong(p.m, y);
    NegatedCong(p.m, proof.zMax, z);
    var cap: int := claim.cap;
    CongScale(p.m, -cap, proof.cMax, c);
    Representatives(p.m, proof.cMax, c, claim.percentage, -cap * proof.cMax, -cap * c, p.base, -proof.zMax, -z, p.blind,
                    proof.yMax, y);
    CapArithmetic(c, claim.percentage, claim.cap, p.base, z, p.blind, y);
    CapArithmetic(proof.cMax, claim.percentage, claim.cap, p.base, proof.zMax, p.blind, proof.yMax);
  }

  lemma {:induction false} CapArithmetic(c: int, t: int, cap: int, g: int, z: int, h: int, y: int)
    ensures c * t + (-cap * c) * g + -z * h + y == c * t - (c * cap) * g - z * h + y
    ensures c * cap * g == (c * cap) * g
  {
    assert -cap * c == -(c * cap);
  }

  /** A proved cap half vanishes for a commitment to the cap. */
  lemma {:induction false} ProvedCap(p: Params, claim: Claim, opening: Scalar, c: Scalar, n: Scalar, proof: CapProof)
    requires p.m > 0 && claim.percentage == Canon(p.m, Commit(p, claim.cap, opening))
    requires proof.zMax == Canon(p.m, c * opening + n) && proof.cMax == Canon(p.m, c)
             && proof.yMax == Canon(p.m, p.blind * n)
    ensures Cong(p.m, CapRow(p, claim, proof), 0)
  {
    hide Canon;
    var y, z := p.blind * n, c * opening + n;
    CanonCong(p.m, z);
    CanonCong(p.m, c);
    CanonCong(p.m, y);
    NegatedCong(p.m, proof.zMax, z);
    var cap: int := claim.cap;
    CongScale(p.m, -cap, proof.cMax, c);
    Representatives(p.m, proof.cMax, c, claim.percentage, -cap * proof.cMax, -cap * c, p.base, -proof.zMax, -z, p.blind,
                    proof.yMax, y);
    CapArithmetic(c, claim.percentage, claim.cap, p.base, z, p.blind, y);
    CapArithmetic(proof.cMax, claim.percentage, claim.cap, p.base, proof.zMax, p.blind, proof.yMax);
    CanonCong(p.m, Commit(p, claim.cap, opening));
    CongScale(p.m, c, claim.percentage, Commit(p, claim.cap, opening));
    Vanishes(p.m, c * claim.percentage, c * Commit(p, claim.cap, opening));
    ProvedCapArithmetic(c, claim.percentage, claim.cap, p.base, opening, n, p.blind);
    CongTrans(p.m, CapRow(p, claim, proof), c * claim.percentage - c * Commit(p, claim.cap, opening), 0);
  }

  lemma {:induction false} ProvedCapArithmetic(c: int, t: int, cap: int, g: int, r: int, n: int, h: int)
    ensures c * t - (c * cap) * g - (c * r + n) * h + h * n == c * t - c * (cap * g + r * h)
  {
    assert c * (cap * g + r * h) == (c * cap) * g + (c * r) * h;
  }

  // ----- completeness -----

  lemma {:induction false} AboveSum(p: Params, claim: Claim, k: Knowledge, zX: Scalar, zDelta: Scalar, zClaimed: Scalar,
                                    e: Scalar, n: Scalar)
    requires p.m > 0 && claim.percentage == Canon(p.m, Commit(p, claim.cap, k.opening))
    ensures var proof := ProveAbove(p, claim, k, zX, zDelta, zClaimed, e, n);
      forall w :: IsIdentity(p.m,
                             CapCheck(p, claim, proof, Challenge(p.o, claim, proof.yMax, proof.yDelta, proof.yClaimed),
                                      w))
  {
    hide Canon, IsIdentity, CapRow, RemainderRow, CapCheck, Challenge, Commit;
    var proof := ProveAbove(p, claim, k, zX, zDelta, zClaimed, e, n);
    var c := Challenge(p.o, claim, proof.yMax, proof.yDelta, proof.yClaimed);
    CanonCong(p.m, c - e);
    CongRefl(p.m, c);
    CongSub(p.m, c, c, proof.cMax, c - e);
    assert c - (c - e) == e;
    SimulatedRemainder(p, e, c - proof.cMax, zX, zDelta, claim.delta);
    SimulatedRemainder(p, e, c - proof.cMax, zX, zClaimed, claim.claimed);
    ProvedCap(p, claim, k.opening, c - e, n, proof);
    forall w ensures IsIdentity(p.m, CapCheck(p, claim, proof, c, w)) {
      CapCheckRows(p, claim, proof, c, w);
      RowsVanish(p.m, CapRow(p, claim, proof),
                 RemainderRow(p, c - proof.cMax, proof.zX, proof.zDelta, claim.delta, proof.yDelta),
                 RemainderRow(p, c - proof.cMax, proof.zX, proof.zClaimed, claim.claimed, proof.yClaimed), w);
    }
  }

  lemma {:induction false} BelowSum(p: Params, claim: Claim, k: Knowledge, zMax: Scalar, cMax: Scalar, nX: Scalar,
                                    nDelta: Scalar, nClaimed: Scalar)
    requires p.m > 0 && claim.delta == Canon(p.m, Commit(p, k.remainder, k.deltaOpening))
             && claim.claimed == Canon(p.m, Commit(p, k.remainder, k.claimedOpening))
    ensures var proof := ProveBelow(p, claim, k, zMax, cMax, nX, nDelta, nClaimed);
      forall w :: IsIdentity(p.m,
                             CapCheck(p, claim, proof, Challenge(p.o, claim, proof.yMax, proof.yDelta, proof.yClaimed),
                                      w))
  {
    hide Canon, IsIdentity, CapRow, RemainderRow, CapCheck, Challenge, Commit;
    var proof := ProveBelow(p, claim, k, zMax, cMax, nX, nDelta, nClaimed);
    var c := Challenge(p.o, claim, proof.yMax, proof.yDelta, proof.yClaimed);
    CanonCong(p.m, cMax);
    CongRefl(p.m, c);
    CongSub(p.m, c, c, proof.cMax, cMax);
    ProvedRemainder(p, c - cMax, c - proof.cMax, k.remainder, nX, k.deltaOpening, nDelta, claim.delta);
    ProvedRemainder(p, c - cMax, c - proof.cMax, k.remainder, nX, k.claimedOpening, nClaimed, claim.claimed);
    SimulatedCap(p, claim, zMax, cMax, proof);
    forall w ensures IsIdentity(p.m, CapCheck(p, claim, proof, c, w)) {
      CapCheckRows(p, claim, proof, c, w);
      RowsVanish(p.m, CapRow(p, claim, proof),
                 RemainderRow(p, c - proof.cMax, proof.zX, proof.zDelta, claim.delta, proof.yDelta),
                 RemainderRow(p, c - proof.cMax, proof.zX, proof.zClaimed, claim.claimed, proof.yClaimed), w);
    }
  }

  /** Either branch: what is generated verifies, unless a point is the identity. */
  lemma {:induction false} CapComplete(p: Params, claim: Claim, k: Knowledge, above: Vector, below: Vector)
    requires p.m > 0 && |above| == |below| == 5
    ensures var r := GenerateCap(p, claim, k, above, below);
      && (r.Some? <==> CapWitness(p, claim, k))
      && (r.Some? ==> (VerifyCap(p, claim, r.value) <==> CapPointsAccepted(p.m, claim, r.value)))
  {
    hide ProveAbove, ProveBelow, CapCheck, CapPointsAccepted, IsIdentity, Challenge, Batching, Canon;
    if CapWitness(p, claim, k) {
      if k.amount < claim.cap {
        BelowSum(p, claim, k, below[0], below[1], below[2], below[3], below[4]);
      } else {
        AboveSum(p, claim, k, above[0], above[1], above[2], above[3], above[4]);
      }
    }
  }
}
