/**
 The aggregated range proof (programs/token-2022/confidential_range.go and
 confidential_range_generators.go): the bits of several amounts are proved at once.

 This module holds the proof system as functions of its inputs and the theorem about it;
 RangeProofLoops holds the source's loops, proved to compute these functions.
 */
module RangeProof {
  import opened Wrappers
  import opened Residues
  import opened Vectors
  import opened Transcripts
  import opened InnerProduct

  /** The group order, the transcript hash, the two commitment bases and the two generator chains. */
  datatype Params = Params(m: int, o: Oracle, base: Point, blind: Point, gChain: nat -> Point, hChain: nat -> Point)

  datatype Nonces = Nonces(aBlinding: Scalar, sLeft: Vector, sRight: Vector, sBlinding: Scalar, t1Blinding: Scalar,
                           t2Blinding: Scalar)

  /** Points and scalars of the proof in canonical encoding. */
  datatype Proof = Proof(a: Point, s: Point, t1: Point, t2: Point, tx: Scalar, txBlinding: Scalar, eBlinding: Scalar,
                         inner: IppProof)

  function Generators(chain: nat -> Point, n: nat): (r: Vector)
    ensures |r| == n
  {
    seq(n, i requires 0 <= i < n => chain(i))
  }

  function Commit(p: Params, amount: int, opening: Scalar): (c: Point) {
    amount * p.base + opening * p.blind
  }

  // ----- the concatenated vectors -----

  function Total(lens: seq<nat>): (n: nat) {
    if |lens| == 0 then 0 else Total(lens[..|lens| - 1]) + lens[|lens| - 1]
  }

  function BitsOf(amount: nat, len: nat): (r: Vector)
    ensures |r| == len
  {
    seq(len, i requires 0 <= i < len => Bit(amount, i))
  }

  function Bit(amount: nat, i: nat): (b: int)
    ensures b == 0 || b == 1
  {
    PowPositive(2, i);
    amount / Pow(2, i) % 2
  }

  /** The bits of all amounts, low bit first, one amount after the other. */
  function Bits(amounts: seq<nat>, lens: seq<nat>): (r: Vector)
    requires |amounts| == |lens|
    ensures |r| == Total(lens)
  {
    if |lens| == 0 then []
    else
      var n := |lens| - 1;
      Bits(amounts[..n], lens[..n]) + BitsOf(amounts[n], lens[n])
  }

  /** z^j 2^i at bit i of amount j. */
  function PositionWeights(z: Scalar, lens: seq<nat>): (r: Vector)
    ensures |r| == Total(lens)
  {
    if |lens| == 0 then []
    else
      var n := |lens| - 1;
      PositionWeights(z, lens[..n]) + Scale(Pow(z, n), Powers(2, lens[n]))
  }

  /** The part of each amount that its bit length covers. */
  function Lows(amounts: seq<nat>, lens: seq<nat>): (r: Vector)
    requires |amounts| == |lens|
    ensures |r| == |lens|
  {
    seq(|lens|, i requires 0 <= i < |lens| => Low(amounts[i], lens[i]))
  }

  function Low(amount: nat, len: nat): (r: nat) {
    PowPositive(2, len);
    amount % Pow(2, len)
  }

  lemma {:induction false} LowStep(amount: nat, len: nat)
    ensures Low(amount, len + 1) == Low(amount, len) + Bit(amount, len) * Pow(2, len)
  {
    PowPositive(2, len);
    SplitMod(amount, Pow(2, len));
  }

  lemma {:induction false} SplitMod(a: nat, p: int)
    requires p > 0
    ensures a % (p * 2) == a % p + (a / p % 2) * p
  {
    var q, r := a / p, a % p;
    var b, c := q % 2, q / 2;
    assert a == q * p + r;
    assert q == 2 * c + b;
    Regroup(a, p, q, r, b, c);
    assert 0 <= r + b * p < p * 2;
    ModUnique(a, p * 2, c, r + b * p);
  }

  lemma {:induction false} Regroup(a: int, p: int, q: int, r: int, b: int, c: int)
    requires a == q * p + r && q == 2 * c + b
    ensures a == c * (p * 2) + (r + b * p)
  {
  }

  lemma {:induction false} ModUnique(a: int, n: int, k: int, r: int)
    requires n > 0 && a == k * n + r && 0 <= r < n
    ensures a % n == r
  {
    var k', r' := a / n, a % n;
    assert a == k' * n + r';
    assert r' - r == (k - k') * n;
    SmallMultiple(n, r' - r, k - k');
  }

  lemma {:induction false} BitsOfValue(amount: nat, len: nat)
    ensures Dot(BitsOf(amount, len), Powers(2, len)) == Low(amount, len)
  {
    if len > 0 {
      var n := len - 1;
      BitsOfValue(amount, n);
      LowStep(amount, n);
      assert BitsOf(amount, len)[..n] == BitsOf(amount, n);
      assert Powers(2, len)[..n] == Powers(2, n);
    }
  }

  /** Weighing the bits by position gives the amounts back, amount j under z^j. */
  lemma {:induction false} BitsValue(z: Scalar, amounts: seq<nat>, lens: seq<nat>)
    requires |amounts| == |lens|
    ensures Dot(Bits(amounts, lens), PositionWeights(z, lens)) == Dot(Powers(z, |lens|), Lows(amounts, lens))
  {
    if |lens| > 0 {
      var n := |lens| - 1;
      BitsValue(z, amounts[..n], lens[..n]);
      DotConcat(Bits(amounts[..n], lens[..n]), BitsOf(amounts[n], lens[n]),
                PositionWeights(z, lens[..n]), Scale(Pow(z, n), Powers(2, lens[n])));
      DotScaleRight(Pow(z, n), BitsOf(amounts[n], lens[n]), Powers(2, lens[n]));
      BitsOfValue(amounts[n], lens[n]);
      assert Powers(z, n + 1)[..n] == Powers(z, n);
      assert Lows(amounts, lens)[..n] == Lows(amounts[..n], lens[..n]);
    }
  }

  /** Sum over the amounts of z^j (2^0 + ... + 2^(len-1)). */
  function Spread(z: Scalar, lens: seq<nat>): (r: int) {
    if |lens| == 0 then 0
    else
      var n := |lens| - 1;
      Spread(z, lens[..n]) + Pow(z, n) * PowerSum(2, lens[n])
  }

  lemma {:induction false} WeightsSum(z: Scalar, lens: seq<nat>)
    ensures Dot(PositionWeights(z, lens), Const(1, Total(lens))) == Spread(z, lens)
  {
    if |lens| > 0 {
      var n := |lens| - 1;
      WeightsSum(z, lens[..n]);
      assert Const(1, Total(lens)) == Const(1, Total(lens[..n])) + Const(1, lens[n]);
      DotConcat(PositionWeights(z, lens[..n]), Scale(Pow(z, n), Powers(2, lens[n])),
                Const(1, Total(lens[..n])), Const(1, lens[n]));
      DotScale(Pow(z, n), Powers(2, lens[n]), Const(1, lens[n]));
    }
  }

  lemma {:induction false} BitsAreBits(amounts: seq<nat>, lens: seq<nat>)
    requires |amounts| == |lens|
    ensures forall i :: 0 <= i < |Bits(amounts, lens)| ==> Bits(amounts, lens)[i] == 0 || Bits(amounts, lens)[i] == 1
  {
    if |lens| > 0 {
      BitsAreBits(amounts[..|lens| - 1], lens[..|lens| - 1]);
    }
  }

  // ----- the prover -----

  /** bits - 1 */
  function Complements(bits: Vector): (r: Vector)
    ensures |r| == |bits|
  {
    Add(bits, Const(-1, |bits|))
  }

  function APoint(p: Params, g: Vector, h: Vector, bits: Vector, nonces: Nonces): (a: Point)
    requires |g| == |h| == |bits|
  {
    nonces.aBlinding * p.blind + Dot(bits, g) + Dot(Complements(bits), h)
  }

  function SPoint(p: Params, g: Vector, h: Vector, nonces: Nonces): (s: Point)
    requires |g| == |h| == |nonces.sLeft| == |nonces.sRight|
  {
    nonces.sBlinding * p.blind + Dot(nonces.sLeft, g) + Dot(nonces.sRight, h)
  }

  /** A vector polynomial of degree one. */
  datatype VectorPolynomial = VectorPolynomial(constant: Vector, linear: Vector)

  function LeftPolynomial(bits: Vector, nonces: Nonces, z: Scalar): (l: VectorPolynomial)
    ensures |l.constant| == |bits| && l.linear == nonces.sLeft
  {
    VectorPolynomial(Add(bits, Const(-z, |bits|)), nonces.sLeft)
  }

  function RightPolynomial(bits: Vector, nonces: Nonces, y: Scalar, z: Scalar, weights: Vector): (r: VectorPolynomial)
    requires |bits| == |weights| == |nonces.sRight|
    ensures |r.constant| == |r.linear| == |bits|
  {
    VectorPolynomial(
      Add(Had(Powers(y, |bits|), Add(Complements(bits), Const(z, |bits|))), Scale(z * z, weights)),
      Had(Powers(y, |bits|), nonces.sRight))
  }

  function Eval(poly: VectorPolynomial, x: Scalar): (r: Vector)
    requires |poly.constant| == |poly.linear|
    ensures |r| == |poly.constant|
  {
    Add(poly.constant, Scale(x, poly.linear))
  }

  function EvalScalar(constant: Scalar, linear: Scalar, quadratic: Scalar, x: Scalar): (r: Scalar) {
    constant + x * (linear + x * quadratic)
  }

  /** The coefficients of the inner product of two vector polynomials, as the source computes them. */
  function Coefficients(l: VectorPolynomial, r: VectorPolynomial): (t: (Scalar, Scalar, Scalar))
    requires |l.constant| == |l.linear| == |r.constant| == |r.linear|
  {
    var t0, t2 := Dot(l.constant, r.constant), Dot(l.linear, r.linear);
    (t0, Dot(Add(l.constant, l.linear), Add(r.constant, r.linear)) - t0 - t2, t2)
  }

  /** The inner product of the evaluations is the polynomial with those coefficients. */
  lemma {:induction false} CoefficientsEvaluate(l: VectorPolynomial, r: VectorPolynomial, x: Scalar)
    requires |l.constant| == |l.linear| == |r.constant| == |r.linear|
    ensures var (t0, t1, t2) := Coefficients(l, r);
            Dot(Eval(l, x), Eval(r, x)) == EvalScalar(t0, t1, t2, x)
  {
    hide Dot;
    var l0, l1, r0, r1 := l.constant, l.linear, r.constant, r.linear;
    DotFold(1, l0, x, l1, 1, r0, x, r1);
    DotFold(1, l0, 1, l1, 1, r0, 1, r1);
    assert Scale(1, l0) == l0 && Scale(1, l1) == l1 && Scale(1, r0) == r0 && Scale(1, r1) == r1;
    Horner(x, Dot(l0, r0), Dot(l0, r1), Dot(l1, r0), Dot(l1, r1));
  }

  lemma {:induction false} Horner(x: int, p: int, q: int, r: int, s: int)
    ensures 1 * 1 * p + 1 * x * q + x * 1 * r + x * x * s == p + x * ((p + q + r + s - p - s) + x * s)
  {
  }

  function Delta(lens: seq<nat>, y: Scalar, z: Scalar): (d: Scalar) {
    (z - z * z) * PowerSum(y, Total(lens)) - z * z * z * Spread(z, lens)
  }

  /** The constant coefficient carries the amounts and nothing else that the verifier does not know:
      t0 = sum of z^(2+j) v_j + delta(y, z), v_j the part of amount j that its bit length covers. */
  lemma {:induction false} ConstantCoefficient(amounts: seq<nat>, lens: seq<nat>, nonces: Nonces, y: Scalar, z: Scalar)
    requires |amounts| == |lens| && |nonces.sLeft| == |nonces.sRight| == Total(lens)
    ensures Dot(LeftPolynomial(Bits(amounts, lens), nonces, z).constant,
                RightPolynomial(Bits(amounts, lens), nonces, y, z, PositionWeights(z, lens)).constant)
         == z * z * Dot(Powers(z, |lens|), Lows(amounts, lens)) + Delta(lens, y, z)
  {
    hide Dot, Bits, PositionWeights, Powers;
    var bits, w := Bits(amounts, lens), PositionWeights(z, lens);
    var n := |bits|;
    var ys := Powers(y, n);
    var l := Add(bits, Const(-z, n));
    var c := Add(Complements(bits), Const(z, n));
    BitsValue(z, amounts, lens);
    WeightsSum(z, lens);
    DotAddRight(l, Had(ys, c), Scale(z * z, w));
    DotScaleRight(z * z, l, w);
    DotSym(l, w);
    DotSym(bits, w);
    SplitConst(bits, -z, w);
    BitsAreBits(amounts, lens);
    RootsTerm(bits, ys, z);
    ConstantArithmetic(z, Dot(ys, Const(1, n)), Dot(w, bits), Dot(w, Const(1, n)), Dot(w, l));
  }

  lemma {:induction false} RootsTerm(bits: Vector, ys: Vector, z: int)
    requires |bits| == |ys|
    requires forall i :: 0 <= i < |bits| ==> bits[i] == 0 || bits[i] == 1
    ensures Dot(Add(bits, Const(-z, |bits|)), Had(ys, Add(Complements(bits), Const(z, |bits|))))
         == (z - z * z) * Dot(ys, Const(1, |bits|))
  {
    SquareFree(bits, z);
    HadSwap(Add(bits, Const(-z, |bits|)), ys, Add(Complements(bits), Const(z, |bits|)));
    DotScaleRight(z - z * z, ys, Const(1, |bits|));
  }

  lemma {:induction false} HadSwap(l: Vector, ys: Vector, c: Vector)
    requires |l| == |ys| == |c|
    ensures Dot(l, Had(ys, c)) == Dot(ys, Had(l, c))
  {
    DotHad(l, ys, c);
    DotHad(ys, l, c);
    assert Had(l, ys) == Had(ys, l);
  }

  lemma {:induction false} SplitConst(bits: Vector, k: int, w: Vector)
    requires |bits| == |w|
    ensures Dot(w, Add(bits, Const(k, |bits|))) == Dot(w, bits) + k * Dot(w, Const(1, |w|))
  {
    DotAddRight(w, bits, Const(k, |bits|));
    assert Const(k, |w|) == Scale(k, Const(1, |w|));
    DotScaleRight(k, w, Const(1, |w|));
  }

  /** (b - z)(b - 1 + z) = z - z^2 for a bit b. */
  lemma {:induction false} SquareFree(bits: Vector, z: int)
    requires forall i :: 0 <= i < |bits| ==> bits[i] == 0 || bits[i] == 1
    ensures Had(Add(bits, Const(-z, |bits|)), Add(Complements(bits), Const(z, |bits|)))
            == Scale(z - z * z, Const(1, |bits|))
  {
    var l, c := Add(bits, Const(-z, |bits|)), Add(Complements(bits), Const(z, |bits|));
    forall i | 0 <= i < |bits| ensures l[i] * c[i] == (z - z * z) * 1 {
      assert l[i] == bits[i] - z && c[i] == bits[i] - 1 + z;
      if bits[i] == 0 {
        assert (0 - z) * (0 - 1 + z) == z - z * z;
      } else {
        assert (1 - z) * (1 - 1 + z) == z - z * z;
      }
    }
  }

  lemma {:induction false} ConstantArithmetic(z: int, ys: int, wb: int, ws: int, wl: int)
    requires wl == wb + (-z) * ws
    ensures (z - z * z) * ys + z * z * wl == z * z * wb + ((z - z * z) * ys - z * z * z * ws)
  {
  }

  // ----- the transcript, phase by phase -----

  function Opening(n: nat, a: Point, s: Point, t: Transcript): (r: Transcript) {
    Append(Append(t + [Domain("range-proof"), Message("n", [n])], "A", a), "S", s)
  }

  function Extract(t: Transcript, tag: string): (r: Transcript) {
    t + [Extracted(tag)]
  }

  function Polynomials(t1: Point, t2: Point, t: Transcript): (r: Transcript) {
    Append(Append(t, "T_1", t1), "T_2", t2)
  }

  function Evaluations(tx: Scalar, txBlinding: Scalar, eBlinding: Scalar, t: Transcript): (r: Transcript) {
    Append(Append(Append(t, "t_x", tx), "t_x_blinding", txBlinding), "e_blinding", eBlinding)
  }

  function Closing(inner: IppProof, t: Transcript): (r: Transcript) {
    Append(Append(t, "ipp_a", inner.a), "ipp_b", inner.b)
  }

  /** Everything extracted up to the inner-product argument. */
  datatype Challenges = Challenges(y: Scalar, z: Scalar, x: Scalar, w: Scalar, t: Transcript)

  function Challenged(o: Oracle, n: nat, proof: Proof, t: Transcript): (c: Challenges) {
    var ty := Opening(n, proof.a, proof.s, t);
    var tz := Extract(ty, "y");
    var tx := Polynomials(proof.t1, proof.t2, Extract(tz, "z"));
    var tw := Evaluations(proof.tx, proof.txBlinding, proof.eBlinding, Extract(tx, "x"));
    Challenges(o(ty, "y"), o(tz, "z"), o(tx, "x"), o(tw, "w"), Extract(Extract(tw, "w"), "c"))
  }

  // ----- prover -----

  /** The proof together with the challenges it met. */
  datatype ProverRun = ProverRun(proof: Proof, c: Challenges, us: Vector, d: Scalar, t: Transcript)

  predicate Shape(amounts: seq<nat>, lens: seq<nat>, openings: Vector, nonces: Nonces) {
    && |amounts| == |lens| == |openings|
    && IsPowerOfTwo(Total(lens))
    && |nonces.sLeft| == |nonces.sRight| == Total(lens)
  }

  /** sum of z^(2+j) r_j */
  function AggregatedOpening(z: Scalar, openings: Vector): (r: Scalar) {
    z * z * Dot(Powers(z, |openings|), openings)
  }

  /** The two polynomials, their inner product and the commitments to its coefficients. */
  datatype Middle = Middle(l: VectorPolynomial, r: VectorPolynomial, t0: Scalar, t1: Scalar, t2: Scalar)

  function MiddleOf(amounts: seq<nat>, lens: seq<nat>, nonces: Nonces, y: Scalar, z: Scalar): (r: Middle)
    requires |amounts| == |lens| && |nonces.sLeft| == |nonces.sRight| == Total(lens)
    ensures |r.l.constant| == |r.l.linear| == |r.r.constant| == |r.r.linear| == Total(lens)
  {
    var bits := Bits(amounts, lens);
    var l := LeftPolynomial(bits, nonces, z);
    var r := RightPolynomial(bits, nonces, y, z, PositionWeights(z, lens));
    var (t0, t1, t2) := Coefficients(l, r);
    Middle(l, r, t0, t1, t2)
  }

  function Prove(p: Params, amounts: seq<nat>, lens: seq<nat>, openings: Vector, nonces: Nonces,
                 t: Transcript): (run: ProverRun)
    requires p.m > 0 && Shape(amounts, lens, openings, nonces)
  {
    var m, n, bits := p.m, Total(lens), Bits(amounts, lens);
    var g, h := Generators(p.gChain, n), Generators(p.hChain, n);
    var a, s := Canon(m, APoint(p, g, h, bits, nonces)), Canon(m, SPoint(p, g, h, nonces));
    var ty := Opening(n, a, s, t);
    var y := p.o(ty, "y");
    var tz := Extract(ty, "y");
    var z := p.o(tz, "z");
    var mid := MiddleOf(amounts, lens, nonces, y, z);
    var t1, t2 := Canon(m, Commit(p, mid.t1, nonces.t1Blinding)), Canon(m, Commit(p, mid.t2, nonces.t2Blinding));
    var tx := Polynomials(t1, t2, Extract(tz, "z"));
    var x := p.o(tx, "x");
    var vx := Canon(m, EvalScalar(mid.t0, mid.t1, mid.t2, x));
    var vxBlinding := Canon(m, EvalScalar(AggregatedOpening(z, openings), nonces.t1Blinding, nonces.t2Blinding, x));
    var eBlinding := Canon(m, nonces.aBlinding + nonces.sBlinding * x);
    var tw := Evaluations(vx, vxBlinding, eBlinding, Extract(tx, "x"));
    var w := p.o(tw, "w");
    var tc := Extract(Extract(tw, "w"), "c");
    Log2Exact(n);
    var inner := Rounds(m, p.o, Log2(n), w * p.base, g, Had(Powers(Inv(m, y), n), h), Eval(mid.l, x), Eval(mid.r, x),
                        DomainSeparator(n, tc));
    ProverRun(Proof(a, s, t1, t2, vx, vxBlinding, eBlinding, inner.proof),
              Challenges(y, z, x, w, tc), inner.us,
              p.o(Closing(inner.proof, inner.t), "d"), Extract(Closing(inner.proof, inner.t), "d"))
  }

  // ----- verifier -----

  function GScalars(z: Scalar, a: Scalar, s: Vector): (gs: Vector)
    ensures |gs| == |s|
  {
    Add(Const(-z, |s|), Scale(-a, s))
  }

  function HScalars(z: Scalar, b: Scalar, yInverses: Vector, weights: Vector, s: Vector): (hs: Vector)
    requires |yInverses| == |weights| == |s|
    ensures |hs| == |s|
  {
    Add(Const(z, |s|), Had(yInverses, Add(Scale(z * z, weights), Scale(-b, Reverse(s)))))
  }

  function ValueScalars(z: Scalar, d: Scalar, n: nat): (vs: Vector)
    ensures |vs| == n
  {
    Scale(d * (z * z), Powers(z, n))
  }

  function BasepointScalar(proof: Proof, c: Challenges, d: Scalar, lens: seq<nat>): (r: Scalar) {
    c.w * (proof.tx - proof.inner.a * proof.inner.b) + d * (Delta(lens, c.y, c.z) - proof.tx)
  }

  /** The single multiscalar multiplication of the verifier, in the source's order. */
  function CheckSum(p: Params, proof: Proof, commitments: Vector, lens: seq<nat>, c: Challenges, d: Scalar,
                    vs: VerificationScalars): (r: Point)
    requires p.m > 0 && |commitments| == |lens| && |vs.s| == Total(lens)
    requires |vs.squares| == |vs.inverseSquares| == |proof.inner.left| == |proof.inner.right|
  {
    var n := Total(lens);
    Dot([1, c.x, d * c.x, d * (c.x * c.x), -(proof.eBlinding + d * proof.txBlinding),
         BasepointScalar(proof, c, d, lens)]
        + vs.squares + vs.inverseSquares + GScalars(c.z, proof.inner.a, vs.s)
        + HScalars(c.z, proof.inner.b, Powers(Inv(p.m, c.y), n), PositionWeights(c.z, lens), vs.s)
            + ValueScalars(c.z, d, |lens|),
        [proof.a, proof.s, proof.t1, proof.t2, p.blind, p.base]
        + proof.inner.left + proof.inner.right + Generators(p.gChain, n) + Generators(p.hChain, n) + commitments)
  }

  predicate HasIdentityPoint(m: int, proof: Proof)
    requires m > 0
  {
    SomeIdentity(m, [proof.a, proof.s, proof.t1, proof.t2])
  }

  predicate Accepts(p: Params, proof: Proof, commitments: Vector, lens: seq<nat>, t: Transcript)
    requires p.m > 0
  {
    var n := Total(lens);
    if |commitments| != |lens| || n == 0 || !IsPowerOfTwo(n) then false
    else if SomeRefused(p.m, [proof.a, proof.s, proof.t1, proof.t2]) then false
    else
      var c := Challenged(p.o, n, proof, t);
      var vs := Scalars(p.m, p.o, proof.inner, n, c.t);
      vs.Some? &&
      var d := p.o(Closing(proof.inner, vs.value.t), "d");
      IsIdentity(p.m, CheckSum(p, proof, commitments, lens, c, d, vs.value))
  }

  // ----- the theorem -----

  /** sum of z^(2+j) (C_j - commitment to the covered part of amount j) */
  function Residual(p: Params, z: Scalar, amounts: seq<nat>, lens: seq<nat>, openings: Vector,
                    commitments: Vector): (r: Point)
    requires |amounts| == |lens| == |openings| == |commitments|
  {
    z * z * Dot(Powers(z, |lens|), Errors(p, amounts, lens, openings, commitments))
  }

  function Errors(p: Params, amounts: seq<nat>, lens: seq<nat>, openings: Vector, commitments: Vector): (r: Vector)
    requires |amounts| == |lens| == |openings| == |commitments|
    ensures |r| == |lens|
  {
    seq(|lens|, i requires 0 <= i < |lens| => commitments[i] - Commit(p, Low(amounts[i], lens[i]), openings[i]))
  }

  lemma {:induction false} ErrorsDot(p: Params, ws: Vector, amounts: seq<nat>, lens: seq<nat>, openings: Vector,
                                     commitments: Vector)
    requires |ws| == |amounts| == |lens| == |openings| == |commitments|
    ensures Dot(ws, Errors(p, amounts, lens, openings, commitments))
         == Dot(ws, commitments) - Dot(ws, Lows(amounts, lens)) * p.base - Dot(ws, openings) * p.blind
  {
    hide Dot, Lows, Errors, FoldVec, Add;
    ErrorsVector(p, amounts, lens, openings, commitments);
    CommitDot(ws, commitments, p.base, Lows(amounts, lens), p.blind, openings);
  }

  lemma {:induction false} CommitDot(ws: Vector, c: Vector, base: int, v: Vector, blind: int, r: Vector)
    requires |ws| == |c| == |v| == |r|
    ensures Dot(ws, Add(c, FoldVec(-base, v, -blind, r))) == Dot(ws, c) - Dot(ws, v) * base - Dot(ws, r) * blind
  {
    hide Dot, FoldVec, Add;
    DotAddRight(ws, c, FoldVec(-base, v, -blind, r));
    DotFoldRight(ws, -base, v, -blind, r);
    var x, y, z := Dot(ws, c), Dot(ws, v), Dot(ws, r);
    ErrorTerm(x, y, base, z, blind);
  }

  lemma {:induction false} ErrorsVector(p: Params, amounts: seq<nat>, lens: seq<nat>, openings: Vector,
                                        commitments: Vector)
    requires |amounts| == |lens| == |openings| == |commitments|
    ensures Errors(p, amounts, lens, openings, commitments)
         == Add(commitments, FoldVec(-p.base, Lows(amounts, lens), -p.blind, openings))
  {
    hide Low;
    var l, r := Errors(p, amounts, lens, openings, commitments),
      Add(commitments, FoldVec(-p.base, Lows(amounts, lens), -p.blind, openings));
    forall i | 0 <= i < |lens| ensures l[i] == r[i] {
      ErrorTerm(commitments[i], Low(amounts[i], lens[i]), p.base, openings[i], p.blind);
    }
  }

  lemma {:induction false} ErrorTerm(c: int, v: int, base: int, r: int, blind: int)
    ensures c - (v * base + r * blind) == c + (-base * v + -blind * r)
  {
  }

  lemma {:induction false} DotSix(a: int, b: int, c: int, d: int, e: int, f: int, a': int, b': int, c': int, d': int,
                                  e': int, f': int)
    ensures Dot([a, b, c, d, e, f], [a', b', c', d', e', f']) == a * a' + b * b' + c * c' + d * d' + e * e' + f * f'
  {
    DotCons(a, [b, c, d, e, f], a', [b', c', d', e', f']);
    DotCons(b, [c, d, e, f], b', [c', d', e', f']);
    DotCons(c, [d, e, f], c', [d', e', f']);
    DotCons(d, [e, f], d', [e', f']);
    DotCons(e, [f], e', [f']);
    DotSingle([f], [f']);
    assert [a] + [b, c, d, e, f] == [a, b, c, d, e, f] && [a'] + [b', c', d', e', f'] == [a', b', c', d', e', f'];
    assert [b] + [c, d, e, f] == [b, c, d, e, f] && [b'] + [c', d', e', f'] == [b', c', d', e', f'];
    assert [c] + [d, e, f] == [c, d, e, f] && [c'] + [d', e', f'] == [c', d', e', f'];
    assert [d] + [e, f] == [d, e, f] && [d'] + [e', f'] == [d', e', f'];
    assert [e] + [f] == [e, f] && [e'] + [f'] == [e', f'];
  }

  lemma {:induction false} DotParts(a: Vector, b: Vector, c: Vector, d: Vector, e: Vector, f: Vector,
                 a': Vector, b': Vector, c': Vector, d': Vector, e': Vector, f': Vector)
    requires |a| == |a'| && |b| == |b'| && |c| == |c'| && |d| == |d'| && |e| == |e'| && |f| == |f'|
    ensures Dot(a + b + c + d + e + f, a' + b' + c' + d' + e' + f')
         == Dot(a, a') + Dot(b, b') + Dot(c, c') + Dot(d, d') + Dot(e, e') + Dot(f, f')
  {
    DotConcat(a + b + c + d + e, f, a' + b' + c' + d' + e', f');
    DotConcat(a + b + c + d, e, a' + b' + c' + d', e');
    DotConcat(a + b + c, d, a' + b' + c', d');
    DotConcat(a + b, c, a' + b', c');
    DotConcat(a, b, a', b');
  }

  lemma {:induction false} CheckSumParts(p: Params, proof: Proof, commitments: Vector, lens: seq<nat>, c: Challenges,
                                         d: Scalar, vs: VerificationScalars)
    requires p.m > 0 && |commitments| == |lens| && |vs.s| == Total(lens)
    requires |vs.squares| == |vs.inverseSquares| == |proof.inner.left| == |proof.inner.right|
    ensures CheckSum(p, proof, commitments, lens, c, d, vs)
         == (1 * proof.a + c.x * proof.s + (d * c.x) * proof.t1 + (d * (c.x * c.x)) * proof.t2
             + (-(proof.eBlinding + d * proof.txBlinding)) * p.blind + BasepointScalar(proof, c, d, lens) * p.base)
          + Dot(vs.squares, proof.inner.left) + Dot(vs.inverseSquares, proof.inner.right)
          + Dot(GScalars(c.z, proof.inner.a, vs.s), Generators(p.gChain, Total(lens)))
          + Dot(HScalars(c.z, proof.inner.b, Powers(Inv(p.m, c.y), Total(lens)), PositionWeights(c.z, lens), vs.s),
                Generators(p.hChain, Total(lens)))
          + Dot(ValueScalars(c.z, d, |lens|), commitments)
  {
    hide Dot, GScalars, HScalars, ValueScalars, BasepointScalar, Generators, PositionWeights, Powers;
    var n := Total(lens);
    DotParts([1, c.x, d * c.x, d * (c.x * c.x), -(proof.eBlinding + d * proof.txBlinding),
              BasepointScalar(proof, c, d, lens)],
             vs.squares, vs.inverseSquares, GScalars(c.z, proof.inner.a, vs.s),
             HScalars(c.z, proof.inner.b, Powers(Inv(p.m, c.y), n), PositionWeights(c.z, lens), vs.s),
                 ValueScalars(c.z, d, |lens|),
             [proof.a, proof.s, proof.t1, proof.t2, p.blind, p.base],
             proof.inner.left, proof.inner.right, Generators(p.gChain, n), Generators(p.hChain, n), commitments);
    DotSix(1, c.x, d * c.x, d * (c.x * c.x), -(proof.eBlinding + d * proof.txBlinding),
           BasepointScalar(proof, c, d, lens),
           proof.a, proof.s, proof.t1, proof.t2, p.blind, p.base);
  }

  lemma {:induction false} GTerm(z: int, a: int, s: Vector, g: Vector)
    requires |s| == |g|
    ensures Dot(GScalars(z, a, s), g) == -z * Dot(Const(1, |g|), g) - a * Dot(s, g)
  {
    hide Dot;
    DotAdd(Const(-z, |s|), Scale(-a, s), g);
    assert Const(-z, |s|) == Scale(-z, Const(1, |g|));
    DotScale(-z, Const(1, |g|), g);
    DotScale(-a, s, g);
  }

  lemma {:induction false} HTerm(z: int, b: int, yi: Vector, w: Vector, s: Vector, h: Vector)
    requires |yi| == |w| == |s| == |h|
    ensures Dot(HScalars(z, b, yi, w, s), h)
         == z * Dot(Const(1, |h|), h) + z * z * Dot(w, Had(yi, h)) - b * Dot(Reverse(s), Had(yi, h))
  {
    hide Dot;
    var v := Add(Scale(z * z, w), Scale(-b, Reverse(s)));
    DotAdd(Const(z, |s|), Had(yi, v), h);
    assert Const(z, |s|) == Scale(z, Const(1, |h|));
    DotScale(z, Const(1, |h|), h);
    DotHad(v, yi, h);
    assert Had(v, yi) == Had(yi, v);
    DotAdd(Scale(z * z, w), Scale(-b, Reverse(s)), Had(yi, h));
    DotScale(z * z, w, Had(yi, h));
    DotScale(-b, Reverse(s), Had(yi, h));
  }

  lemma {:induction false} LeftTerm(bits: Vector, nonces: Nonces, z: int, x: int, g: Vector)
    requires |bits| == |nonces.sLeft| == |g|
    ensures Dot(Eval(LeftPolynomial(bits, nonces, z), x), g)
         == Dot(bits, g) + x * Dot(nonces.sLeft, g) - z * Dot(Const(1, |g|), g)
  {
    hide Dot;
    var c := Add(bits, Const(-z, |bits|));
    DotAdd(c, Scale(x, nonces.sLeft), g);
    DotScale(x, nonces.sLeft, g);
    DotAdd(bits, Const(-z, |bits|), g);
    assert Const(-z, |bits|) == Scale(-z, Const(1, |g|));
    DotScale(-z, Const(1, |g|), g);
  }

  /** Powers of y against powers of its inverse. */
  lemma {:induction false} CancelPowers(m: int, y: int, yi: int, v: Vector, h: Vector)
    requires |v| == |h| && Cong(m, y * yi, 1)
    ensures Cong(m, Dot(Had(Powers(y, |v|), v), Had(Powers(yi, |v|), h)), Dot(v, h))
  {
    hide Dot, Cong, Pow;
    var ys, yis := Powers(y, |v|), Powers(yi, |v|);
    DotHad(Had(ys, v), yis, h);
    var u := Had(Had(ys, v), yis);
    forall i | 0 <= i < |v| ensures Cong(m, u[i], v[i]) {
      CancelPower(m, y, yi, i, v[i]);
    }
    DotCong(m, u, v, h);
  }

  lemma {:induction false} CancelPower(m: int, y: int, yi: int, i: nat, v: int)
    requires Cong(m, y * yi, 1)
    ensures Cong(m, (Pow(y, i) * v) * Pow(yi, i), v)
  {
    hide Pow;
    PowUnit(m, y, yi, i);
    Regrouped(Pow(y, i), v, Pow(yi, i));
    CongUnit(m, Pow(y, i) * Pow(yi, i), v, (Pow(y, i) * v) * Pow(yi, i), v);
  }

  lemma {:induction false} Regrouped(p: int, v: int, q: int)
    ensures (p * v) * q == v + (p * q - 1) * v
  {
  }

  lemma {:induction false} RightTerm(m: int, bits: Vector, nonces: Nonces, y: int, yi: int, z: int, x: int, w: Vector,
                                     h: Vector)
    requires |bits| == |nonces.sRight| == |h| == |w| && Cong(m, y * yi, 1)
    ensures Cong(m, Dot(Eval(RightPolynomial(bits, nonces, y, z, w), x), Had(Powers(yi, |h|), h)),
                 Dot(Complements(bits), h) + x * Dot(nonces.sRight, h) + z * Dot(Const(1, |h|), h)
                     + z * z * Dot(w, Had(Powers(yi, |h|), h)))
  {
    hide Dot, Powers, Complements;
    var n := |bits|;
    var ys, h' := Powers(y, n), Had(Powers(yi, n), h);
    var c := Add(Complements(bits), Const(z, n));
    var r0, r1 := Add(Had(ys, c), Scale(z * z, w)), Had(ys, nonces.sRight);
    DotAdd(r0, Scale(x, r1), h');
    DotScale(x, r1, h');
    DotAdd(Had(ys, c), Scale(z * z, w), h');
    DotScale(z * z, w, h');
    CancelPowers(m, y, yi, c, h);
    CancelPowers(m, y, yi, nonces.sRight, h);
    DotAdd(Complements(bits), Const(z, n), h);
    assert Const(z, n) == Scale(z, Const(1, n));
    DotScale(z, Const(1, n), h);
    RightCong(m, x, Dot(Had(ys, c), h'), Dot(c, h), Dot(r1, h'), Dot(nonces.sRight, h), z * z * Dot(w, h'));
  }

  lemma {:induction false} RightCong(m: int, x: int, a: int, a': int, b: int, b': int, e: int)
    requires Cong(m, a, a') && Cong(m, b, b')
    ensures Cong(m, a + e + x * b, a' + x * b' + e)
  {
    CongScale(m, x, b, b');
    CongAdd(m, a, a', x * b, x * b');
    CongRefl(m, e);
    CongAdd(m, a + x * b, a' + x * b', e, e);
  }

  /** The vector half of the check cancels. */
  lemma {:induction false} VectorHalf(m: int, blind: int, base: int, x: int, z: int, w: int, a: int, b: int,
                   aPoint: int, alpha: int, bg: int, ch: int, sPoint: int, rho: int, sg: int, rh: int, e: int,
                   og: int, oh: int, wh: int, lg: int, rh': int, lr: int, tx: int, sG: int, sH: int, cross: int)
    requires Cong(m, aPoint, alpha * blind + bg + ch) && Cong(m, sPoint, rho * blind + sg + rh)
    requires Cong(m, e, alpha + rho * x) && Cong(m, tx, lr)
    requires lg == bg + x * sg - z * og
    requires Cong(m, rh', ch + x * rh + z * oh + z * z * wh)
    requires Cong(m, lg + rh' + lr * (w * base) + cross, a * sG + b * sH + a * b * (w * base))
    ensures Cong(m, aPoint + x * sPoint - e * blind + w * (tx - a * b) * base + cross
                    + (-z * og - a * sG) + (z * oh + z * z * wh - b * sH), 0)
  {
    var k1 := CongWitness(m, aPoint, alpha * blind + bg + ch);
    var k2 := CongWitness(m, sPoint, rho * blind + sg + rh);
    var k3 := CongWitness(m, e, alpha + rho * x);
    var k4 := CongWitness(m, tx, lr);
    var k5 := CongWitness(m, rh', ch + x * rh + z * oh + z * z * wh);
    var k6 := CongWitness(m, lg + rh' + lr * (w * base) + cross, a * sG + b * sH + a * b * (w * base));
    VectorArithmetic(m, blind, base, x, z, w, a, b, alpha, bg, ch, rho, sg, rh, og, oh, wh, rh', lr, sG, sH, cross, k1,
                     k2, k3, k4, k5, k6);
    CongBy(m, aPoint + x * sPoint - e * blind + w * (tx - a * b) * base + cross
              + (-z * og - a * sG) + (z * oh + z * z * wh - b * sH), 0,
           k1 + x * k2 - k3 * blind + w * k4 * base - k5 + k6);
  }

  lemma {:induction false} VectorArithmetic(m: int, blind: int, base: int, x: int, z: int, w: int, a: int, b: int,
                                            alpha: int, bg: int, ch: int, rho: int, sg: int, rh: int, og: int, oh: int,
                                            wh: int, rh': int, lr: int, sG: int, sH: int, cross: int, k1: int, k2: int,
                                            k3: int, k4: int, k5: int, k6: int)
    requires rh' == ch + x * rh + z * oh + z * z * wh + k5 * m
    requires (bg + x * sg - z * og) + rh' + lr * (w * base) + cross == a * sG + b * sH + a * b * (w * base) + k6 * m
    ensures (alpha * blind + bg + ch + k1 * m) + x * (rho * blind + sg + rh + k2 * m)
            - (alpha + rho * x + k3 * m) * blind
          + w * (lr + k4 * m - a * b) * base + cross + (-z * og - a * sG) + (z * oh + z * z * wh - b * sH)
         == 0 + (k1 + x * k2 - k3 * blind + w * k4 * base - k5 + k6) * m
  {
    calc {
      (alpha * blind + bg + ch + k1 * m) + x * (rho * blind + sg + rh + k2 * m) - (alpha + rho * x + k3 * m) * blind
          + w * (lr + k4 * m - a * b) * base + cross + (-z * og - a * sG) + (z * oh + z * z * wh - b * sH);
      (bg + x * sg - z * og) + (ch + x * rh + z * oh + z * z * wh) + lr * (w * base) + cross
          - (a * sG + b * sH + a * b * (w * base))
          + k1 * m + x * k2 * m - k3 * m * blind + w * k4 * m * base;
      k6 * m - k5 * m + k1 * m + x * k2 * m - k3 * m * blind + w * k4 * m * base;
    }
  }

  /** The scalar half leaves exactly what the commitments miss of the proved amounts. */
  lemma {:induction false} ScalarHalf(m: int, blind: int, base: int, x: int, zz: int, d: int, t1Point: int, t1: int,
                                      b1: int, t2Point: int, t2: int, b2: int, tx: int, t0: int, txb: int, delta: int,
                                      lows: int, opens: int, commits: int)
    requires Cong(m, t1Point, t1 * base + b1 * blind) && Cong(m, t2Point, t2 * base + b2 * blind)
    requires Cong(m, tx, t0 + x * (t1 + x * t2)) && Cong(m, txb, zz * opens + x * (b1 + x * b2))
    requires t0 == zz * lows + delta
    ensures Cong(m, (d * x) * t1Point + (d * (x * x)) * t2Point - d * txb * blind + d * (delta - tx) * base
                 + d * zz * commits,
                 d * (zz * (commits - lows * base - opens * blind)))
  {
    var k1 := CongWitness(m, t1Point, t1 * base + b1 * blind);
    var k2 := CongWitness(m, t2Point, t2 * base + b2 * blind);
    var k3 := CongWitness(m, tx, t0 + x * (t1 + x * t2));
    var k4 := CongWitness(m, txb, zz * opens + x * (b1 + x * b2));
    var sum := x * t1Point + (x * x) * t2Point - txb * blind + (delta - tx) * base + zz * commits;
    ScalarArithmetic(m, blind, base, x, zz, t1, b1, t2, b2, delta, lows, opens, commits, k1, k2, k3, k4);
    CongBy(m, sum, zz * (commits - lows * base - opens * blind), x * k1 + (x * x) * k2 - k4 * blind - k3 * base);
    CongScale(m, d, sum, zz * (commits - lows * base - opens * blind));
    FactorOut(d, x, t1Point, t2Point, txb, blind, delta - tx, base, zz, commits);
  }

  lemma {:induction false} FactorOut(d: int, x: int, p: int, q: int, r: int, blind: int, e: int, base: int, zz: int,
                                     c: int)
    ensures d * (x * p + (x * x) * q - r * blind + e * base + zz * c)
         == (d * x) * p + (d * (x * x)) * q - d * r * blind + d * e * base + d * zz * c
  {
  }

  lemma {:induction false} ScalarArithmetic(m: int, blind: int, base: int, x: int, zz: int, t1: int, b1: int, t2: int,
                                            b2: int, delta: int, lows: int, opens: int, commits: int, k1: int, k2: int,
                                            k3: int, k4: int)
    ensures x * (t1 * base + b1 * blind + k1 * m) + (x * x) * (t2 * base + b2 * blind + k2 * m)
          - (zz * opens + x * (b1 + x * b2) + k4 * m) * blind
          + (delta - (zz * lows + delta + x * (t1 + x * t2) + k3 * m)) * base + zz * commits
         == zz * (commits - lows * base - opens * blind) + (x * k1 + (x * x) * k2 - k4 * blind - k3 * base) * m
  {
    Distribute(x, t1, base, b1, blind, k1, m);
    Distribute(x * x, t2, base, b2, blind, k2, m);
    var tp, bp := x * (t1 + x * t2), x * (b1 + x * b2);
    assert tp == x * t1 + x * x * t2;
    assert bp == x * b1 + x * x * b2;
    Collect(m, blind, base, x * t1, x * x * t2, x * b1, x * x * b2, tp, bp, zz, delta, lows, opens, commits, x * k1,
            x * x * k2, k3, k4);
  }

  lemma {:induction false} Distribute(x: int, t: int, base: int, b: int, blind: int, k: int, m: int)
    ensures x * (t * base + b * blind + k * m) == (x * t) * base + (x * b) * blind + (x * k) * m
  {
  }

  lemma {:induction false} Collect(m: int, blind: int, base: int, xt1: int, xt2: int, xb1: int, xb2: int, tp: int,
                                   bp: int, zz: int, delta: int, lows: int, opens: int, commits: int, xk1: int,
                                   xk2: int, k3: int, k4: int)
    requires tp == xt1 + xt2 && bp == xb1 + xb2
    ensures (xt1 * base + xb1 * blind + xk1 * m) + (xt2 * base + xb2 * blind + xk2 * m)
          - (zz * opens + bp + k4 * m) * blind + (delta - (zz * lows + delta + tp + k3 * m)) * base + zz * commits
         == zz * (commits - lows * base - opens * blind) + (xk1 + xk2 - k4 * blind - k3 * base) * m
  {
  }

  /** What the prover's run says about the points and scalars of its proof. */
  lemma {:induction false} ProofWords(p: Params, amounts: seq<nat>, lens: seq<nat>, openings: Vector, nonces: Nonces,
                                      t: Transcript)
    requires p.m > 0 && Shape(amounts, lens, openings, nonces)
    ensures var run := Prove(p, amounts, lens, openings, nonces, t);
            var n, c := Total(lens), run.c;
            var mid := MiddleOf(amounts, lens, nonces, c.y, c.z);
            var g, h := Generators(p.gChain, n), Generators(p.hChain, n);
            && Cong(p.m, run.proof.a, APoint(p, g, h, Bits(amounts, lens), nonces))
            && Cong(p.m, run.proof.s, SPoint(p, g, h, nonces))
            && Cong(p.m, run.proof.t1, Commit(p, mid.t1, nonces.t1Blinding))
            && Cong(p.m, run.proof.t2, Commit(p, mid.t2, nonces.t2Blinding))
            && Cong(p.m, run.proof.tx, EvalScalar(mid.t0, mid.t1, mid.t2, c.x))
            && Cong(p.m, run.proof.txBlinding,
                    EvalScalar(AggregatedOpening(c.z, openings), nonces.t1Blinding, nonces.t2Blinding, c.x))
            && Cong(p.m, run.proof.eBlinding, nonces.aBlinding + nonces.sBlinding * c.x)
  {
    hide APoint, SPoint, MiddleOf, Bits, Commit, EvalScalar, AggregatedOpening, Rounds, Cong, Generators;
    var m, n := p.m, Total(lens);
    var run := Prove(p, amounts, lens, openings, nonces, t);
    var c := run.c;
    var mid := MiddleOf(amounts, lens, nonces, c.y, c.z);
    var g, h := Generators(p.gChain, n), Generators(p.hChain, n);
    CanonCong(m, APoint(p, g, h, Bits(amounts, lens), nonces));
    CanonCong(m, SPoint(p, g, h, nonces));
    CanonCong(m, Commit(p, mid.t1, nonces.t1Blinding));
    CanonCong(m, Commit(p, mid.t2, nonces.t2Blinding));
    CanonCong(m, EvalScalar(mid.t0, mid.t1, mid.t2, c.x));
    CanonCong(m, EvalScalar(AggregatedOpening(c.z, openings), nonces.t1Blinding, nonces.t2Blinding, c.x));
    CanonCong(m, nonces.aBlinding + nonces.sBlinding * c.x);
  }

  /** Prover and verifier extract the same challenges. */
  lemma {:induction false} SameChallenges(p: Params, amounts: seq<nat>, lens: seq<nat>, openings: Vector,
                                          nonces: Nonces, t: Transcript)
    requires p.m > 0 && Shape(amounts, lens, openings, nonces)
    ensures var run := Prove(p, amounts, lens, openings, nonces, t);
            Challenged(p.o, Total(lens), run.proof, t) == run.c
  {
    hide APoint, SPoint, MiddleOf, Bits, Commit, EvalScalar, AggregatedOpening, Rounds, Generators;
  }

  /** What the inner-product argument hands to the verifier's check. */
  ghost predicate Opens(p: Params, mid: Middle, c: Challenges, inner: IppProof, n: nat, vs: VerificationScalars)
    requires p.m > 0 && |mid.l.constant| == |mid.l.linear| == |mid.r.constant| == |mid.r.linear| == n
  {
    var g, h' := Generators(p.gChain, n), Had(Powers(Inv(p.m, c.y), n), Generators(p.hChain, n));
    && |vs.squares| == |vs.inverseSquares| == |inner.left| == |inner.right| && |vs.s| == n
    && Cong(p.m, Statement(Eval(mid.l, c.x), Eval(mid.r, c.x), g, h', c.w * p.base)
                 + Dot(vs.squares, inner.left) + Dot(vs.inverseSquares, inner.right),
            inner.a * Dot(vs.s, g) + inner.b * Dot(Reverse(vs.s), h') + inner.a * inner.b * (c.w * p.base))
  }

  /** The vector half of an honest proof's check. */
  function VectorSum(p: Params, proof: Proof, lens: seq<nat>, c: Challenges, vs: VerificationScalars): (r: Point)
    requires p.m > 0 && |vs.s| == Total(lens)
    requires |vs.squares| == |vs.inverseSquares| == |proof.inner.left| == |proof.inner.right|
  {
    var n := Total(lens);
    proof.a + c.x * proof.s - proof.eBlinding * p.blind + c.w * (proof.tx - proof.inner.a * proof.inner.b) * p.base
    + (Dot(vs.squares, proof.inner.left) + Dot(vs.inverseSquares, proof.inner.right))
    + Dot(GScalars(c.z, proof.inner.a, vs.s), Generators(p.gChain, n))
    + Dot(HScalars(c.z, proof.inner.b, Powers(Inv(p.m, c.y), n), PositionWeights(c.z, lens), vs.s),
          Generators(p.hChain, n))
  }

  function ScalarSum(p: Params, proof: Proof, commitments: Vector, lens: seq<nat>, c: Challenges, d: Scalar): (r: Point)
    requires |commitments| == |lens|
  {
    (d * c.x) * proof.t1 + (d * (c.x * c.x)) * proof.t2 - d * proof.txBlinding * p.blind
    + d * (Delta(lens, c.y, c.z) - proof.tx) * p.base + d * (c.z * c.z) * Dot(Powers(c.z, |lens|), commitments)
  }

  lemma {:induction false} CheckSumHalves(p: Params, proof: Proof, commitments: Vector, lens: seq<nat>, c: Challenges,
                                          d: Scalar, vs: VerificationScalars)
    requires p.m > 0 && |commitments| == |lens| && |vs.s| == Total(lens)
    requires |vs.squares| == |vs.inverseSquares| == |proof.inner.left| == |proof.inner.right|
    ensures CheckSum(p, proof, commitments, lens, c, d, vs)
         == VectorSum(p, proof, lens, c, vs) + ScalarSum(p, proof, commitments, lens, c, d)
  {
    hide CheckSum, Dot, GScalars, HScalars, Delta, Powers, Generators, PositionWeights;
    CheckSumParts(p, proof, commitments, lens, c, d, vs);
    DotScale(d * (c.z * c.z), Powers(c.z, |lens|), commitments);
    Regroup2(proof.eBlinding, d, proof.txBlinding, p.blind, c.w, proof.tx - proof.inner.a * proof.inner.b,
             Delta(lens, c.y, c.z) - proof.tx, p.base);
  }

  lemma {:induction false} Regroup2(e: int, d: int, b: int, blind: int, w: int, u: int, v: int, base: int)
    ensures (-(e + d * b)) * blind + (w * u + d * v) * base == -e * blind - d * b * blind + w * u * base + d * v * base
  {
  }

  lemma {:induction false} VectorSumVanishes(p: Params, amounts: seq<nat>, lens: seq<nat>, openings: Vector,
                                             nonces: Nonces, t: Transcript, vs: VerificationScalars)
    requires Prime(p.m) && Shape(amounts, lens, openings, nonces)
    requires var run := Prove(p, amounts, lens, openings, nonces, t);
             !IsIdentity(p.m, run.c.y) &&
             Opens(p, MiddleOf(amounts, lens, nonces, run.c.y, run.c.z), run.c, run.proof.inner, Total(lens), vs)
    ensures Cong(p.m, VectorSum(p, Prove(p, amounts, lens, openings, nonces, t).proof, lens,
                                Prove(p, amounts, lens, openings, nonces, t).c, vs), 0)
  {
    hide Prove, Bits, PositionWeights, Powers, Generators, Coefficients, Dot, Cong, GScalars, HScalars, LeftPolynomial,
         RightPolynomial, Eval;
    var run := Prove(p, amounts, lens, openings, nonces, t);
    var m, n, c, proof := p.m, Total(lens), run.c, run.proof;
    var g, h := Generators(p.gChain, n), Generators(p.hChain, n);
    var bits, w := Bits(amounts, lens), PositionWeights(c.z, lens);
    var yi := Inv(m, c.y);
    var h' := Had(Powers(yi, n), h);
    var mid := MiddleOf(amounts, lens, nonces, c.y, c.z);
    var l, r := Eval(mid.l, c.x), Eval(mid.r, c.x);
    InvLaw(m, c.y);
    ProofWords(p, amounts, lens, openings, nonces, t);
    GTerm(c.z, proof.inner.a, vs.s, g);
    HTerm(c.z, proof.inner.b, Powers(yi, n), w, vs.s, h);
    LeftTerm(bits, nonces, c.z, c.x, g);
    RightTerm(m, bits, nonces, c.y, yi, c.z, c.x, w, h);
    CoefficientsEvaluate(mid.l, mid.r, c.x);
    var cross := Dot(vs.squares, proof.inner.left) + Dot(vs.inverseSquares, proof.inner.right);
    VectorHalf(m, p.blind, p.base, c.x, c.z, c.w, proof.inner.a, proof.inner.b,
               proof.a, nonces.aBlinding, Dot(bits, g), Dot(Complements(bits), h),
               proof.s, nonces.sBlinding, Dot(nonces.sLeft, g), Dot(nonces.sRight, h), proof.eBlinding,
               Dot(Const(1, n), g), Dot(Const(1, n), h), Dot(w, h'), Dot(l, g), Dot(r, h'), Dot(l, r), proof.tx,
               Dot(vs.s, g), Dot(Reverse(vs.s), h'), cross);
  }

  lemma {:induction false} ScalarSumResidual(p: Params, amounts: seq<nat>, lens: seq<nat>, openings: Vector,
                                             nonces: Nonces, commitments: Vector, t: Transcript)
    requires p.m > 0 && Shape(amounts, lens, openings, nonces) && |commitments| == |lens|
    ensures var run := Prove(p, amounts, lens, openings, nonces, t);
            Cong(p.m, ScalarSum(p, run.proof, commitments, lens, run.c, run.d),
                 run.d * Residual(p, run.c.z, amounts, lens, openings, commitments))
  {
    hide Prove, Bits, PositionWeights, Powers, Dot, Cong, LeftPolynomial, RightPolynomial, Delta, Lows, Errors;
    var run := Prove(p, amounts, lens, openings, nonces, t);
    var m, c, proof := p.m, run.c, run.proof;
    var mid := MiddleOf(amounts, lens, nonces, c.y, c.z);
    var zs := Powers(c.z, |lens|);
    ProofWords(p, amounts, lens, openings, nonces, t);
    ConstantCoefficient(amounts, lens, nonces, c.y, c.z);
    ErrorsDot(p, zs, amounts, lens, openings, commitments);
    ScalarHalf(m, p.blind, p.base, c.x, c.z * c.z, run.d, proof.t1, mid.t1, nonces.t1Blinding, proof.t2, mid.t2,
               nonces.t2Blinding,
               proof.tx, mid.t0, proof.txBlinding, Delta(lens, c.y, c.z),
               Dot(zs, Lows(amounts, lens)), Dot(zs, openings), Dot(zs, commitments));
  }

  /** The prover's inner argument, seen by the verifier. */
  lemma {:induction false} InnerOpens(p: Params, amounts: seq<nat>, lens: seq<nat>, openings: Vector, nonces: Nonces,
                                      t: Transcript)
    requires Prime(p.m) && Shape(amounts, lens, openings, nonces)
    requires 1 <= Log2(Total(lens)) < 32
    requires AllNonzero(p.m, Prove(p, amounts, lens, openings, nonces, t).us)
    ensures var run := Prove(p, amounts, lens, openings, nonces, t);
            var r := Scalars(p.m, p.o, run.proof.inner, Total(lens), run.c.t);
            r == None <==> SomeIdentity(p.m, run.proof.inner.left) || SomeIdentity(p.m, run.proof.inner.right)
    ensures var run := Prove(p, amounts, lens, openings, nonces, t);
            var r := Scalars(p.m, p.o, run.proof.inner, Total(lens), run.c.t);
            r.Some? ==>
              && run.d == p.o(Closing(run.proof.inner, r.value.t), "d")
              && Opens(p, MiddleOf(amounts, lens, nonces, run.c.y, run.c.z), run.c, run.proof.inner, Total(lens),
                       r.value)
  {
    hide APoint, SPoint, MiddleOf, Bits, Commit, EvalScalar, AggregatedOpening, Rounds, Cong, Dot, Statement, Scalars,
         SomeIdentity, Log2, Eval, Powers, Generators, Had;
    var run := Prove(p, amounts, lens, openings, nonces, t);
    var n, c := Total(lens), run.c;
    var mid := MiddleOf(amounts, lens, nonces, c.y, c.z);
    Log2Exact(n);
    var g, h := Generators(p.gChain, n), Generators(p.hChain, n);
    InnerProductComplete(p.m, p.o, Log2(n), c.w * p.base, g, Had(Powers(Inv(p.m, c.y), n), h), Eval(mid.l, c.x),
                         Eval(mid.r, c.x), c.t);
  }

  /** The prover's four points are encoded canonically. */
  lemma {:induction false} PointsEncoded(p: Params, amounts: seq<nat>, lens: seq<nat>, openings: Vector, nonces: Nonces,
                                         t: Transcript)
    requires p.m > 0 && Shape(amounts, lens, openings, nonces)
    ensures var proof := Prove(p, amounts, lens, openings, nonces, t).proof;
            SomeRefused(p.m, [proof.a, proof.s, proof.t1, proof.t2]) <==> HasIdentityPoint(p.m, proof)
  {
    hide APoint, SPoint, MiddleOf, Bits, Commit, EvalScalar, AggregatedOpening, Rounds, Log2, Eval, Powers, Generators,
         Had;
    var proof := Prove(p, amounts, lens, openings, nonces, t).proof;
    assert Decodes(p.m, proof.a) && Decodes(p.m, proof.s) && Decodes(p.m, proof.t1) && Decodes(p.m, proof.t2);
  }

  predicate NoIdentity(m: int, proof: Proof)
    requires m > 0
  {
    !HasIdentityPoint(m, proof) && !SomeIdentity(m, proof.inner.left) && !SomeIdentity(m, proof.inner.right)
  }

  /** Exactly when an honest proof is accepted, against any commitments and for amounts of any size: when none of
      its points is the identity and the weighted sum of what each commitment misses of the covered part of its
      amount is the identity. Challenges that are inverted are taken to be nonzero. */
  lemma {:induction false} HonestProofAccepted(p: Params, amounts: seq<nat>, lens: seq<nat>, openings: Vector,
                                               nonces: Nonces, commitments: Vector, t: Transcript)
    requires Prime(p.m) && Shape(amounts, lens, openings, nonces) && |commitments| == |lens|
    requires 1 <= Log2(Total(lens)) < 32
    requires var run := Prove(p, amounts, lens, openings, nonces, t);
             !IsIdentity(p.m, run.c.y) && AllNonzero(p.m, run.us)
    ensures var run := Prove(p, amounts, lens, openings, nonces, t);
            Accepts(p, run.proof, commitments, lens, t)
            <==> NoIdentity(p.m, run.proof)
                 && IsIdentity(p.m, run.d * Residual(p, run.c.z, amounts, lens, openings, commitments))
  {
    hide Prove, Residual, Scalars, SomeIdentity, SomeRefused, CheckSum, VectorSum, ScalarSum, Cong, Opens, MiddleOf;
    hide Challenged, Closing, IsPowerOfTwo, Log2, IsIdentity;
    var m, n := p.m, Total(lens);
    PointsEncoded(p, amounts, lens, openings, nonces, t);
    var run := Prove(p, amounts, lens, openings, nonces, t);
    PowerPositive(n);
    SameChallenges(p, amounts, lens, openings, nonces, t);
    InnerOpens(p, amounts, lens, openings, nonces, t);
    var r := Scalars(m, p.o, run.proof.inner, n, run.c.t);
    if r.Some? {
      OpensLengths(p, MiddleOf(amounts, lens, nonces, run.c.y, run.c.z), run.c, run.proof.inner, n, r.value);
      CheckSumHalves(p, run.proof, commitments, lens, run.c, run.d, r.value);
      VectorSumVanishes(p, amounts, lens, openings, nonces, t, r.value);
      ScalarSumResidual(p, amounts, lens, openings, nonces, commitments, t);
      SumIdentity(m, VectorSum(p, run.proof, lens, run.c, r.value),
                  ScalarSum(p, run.proof, commitments, lens, run.c, run.d),
                  run.d * Residual(p, run.c.z, amounts, lens, openings, commitments));
    }
  }

  lemma {:induction false} PowerPositive(n: int)
    requires IsPowerOfTwo(n)
    ensures n > 0
  {
  }

  lemma {:induction false} OpensLengths(p: Params, mid: Middle, c: Challenges, inner: IppProof, n: nat,
                                        vs: VerificationScalars)
    requires p.m > 0 && |mid.l.constant| == |mid.l.linear| == |mid.r.constant| == |mid.r.linear| == n
    requires Opens(p, mid, c, inner, n, vs)
    ensures |vs.squares| == |vs.inverseSquares| == |inner.left| == |inner.right| && |vs.s| == n
  {
  }

  lemma {:induction false} SumIdentity(m: int, v: int, s: int, r: int)
    requires m > 0 && Cong(m, v, 0) && Cong(m, s, r)
    ensures IsIdentity(m, v + s) <==> IsIdentity(m, r)
  {
    CongAdd(m, v, 0, s, r);
    CanonEqual(m, v + s, r);
  }

  /** Range-proof completeness: amounts below their bound with matching commitments. */
  lemma {:induction false} RangeProofComplete(p: Params, amounts: seq<nat>, lens: seq<nat>, openings: Vector,
                                              nonces: Nonces, commitments: Vector, t: Transcript)
    requires Prime(p.m) && Shape(amounts, lens, openings, nonces) && |commitments| == |lens|
    requires 1 <= Log2(Total(lens)) < 32
    requires var run := Prove(p, amounts, lens, openings, nonces, t);
             !IsIdentity(p.m, run.c.y) && AllNonzero(p.m, run.us)
    requires forall i :: 0 <= i < |lens| ==> amounts[i] < Pow(2, lens[i])
    requires forall i :: 0 <= i < |lens| ==> Cong(p.m, commitments[i], Commit(p, amounts[i], openings[i]))
    ensures var run := Prove(p, amounts, lens, openings, nonces, t);
            Accepts(p, run.proof, commitments, lens, t) <==> NoIdentity(p.m, run.proof)
  {
    hide Prove, Accepts, Dot, Log2, IsPowerOfTwo, Commit, Powers;
    var m := p.m;
    var run := Prove(p, amounts, lens, openings, nonces, t);
    HonestProofAccepted(p, amounts, lens, openings, nonces, commitments, t);
    var e, zs := Errors(p, amounts, lens, openings, commitments), Powers(run.c.z, |lens|);
    var zero := Const(0, |lens|);
    forall i | 0 <= i < |lens| ensures Cong(m, e[i], zero[i]) {
      LowWhole(amounts[i], lens[i]);
      var c := Commit(p, amounts[i], openings[i]);
      CongRefl(m, c);
      CongSub(m, commitments[i], c, c, c);
    }
    DotCong(m, e, zero, zs);
    DotZero(zs);
    DotSym(e, zs);
    CongScale(m, run.c.z * run.c.z, Dot(zs, e), 0);
    CongScale(m, run.d, Residual(p, run.c.z, amounts, lens, openings, commitments), 0);
    IdentityCong(m, run.d * Residual(p, run.c.z, amounts, lens, openings, commitments));
  }

  lemma {:induction false} LowWhole(amount: nat, len: nat)
    requires amount < Pow(2, len)
    ensures Low(amount, len) == amount
  {
    ModUnique(amount, Pow(2, len), 0, amount);
  }

  lemma {:induction false} DotZero(v: Vector)
    ensures Dot(Const(0, |v|), v) == 0
  {
    assert Const(0, |v|) == Scale(0, Const(0, |v|));
    DotScale(0, Const(0, |v|), v);
  }

  /** One amount: the proof convinces exactly for a commitment to the part its bit length covers, so an amount
      outside the range is never accepted under its own commitment unless the excess vanishes in the group. */
  lemma {:induction false} SingleAmountExact(p: Params, amount: nat, len: nat, opening: Scalar, nonces: Nonces,
                                             commitment: Point, t: Transcript)
    requires Prime(p.m) && Shape([amount], [len], [opening], nonces)
    requires 1 <= Log2(len) < 32
    requires var run := Prove(p, [amount], [len], [opening], nonces, t);
             !IsIdentity(p.m, run.c.y) && AllNonzero(p.m, run.us) && !IsIdentity(p.m, run.c.z)
                 && !IsIdentity(p.m, run.d)
    ensures var run := Prove(p, [amount], [len], [opening], nonces, t);
            Accepts(p, run.proof, [commitment], [len], t)
            <==> NoIdentity(p.m, run.proof) && Cong(p.m, commitment, Commit(p, Low(amount, len), opening))
  {
    hide Prove, Accepts, Dot, Log2, IsPowerOfTwo, Commit, Low;
    var m := p.m;
    assert Total([len]) == len by {
      assert [len][..0] == [];
    }
    var run := Prove(p, [amount], [len], [opening], nonces, t);
    HonestProofAccepted(p, [amount], [len], [opening], nonces, [commitment], t);
    var z, e := run.c.z, commitment - Commit(p, Low(amount, len), opening);
    var es := Errors(p, [amount], [len], [opening], [commitment]);
    assert es == [e] && Powers(z, 1) == [1];
    DotSingle([1], [e]);
    assert Residual(p, z, [amount], [len], [opening], [commitment]) == z * z * e;
    CancelNonzero(m, z, e);
    CancelNonzero(m, z, z * e);
    CancelNonzero(m, run.d, z * (z * e));
    IdentityCong(m, run.d * (z * (z * e)));
    assert z * z * e == z * (z * e);
    DifferenceZero(m, commitment, Commit(p, Low(amount, len), opening));
  }

  lemma {:induction false} DifferenceZero(m: int, a: int, b: int)
    ensures Cong(m, a - b, 0) <==> Cong(m, a, b)
  {
    CongRefl(m, b);
    if Cong(m, a - b, 0) {
      CongAdd(m, a - b, 0, b, b);
    }
    if Cong(m, a, b) {
      CongSub(m, a, b, b, b);
    }
  }

  lemma {:induction false} CancelNonzero(m: int, z: int, e: int)
    requires Prime(m) && !IsIdentity(m, z)
    ensures Cong(m, z * e, 0) <==> Cong(m, e, 0)
  {
    if Cong(m, e, 0) {
      CongScale(m, z, e, 0);
    }
    if Cong(m, z * e, 0) {
      InvLaw(m, z);
      var v := Inv(m, z);
      CongScale(m, v, z * e, 0);
      assert v * (z * e) == e + (z * v - 1) * e;
      CongUnit(m, z * v, e, v * (z * e), e);
      CongSym(m, v * (z * e), e);
      CongTrans(m, e, v * (z * e), 0);
    }
  }
}
