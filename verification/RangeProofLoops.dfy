/**
 The loops of programs/token-2022/confidential_range.go, proved to compute the functions of RangeProof.
 */
module RangeProofLoops {
  import opened Wrappers
  import opened Residues
  import opened Vectors
  import opened Transcripts
  import opened InnerProduct
  import opened RangeProof

  // ----- where amount j keeps bit i -----

  lemma {:induction false} TotalPrefix(lens: seq<nat>, j: nat)
    requires j < |lens|
    ensures Total(lens[..j + 1]) == Total(lens[..j]) + lens[j] <= Total(lens)
    decreases |lens|
  {
    assert lens[..j + 1][..j] == lens[..j];
    var n := |lens| - 1;
    if j < n {
      TotalPrefix(lens[..n], j);
      assert lens[..n][..j + 1] == lens[..j + 1] && lens[..n][..j] == lens[..j];
    } else {
      assert lens[..j + 1] == lens;
    }
  }

  /** The entry of the concatenated vectors at bit i of amount j. */
  lemma {:induction false} EntryAt(amounts: seq<nat>, lens: seq<nat>, z: Scalar, j: nat, i: nat)
    requires |amounts| == |lens| && j < |lens| && i < lens[j]
    ensures Total(lens[..j]) + i < Total(lens)
    ensures Bits(amounts, lens)[Total(lens[..j]) + i] == Bit(amounts[j], i)
    ensures PositionWeights(z, lens)[Total(lens[..j]) + i] == Pow(z, j) * Pow(2, i)
    decreases |lens|
  {
    BitAt(amounts, lens, j, i);
    WeightAt(lens, z, j, i);
  }

  lemma {:induction false} BitAt(amounts: seq<nat>, lens: seq<nat>, j: nat, i: nat)
    requires |amounts| == |lens| && j < |lens| && i < lens[j]
    ensures Total(lens[..j]) + i < Total(lens)
    ensures Bits(amounts, lens)[Total(lens[..j]) + i] == Bit(amounts[j], i)
    decreases |lens|
  {
    TotalPrefix(lens, j);
    var n := |lens| - 1;
    var front, last := Bits(amounts[..n], lens[..n]), BitsOf(amounts[n], lens[n]);
    assert Bits(amounts, lens) == front + last;
    assert j == n ==> last[i] == Bit(amounts[n], i);
    hide Bit, Bits, BitsOf;
    if j < n {
      BitAt(amounts[..n], lens[..n], j, i);
      assert lens[..n][..j] == lens[..j];
    }
  }

  lemma {:induction false} WeightAt(lens: seq<nat>, z: Scalar, j: nat, i: nat)
    requires j < |lens| && i < lens[j]
    ensures Total(lens[..j]) + i < Total(lens)
    ensures PositionWeights(z, lens)[Total(lens[..j]) + i] == Pow(z, j) * Pow(2, i)
    decreases |lens|
  {
    TotalPrefix(lens, j);
    var n := |lens| - 1;
    var front, last := PositionWeights(z, lens[..n]), Scale(Pow(z, n), Powers(2, lens[n]));
    assert PositionWeights(z, lens) == front + last;
    assert j == n ==> last[i] == Pow(z, n) * Pow(2, i);
    hide Pow, PositionWeights, Scale, Powers;
    if j < n {
      WeightAt(lens[..n], z, j, i);
      assert lens[..n][..j] == lens[..j];
    }
  }

  method AddBits(g: Vector, h: Vector, amounts: seq<nat>, lens: seq<nat>, start: Point) returns (point: Point)
    requires |amounts| == |lens| && |g| == |h| == Total(lens)
    ensures point == start + Dot(Bits(amounts, lens), g) + Dot(Complements(Bits(amounts, lens)), h)
  {
    hide Bits, Bit, BitsOf, Dot;
    point := start;
    var position := 0;
    NoTerms(g, h);
    ghost var bits := Bits(amounts, lens);
    ghost var comps := Complements(bits);
    for j := 0 to |amounts|
      invariant position == Total(lens[..j]) <= |g|
      invariant point == start + Dot(bits[..position], g[..position]) + Dot(comps[..position], h[..position])
    {
      TotalPrefix(lens, j);
      for i := 0 to lens[j]
        invariant position == Total(lens[..j]) + i
        invariant point == start + Dot(bits[..position], g[..position]) + Dot(comps[..position], h[..position])
      {
        EntryAt(amounts, lens, 0, j, i);
        DotNext(bits, g, position);
        DotNext(comps, h, position);
        if Bit(amounts[j], i) == 1 {
          point := point + g[position];
        } else {
          point := point - h[position];
        }
        position := position + 1;
      }
    }
    assert lens[..|lens|] == lens;
    assert bits[..position] == bits && g[..position] == g && comps[..position] == comps && h[..position] == h;
  }

  lemma {:induction false} NoTerms(g: Vector, h: Vector)
    ensures forall a: Vector :: Dot(a[..0], g[..0]) == 0 && Dot(a[..0], h[..0]) == 0
  {
  }

  lemma {:induction false} DotNext(a: Vector, b: Vector, i: nat)
    requires |a| == |b| && i < |a|
    ensures Dot(a[..i + 1], b[..i + 1]) == Dot(a[..i], b[..i]) + a[i] * b[i]
  {
    assert a[..i + 1][..i] == a[..i] && b[..i + 1][..i] == b[..i];
  }

  method VectorPolynomials(amounts: seq<nat>, lens: seq<nat>, nonces: Nonces, y: Scalar, z: Scalar)
    returns (l: VectorPolynomial, r: VectorPolynomial)
    requires |amounts| == |lens| && |nonces.sLeft| == |nonces.sRight| == Total(lens)
    ensures l == LeftPolynomial(Bits(amounts, lens), nonces, z)
    ensures r == RightPolynomial(Bits(amounts, lens), nonces, y, z, PositionWeights(z, lens))
  {
    hide Bits, Bit, BitsOf, PositionWeights;
    ghost var target := LeftPolynomial(Bits(amounts, lens), nonces, z);
    ghost var target' := RightPolynomial(Bits(amounts, lens), nonces, y, z, PositionWeights(z, lens));
    var l0: Vector, l1: Vector, r0: Vector, r1: Vector := [], [], [], [];
    var zPower, yPower := z * z, 1;
    var position := 0;
    for j := 0 to |amounts|
      invariant position == Total(lens[..j]) <= Total(lens)
      invariant zPower == z * z * Pow(z, j) && yPower == Pow(y, position)
      invariant l0 == target.constant[..position] && l1 == target.linear[..position]
      invariant r0 == target'.constant[..position] && r1 == target'.linear[..position]
    {
      TotalPrefix(lens, j);
      var twoPower := 1;
      for i := 0 to lens[j]
        invariant position == Total(lens[..j]) + i
        invariant twoPower == Pow(2, i) && yPower == Pow(y, position)
        invariant l0 == target.constant[..position] && l1 == target.linear[..position]
        invariant r0 == target'.constant[..position] && r1 == target'.linear[..position]
      {
        EntryAt(amounts, lens, z, j, i);
        var bit := Bit(amounts[j], i);
        var rightBit := bit - 1;
        Associate(z * z, Pow(z, j), twoPower);
        l0 := l0 + [bit - z];
        l1 := l1 + [nonces.sLeft[position]];
        r0 := r0 + [yPower * (rightBit + z) + zPower * twoPower];
        r1 := r1 + [yPower * nonces.sRight[position]];
        yPower := yPower * y;
        twoPower := twoPower + twoPower;
        position := position + 1;
      }
      Associate(z * z, Pow(z, j), z);
      zPower := zPower * z;
    }
    assert lens[..|lens|] == lens;
    l, r := VectorPolynomial(l0, l1), VectorPolynomial(r0, r1);
  }

  lemma {:induction false} Associate(a: int, b: int, c: int)
    ensures (a * b) * c == a * (b * c)
  {
  }

  method PolynomialInnerProduct(left: VectorPolynomial, right: VectorPolynomial)
    returns (ok: bool, t0: Scalar, t1: Scalar, t2: Scalar)
    ensures ok <==> |left.constant| == |left.linear| == |right.constant| == |right.linear|
    ensures ok ==> (t0, t1, t2) == Coefficients(left, right)
  {
    t0, t1, t2 := 0, 0, 0;
    if |left.constant| != |right.constant| || |left.linear| != |right.linear| || |left.constant| != |left.linear| {
      return false, 0, 0, 0;
    }
    ok, t0 := ScalarInnerProduct(left.constant, right.constant);
    ok, t2 := ScalarInnerProduct(left.linear, right.linear);
    var leftSum: Vector, rightSum: Vector := [], [];
    for i := 0 to |left.constant|
      invariant leftSum == Add(left.constant, left.linear)[..i]
      invariant rightSum == Add(right.constant, right.linear)[..i]
    {
      leftSum := leftSum + [left.constant[i] + left.linear[i]];
      rightSum := rightSum + [right.constant[i] + right.linear[i]];
    }
    assert leftSum == Add(left.constant, left.linear) && rightSum == Add(right.constant, right.linear);
    ok, t1 := ScalarInnerProduct(leftSum, rightSum);
    t1 := t1 - t0;
    t1 := t1 - t2;
  }

  method Aggregate(z: Scalar, openings: Vector) returns (sum: Scalar)
    ensures sum == AggregatedOpening(z, openings)
  {
    hide Dot;
    sum := 0;
    var zPower := z;
    ghost var zs := Powers(z, |openings|);
    assert Dot(zs[..0], openings[..0]) == 0 by { DotEmpty(zs[..0], openings[..0]); }
    for j := 0 to |openings|
      invariant zPower == z * Pow(z, j)
      invariant sum == z * z * Dot(zs[..j], openings[..j])
    {
      DotNext(zs, openings, j);
      zPower := zPower * z;
      Weigh(z, Pow(z, j), openings[j], Dot(zs[..j], openings[..j]));
      sum := sum + zPower * openings[j];
    }
    assert zs[..|openings|] == zs && openings[..|openings|] == openings;
  }

  lemma {:induction false} DotEmpty(a: Vector, b: Vector)
    requires |a| == |b| == 0
    ensures Dot(a, b) == 0
  {
  }

  lemma {:induction false} Weigh(z: int, p: int, r: int, s: int)
    ensures z * z * s + ((z * p) * z) * r == z * z * (s + p * r)
    ensures (z * p) * z == z * (p * z)
  {
  }

  method WeightsLoop(z: Scalar, lens: seq<nat>) returns (weights: Vector)
    ensures weights == PositionWeights(z, lens)
  {
    hide PositionWeights;
    weights := [];
    var zPower := 1;
    ghost var target := PositionWeights(z, lens);
    ghost var amounts := seq(|lens|, _ => 0);
    for j := 0 to |lens|
      invariant zPower == Pow(z, j) && |weights| == Total(lens[..j]) <= Total(lens)
      invariant weights == target[..|weights|]
    {
      TotalPrefix(lens, j);
      var twoPower := 1;
      for i := 0 to lens[j]
        invariant twoPower == Pow(2, i) && |weights| == Total(lens[..j]) + i
        invariant weights == target[..|weights|]
      {
        EntryAt(amounts, lens, z, j, i);
        weights := weights + [zPower * twoPower];
        twoPower := twoPower + twoPower;
      }
      zPower := zPower * z;
    }
    assert lens[..|lens|] == lens;
  }

  method DeltaLoop(lens: seq<nat>, y: Scalar, z: Scalar) returns (delta: Scalar)
    ensures delta == Delta(lens, y, z)
  {
    var totalBits := 0;
    for j := 0 to |lens|
      invariant totalBits == Total(lens[..j])
    {
      TotalPrefix(lens, j);
      totalBits := totalBits + lens[j];
    }
    assert lens[..|lens|] == lens;
    var zSquared := z * z;
    var powers := ScalarPowerSum(y, totalBits);
    delta := (z - zSquared) * powers;
    var zPower := zSquared * z;
    for j := 0 to |lens|
      invariant zPower == z * z * z * Pow(z, j)
      invariant delta == (z - z * z) * PowerSum(y, Total(lens)) - z * z * z * Spread(z, lens[..j])
    {
      assert lens[..j + 1][..j] == lens[..j];
      var sum := ScalarPowerSum(2, lens[j]);
      Spreads(z * z * z, Pow(z, j), sum, Spread(z, lens[..j]));
      delta := delta - zPower * sum;
      Associate(z * z * z, Pow(z, j), z);
      zPower := zPower * z;
    }
    assert lens[..|lens|] == lens;
  }

  lemma {:induction false} Spreads(c: int, p: int, s: int, t: int)
    ensures c * t + (c * p) * s == c * (t + p * s)
  {
  }

  method GeneratorScalars(z: Scalar, a: Scalar, b: Scalar, yInverses: Vector, weights: Vector, s: Vector)
    returns (gs: Vector, hs: Vector)
    requires |yInverses| == |weights| == |s|
    ensures gs == GScalars(z, a, s) && hs == HScalars(z, b, yInverses, weights, s)
  {
    gs, hs := [], [];
    var zSquared, minusZ := z * z, -z;
    for i := 0 to |s|
      invariant gs == GScalars(z, a, s)[..i]
      invariant hs == HScalars(z, b, yInverses, weights, s)[..i]
    {
      Negate(a, s[i]);
      Negate(b, s[|s| - 1 - i]);
      gs := gs + [minusZ - a * s[i]];
      hs := hs + [z + yInverses[i] * (zSquared * weights[i] - b * s[|s| - 1 - i])];
    }
  }

  lemma {:induction false} Negate(a: int, b: int)
    ensures -a * b == -(a * b)
  {
  }

  method ValueScalarsLoop(z: Scalar, d: Scalar, n: nat) returns (vs: Vector)
    ensures vs == ValueScalars(z, d, n)
  {
    vs := [];
    var zPower := 1;
    for j := 0 to n
      invariant zPower == Pow(z, j) && vs == ValueScalars(z, d, n)[..j]
    {
      Associate(d, z * z, zPower);
      vs := vs + [d * ((z * z) * zPower)];
      zPower := zPower * z;
    }
  }

  method EvaluateVector(poly: VectorPolynomial, x: Scalar) returns (values: Vector)
    requires |poly.constant| == |poly.linear|
    ensures values == Eval(poly, x)
  {
    values := [];
    for i := 0 to |poly.constant|
      invariant values == Eval(poly, x)[..i]
    {
      values := values + [poly.constant[i] + poly.linear[i] * x];
    }
  }

  lemma {:induction false} SPointParts(p: Params, g: Vector, h: Vector, nonces: Nonces)
    requires |g| == |h| == |nonces.sLeft| == |nonces.sRight|
    ensures Dot([nonces.sBlinding] + nonces.sLeft + nonces.sRight, [p.blind] + g + h) == SPoint(p, g, h, nonces)
  {
    hide Dot;
    DotConcat([nonces.sBlinding] + nonces.sLeft, nonces.sRight, [p.blind] + g, h);
    DotCons(nonces.sBlinding, nonces.sLeft, p.blind, g);
  }

  /** The prover up to its polynomials: A, S, the first two challenges and the coefficients. */
  method ProverOpening(p: Params, amounts: seq<nat>, lens: seq<nat>, nonces: Nonces, g: Vector, h: Vector,
                       t0: Transcript)
    returns (a: Point, s: Point, y: Scalar, z: Scalar, mid: Middle, t: Transcript)
    requires p.m > 0 && |amounts| == |lens| && |nonces.sLeft| == |nonces.sRight| == |g| == |h| == Total(lens)
    ensures a == Canon(p.m, APoint(p, g, h, Bits(amounts, lens), nonces)) && s == Canon(p.m, SPoint(p, g, h, nonces))
    ensures y == p.o(Opening(|g|, a, s, t0), "y") && z == p.o(Extract(Opening(|g|, a, s, t0), "y"), "z")
    ensures mid == MiddleOf(amounts, lens, nonces, y, z)
    ensures t == Extract(Extract(Opening(|g|, a, s, t0), "y"), "z")
  {
    hide Dot, Bits, PositionWeights, LeftPolynomial, RightPolynomial, Coefficients;
    t := t0 + [Domain("range-proof"), Message("n", [|g|])];
    var aPoint := AddBits(g, h, amounts, lens, nonces.aBlinding * p.blind);
    a := Canon(p.m, aPoint);
    SPointParts(p, g, h, nonces);
    s := Canon(p.m, Dot([nonces.sBlinding] + nonces.sLeft + nonces.sRight, [p.blind] + g + h));
    t := Append(t, "A", a);
    t := Append(t, "S", s);
    y := p.o(t, "y");
    t := t + [Extracted("y")];
    z := p.o(t, "z");
    t := t + [Extracted("z")];
    var l, r := VectorPolynomials(amounts, lens, nonces, y, z);
    ghost var target := MiddleOf(amounts, lens, nonces, y, z);
    var ok, c0, c1, c2 := PolynomialInnerProduct(l, r);
    mid := Middle(l, r, c0, c1, c2);
  }

  /** newBatchedRangeProof: the prover with its loops computes Prove. */
  method NewBatchedRangeProof(p: Params, amounts: seq<nat>, lens: seq<nat>, openings: Vector, totalBits: nat,
                              nonces: Nonces, t0: Transcript)
    returns (proof: Option<Proof>, t: Transcript)
    requires p.m > 0 && Total(lens) == totalBits && |nonces.sLeft| == |nonces.sRight| == totalBits
    ensures proof.Some? <==> |amounts| == |lens| == |openings| && IsPowerOfTwo(totalBits)
    ensures proof.Some? ==> proof.value == Prove(p, amounts, lens, openings, nonces, t0).proof
    ensures proof.Some? ==> t == Prove(p, amounts, lens, openings, nonces, t0).t
  {
    hide Dot, Bits, MiddleOf, APoint, SPoint, Rounds, IsPowerOfTwo, Log2, AggregatedOpening, Powers, Had, Eval,
         Generators;
    t := t0;
    if |amounts| != |lens| || |amounts| != |openings| || totalBits == 0 || !IsPowerOfTwo(totalBits) {
      assert totalBits == 0 ==> !IsPowerOfTwo(totalBits) by { ZeroIsNotAPower(); }
      return None, t;
    }
    var g, h := Generators(p.gChain, totalBits), Generators(p.hChain, totalBits);
    var a, s, y, z, mid, t1 := ProverOpening(p, amounts, lens, nonces, g, h, t0);
    t := t1;
    var t1Commitment := Canon(p.m, mid.t1 * p.base + nonces.t1Blinding * p.blind);
    var t2Commitment := Canon(p.m, mid.t2 * p.base + nonces.t2Blinding * p.blind);
    t := Append(t, "T_1", t1Commitment);
    t := Append(t, "T_2", t2Commitment);
    var x := p.o(t, "x");
    t := t + [Extracted("x")];
    var aggregated := Aggregate(z, openings);
    var tx := Canon(p.m, EvalScalar(mid.t0, mid.t1, mid.t2, x));
    var txBlinding := Canon(p.m, EvalScalar(aggregated, nonces.t1Blinding, nonces.t2Blinding, x));
    t := Append(t, "t_x", tx);
    t := Append(t, "t_x_blinding", txBlinding);
    var eBlinding := Canon(p.m, nonces.aBlinding + nonces.sBlinding * x);
    t := Append(t, "e_blinding", eBlinding);
    var w := p.o(t, "w");
    t := t + [Extracted("w")];
    var q := w * p.base;
    var hFactors := ScalarPowers(Inv(p.m, y), totalBits);
    t := t + [Extracted("c")];
    var left := EvaluateVector(mid.l, x);
    var right := EvaluateVector(mid.r, x);
    var inner, t2 := NewInnerProductProof(p.m, p.o, q, hFactors, g, h, left, right, t);
    t := t2;
    t := Append(t, "ipp_a", inner.value.a);
    t := Append(t, "ipp_b", inner.value.b);
    t := t + [Extracted("d")];
    proof := Some(Proof(a, s, t1Commitment, t2Commitment, tx, txBlinding, eBlinding, inner.value));
  }

  /** verifyBatchedRangeProof: the verifier with its loops decides Accepts. */
  method VerifyBatchedRangeProof(p: Params, proof: Proof, commitments: Vector, lens: seq<nat>, totalBits: nat,
                                 t0: Transcript)
    returns (accepted: bool)
    requires p.m > 0 && Total(lens) == totalBits
    ensures accepted <==> Accepts(p, proof, commitments, lens, t0)
  {
    hide Dot, Scalars, IsPowerOfTwo, Generators, GScalars, HScalars, ValueScalars, Powers, PositionWeights, Delta;
    if |commitments| != |lens| || totalBits == 0 || !IsPowerOfTwo(totalBits) {
      return false;
    }
    var g, h := Generators(p.gChain, totalBits), Generators(p.hChain, totalBits);
    var t := t0 + [Domain("range-proof"), Message("n", [totalBits])];
    var points := [proof.a, proof.s, proof.t1, proof.t2];
    for i := 0 to |points|
      invariant forall j :: 0 <= j < i ==> IsProper(p.m, points[j])
    {
      if !IsProper(p.m, points[i]) {
        return false;
      }
    }
    t := Append(t, "A", proof.a);
    t := Append(t, "S", proof.s);
    var y := p.o(t, "y");
    t := t + [Extracted("y")];
    var z := p.o(t, "z");
    t := t + [Extracted("z")];
    t := Append(t, "T_1", proof.t1);
    t := Append(t, "T_2", proof.t2);
    var x := p.o(t, "x");
    t := t + [Extracted("x")];
    t := Append(t, "t_x", proof.tx);
    t := Append(t, "t_x_blinding", proof.txBlinding);
    t := Append(t, "e_blinding", proof.eBlinding);
    var w := p.o(t, "w");
    t := t + [Extracted("w")];
    t := t + [Extracted("c")];
    assert Challenges(y, z, x, w, t) == Challenged(p.o, totalBits, proof, t0);
    var vs := VerificationScalarsLoop(p.m, p.o, proof.inner, totalBits, t);
    if vs == None {
      return false;
    }
    ScalarsLengths(p.m, p.o, proof.inner, totalBits, t);
    t := Append(vs.value.t, "ipp_a", proof.inner.a);
    t := Append(t, "ipp_b", proof.inner.b);
    var d := p.o(t, "d");
    var weights := WeightsLoop(z, lens);
    var yInverses := ScalarPowers(Inv(p.m, y), totalBits);
    var gs, hs := GeneratorScalars(z, proof.inner.a, proof.inner.b, yInverses, weights, vs.value.s);
    var delta := DeltaLoop(lens, y, z);
    var basepointScalar := w * (proof.tx - proof.inner.a * proof.inner.b) + d * (delta - proof.tx);
    var valueScalars := ValueScalarsLoop(z, d, |commitments|);
    var scalars := [1, x, d * x, d * (x * x), -(proof.eBlinding + d * proof.txBlinding), basepointScalar]
                   + vs.value.squares + vs.value.inverseSquares + gs + hs + valueScalars;
    var all := points + [p.blind, p.base] + proof.inner.left + proof.inner.right + g + h + commitments;
    assert points + [p.blind, p.base] == [proof.a, proof.s, proof.t1, proof.t2, p.blind, p.base];
    accepted := IsIdentity(p.m, Dot(scalars, all));
  }

  lemma {:induction false} ScalarsLengths(m: int, o: Oracle, proof: IppProof, size: nat, t: Transcript)
    requires m > 0 && Scalars(m, o, proof, size, t).Some?
    ensures var vs := Scalars(m, o, proof, size, t).value;
            |vs.squares| == |vs.inverseSquares| == |proof.left| == |proof.right| && |vs.s| == size
  {
  }
}
