/**
 The folding inner-product argument of the aggregated range proof
 (programs/token-2022/confidential_range_inner_product.go).
 */
module InnerProduct {
  import opened Wrappers
  import opened Residues
  import opened Vectors
  import opened Transcripts

  /** Left and right points and the two final scalars, all in canonical encoding. */
  datatype IppProof = IppProof(left: Vector, right: Vector, a: Scalar, b: Scalar)

  // ----- sizes -----

  predicate IsPowerOfTwo(n: int)
    decreases n
  {
    n == 1 || (n > 1 && n % 2 == 0 && IsPowerOfTwo(n / 2))
  }

  function Log2(n: nat): (k: nat) {
    if n <= 1 then 0 else 1 + Log2(n / 2)
  }

  lemma {:induction false} Log2Exact(n: nat)
    requires n >= 1
    ensures Pow(2, Log2(n)) <= n < 2 * Pow(2, Log2(n))
    ensures IsPowerOfTwo(n) <==> n == Pow(2, Log2(n))
  {
    if n > 1 {
      Log2Exact(n / 2);
    }
  }

  lemma {:induction false} Log2OfPow(k: nat)
    ensures Pow(2, k) >= 1 && Log2(Pow(2, k)) == k
  {
    if k > 0 {
      Log2OfPow(k - 1);
      assert Pow(2, k) / 2 == Pow(2, k - 1);
    }
  }

  lemma {:induction false} Log2Unique(n: nat, k: nat)
    requires Pow(2, k) <= n < 2 * Pow(2, k)
    ensures n >= 1 && Log2(n) == k
    decreases k
  {
    if k == 0 {
      assert n == 1;
    } else {
      PowPositive(2, k - 1);
      Log2Unique(n / 2, k - 1);
    }
  }

  method RangeLog2(value: nat) returns (logarithm: nat)
    ensures logarithm == Log2(value)
  {
    logarithm := 0;
    var v := value;
    while v > 1
      invariant logarithm + Log2(v) == Log2(value)
    {
      v := v / 2;
      logarithm := logarithm + 1;
    }
  }

  // ----- one round -----

  function FoldVec(x: int, left: Vector, y: int, right: Vector): (r: Vector)
    requires |left| == |right|
    ensures |r| == |left|
  {
    Add(Scale(x, left), Scale(y, right))
  }

  /** The statement the argument is about: what a, b, g, h and q commit to together. */
  function Statement(a: Vector, b: Vector, g: Vector, h: Vector, q: Point): (p: Point)
    requires |a| == |b| == |g| == |h|
  {
    Dot(a, g) + Dot(b, h) + Dot(a, b) * q
  }

  function LeftPoint(a: Vector, b: Vector, g: Vector, h: Vector, q: Point, half: nat): (p: Point)
    requires |a| == |b| == |g| == |h| == 2 * half
  {
    Dot(a[..half], g[half..]) + Dot(b[half..], h[..half]) + Dot(a[..half], b[half..]) * q
  }

  function RightPoint(a: Vector, b: Vector, g: Vector, h: Vector, q: Point, half: nat): (p: Point)
    requires |a| == |b| == |g| == |h| == 2 * half
  {
    Dot(a[half..], g[..half]) + Dot(b[..half], h[half..]) + Dot(a[half..], b[..half]) * q
  }

  lemma {:induction false} DotFoldRight(a: Vector, s: int, g: Vector, t: int, g': Vector)
    requires |a| == |g| == |g'|
    ensures Dot(a, FoldVec(s, g, t, g')) == s * Dot(a, g) + t * Dot(a, g')
  {
    DotAddRight(a, Scale(s, g), Scale(t, g'));
    DotScaleRight(s, a, g);
    DotScaleRight(t, a, g');
  }

  lemma {:induction false} DotFold(x: int, a: Vector, y: int, a': Vector, s: int, g: Vector, t: int, g': Vector)
    requires |a| == |a'| == |g| == |g'|
    ensures Dot(FoldVec(x, a, y, a'), FoldVec(s, g, t, g'))
         == x * s * Dot(a, g) + x * t * Dot(a, g') + y * s * Dot(a', g) + y * t * Dot(a', g')
  {
    var c := FoldVec(s, g, t, g');
    DotSym(FoldVec(x, a, y, a'), c);
    DotFoldRight(c, x, a, y, a');
    DotSym(c, a);
    DotSym(c, a');
    DotFoldRight(a, s, g, t, g');
    DotFoldRight(a', s, g, t, g');
    FoldExpand(x, y, s, t, Dot(a, g), Dot(a, g'), Dot(a', g), Dot(a', g'), Dot(a, c), Dot(a', c));
  }

  lemma {:induction false} FoldExpand(x: int, y: int, s: int, t: int, p: int, p': int, r: int, r': int, d: int, d': int)
    requires d == s * p + t * p' && d' == s * r + t * r'
    ensures x * d + y * d' == x * s * p + x * t * p' + y * s * r + y * t * r'
  {
  }

  /** One folding round turns the statement P into P + u^2 L + u^-2 R. */
  lemma {:induction false} FoldRound(m: int, a: Vector, b: Vector, g: Vector, h: Vector, q: Point, half: nat, u: Scalar,
                                     v: Scalar)
    requires |a| == |b| == |g| == |h| == 2 * half
    requires Cong(m, u * v, 1)
    ensures Cong(m,
      Statement(FoldVec(u, a[..half], v, a[half..]), FoldVec(v, b[..half], u, b[half..]),
                FoldVec(v, g[..half], u, g[half..]), FoldVec(u, h[..half], v, h[half..]), q),
      Statement(a, b, g, h, q) + u * u * LeftPoint(a, b, g, h, q, half) + v * v * RightPoint(a, b, g, h, q, half))
  {
    hide Dot, FoldVec, Cong;
    var aL, aR, bL, bR := a[..half], a[half..], b[..half], b[half..];
    var gL, gR, hL, hR := g[..half], g[half..], h[..half], h[half..];
    DotFold(u, aL, v, aR, v, gL, u, gR);
    DotFold(v, bL, u, bR, u, hL, v, hR);
    DotFold(u, aL, v, aR, v, bL, u, bR);
    DotHalves(a, g, half);
    DotHalves(b, h, half);
    DotHalves(a, b, half);
    RoundIdentity(u, v, q,
      Dot(aL, gL), Dot(aL, gR), Dot(aR, gL), Dot(aR, gR),
      Dot(bL, hL), Dot(bL, hR), Dot(bR, hL), Dot(bR, hR),
      Dot(aL, bL), Dot(aL, bR), Dot(aR, bL), Dot(aR, bR));
    CongUnit(m, u * v, Statement(a, b, g, h, q),
      Statement(FoldVec(u, aL, v, aR), FoldVec(v, bL, u, bR), FoldVec(v, gL, u, gR), FoldVec(u, hL, v, hR), q),
      Statement(a, b, g, h, q) + u * u * LeftPoint(a, b, g, h, q, half) + v * v * RightPoint(a, b, g, h, q, half));
  }

  lemma {:induction false} RoundIdentity(u: int, v: int, q: int, ll: int, lr: int, rl: int, rr: int, bll: int, blr: int,
                                         brl: int, brr: int, cll: int, clr: int, crl: int, crr: int)
    ensures (u * v * ll + u * u * lr + v * v * rl + v * u * rr)
          + (v * u * bll + v * v * blr + u * u * brl + u * v * brr)
          + (u * v * cll + u * u * clr + v * v * crl + v * u * crr) * q
         == ((ll + rr) + (bll + brr) + (cll + crr) * q)
          + u * u * (lr + brl + clr * q) + v * v * (rl + blr + crl * q)
          + (u * v - 1) * ((ll + rr) + (bll + brr) + (cll + crr) * q)
  {
  }

  // ----- all rounds -----

  /** What a run of the prover leaves behind: the proof, the challenges and the transcript. */
  datatype Run = Run(proof: IppProof, us: Vector, t: Transcript)

  /** The argument in its plain form: every round on the vectors themselves, no factors. */
  function Rounds(m: int, o: Oracle, k: nat, q: Point, g: Vector, h: Vector, a: Vector, b: Vector,
                  t: Transcript): (r: Run)
    requires m > 0
    requires |a| == |b| == |g| == |h| == Pow(2, k)
    ensures |r.proof.left| == |r.proof.right| == |r.us| == k
    decreases k
  {
    if k == 0 then
      Run(IppProof([], [], Canon(m, a[0]), Canon(m, b[0])), [], t)
    else
      var half := Pow(2, k - 1);
      PowPositive(2, k - 1);
      var left := Canon(m, LeftPoint(a, b, g, h, q, half));
      var right := Canon(m, RightPoint(a, b, g, h, q, half));
      var t1 := Append(Append(t, "L", left), "R", right);
      var u := o(t1, "u");
      var v := Inv(m, u);
      var rest := Rounds(m, o, k - 1, q,
                         FoldVec(v, g[..half], u, g[half..]), FoldVec(u, h[..half], v, h[half..]),
                         FoldVec(u, a[..half], v, a[half..]), FoldVec(v, b[..half], u, b[half..]),
                         t1 + [Extracted("u")]);
      Run(IppProof([left] + rest.proof.left, [right] + rest.proof.right, rest.proof.a, rest.proof.b),
          [u] + rest.us, rest.t)
  }

  function Inverses(m: int, us: Vector): (vs: Vector)
    requires m > 0
    ensures |vs| == |us|
  {
    seq(|us|, i requires 0 <= i < |us| => Inv(m, us[i]))
  }

  ghost predicate AllInvertible(m: int, us: Vector)
    requires m > 0
  {
    forall i :: 0 <= i < |us| ==> Cong(m, us[i] * Inv(m, us[i]), 1)
  }

  /** The weight of every generator after all rounds, by halves. */
  function Weights(us: Vector, vs: Vector): (s: Vector)
    requires |us| == |vs|
    ensures |s| == Pow(2, |us|)
  {
    if |us| == 0 then [1]
    else
      var rest := Weights(us[1..], vs[1..]);
      Scale(vs[0], rest) + Scale(us[0], rest)
  }

  /** What the two final scalars commit to under the weighted generators. */
  function Outcome(a: Scalar, b: Scalar, us: Vector, vs: Vector, g: Vector, h: Vector, q: Point): (p: Point)
    requires |us| == |vs| && |g| == |h| == Pow(2, |us|)
  {
    a * Dot(Weights(us, vs), g) + b * Dot(Weights(vs, us), h) + a * b * q
  }

  /** What the verifier adds for the rounds: u_k^2 L_k and u_k^-2 R_k. */
  function Cross(us: Vector, vs: Vector, left: Vector, right: Vector): (p: Point)
    requires |us| == |vs| == |left| == |right|
  {
    Dot(Had(us, us), left) + Dot(Had(vs, vs), right)
  }

  lemma {:induction false} DotCons(x: int, a: Vector, y: int, b: Vector)
    requires |a| == |b|
    ensures Dot([x] + a, [y] + b) == x * y + Dot(a, b)
  {
    DotConcat([x], a, [y], b);
    assert [x][..0] == [] && [y][..0] == [];
    assert Dot([x], [y]) == Dot([x][..0], [y][..0]) + x * y;
  }

  lemma {:induction false} CrossCons(u: int, us: Vector, v: int, vs: Vector, l: int, left: Vector, r: int,
                                     right: Vector)
    requires |us| == |vs| == |left| == |right|
    ensures Cross([u] + us, [v] + vs, [l] + left, [r] + right) == u * u * l + v * v * r + Cross(us, vs, left, right)
  {
    assert Had([u] + us, [u] + us) == [u * u] + Had(us, us);
    assert Had([v] + vs, [v] + vs) == [v * v] + Had(vs, vs);
    DotCons(u * u, Had(us, us), l, left);
    DotCons(v * v, Had(vs, vs), r, right);
  }

  /** Folding the generators weighs them: the folded generator is the inner product with the weights. */
  lemma {:induction false} WeightsFold(us: Vector, vs: Vector, g: Vector, half: nat)
    requires |us| == |vs| > 0 && half == Pow(2, |us| - 1) && |g| == 2 * half
    ensures Dot(Weights(us, vs), g) == Dot(Weights(us[1..], vs[1..]), FoldVec(vs[0], g[..half], us[0], g[half..]))
  {
    var rest := Weights(us[1..], vs[1..]);
    var gL, gR := g[..half], g[half..];
    assert g == gL + gR;
    DotConcat(Scale(vs[0], rest), Scale(us[0], rest), gL, gR);
    DotScale(vs[0], rest, gL);
    DotScale(us[0], rest, gR);
    DotAddRight(rest, Scale(vs[0], gL), Scale(us[0], gR));
    DotScaleRight(vs[0], rest, gL);
    DotScaleRight(us[0], rest, gR);
  }

  /** Reading the weights backwards swaps every challenge with its inverse. */
  lemma {:induction false} WeightsReverse(us: Vector, vs: Vector)
    requires |us| == |vs|
    ensures Reverse(Weights(us, vs)) == Weights(vs, us)
  {
    hide Scale, Reverse;
    if |us| > 0 {
      WeightsReverse(us[1..], vs[1..]);
      ReverseHalves(vs[0], us[0], Weights(us[1..], vs[1..]));
    } else {
      ReverseSingle(1);
    }
  }

  lemma {:induction false} ReverseHalves(x: int, y: int, rest: Vector)
    ensures Reverse(Scale(x, rest) + Scale(y, rest)) == Scale(y, Reverse(rest)) + Scale(x, Reverse(rest))
  {
  }

  lemma {:induction false} ReverseSingle(x: int)
    ensures Reverse([x]) == [x]
  {
  }

  lemma {:induction false} OutcomeFold(a: Scalar, b: Scalar, us: Vector, vs: Vector, g: Vector, h: Vector, q: Point,
                                       half: nat)
    requires |us| == |vs| > 0 && half == Pow(2, |us| - 1) && |g| == |h| == 2 * half
    ensures Outcome(a, b, us, vs, g, h, q)
         == Outcome(a, b, us[1..], vs[1..], FoldVec(vs[0], g[..half], us[0], g[half..]),
                    FoldVec(us[0], h[..half], vs[0], h[half..]), q)
  {
    WeightsFold(us, vs, g, half);
    WeightsFold(vs, us, h, half);
  }

  /** One round in front of a run that already satisfies the argument. */
  lemma {:induction false} ComposeRound(m: int, q: Point, half: nat, g: Vector, h: Vector, a: Vector, b: Vector,
                                        u: Scalar, v: Scalar, us: Vector, vs: Vector, left: Vector, right: Vector,
                                        x: Scalar, y: Scalar)
    requires m > 0 && |a| == |b| == |g| == |h| == 2 * half
    requires |us| == |vs| == |left| == |right| && half == Pow(2, |us|)
    requires Cong(m, u * v, 1)
    requires Cong(m,
      Statement(FoldVec(u, a[..half], v, a[half..]), FoldVec(v, b[..half], u, b[half..]),
                FoldVec(v, g[..half], u, g[half..]), FoldVec(u, h[..half], v, h[half..]), q)
      + Cross(us, vs, left, right),
      Outcome(x, y, us, vs, FoldVec(v, g[..half], u, g[half..]), FoldVec(u, h[..half], v, h[half..]), q))
    ensures Cong(m,
      Statement(a, b, g, h, q) + Cross([u] + us, [v] + vs, [Canon(m, LeftPoint(a, b, g, h, q, half))] + left,
                                       [Canon(m, RightPoint(a, b, g, h, q, half))] + right),
      Outcome(x, y, [u] + us, [v] + vs, g, h, q))
  {
    hide Statement, Outcome, LeftPoint, RightPoint, Cross, Dot;
    var l, r := LeftPoint(a, b, g, h, q, half), RightPoint(a, b, g, h, q, half);
    var p' := Statement(FoldVec(u, a[..half], v, a[half..]), FoldVec(v, b[..half], u, b[half..]),
                        FoldVec(v, g[..half], u, g[half..]), FoldVec(u, h[..half], v, h[half..]), q);
    var us0, vs0 := [u] + us, [v] + vs;
    assert us0[1..] == us && vs0[1..] == vs && us0[0] == u && vs0[0] == v;
    OutcomeFold(x, y, us0, vs0, g, h, q, half);
    CrossCons(u, us, v, vs, Canon(m, l), left, Canon(m, r), right);
    FoldRound(m, a, b, g, h, q, half, u, v);
    var c := Cross(us0, vs0, [Canon(m, l)] + left, [Canon(m, r)] + right);
    RoundStep(m, Statement(a, b, g, h, q), p', u * u, l, v * v, r, Cross(us, vs, left, right), c);
    CongTrans(m, Statement(a, b, g, h, q) + c, p' + Cross(us, vs, left, right), Outcome(x, y, us0, vs0, g, h, q));
  }

  /** The whole argument: the statement plus the cross terms is what the two final scalars commit to. */
  lemma {:induction false} RoundsSound(m: int, o: Oracle, k: nat, q: Point, g: Vector, h: Vector, a: Vector, b: Vector,
                                       t: Transcript)
    requires m > 0
    requires |a| == |b| == |g| == |h| == Pow(2, k)
    requires AllInvertible(m, Rounds(m, o, k, q, g, h, a, b, t).us)
    ensures var r := Rounds(m, o, k, q, g, h, a, b, t);
            var vs := Inverses(m, r.us);
            Cong(m, Statement(a, b, g, h, q) + Cross(r.us, vs, r.proof.left, r.proof.right),
                 Outcome(r.proof.a, r.proof.b, r.us, vs, g, h, q))
    decreases k
  {
    hide Statement, Outcome, LeftPoint, RightPoint, Cross, Dot, Cong;
    var r := Rounds(m, o, k, q, g, h, a, b, t);
    if k == 0 {
      RoundsBase(m, q, g, h, a, b);
      assert Inverses(m, r.us) == [];
    } else {
      var half := Pow(2, k - 1);
      PowPositive(2, k - 1);
      var l, rr := LeftPoint(a, b, g, h, q, half), RightPoint(a, b, g, h, q, half);
      var t1 := Append(Append(t, "L", Canon(m, l)), "R", Canon(m, rr));
      var u := o(t1, "u");
      var v := Inv(m, u);
      var g', h' := FoldVec(v, g[..half], u, g[half..]), FoldVec(u, h[..half], v, h[half..]);
      var a', b' := FoldVec(u, a[..half], v, a[half..]), FoldVec(v, b[..half], u, b[half..]);
      var rest := Rounds(m, o, k - 1, q, g', h', a', b', t1 + [Extracted("u")]);
      InvertibleTail(m, u, rest.us);
      RoundsSound(m, o, k - 1, q, g', h', a', b', t1 + [Extracted("u")]);
      ComposeRound(m, q, half, g, h, a, b, u, v, rest.us, Inverses(m, rest.us),
                   rest.proof.left, rest.proof.right, rest.proof.a, rest.proof.b);
    }
  }

  lemma {:induction false} InvertibleTail(m: int, u: Scalar, us: Vector)
    requires m > 0 && AllInvertible(m, [u] + us)
    ensures Cong(m, u * Inv(m, u), 1) && AllInvertible(m, us)
    ensures Inverses(m, [u] + us) == [Inv(m, u)] + Inverses(m, us)
  {
    var w := [u] + us;
    assert w[0] == u;
    assert forall i :: 0 <= i < |us| ==> us[i] == w[i + 1];
  }

  lemma {:induction false} DotSingle(a: Vector, b: Vector)
    requires |a| == |b| == 1
    ensures Dot(a, b) == a[0] * b[0]
  {
    assert a[..0] == [] && b[..0] == [];
  }

  lemma {:induction false} RoundsBase(m: int, q: Point, g: Vector, h: Vector, a: Vector, b: Vector)
    requires m > 0 && |a| == |b| == |g| == |h| == 1
    ensures Cong(m, Statement(a, b, g, h, q) + Cross([], [], [], []),
                 Outcome(Canon(m, a[0]), Canon(m, b[0]), [], [], g, h, q))
  {
    DotSingle(a, g);
    DotSingle(b, h);
    DotSingle(a, b);
    DotSingle([1], g);
    DotSingle([1], h);
    CanonCong(m, a[0]);
    CanonCong(m, b[0]);
    BaseIdentity(m, a[0], Canon(m, a[0]), b[0], Canon(m, b[0]), g[0], h[0], q);
  }

  lemma {:induction false} BaseIdentity(m: int, a: int, x: int, b: int, y: int, g: int, h: int, q: int)
    requires Cong(m, x, a) && Cong(m, y, b)
    ensures Cong(m, a * g + b * h + a * b * q, x * g + y * h + x * y * q)
  {
    CongSym(m, x, a);
    CongSym(m, y, b);
    CongScale(m, g, a, x);
    CongScale(m, h, b, y);
    CongMul(m, a, x, b, y);
    CongScale(m, q, a * b, x * y);
    CongAdd(m, g * a, g * x, h * b, h * y);
    CongAdd(m, g * a + h * b, g * x + h * y, q * (a * b), q * (x * y));
  }

  lemma {:induction false} RoundStep(m: int, p: int, p': int, uu: int, l: int, vv: int, r: int, c: int, d: int)
    requires m > 0
    requires Cong(m, p', p + uu * l + vv * r)
    requires d == uu * Canon(m, l) + vv * Canon(m, r) + c
    ensures Cong(m, p + d, p' + c)
  {
    CanonCong(m, l);
    CanonCong(m, r);
    CongScale(m, uu, Canon(m, l), l);
    CongScale(m, vv, Canon(m, r), r);
    CongAdd(m, uu * Canon(m, l), uu * l, vv * Canon(m, r), vv * r);
    CongRefl(m, p + c);
    CongAdd(m, uu * Canon(m, l) + vv * Canon(m, r), uu * l + vv * r, p + c, p + c);
    CongSym(m, p', p + uu * l + vv * r);
    CongRefl(m, c);
    CongAdd(m, p + uu * l + vv * r, p', c, c);
    CongTrans(m, p + d, p + uu * l + vv * r + c, p' + c);
  }

  // ----- the verifier -----

  /** The verifier's challenges, replayed from the points of the proof. */
  function Replay(o: Oracle, left: Vector, right: Vector, t: Transcript): (r: (Vector, Transcript))
    requires |left| == |right|
    ensures |r.0| == |left|
  {
    if |left| == 0 then ([], t)
    else
      var t1 := Append(Append(t, "L", left[0]), "R", right[0]);
      var (us, t2) := Replay(o, left[1..], right[1..], t1 + [Extracted("u")]);
      ([o(t1, "u")] + us, t2)
  }

  /** Prover and verifier see the same transcript, hence the same challenges. */
  lemma {:induction false} ReplayAgrees(m: int, o: Oracle, k: nat, q: Point, g: Vector, h: Vector, a: Vector, b: Vector,
                                        t: Transcript)
    requires m > 0
    requires |a| == |b| == |g| == |h| == Pow(2, k)
    ensures var r := Rounds(m, o, k, q, g, h, a, b, t);
            Replay(o, r.proof.left, r.proof.right, t) == (r.us, r.t)
    decreases k
  {
    hide LeftPoint, RightPoint, Dot;
    if k > 0 {
      var half := Pow(2, k - 1);
      PowPositive(2, k - 1);
      var l, rr := Canon(m, LeftPoint(a, b, g, h, q, half)), Canon(m, RightPoint(a, b, g, h, q, half));
      var t1 := Append(Append(t, "L", l), "R", rr);
      var u := o(t1, "u");
      var v := Inv(m, u);
      var g', h' := FoldVec(v, g[..half], u, g[half..]), FoldVec(u, h[..half], v, h[half..]);
      var a', b' := FoldVec(u, a[..half], v, a[half..]), FoldVec(v, b[..half], u, b[half..]);
      var rest := Rounds(m, o, k - 1, q, g', h', a', b', t1 + [Extracted("u")]);
      ReplayAgrees(m, o, k - 1, q, g', h', a', b', t1 + [Extracted("u")]);
      var r := Rounds(m, o, k, q, g, h, a, b, t);
      assert r.proof.left[1..] == rest.proof.left && r.proof.right[1..] == rest.proof.right;
      assert r.proof.left[0] == l && r.proof.right[0] == rr;
    }
  }

  function Product(vs: Vector): (p: int) {
    if |vs| == 0 then 1 else vs[0] * Product(vs[1..])
  }

  /** The verifier's table of weights: each entry from an earlier one by the square of one challenge. */
  function WeightTable(us: Vector, vs: Vector, n: nat): (s: Vector)
    requires |us| == |vs| && 1 <= n <= Pow(2, |us|)
    ensures |s| == n
  {
    if n == 1 then [Product(vs)]
    else
      var s := WeightTable(us, vs, n - 1);
      var i := n - 1;
      var log := Log2(i);
      Log2Exact(i);
      LogBelow(i, |us|);
      PowPositive(2, log);
      s + [s[i - Pow(2, log)] * (us[|us| - 1 - log] * us[|us| - 1 - log])]
  }

  lemma {:induction false} LogBelow(i: nat, k: nat)
    requires 1 <= i < Pow(2, k)
    ensures Log2(i) < k
    decreases k
  {
    if k > 0 && i > 1 {
      LogBelow(i / 2, k - 1);
    }
  }

  lemma {:induction false} WeightsFirst(us: Vector, vs: Vector)
    requires |us| == |vs|
    ensures |Weights(us, vs)| >= 1 && Weights(us, vs)[0] == Product(vs)
  {
    PowPositive(2, |us|);
    if |us| > 0 {
      WeightsFirst(us[1..], vs[1..]);
      PowPositive(2, |us| - 1);
    }
  }

  ghost predicate AllUnits(m: int, us: Vector, vs: Vector)
    requires |us| == |vs|
  {
    forall i :: 0 <= i < |us| ==> Cong(m, us[i] * vs[i], 1)
  }

  /** The weights satisfy the verifier's recurrence. */
  lemma {:induction false} WeightsRecurrence(m: int, us: Vector, vs: Vector, i: nat)
    requires |us| == |vs| && 1 <= i < Pow(2, |us|) && AllUnits(m, us, vs)
    ensures Log2(i) < |us| && 0 < Pow(2, Log2(i)) <= i
    ensures var u := us[|us| - 1 - Log2(i)];
            Cong(m, Weights(us, vs)[i - Pow(2, Log2(i))] * (u * u), Weights(us, vs)[i])
  {
    LogBelow(i, |us|);
    Log2Exact(i);
    PowPositive(2, Log2(i));
    var half := Pow(2, |us| - 1);
    var rest := Weights(us[1..], vs[1..]);
    var u0, v0 := us[0], vs[0];
    if i >= half {
      Log2Unique(i, |us| - 1);
      assert Cong(m, us[0] * vs[0], 1);
      var w := rest[i - half];
      UnitSquare(m, u0, v0, w);
    } else {
      LogBelow(i, |us| - 1);
      assert forall j :: 0 <= j < |us| - 1 ==> us[1..][j] == us[j + 1] && vs[1..][j] == vs[j + 1];
      WeightsRecurrence(m, us[1..], vs[1..], i);
      var u := us[|us| - 1 - Log2(i)];
      var j := i - Pow(2, Log2(i));
      CongScale(m, v0, rest[j] * (u * u), rest[i]);
      Reassociate(v0, rest[j], u);
    }
  }

  lemma {:induction false} Reassociate(v: int, w: int, u: int)
    ensures (v * w) * (u * u) == v * (w * (u * u))
  {
  }

  lemma {:induction false} UnitSquare(m: int, u: int, v: int, w: int)
    requires Cong(m, u * v, 1)
    ensures Cong(m, (v * w) * (u * u), u * w)
  {
    CongScale(m, u * w, u * v, 1);
    assert (u * w) * (u * v) == (v * w) * (u * u);
  }

  /** The verifier's table is the vector of weights by which the prover folded the generators. */
  lemma {:induction false} WeightTableCorrect(m: int, us: Vector, vs: Vector, n: nat)
    requires |us| == |vs| && 1 <= n <= Pow(2, |us|) && AllUnits(m, us, vs)
    ensures VecCong(m, WeightTable(us, vs, n), Weights(us, vs)[..n])
  {
    var s, w := WeightTable(us, vs, n), Weights(us, vs);
    if n == 1 {
      WeightsFirst(us, vs);
      CongRefl(m, Product(vs));
    } else {
      var i := n - 1;
      WeightTableCorrect(m, us, vs, n - 1);
      WeightsRecurrence(m, us, vs, i);
      var j := i - Pow(2, Log2(i));
      var u := us[|us| - 1 - Log2(i)];
      var s' := WeightTable(us, vs, n - 1);
      assert Cong(m, s'[j], w[..n - 1][j]);
      CongRefl(m, u * u);
      CongMul(m, s'[j], w[j], u * u, u * u);
      CongTrans(m, s'[j] * (u * u), w[j] * (u * u), w[i]);
      forall k | 0 <= k < n ensures Cong(m, s[k], w[..n][k]) {
        if k < i {
          assert Cong(m, s'[k], w[..n - 1][k]);
        }
      }
    }
  }

  datatype VerificationScalars = VerificationScalars(squares: Vector, inverseSquares: Vector, s: Vector, t: Transcript)

  predicate SomeIdentity(m: int, points: Vector)
    requires m > 0
  {
    exists i :: 0 <= i < |points| && IsIdentity(m, points[i])
  }

  /** Some word encodes no point, or the identity. */
  predicate SomeRefused(m: int, words: Vector)
    requires m > 0
  {
    exists i :: 0 <= i < |words| && !IsProper(m, words[i])
  }

  predicate Encoded(m: int, words: Vector) {
    forall i :: 0 <= i < |words| ==> Decodes(m, words[i])
  }

  lemma {:induction false} RefusedIdentity(m: int, words: Vector)
    requires m > 0 && Encoded(m, words)
    ensures SomeRefused(m, words) <==> SomeIdentity(m, words)
  {
    hide IsIdentity;
    if i :| 0 <= i < |words| && IsIdentity(m, words[i]) {
      assert !IsProper(m, words[i]);
    }
  }

  /** The prover's points are encoded canonically. */
  lemma {:induction false} RoundsEncoded(m: int, o: Oracle, k: nat, q: Point, g: Vector, h: Vector, a: Vector,
                                         b: Vector, t: Transcript)
    requires m > 0 && |a| == |b| == |g| == |h| == Pow(2, k)
    ensures Encoded(m, Rounds(m, o, k, q, g, h, a, b, t).proof.left)
    ensures Encoded(m, Rounds(m, o, k, q, g, h, a, b, t).proof.right)
    decreases k
  {
    hide FoldVec, LeftPoint, RightPoint;
    if k > 0 {
      var half := Pow(2, k - 1);
      PowPositive(2, k - 1);
      var left := Canon(m, LeftPoint(a, b, g, h, q, half));
      var right := Canon(m, RightPoint(a, b, g, h, q, half));
      var t1 := Append(Append(t, "L", left), "R", right);
      var u := o(t1, "u");
      var v := Inv(m, u);
      RoundsEncoded(m, o, k - 1, q,
                    FoldVec(v, g[..half], u, g[half..]), FoldVec(u, h[..half], v, h[half..]),
                    FoldVec(u, a[..half], v, a[half..]), FoldVec(v, b[..half], u, b[half..]),
                    t1 + [Extracted("u")]);
    }
  }

  function DomainSeparator(size: nat, t: Transcript): (r: Transcript) {
    t + [Domain("inner-product"), Message("n", [size])]
  }

  /** The verifier's scalars, or None where the source reports an error. */
  function Scalars(m: int, o: Oracle, proof: IppProof, size: nat, t: Transcript): (r: Option<VerificationScalars>)
    requires m > 0
  {
    var k := |proof.left|;
    if k == 0 || k != |proof.right| || k >= 32 || size != Pow(2, k) then None
    else if SomeRefused(m, proof.left) || SomeRefused(m, proof.right) then None
    else
      PowPositive(2, k);
      var (us, t') := Replay(o, proof.left, proof.right, DomainSeparator(size, t));
      var vs := Inverses(m, us);
      Some(VerificationScalars(Had(us, us), Had(vs, vs), WeightTable(us, vs, size), t'))
  }

  ghost predicate AllNonzero(m: int, us: Vector)
    requires m > 0
  {
    forall i :: 0 <= i < |us| ==> !IsIdentity(m, us[i])
  }

  lemma {:induction false} NonzeroInvertible(m: int, us: Vector)
    requires Prime(m) && AllNonzero(m, us)
    ensures AllInvertible(m, us) && AllUnits(m, us, Inverses(m, us))
  {
    forall i | 0 <= i < |us| ensures Cong(m, us[i] * Inv(m, us[i]), 1) {
      InvLaw(m, us[i]);
    }
  }

  lemma {:induction false} TableDot(m: int, us: Vector, vs: Vector, g: Vector)
    requires |us| == |vs| && |g| == Pow(2, |us|) >= 1 && AllUnits(m, us, vs)
    ensures Cong(m, Dot(WeightTable(us, vs, |g|), g), Dot(Weights(us, vs), g))
    ensures Cong(m, Dot(Reverse(WeightTable(us, vs, |g|)), g), Dot(Weights(vs, us), g))
  {
    hide Dot;
    var s, w := WeightTable(us, vs, |g|), Weights(us, vs);
    WeightTableCorrect(m, us, vs, |g|);
    assert w[..|g|] == w;
    DotCong(m, s, w, g);
    WeightsReverse(us, vs);
    assert VecCong(m, Reverse(s), Reverse(w)) by {
      forall i | 0 <= i < |s| ensures Cong(m, Reverse(s)[i], Reverse(w)[i]) {
        assert Cong(m, s[|s| - 1 - i], w[|s| - 1 - i]);
      }
    }
    DotCong(m, Reverse(s), Reverse(w), g);
  }

  /** The inner-product argument is complete. Whatever the vectors, when no challenge is zero, the verifier
      refuses an honest proof exactly when one of its points is the identity; otherwise it ends with the
      prover's transcript, and its scalars open the folded statement. */
  lemma {:induction false} InnerProductComplete(m: int, o: Oracle, k: nat, q: Point, g: Vector, h: Vector, a: Vector,
                                                b: Vector, t: Transcript)
    requires Prime(m) && 1 <= k < 32
    requires |a| == |b| == |g| == |h| == Pow(2, k)
    requires AllNonzero(m, Rounds(m, o, k, q, g, h, a, b, DomainSeparator(|g|, t)).us)
    ensures var run := Rounds(m, o, k, q, g, h, a, b, DomainSeparator(|g|, t));
            var r := Scalars(m, o, run.proof, |g|, t);
            r == None <==> SomeIdentity(m, run.proof.left) || SomeIdentity(m, run.proof.right)
    ensures var run := Rounds(m, o, k, q, g, h, a, b, DomainSeparator(|g|, t));
            var r := Scalars(m, o, run.proof, |g|, t);
            r.Some? ==>
              && |r.value.squares| == |r.value.inverseSquares| == k && |r.value.s| == |g|
              && r.value.t == run.t
              && Cong(m, Statement(a, b, g, h, q) + Dot(r.value.squares, run.proof.left)
                      + Dot(r.value.inverseSquares, run.proof.right),
                      run.proof.a * Dot(r.value.s, g) + run.proof.b * Dot(Reverse(r.value.s), h)
                          + run.proof.a * run.proof.b * q)
  {
    hide Statement, Dot, Rounds, Replay, WeightTable, Weights, Cong, SomeRefused, SomeIdentity, Encoded;
    var t1 := DomainSeparator(|g|, t);
    var run := Rounds(m, o, k, q, g, h, a, b, t1);
    RoundsEncoded(m, o, k, q, g, h, a, b, t1);
    RefusedIdentity(m, run.proof.left);
    RefusedIdentity(m, run.proof.right);
    var vs := Inverses(m, run.us);
    PowPositive(2, k);
    NonzeroInvertible(m, run.us);
    ReplayAgrees(m, o, k, q, g, h, a, b, t1);
    RoundsSound(m, o, k, q, g, h, a, b, t1);
    TableDot(m, run.us, vs, g);
    TableDot(m, run.us, vs, h);
    var s := WeightTable(run.us, vs, |g|);
    OutcomeCong(m, run.proof.a, run.proof.b, run.us, vs, g, h, q, Dot(s, g), Dot(Reverse(s), h));
    CongTrans(m, Statement(a, b, g, h, q) + Cross(run.us, vs, run.proof.left, run.proof.right),
              Outcome(run.proof.a, run.proof.b, run.us, vs, g, h, q),
              run.proof.a * Dot(s, g) + run.proof.b * Dot(Reverse(s), h) + run.proof.a * run.proof.b * q);
  }

  lemma {:induction false} OutcomeCong(m: int, a: int, b: int, us: Vector, vs: Vector, g: Vector, h: Vector, q: int,
                                       sg: int, sh: int)
    requires |us| == |vs| && |g| == |h| == Pow(2, |us|)
    requires Cong(m, sg, Dot(Weights(us, vs), g)) && Cong(m, sh, Dot(Weights(vs, us), h))
    ensures Cong(m, Outcome(a, b, us, vs, g, h, q), a * sg + b * sh + a * b * q)
  {
    hide Dot, Weights;
    var wg, wh := Dot(Weights(us, vs), g), Dot(Weights(vs, us), h);
    CongSym(m, sg, wg);
    CongSym(m, sh, wh);
    CongScale(m, a, wg, sg);
    CongScale(m, b, wh, sh);
    CongAdd(m, a * wg, a * sg, b * wh, b * sh);
    CongRefl(m, a * b * q);
    CongAdd(m, a * wg + b * wh, a * sg + b * sh, a * b * q, a * b * q);
  }

  // ----- the source's loops -----

  method ReplayLoop(m: int, o: Oracle, left: Vector, right: Vector, t0: Transcript)
    returns (valid: bool, challenges: Vector, t: Transcript)
    requires m > 0 && |left| == |right|
    ensures valid <==> !SomeRefused(m, left) && !SomeRefused(m, right)
    ensures valid ==> (challenges, t) == Replay(o, left, right, t0)
  {
    hide IsProper;
    t := t0;
    challenges := [];
    assert left[0..] == left && right[0..] == right;
    for index := 0 to |left|
      invariant |challenges| == index
      invariant !SomeRefused(m, left[..index]) && !SomeRefused(m, right[..index])
      invariant Replay(o, left, right, t0).0 == challenges + Replay(o, left[index..], right[index..], t).0
      invariant Replay(o, left, right, t0).1 == Replay(o, left[index..], right[index..], t).1
    {
      if !IsProper(m, left[index]) || !IsProper(m, right[index]) {
        return false, [], t;
      }
      ghost var us := Replay(o, left[index..], right[index..], t).0;
      t := Append(t, "L", left[index]);
      t := Append(t, "R", right[index]);
      assert us[0] == o(t, "u") && challenges + us == challenges + [o(t, "u")] + us[1..];
      challenges := challenges + [o(t, "u")];
      t := t + [Extracted("u")];
      assert left[index..][1..] == left[index + 1..];
      assert right[index..][1..] == right[index + 1..];
    }
    valid := true;
    assert left[..|left|] == left && right[..|right|] == right;
    assert challenges + [] == challenges;
  }

  method SquaresLoop(values: Vector) returns (squares: Vector)
    ensures squares == Had(values, values)
  {
    squares := [];
    for index := 0 to |values|
      invariant squares == Had(values[..index], values[..index])
    {
      squares := squares + [values[index] * values[index]];
    }
    assert values[..|values|] == values;
  }

  method WeightTableLoop(us: Vector, vs: Vector, squares: Vector, size: nat) returns (s: Vector)
    requires |us| == |vs| && size == Pow(2, |us|) && squares == Had(us, us)
    ensures size >= 1 && s == WeightTable(us, vs, size)
  {
    PowPositive(2, |us|);
    s := [Product(vs)];
    for index := 1 to size
      invariant s == WeightTable(us, vs, index)
    {
      var logIndex := RangeLog2(index);
      LogBelow(index, |us|);
      Log2Exact(index);
      PowPositive(2, logIndex);
      s := s + [s[index - Pow(2, logIndex)] * squares[|us| - 1 - logIndex]];
    }
  }

  /** The verifier with its loops: challenges, their squares and the table of weights. */
  method VerificationScalarsLoop(m: int, o: Oracle, proof: IppProof, size: nat, t0: Transcript)
    returns (r: Option<VerificationScalars>)
    requires m > 0
    ensures r == Scalars(m, o, proof, size, t0)
  {
    var logSize := |proof.left|;
    if logSize == 0 || logSize != |proof.right| || logSize >= 32 || size != Pow(2, logSize) {
      return None;
    }
    var valid, challenges, t := ReplayLoop(m, o, proof.left, proof.right, DomainSeparator(size, t0));
    if !valid {
      return None;
    }
    var inverses := Inverses(m, challenges);
    var squares := SquaresLoop(challenges);
    var inverseSquares := SquaresLoop(inverses);
    var s := WeightTableLoop(challenges, inverses, squares, size);
    r := Some(VerificationScalars(squares, inverseSquares, s, t));
  }

  /** One round of the prover's commitments as the source assembles them: scalars and points side by side. */
  method RoundPoints(q: Point, first: bool, hFactors: Vector, g: Vector, h: Vector, a: Vector, b: Vector, half: nat)
    returns (left: Point, right: Point)
    requires half > 0 && |a| == |b| == |g| == |h| == 2 * half
    requires first ==> |hFactors| == 2 * half
    ensures var h' := if first then Had(hFactors, h) else h;
            left == LeftPoint(a, b, g, h', q, half) && right == RightPoint(a, b, g, h', q, half)
  {
    var aLeft, aRight, bLeft, bRight := a[..half], a[half..], b[..half], b[half..];
    var okLeft, cLeft := ScalarInnerProduct(aLeft, bRight);
    var okRight, cRight := ScalarInnerProduct(aRight, bLeft);
    var bLeft', bRight' := bLeft, bRight;
    if first {
      bRight' := ScaledBy(bRight, hFactors[..half]);
      bLeft' := ScaledBy(bLeft, hFactors[half..]);
    }
    var leftScalars := aLeft + bRight' + [cLeft];
    var rightScalars := aRight + bLeft' + [cRight];
    var leftPoints := g[half..] + h[..half] + [q];
    var rightPoints := g[..half] + h[half..] + [q];
    left := Dot(leftScalars, leftPoints);
    right := Dot(rightScalars, rightPoints);
    DotThree(aLeft, bRight', cLeft, g[half..], h[..half], q);
    DotThree(aRight, bLeft', cRight, g[..half], h[half..], q);
    if first {
      DotHad(bRight, hFactors[..half], h[..half]);
      DotHad(bLeft, hFactors[half..], h[half..]);
      assert Had(hFactors, h)[..half] == Had(hFactors[..half], h[..half]);
      assert Had(hFactors, h)[half..] == Had(hFactors[half..], h[half..]);
    }
  }

  method ScaledBy(b: Vector, factors: Vector) returns (r: Vector)
    requires |b| == |factors|
    ensures r == Had(b, factors)
  {
    r := [];
    for index := 0 to |b|
      invariant r == Had(b[..index], factors[..index])
    {
      r := r + [b[index] * factors[index]];
    }
    assert b[..|b|] == b && factors[..|b|] == factors;
  }

  lemma {:induction false} DotThree(a: Vector, b: Vector, c: int, g: Vector, h: Vector, q: int)
    requires |a| == |g| && |b| == |h|
    ensures Dot(a + b + [c], g + h + [q]) == Dot(a, g) + Dot(b, h) + c * q
  {
    DotConcat(a + b, [c], g + h, [q]);
    DotConcat(a, b, g, h);
    DotSingle([c], [q]);
  }

  /** Folds the halves of an array into its first half: value[i] := x value[i] + y value[half + i]. */
  method FoldInPlace(values: array<int>, half: nat, x: int, y: int)
    requires 2 * half <= values.Length
    modifies values
    ensures values[..half] == old(FoldVec(x, values[..half], y, values[half..2 * half]))
    ensures forall i :: half <= i < values.Length ==> values[i] == old(values[i])
  {
    ghost var target := FoldVec(x, values[..half], y, values[half..2 * half]);
    assert forall i :: 0 <= i < half ==> target[i] == values[i] * x + y * values[half + i];
    hide FoldVec;
    for index := 0 to half
      invariant forall i :: 0 <= i < index ==> values[i] == target[i]
      invariant forall i :: index <= i < values.Length ==> values[i] == old(values[i])
    {
      values[index] := values[index] * x + y * values[half + index];
    }
    assert values[..half] == target;
  }

  /** The first round's fold of h: each entry is scaled by its factor on the way. */
  method FoldScaledInPlace(values: array<int>, factors: Vector, half: nat, x: int, y: int)
    requires 2 * half == values.Length == |factors|
    modifies values
    ensures values[..half] == old(FoldVec(x, Had(factors, values[..])[..half], y, Had(factors, values[..])[half..]))
  {
    ghost var was := Had(factors, values[..]);
    ghost var target := FoldVec(x, was[..half], y, was[half..]);
    for index := 0 to half
      invariant forall i :: 0 <= i < index ==> values[i] == target[i]
      invariant forall i :: index <= i < values.Length ==> values[i] == old(values[i])
    {
      values[index] := (x * factors[index]) * values[index] + (y * factors[half + index]) * values[half + index];
      ScaledTerm(x, factors[index], old(values[index]));
      ScaledTerm(y, factors[half + index], old(values[half + index]));
    }
  }

  lemma {:induction false} ScaledTerm(x: int, f: int, v: int)
    ensures (x * f) * v == x * (f * v)
  {
  }

  /** One unfolding of the plain argument. */
  lemma {:induction false} RoundsUnfold(m: int, o: Oracle, k: nat, q: Point, g: Vector, h: Vector, a: Vector, b: Vector,
                                        t: Transcript, half: nat, left: int, right: int, t1: Transcript, u: Scalar,
                                        v: Scalar)
    requires m > 0 && k > 0
    requires |a| == |b| == |g| == |h| == Pow(2, k) == 2 * half
    requires left == Canon(m, LeftPoint(a, b, g, h, q, half)) && right == Canon(m, RightPoint(a, b, g, h, q, half))
    requires t1 == Append(Append(t, "L", left), "R", right) && u == o(t1, "u") && v == Inv(m, u)
    ensures half == Pow(2, k - 1)
    ensures var r := Rounds(m, o, k, q, g, h, a, b, t);
            var rest := Rounds(m, o, k - 1, q,
                               FoldVec(v, g[..half], u, g[half..]), FoldVec(u, h[..half], v, h[half..]),
                               FoldVec(u, a[..half], v, a[half..]), FoldVec(v, b[..half], u, b[half..]),
                               t1 + [Extracted("u")]);
            Continues(r, [left], [right], rest)
  {
  }

  /** The rest of a run completes the points already produced to the whole run. */
  ghost predicate Continues(run: Run, left: Vector, right: Vector, rest: Run) {
    && run.proof.left == left + rest.proof.left
    && run.proof.right == right + rest.proof.right
    && run.proof.a == rest.proof.a && run.proof.b == rest.proof.b
    && run.t == rest.t
  }

  lemma {:induction false} ContinuesStep(run: Run, left: Vector, right: Vector, r: Run, l: int, rr: int, rest: Run)
    requires Continues(run, left, right, r) && Continues(r, [l], [rr], rest)
    ensures Continues(run, left + [l], right + [rr], rest)
  {
    assert left + ([l] + rest.proof.left) == left + [l] + rest.proof.left;
    assert right + ([rr] + rest.proof.right) == right + [rr] + rest.proof.right;
  }

  lemma {:induction false} ContinuesStart(run: Run)
    ensures Continues(run, [], [], run)
  {
    assert [] + run.proof.left == run.proof.left && [] + run.proof.right == run.proof.right;
  }

  lemma {:induction false} ContinuesEnd(m: int, o: Oracle, q: Point, g: Vector, h: Vector, a: Vector, b: Vector,
                                        t: Transcript, run: Run, left: Vector, right: Vector)
    requires m > 0 && |a| == |b| == |g| == |h| == 1
    requires Continues(run, left, right, Rounds(m, o, 0, q, g, h, a, b, t))
    ensures run.proof == IppProof(left, right, Canon(m, a[0]), Canon(m, b[0])) && run.t == t
  {
    assert left + [] == left && right + [] == right;
  }

  /** The four folds of one round. */
  method FoldAll(g: array<int>, h: array<int>, a: array<int>, b: array<int>, first: bool, hFactors: Vector,
                 size: nat, half: nat, u: Scalar, v: Scalar)
    requires size == 2 * half && g.Length == h.Length == a.Length == b.Length == |hFactors| >= size
    requires first ==> size == |hFactors|
    requires g != h && g != a && g != b && h != a && h != b && a != b
    modifies g, h, a, b
    ensures a[..half] == old(FoldVec(u, a[..size][..half], v, a[..size][half..]))
    ensures b[..half] == old(FoldVec(v, b[..size][..half], u, b[..size][half..]))
    ensures g[..half] == old(FoldVec(v, g[..size][..half], u, g[..size][half..]))
    ensures h[..half] == old(var h' := if first then Had(hFactors, h[..size]) else h[..size];
                             FoldVec(u, h'[..half], v, h'[half..]))
  {
    assert a[..size][..half] == a[..half] && a[..size][half..] == a[half..2 * half];
    assert b[..size][..half] == b[..half] && b[..size][half..] == b[half..2 * half];
    assert g[..size][..half] == g[..half] && g[..size][half..] == g[half..2 * half];
    assert h[..size][..half] == h[..half] && h[..size][half..] == h[half..2 * half];
    FoldInPlace(a, half, u, v);
    FoldInPlace(b, half, v, u);
    FoldInPlace(g, half, v, u);
    if first {
      assert h[..] == h[..size];
      FoldScaledInPlace(h, hFactors, half, u, v);
    } else {
      FoldInPlace(h, half, u, v);
    }
  }

  /** One round of the prover on the first `size` entries of its arrays; the first round applies the h factors. */
  method ProverRound(m: int, o: Oracle, q: Point, ghost k: nat, first: bool, hFactors: Vector, size: nat,
                     g: array<int>, h: array<int>, a: array<int>, b: array<int>, t0: Transcript)
    returns (l: int, r: int, t: Transcript)
    requires m > 0 && k > 0 && 1 < size == Pow(2, k)
    requires g.Length == h.Length == a.Length == b.Length == |hFactors| >= size
    requires first ==> size == |hFactors|
    requires g != h && g != a && g != b && h != a && h != b && a != b
    modifies g, h, a, b
    ensures size == 2 * (size / 2) && size / 2 == Pow(2, k - 1)
    ensures Continues(old(var h' := if first then Had(hFactors, h[..size]) else h[..size];
                          Rounds(m, o, k, q, g[..size], h', a[..size], b[..size], t0)),
                      [l], [r],
                      Rounds(m, o, k - 1, q, g[..size / 2], h[..size / 2], a[..size / 2], b[..size / 2], t))
  {
    hide LeftPoint, RightPoint, Dot, Rounds, Continues, FoldVec, Had;
    var half := size / 2;
    ghost var g0, a0, b0 := g[..size], a[..size], b[..size];
    ghost var h0 := if first then Had(hFactors, h[..size]) else h[..size];
    assert size == 2 * half;
    var left, right := RoundPoints(q, first, if first then hFactors else [], g[..size], h[..size], a[..size], b[..size],
                                   half);
    l, r := Canon(m, left), Canon(m, right);
    t := Append(t0, "L", l);
    t := Append(t, "R", r);
    var u := o(t, "u");
    var v := Inv(m, u);
    RoundsUnfold(m, o, k, q, g0, h0, a0, b0, t0, half, l, r, t, u, v);
    t := t + [Extracted("u")];
    FoldAll(g, h, a, b, first, hFactors, size, half, u, v);
  }

  /** The halving loop of the prover, folding a, b, g and h in place.
      It computes the plain argument on the generators h scaled by their factors. */
  method NewInnerProductProof(m: int, o: Oracle, q: Point, hFactors: Vector, gIn: Vector, hIn: Vector, aIn: Vector,
                              bIn: Vector, t0: Transcript)
    returns (r: Option<IppProof>, t: Transcript)
    requires m > 0
    ensures var size := |gIn|;
            if |hIn| == |aIn| == |bIn| == |hFactors| == size && IsPowerOfTwo(size) then
              size == Pow(2, Log2(size)) &&
              var run := Rounds(m, o, Log2(size), q, gIn, Had(hFactors, hIn), aIn, bIn, DomainSeparator(size, t0));
              r == Some(run.proof) && t == run.t
            else r == None
  {
    hide Dot, IsPowerOfTwo, Log2, Rounds, Continues, Had;
    var size := |gIn|;
    t := t0;
    if |hIn| != size || |aIn| != size || |bIn| != size || |hFactors| != size || size == 0 || !IsPowerOfTwo(size) {
      assert size == 0 ==> !IsPowerOfTwo(size) by { ZeroIsNotAPower(); }
      return None, t;
    }
    Log2Exact(size);
    t := DomainSeparator(size, t0);
    ghost var k := Log2(size);
    ghost var run := Rounds(m, o, k, q, gIn, Had(hFactors, hIn), aIn, bIn, t);
    var g := Clone(gIn);
    var h := Clone(hIn);
    var a := Clone(aIn);
    var b := Clone(bIn);
    var left: Vector, right: Vector := [], [];
    var first := true;
    assert g[..size] == gIn && h[..size] == hIn && a[..size] == aIn && b[..size] == bIn;
    ContinuesStart(run);
    while size > 1
      invariant 1 <= size == Pow(2, k) <= g.Length == h.Length == a.Length == b.Length == |hFactors|
      invariant first ==> size == |hFactors|
      invariant Continues(run, left, right,
                          Rounds(m, o, k, q, g[..size], if first then Had(hFactors, h[..size]) else h[..size],
                                 a[..size], b[..size], t))
    {
      ghost var now := Rounds(m, o, k, q, g[..size], if first then Had(hFactors, h[..size]) else h[..size], a[..size],
                              b[..size], t);
      var l, rr, t' := ProverRound(m, o, q, k, first, hFactors, size, g, h, a, b, t);
      t := t';
      ContinuesStep(run, left, right, now, l, rr,
                    Rounds(m, o, k - 1, q, g[..size / 2], h[..size / 2], a[..size / 2], b[..size / 2], t));
      left := left + [l];
      right := right + [rr];
      size := size / 2;
      first := false;
      k := k - 1;
    }
    PowOne(k);
    ContinuesEnd(m, o, q, g[..size], if first then Had(hFactors, h[..size]) else h[..size], a[..size], b[..size], t,
                 run, left, right);
    r := Some(IppProof(left, right, Canon(m, a[0]), Canon(m, b[0])));
  }

  method Clone(values: Vector) returns (r: array<int>)
    ensures fresh(r) && r[..] == values
  {
    r := new int[|values|](i requires 0 <= i < |values| => values[i]);
  }

  lemma {:induction false} PowOne(k: nat)
    requires Pow(2, k) == 1
    ensures k == 0
  {
  }

  lemma {:induction false} ZeroIsNotAPower()
    ensures !IsPowerOfTwo(0)
  {
  }
}
