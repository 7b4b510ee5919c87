/**
 The proof as it travels: context, proof words and discriminator
 (programs/token-2022/confidential_range.go, confidential_range_inner_product.go).
 A word is one 32-byte group; it holds a canonical scalar or point, zero being the identity.
 */
module RangeProofData {
  import opened Wrappers
  import opened Residues
  import opened Vectors
  import opened Transcripts
  import opened InnerProduct
  import opened RangeProof

  /** Eight commitments and eight bit lengths, zero padded. */
  datatype Context = Context(commitments: Vector, lens: seq<nat>)

  datatype ProofData = ProofData(discriminator: nat, context: Context, words: Vector)

  // ----- sizes -----

  /** Discriminator and number of proof words for the three sizes the program knows. */
  function Parameters(total: nat): (r: Option<(nat, nat)>) {
    if total == 64 then Some((6, 672 / 32))
    else if total == 128 then Some((7, 736 / 32))
    else if total == 256 then Some((8, 800 / 32))
    else None
  }

  function VerificationParameters(discriminator: nat): (r: Option<(nat, nat)>) {
    if discriminator == 6 then Some((672 / 32, 64))
    else if discriminator == 7 then Some((736 / 32, 128))
    else if discriminator == 8 then Some((800 / 32, 256))
    else None
  }

  // ----- context -----

  predicate ContextInputs(m: int, commitments: Vector, amounts: seq<nat>, lens: seq<nat>, openings: Vector)
    requires m > 0
  {
    var n := |commitments|;
    && 0 < n <= 8 && |amounts| == n && |lens| == n && |openings| == n
    && (forall i :: 0 <= i < n ==> IsProper(m, commitments[i]))
    && (forall i :: 0 <= i < n ==> 0 < lens[i] <= 64)
    && (forall i :: 0 <= i < n ==> Decodes(m, openings[i]))
  }

  function BuildContext(commitments: Vector, lens: seq<nat>): (c: Context)
    requires |commitments| == |lens| <= 8
    ensures |c.commitments| == |c.lens| == 8
  {
    Context(commitments + Const(0, 8 - |commitments|), lens + seq(8 - |lens|, _ => 0))
  }

  predicate GoodSlot(m: int, c: Context, i: nat)
    requires m > 0 && i < |c.commitments| == |c.lens|
  {
    IsProper(m, c.commitments[i]) && 0 < c.lens[i] <= 64
  }

  predicate PaddingSlot(c: Context, i: nat)
    requires i < |c.commitments| == |c.lens|
  {
    c.commitments[i] == 0 && c.lens[i] == 0
  }

  /** The first slot from i on that holds no commitment. */
  function GoodPrefix(m: int, c: Context, i: nat): (n: nat)
    requires m > 0 && |c.commitments| == |c.lens| == 8 && i <= 8
    ensures i <= n <= 8
    decreases 8 - i
  {
    if i < 8 && GoodSlot(m, c, i) then GoodPrefix(m, c, i + 1) else i
  }

  /** The number of commitments of a well-formed context: commitments first, then only padding. */
  function ContextShape(m: int, c: Context): (n: nat)
    requires m > 0 && |c.commitments| == |c.lens| == 8
    ensures n <= 8
  {
    var n := GoodPrefix(m, c, 0);
    if forall i :: n <= i < 8 ==> PaddingSlot(c, i) then n else 0
  }

  /** The parser's loop over the eight slots. */
  method ParseContext(m: int, c: Context) returns (r: Option<(Vector, seq<nat>)>)
    requires m > 0 && |c.commitments| == |c.lens| == 8
    ensures r.Some? <==> ContextShape(m, c) != 0
    ensures r.Some? ==> var n := ContextShape(m, c); r.value == (c.commitments[..n], c.lens[..n])
  {
    assert IsIdentity(m, 0);
    hide IsIdentity, Decodes;
    var commitments: Vector, lens: seq<nat> := [], [];
    var padding := false;
    for i := 0 to 8
      invariant |commitments| == |lens| <= i && (padding <==> |lens| < i)
      invariant commitments == c.commitments[..|lens|] && lens == c.lens[..|lens|]
      invariant GoodPrefix(m, c, 0) == if padding then |lens| else GoodPrefix(m, c, i)
      invariant forall j :: |lens| <= j < i ==> PaddingSlot(c, j)
    {
      if c.commitments[i] == 0 {
        padding := true;
        if c.lens[i] != 0 {
          assert !PaddingSlot(c, i);
          return None;
        }
        continue;
      }
      assert !PaddingSlot(c, i);
      if padding {
        return None;
      }
      if !IsProper(m, c.commitments[i]) || c.lens[i] == 0 || c.lens[i] > 64 {
        return None;
      }
      commitments := commitments + [c.commitments[i]];
      lens := lens + [c.lens[i]];
    }
    if |commitments| == 0 {
      return None;
    }
    r := Some((commitments, lens));
  }

  lemma {:induction false} GoodPrefixIs(m: int, c: Context, i: nat, n: nat)
    requires m > 0 && |c.commitments| == |c.lens| == 8 && i <= n <= 8
    requires forall j :: i <= j < n ==> GoodSlot(m, c, j)
    requires n < 8 ==> !GoodSlot(m, c, n)
    ensures GoodPrefix(m, c, i) == n
    decreases 8 - i
  {
    if i < n {
      GoodPrefixIs(m, c, i + 1, n);
    }
  }

  /** What the prover wrote, the verifier reads back. */
  lemma {:induction false} ContextRoundTrip(m: int, commitments: Vector, amounts: seq<nat>, lens: seq<nat>,
                                            openings: Vector)
    requires m > 0 && ContextInputs(m, commitments, amounts, lens, openings)
    ensures var c := BuildContext(commitments, lens);
            var n := ContextShape(m, c);
            n == |lens| && c.commitments[..n] == commitments && c.lens[..n] == lens
  {
    var c := BuildContext(commitments, lens);
    forall i | 0 <= i < |lens| ensures GoodSlot(m, c, i) {
      assert c.commitments[i] == commitments[i] && c.lens[i] == lens[i];
    }
    GoodPrefixIs(m, c, 0, |lens|);
  }

  // ----- proof words -----

  function Interleave(left: Vector, right: Vector): (r: Vector)
    requires |left| == |right|
    ensures |r| == 2 * |left|
  {
    if |left| == 0 then []
    else
      var n := |left| - 1;
      Interleave(left[..n], right[..n]) + [left[n], right[n]]
  }

  method MarshalInner(proof: IppProof) returns (words: Vector)
    requires |proof.left| == |proof.right|
    ensures words == Interleave(proof.left, proof.right) + [proof.a, proof.b]
  {
    words := [];
    for i := 0 to |proof.left|
      invariant words == Interleave(proof.left[..i], proof.right[..i])
    {
      assert proof.left[..i + 1][..i] == proof.left[..i] && proof.right[..i + 1][..i] == proof.right[..i];
      words := words + [proof.left[i]];
      words := words + [proof.right[i]];
    }
    assert proof.left[..|proof.left|] == proof.left && proof.right[..|proof.left|] == proof.right;
    words := words + [proof.a];
    words := words + [proof.b];
  }

  function Marshal(proof: Proof): (words: Vector)
    requires |proof.inner.left| == |proof.inner.right|
  {
    [proof.a, proof.s, proof.t1, proof.t2, proof.tx, proof.txBlinding, proof.eBlinding]
    + Interleave(proof.inner.left, proof.inner.right) + [proof.inner.a, proof.inner.b]
  }

  function Evens(words: Vector, k: nat): (r: Vector)
    requires |words| >= 2 * k
    ensures |r| == k
  {
    seq(k, i requires 0 <= i < k => words[2 * i])
  }

  function Odds(words: Vector, k: nat): (r: Vector)
    requires |words| >= 2 * k
    ensures |r| == k
  {
    seq(k, i requires 0 <= i < k => words[2 * i + 1])
  }

  lemma {:induction false} InterleaveAt(left: Vector, right: Vector, i: nat)
    requires |left| == |right| && i < |left|
    ensures Interleave(left, right)[2 * i] == left[i] && Interleave(left, right)[2 * i + 1] == right[i]
    decreases |left|
  {
    var n := |left| - 1;
    if i < n {
      InterleaveAt(left[..n], right[..n], i);
    }
  }

  /** Length checks and canonical scalars, then the words in their places. */
  function Parse(m: int, words: Vector): (r: Option<Proof>) {
    if |words| < 7 + 2 || (|words| - 7) % 2 != 0 || (|words| - 9) / 2 >= 32 then None
    else
      var k, n := (|words| - 9) / 2, |words|;
      if !Decodes(m, words[4]) || !Decodes(m, words[5]) || !Decodes(m, words[6]) || !Decodes(m, words[n - 2])
         || !Decodes(m, words[n - 1]) then None
      else
        Some(Proof(words[0], words[1], words[2], words[3], words[4], words[5], words[6],
                   IppProof(Evens(words[7..], k), Odds(words[7..], k), words[n - 2], words[n - 1])))
  }

  predicate CanonicalScalars(m: int, proof: Proof) {
    Decodes(m, proof.tx) && Decodes(m, proof.txBlinding) && Decodes(m, proof.eBlinding) && Decodes(m, proof.inner.a)
        && Decodes(m, proof.inner.b)
  }

  lemma {:induction false} MarshalRoundTrip(m: int, proof: Proof)
    requires |proof.inner.left| == |proof.inner.right| < 32 && CanonicalScalars(m, proof)
    ensures |Marshal(proof)| == 9 + 2 * |proof.inner.left|
    ensures Parse(m, Marshal(proof)) == Some(proof)
  {
    var words, k := Marshal(proof), |proof.inner.left|;
    var inter := Interleave(proof.inner.left, proof.inner.right);
    assert words[7..] == inter + [proof.inner.a, proof.inner.b];
    forall i | 0 <= i < k ensures words[7..][2 * i] == proof.inner.left[i]
        && words[7..][2 * i + 1] == proof.inner.right[i] {
      InterleaveAt(proof.inner.left, proof.inner.right, i);
    }
    assert Evens(words[7..], k) == proof.inner.left;
    assert Odds(words[7..], k) == proof.inner.right;
  }

  /** The other direction: an accepted proof has exactly one encoding. */
  lemma {:induction false} ParseInverse(m: int, words: Vector)
    requires Parse(m, words).Some?
    ensures |Parse(m, words).value.inner.left| == |Parse(m, words).value.inner.right|
    ensures Marshal(Parse(m, words).value) == words
  {
    var proof := Parse(m, words).value;
    var k, n := (|words| - 9) / 2, |words|;
    assert n == 9 + 2 * k;
    InterleaveBack(words[7..], k);
    hide Interleave, Decodes, Evens, Odds;
    ThreeStretches(words);
    assert words[7..][..2 * k] == words[7..n - 2];
  }

  lemma {:induction false} ThreeStretches(words: Vector)
    requires |words| >= 9
    ensures var n := |words|;
      words == [words[0], words[1], words[2], words[3], words[4], words[5], words[6]] + words[7..n - 2]
          + [words[n - 2], words[n - 1]]
  {
  }

  /** Even and odd words put together again. */
  lemma {:induction false} InterleaveBack(words: Vector, k: nat)
    requires |words| >= 2 * k
    ensures Interleave(Evens(words, k), Odds(words, k)) == words[..2 * k]
  {
    var out := Interleave(Evens(words, k), Odds(words, k));
    forall i | 0 <= i < k ensures out[2 * i] == words[2 * i] && out[2 * i + 1] == words[2 * i + 1] {
      InterleaveAt(Evens(words, k), Odds(words, k), i);
    }
    forall j | 0 <= j < 2 * k ensures out[j] == words[j] {
      var i := j / 2;
      assert j == 2 * i || j == 2 * i + 1;
    }
  }

  // ----- end to end -----

  function ContextTranscript(c: Context): (t: Transcript) {
    [Domain("batched-range-proof-instruction"), Message("commitments", c.commitments), Message("bit-lengths", c.lens)]
  }

  /** GenerateBatchedRangeProof. */
  function Generate(p: Params, commitments: Vector, amounts: seq<nat>, lens: seq<nat>, openings: Vector,
                    nonces: Nonces): (r: Option<ProofData>)
    requires p.m > 0 && |nonces.sLeft| == |nonces.sRight| == Total(lens)
  {
    var params := Parameters(Total(lens));
    if params == None || !ContextInputs(p.m, commitments, amounts, lens, openings) then None
    else
      var c := BuildContext(commitments, lens);
      SizeIsPower(Total(lens));
      var proof := Prove(p, amounts, lens, openings, nonces, ContextTranscript(c)).proof;
      var words := Marshal(proof);
      if |words| != params.value.1 then None else Some(ProofData(params.value.0, c, words))
  }

  /** VerifyBatchedRangeProof. */
  predicate Verify(p: Params, data: ProofData)
    requires p.m > 0
  {
    var params := VerificationParameters(data.discriminator);
    if params == None || |data.context.commitments| != 8 || |data.context.lens| != 8
       || |data.words| != params.value.0 then false
    else
      var n := ContextShape(p.m, data.context);
      var commitments, lens := data.context.commitments[..n], data.context.lens[..n];
      if n == 0 || Total(lens) != params.value.1 then false
      else
        var proof := Parse(p.m, data.words);
        proof.Some? && Accepts(p, proof.value, commitments, lens, ContextTranscript(data.context))
  }

  lemma {:induction false} SizeIsPower(total: nat)
    requires Parameters(total).Some?
    ensures IsPowerOfTwo(total) && 6 <= Log2(total) <= 8
    ensures Parameters(total).value.1 == 9 + 2 * Log2(total)
    ensures VerificationParameters(Parameters(total).value.0) == Some((Parameters(total).value.1, total))
  {
    assert total == Pow(2, 6) || total == Pow(2, 7) || total == Pow(2, 8);
    Log2OfPow(6);
    Log2OfPow(7);
    Log2OfPow(8);
    Log2Exact(total);
  }

  lemma {:induction false} ProveCanonical(p: Params, amounts: seq<nat>, lens: seq<nat>, openings: Vector,
                                          nonces: Nonces, t: Transcript)
    requires p.m > 0 && Shape(amounts, lens, openings, nonces)
    ensures var proof := Prove(p, amounts, lens, openings, nonces, t).proof;
            CanonicalScalars(p.m, proof) && |proof.inner.left| == |proof.inner.right| == Log2(Total(lens))
  {
    hide APoint, SPoint, MiddleOf, Bits, Commit, EvalScalar, AggregatedOpening, Rounds, Generators, Log2, IsPowerOfTwo,
         Powers, Had, Eval;
    var run := Prove(p, amounts, lens, openings, nonces, t);
    var n, c := Total(lens), run.c;
    var mid := MiddleOf(amounts, lens, nonces, c.y, c.z);
    PowerPositive(n);
    Log2Exact(n);
    RoundsCanonical(p.m, p.o, Log2(n), c.w * p.base, Generators(p.gChain, n),
                    Had(Powers(Inv(p.m, c.y), n), Generators(p.hChain, n)),
                    Eval(mid.l, c.x), Eval(mid.r, c.x), DomainSeparator(n, c.t));
  }

  lemma {:induction false} RoundsCanonical(m: int, o: Oracle, k: nat, q: Point, g: Vector, h: Vector, a: Vector,
                                           b: Vector, t: Transcript)
    requires m > 0
    requires |a| == |b| == |g| == |h| == Pow(2, k)
    ensures var proof := Rounds(m, o, k, q, g, h, a, b, t).proof;
            Decodes(m, proof.a) && Decodes(m, proof.b)
    decreases k
  {
    hide LeftPoint, RightPoint, FoldVec;
    if k > 0 {
      var half := Pow(2, k - 1);
      PowPositive(2, k - 1);
      var left := Canon(m, LeftPoint(a, b, g, h, q, half));
      var right := Canon(m, RightPoint(a, b, g, h, q, half));
      var t1 := Append(Append(t, "L", left), "R", right);
      var u := o(t1, "u");
      var v := Inv(m, u);
      RoundsCanonical(m, o, k - 1, q,
                      FoldVec(v, g[..half], u, g[half..]), FoldVec(u, h[..half], v, h[half..]),
                      FoldVec(u, a[..half], v, a[half..]), FoldVec(v, b[..half], u, b[half..]),
                      t1 + [Extracted("u")]);
    }
  }

  /** The prover's size precomputation is exact: for inputs it accepts, the encoded proof has the announced length. */
  lemma {:induction false} GenerateSucceeds(p: Params, commitments: Vector, amounts: seq<nat>, lens: seq<nat>,
                                            openings: Vector, nonces: Nonces)
    requires p.m > 0 && |nonces.sLeft| == |nonces.sRight| == Total(lens)
    ensures Generate(p, commitments, amounts, lens, openings, nonces).Some?
       <==> Parameters(Total(lens)).Some? && ContextInputs(p.m, commitments, amounts, lens, openings)
  {
    hide Prove, IsPowerOfTwo, Log2, Parse;
    if Parameters(Total(lens)).Some? && ContextInputs(p.m, commitments, amounts, lens, openings) {
      SizeIsPower(Total(lens));
      var t := ContextTranscript(BuildContext(commitments, lens));
      ProveCanonical(p, amounts, lens, openings, nonces, t);
      MarshalRoundTrip(p.m, Prove(p, amounts, lens, openings, nonces, t).proof);
    }
  }

  /** From inputs to verdict, through context, transcript and encoding: what was generated verifies exactly when
      no point of the proof is the identity and the commitments carry the covered parts of the amounts. */
  lemma {:induction false} GeneratedProofVerifies(p: Params, commitments: Vector, amounts: seq<nat>, lens: seq<nat>,
                                                  openings: Vector, nonces: Nonces)
    requires Prime(p.m) && |nonces.sLeft| == |nonces.sRight| == Total(lens)
    requires Parameters(Total(lens)).Some? && ContextInputs(p.m, commitments, amounts, lens, openings)
    requires Shape(amounts, lens, openings, nonces)
    requires var run := Prove(p, amounts, lens, openings, nonces, ContextTranscript(BuildContext(commitments, lens)));
             !IsIdentity(p.m, run.c.y) && AllNonzero(p.m, run.us)
    ensures Generate(p, commitments, amounts, lens, openings, nonces).Some?
    ensures var run := Prove(p, amounts, lens, openings, nonces, ContextTranscript(BuildContext(commitments, lens)));
            Verify(p, Generate(p, commitments, amounts, lens, openings, nonces).value)
            <==> NoIdentity(p.m, run.proof)
                 && IsIdentity(p.m, run.d * Residual(p, run.c.z, amounts, lens, openings, commitments))
  {
    hide Prove, Accepts, Residual, IsPowerOfTwo, Log2, IsIdentity, NoIdentity, Parse, Marshal, BuildContext,
         ContextShape;
    var c := BuildContext(commitments, lens);
    var t := ContextTranscript(c);
    var run := Prove(p, amounts, lens, openings, nonces, t);
    GenerateSucceeds(p, commitments, amounts, lens, openings, nonces);
    SizeIsPower(Total(lens));
    ContextRoundTrip(p.m, commitments, amounts, lens, openings);
    ProveCanonical(p, amounts, lens, openings, nonces, t);
    MarshalRoundTrip(p.m, run.proof);
    HonestProofAccepted(p, amounts, lens, openings, nonces, commitments, t);
  }

  /** The challenges the verifier inverts are nonzero. */
  ghost predicate Usable(p: Params, commitments: Vector, amounts: seq<nat>, lens: seq<nat>, openings: Vector,
                         nonces: Nonces)
    requires p.m > 0 && |commitments| == |lens| <= 8 && Shape(amounts, lens, openings, nonces)
  {
    var run := Prove(p, amounts, lens, openings, nonces, ContextTranscript(BuildContext(commitments, lens)));
    !IsIdentity(p.m, run.c.y) && AllNonzero(p.m, run.us)
  }

  /** Amounts below their bounds under matching commitments: generated, and accepted unless a point of the proof is
      the identity. */
  lemma {:induction false} GeneratedProofComplete(p: Params, commitments: Vector, amounts: seq<nat>, lens: seq<nat>,
                                                  openings: Vector, nonces: Nonces)
    requires Prime(p.m) && |nonces.sLeft| == |nonces.sRight| == Total(lens)
    requires Parameters(Total(lens)).Some? && ContextInputs(p.m, commitments, amounts, lens, openings)
    requires Shape(amounts, lens, openings, nonces) && Usable(p, commitments, amounts, lens, openings, nonces)
    requires forall i :: 0 <= i < |lens| ==> amounts[i] < Pow(2, lens[i])
    requires forall i :: 0 <= i < |lens| ==> Cong(p.m, commitments[i], Commit(p, amounts[i], openings[i]))
    ensures Generate(p, commitments, amounts, lens, openings, nonces).Some?
    ensures var run := Prove(p, amounts, lens, openings, nonces, ContextTranscript(BuildContext(commitments, lens)));
            Verify(p, Generate(p, commitments, amounts, lens, openings, nonces).value) <==> NoIdentity(p.m, run.proof)
  {
    hide Prove, Accepts, Residual, IsPowerOfTwo, Log2, IsIdentity, NoIdentity, Generate, Verify, BuildContext, Cong,
         Commit, Pow;
    var t := ContextTranscript(BuildContext(commitments, lens));
    SizeIsPower(Total(lens));
    GeneratedProofVerifies(p, commitments, amounts, lens, openings, nonces);
    HonestProofAccepted(p, amounts, lens, openings, nonces, commitments, t);
    RangeProofComplete(p, amounts, lens, openings, nonces, commitments, t);
  }
}
