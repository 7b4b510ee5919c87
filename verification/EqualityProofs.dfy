/**
 The two equality proofs (programs/token-2022/confidential_equality.go): a ciphertext and a commitment, or two
 ciphertexts under different keys, hold the same amount.
 */
module EqualityProofs {
  import opened Wrappers
  import opened Residues
  import opened Vectors
  import opened Transcripts
  import opened InnerProduct
  import opened RangeProof
  import opened ElGamal
  import opened SigmaProofs

  const ANSWERS: seq<string> := ["z_s", "z_x", "z_r"]

  /** Every word encodes a point, and not the identity. */
  predicate ProperPoints(m: int, words: Vector)
    requires m > 0
  {
    forall i :: 0 <= i < |words| ==> IsProper(m, words[i])
  }

  // ----- unrolled multiscalar sums -----

  lemma {:induction false} DotTriple(a: int, b: int, c: int, a': int, b': int, c': int)
    ensures Dot([a, b, c], [a', b', c']) == a * a' + b * b' + c * c'
  {
    DotCons(a, [b, c], a', [b', c']);
    DotCons(b, [c], b', [c']);
    DotSingle([c], [c']);
    assert [a] + [b, c] == [a, b, c] && [a'] + [b', c'] == [a', b', c'];
    assert [b] + [c] == [b, c] && [b'] + [c'] == [b', c'];
  }

  lemma {:induction false} DotFour(a: int, b: int, c: int, d: int, a': int, b': int, c': int, d': int)
    ensures Dot([a, b, c, d], [a', b', c', d']) == a * a' + b * b' + c * c' + d * d'
  {
    DotCons(a, [b, c, d], a', [b', c', d']);
    DotTriple(b, c, d, b', c', d');
    assert [a] + [b, c, d] == [a, b, c, d] && [a'] + [b', c', d'] == [a', b', c', d'];
  }

  lemma {:induction false} BatchedThree(w: int, a: int, b: int, c: int)
    ensures BatchedSum(w, [a, b, c]) == a + w * b + (w * w) * c
  {
    DotTriple(Pow(w, 0), Pow(w, 1), Pow(w, 2), a, b, c);
    assert Pow(w, 0) == 1 && Pow(w, 1) == Pow(w, 0) * w && Pow(w, 2) == Pow(w, 1) * w;
    assert Powers(w, 3) == [Pow(w, 0), Pow(w, 1), Pow(w, 2)];
  }

  lemma {:induction false} BatchedFour(w: int, a: int, b: int, c: int, d: int)
    ensures BatchedSum(w, [a, b, c, d]) == a + w * b + (w * w) * c + (w * (w * w)) * d
  {
    DotFour(Pow(w, 0), Pow(w, 1), Pow(w, 2), Pow(w, 3), a, b, c, d);
    assert Pow(w, 0) == 1 && Pow(w, 1) == Pow(w, 0) * w && Pow(w, 2) == Pow(w, 1) * w && Pow(w, 3) == Pow(w, 2) * w;
    assert Pow(w, 3) == w * (w * w);
    assert Powers(w, 4) == [Pow(w, 0), Pow(w, 1), Pow(w, 2), Pow(w, 3)];
  }

  // ----- ciphertext and commitment -----

  const ROWS3: seq<string> := ["Y_0", "Y_1", "Y_2"]

  /** secret * key = blind, amount * base + secret * handle = ciphertext, amount * base + opening * blind =
      commitment. */
  function CommitmentStatement(p: Params, key: Point, ct: Ciphertext, commitment: Point): (st: Statement)
    ensures |st.rows| == |st.targets| == 3 && forall i :: 0 <= i < 3 ==> |st.rows[i]| == 3
  {
    Statement([[key, 0, 0], [ct.handle, p.base, 0], [0, p.base, p.blind]], [p.blind, ct.commitment, commitment])
  }

  function CommitmentTranscript(key: Point, ct: Ciphertext, commitment: Point): (t: Transcript) {
    [Domain("ciphertext-commitment-equality-instruction"), Message("pubkey", [key]),
     Message("ciphertext", [ct.commitment, ct.handle]),
     Message("commitment", [commitment]), Domain("ciphertext-commitment-equality-proof")]
  }

  /** The generator's checks: a nonzero secret and its key, a ciphertext and a commitment that hold the amount. */
  predicate CommitmentWitness(p: Params, secret: Scalar, key: Point, ct: Ciphertext, commitment: Point, opening: Scalar,
                              amount: nat)
    requires p.m > 0
  {
    && !IsIdentity(p.m, secret) && key == PublicKey(p, secret)
    && Decrypts(p, secret, ct, amount) && commitment == Canon(p.m, Commit(p, amount, opening))
  }

  function GenerateCommitmentEquality(p: Params, secret: Scalar, key: Point, ct: Ciphertext, commitment: Point,
                                      opening: Scalar, amount: nat, nonces: Vector): (r: Option<SigmaProof>)
    requires p.m > 0 && |nonces| == 3
    ensures r.Some? ==> |r.value.announced| == 3 && |r.value.responses| == 3
  {
    if !CommitmentWitness(p, secret, key, ct, commitment, opening, amount) then None
    else Some(ProveLinear(p, CommitmentStatement(p, key, ct, commitment), CommitmentTranscript(key, ct, commitment),
                          ROWS3,
                    [secret, amount, opening], nonces))
  }

  /** The eleven terms of the verifier's multiscalar multiplication. */
  function CommitmentCheck(p: Params, key: Point, ct: Ciphertext, commitment: Point, c: Scalar, w: Scalar,
                           proof: SigmaProof): (r: Point)
    requires |proof.announced| == 3 && |proof.responses| == 3
  {
    var y, z := proof.announced, proof.responses;
    var ww := w * w;
    Dot([z[0], -c, -1] + [w * z[1], w * z[0], -w * c, -w] + [ww * z[1], ww * z[2], -ww * c, -ww],
        [key, p.blind, y[0]] + [p.base, ct.handle, ct.commitment, y[1]] + [p.base, p.blind, commitment, y[2]])
  }

  predicate VerifyCommitmentEquality(p: Params, key: Point, ct: Ciphertext, commitment: Point, proof: SigmaProof)
    requires p.m > 0 && |proof.announced| == 3 && |proof.responses| == 3
  {
    var t := CommitmentTranscript(key, ct, commitment);
    var c := FirstChallenge(p.o, t, ROWS3, proof.announced);
    var w := SecondChallenge(p.o, t, ROWS3, proof.announced, ANSWERS, proof.responses);
    && ProperPoints(p.m, [key, ct.commitment, ct.handle, commitment]) && ProperPoints(p.m, proof.announced)
    && IsIdentity(p.m, CommitmentCheck(p, key, ct, commitment, c, w, proof))
  }

  lemma {:induction false} CommitmentRows(p: Params, key: Point, ct: Ciphertext, commitment: Point, c: Scalar,
                                          proof: SigmaProof)
    requires |proof.announced| == 3 && |proof.responses| == 3
    ensures var y, z := proof.announced, proof.responses;
            RowSums(CommitmentStatement(p, key, ct, commitment), c, proof) ==
            [z[0] * key - c * p.blind - y[0], z[1] * p.base + z[0] * ct.handle - c * ct.commitment - y[1],
             z[1] * p.base + z[2] * p.blind - c * commitment - y[2]]
  {
    hide Dot;
    var st, z := CommitmentStatement(p, key, ct, commitment), proof.responses;
    DotTriple(key, 0, 0, z[0], z[1], z[2]);
    DotTriple(ct.handle, p.base, 0, z[0], z[1], z[2]);
    DotTriple(0, p.base, p.blind, z[0], z[1], z[2]);
    assert z == [z[0], z[1], z[2]];
  }

  lemma {:induction false} ThreeTerms(z: int, c: int, k: int, h: int, y: int)
    ensures Dot([z, -c, -1], [k, h, y]) == z * k - c * h - y
  {
    DotTriple(z, -c, -1, k, h, y);
  }

  lemma {:induction false} FourTerms(w: int, x: int, z: int, c: int, g: int, h: int, t: int, y: int)
    ensures Dot([w * x, w * z, -w * c, -w], [g, h, t, y]) == w * (x * g + z * h - c * t - y)
  {
    DotFour(w * x, w * z, -w * c, -w, g, h, t, y);
    FourArithmetic(w, x, z, c, g, h, t, y);
  }

  lemma {:induction false} FourArithmetic(w: int, x: int, z: int, c: int, g: int, h: int, t: int, y: int)
    ensures (w * x) * g + (w * z) * h + (-w * c) * t + (-w) * y == w * (x * g + z * h - c * t - y)
  {
    assert (w * x) * g == w * (x * g) && (w * z) * h == w * (z * h) && (-w * c) * t == -(w * (c * t));
  }

  /** The verifier's list of terms is the batched sum of the rows. */
  lemma {:induction false} CommitmentCheckBatched(p: Params, key: Point, ct: Ciphertext, commitment: Point, c: Scalar,
                                                  w: Scalar, proof: SigmaProof)
    requires |proof.announced| == 3 && |proof.responses| == 3
    ensures CommitmentCheck(p, key, ct, commitment, c, w, proof)
            == BatchedSum(w, RowSums(CommitmentStatement(p, key, ct, commitment), c, proof))
  {
    hide Dot, RowSums, CommitmentStatement, BatchedSum;
    var y, z, ww := proof.announced, proof.responses, w * w;
    CommitmentRows(p, key, ct, commitment, c, proof);
    BatchedThree(w, z[0] * key - c * p.blind - y[0], z[1] * p.base + z[0] * ct.handle - c * ct.commitment - y[1],
                 z[1] * p.base + z[2] * p.blind - c * commitment - y[2]);
    ThreeTerms(z[0], c, key, p.blind, y[0]);
    FourTerms(w, z[1], z[0], c, p.base, ct.handle, ct.commitment, y[1]);
    FourTerms(ww, z[1], z[2], c, p.base, p.blind, commitment, y[2]);
    DotConcat([z[0], -c, -1], [w * z[1], w * z[0], -w * c, -w], [key, p.blind, y[0]],
              [p.base, ct.handle, ct.commitment, y[1]]);
    DotConcat([z[0], -c, -1] + [w * z[1], w * z[0], -w * c, -w], [ww * z[1], ww * z[2], -ww * c, -ww],
              [key, p.blind, y[0]] + [p.base, ct.handle, ct.commitment, y[1]], [p.base, p.blind, commitment, y[2]]);
  }

  lemma {:induction false} CommitmentDefects(p: Params, secret: Scalar, key: Point, ct: Ciphertext, commitment: Point,
                                             opening: Scalar, amount: nat)
    requires Prime(p.m) && CommitmentWitness(p, secret, key, ct, commitment, opening, amount)
    ensures var d := Defects(CommitmentStatement(p, key, ct, commitment), [secret, amount, opening]);
            forall i :: 0 <= i < |d| ==> Cong(p.m, d[i], 0)
  {
    hide Dot, PublicKey, Decrypts;
    var st := CommitmentStatement(p, key, ct, commitment);
    var d := Defects(st, [secret, amount, opening]);
    DotTriple(key, 0, 0, secret, amount, opening);
    DotTriple(ct.handle, p.base, 0, secret, amount, opening);
    DotTriple(0, p.base, p.blind, secret, amount, opening);
    KeyLaw(p, secret);
    Vanishes(p.m, secret * key, p.blind);
    DecryptsCong(p, secret, ct, amount);
    Vanishes(p.m, ct.commitment - ct.handle * secret, amount * p.base);
    Negated(p.m, ct.commitment - ct.handle * secret - amount * p.base);
    CanonCong(p.m, Commit(p, amount, opening));
    Vanishes(p.m, commitment, Commit(p, amount, opening));
    Negated(p.m, commitment - Commit(p, amount, opening));
    assert d[0] == secret * key - p.blind;
    assert d[1] == -(ct.commitment - ct.handle * secret - amount * p.base);
    assert d[2] == -(commitment - Commit(p, amount, opening));
  }

  lemma {:induction false} Vanishes(m: int, x: int, y: int)
    requires Cong(m, x, y)
    ensures Cong(m, x - y, 0)
  {
    CongRefl(m, y);
    CongSub(m, x, y, y, y);
  }

  lemma {:induction false} Negated(m: int, x: int)
    requires Cong(m, x, 0)
    ensures Cong(m, -x, 0)
  {
    CongScale(m, -1, x, 0);
  }

  /** What is generated verifies, unless a point happens to be the identity; and it is generated exactly for a
      matching key, ciphertext, commitment and opening. */
  lemma {:induction false} CommitmentEqualityComplete(p: Params, secret: Scalar, key: Point, ct: Ciphertext,
                                                      commitment: Point, opening: Scalar, amount: nat, nonces: Vector)
    requires Prime(p.m) && |nonces| == 3
    ensures var r := GenerateCommitmentEquality(p, secret, key, ct, commitment, opening, amount, nonces);
      && (r.Some? <==> CommitmentWitness(p, secret, key, ct, commitment, opening, amount))
      && (r.Some? ==>
            (VerifyCommitmentEquality(p, key, ct, commitment, r.value) <==>
             ProperPoints(p.m, [key, ct.commitment, ct.handle, commitment]) && ProperPoints(p.m, r.value.announced)))
  {
    hide ProveLinear, CommitmentCheck, ProperPoints, IsIdentity, FirstChallenge, SecondChallenge, CommitmentWitness,
         CommitmentTranscript, BatchedSum, RowSums, Defects, PublicKey, Decrypts;
    var r := GenerateCommitmentEquality(p, secret, key, ct, commitment, opening, amount, nonces);
    if r.Some? {
      CommitmentSum(p, secret, key, ct, commitment, opening, amount, nonces);
    }
  }

  lemma {:induction false} CommitmentSum(p: Params, secret: Scalar, key: Point, ct: Ciphertext, commitment: Point,
                                         opening: Scalar, amount: nat, nonces: Vector)
    requires Prime(p.m) && |nonces| == 3 && CommitmentWitness(p, secret, key, ct, commitment, opening, amount)
    ensures var st, t := CommitmentStatement(p, key, ct, commitment), CommitmentTranscript(key, ct, commitment);
      var proof := ProveLinear(p, st, t, ROWS3, [secret, amount, opening], nonces);
      IsIdentity(p.m, CommitmentCheck(p, key, ct, commitment, FirstChallenge(p.o, t, ROWS3, proof.announced),
                                      SecondChallenge(p.o, t, ROWS3, proof.announced, ANSWERS, proof.responses), proof))
  {
    hide ProveLinear, CommitmentCheck, IsIdentity, FirstChallenge, SecondChallenge, CommitmentWitness,
         CommitmentTranscript, BatchedSum, RowSums, Defects, CommitmentStatement;
    var st, t := CommitmentStatement(p, key, ct, commitment), CommitmentTranscript(key, ct, commitment);
    var proof := ProveLinear(p, st, t, ROWS3, [secret, amount, opening], nonces);
    var c := FirstChallenge(p.o, t, ROWS3, proof.announced);
    var w := SecondChallenge(p.o, t, ROWS3, proof.announced, ANSWERS, proof.responses);
    CommitmentCheckBatched(p, key, ct, commitment, c, w, proof);
    ProvedSum(p, st, t, ROWS3, ANSWERS, [secret, amount, opening], nonces);
    CommitmentDefects(p, secret, key, ct, commitment, opening, amount);
    NoDefects(p.m, c, w, Defects(st, [secret, amount, opening]));
  }

  // ----- two ciphertexts -----

  const ROWS4: seq<string> := ["Y_0", "Y_1", "Y_2", "Y_3"]

  /** The relations above for the first ciphertext and the second commitment, and opening * second key = second
      handle. */
  function CiphertextStatement(p: Params, key: Point, key2: Point, ct: Ciphertext, ct2: Ciphertext): (st: Statement)
    ensures |st.rows| == |st.targets| == 4 && forall i :: 0 <= i < 4 ==> |st.rows[i]| == 3
  {
    Statement([[key, 0, 0], [ct.handle, p.base, 0], [0, p.base, p.blind], [0, 0, key2]],
              [p.blind, ct.commitment, ct2.commitment, ct2.handle])
  }

  function CiphertextTranscript(key: Point, key2: Point, ct: Ciphertext, ct2: Ciphertext): (t: Transcript) {
    [Domain("ciphertext-ciphertext-equality-instruction"), Message("first-pubkey", [key]),
     Message("second-pubkey", [key2]),
     Message("first-ciphertext", [ct.commitment, ct.handle]),
         Message("second-ciphertext", [ct2.commitment, ct2.handle]),
     Domain("ciphertext-ciphertext-equality-proof")]
  }

  predicate CiphertextWitness(p: Params, secret: Scalar, key: Point, key2: Point, ct: Ciphertext, ct2: Ciphertext,
                              opening: Scalar, amount: nat)
    requires p.m > 0
  {
    && !IsIdentity(p.m, secret) && key == PublicKey(p, secret)
    && Decrypts(p, secret, ct, amount) && ct2 == HandleOf(Encrypt(p, [key2], amount, opening), 0)
  }

  function GenerateCiphertextEquality(p: Params, secret: Scalar, key: Point, key2: Point, ct: Ciphertext,
                                      ct2: Ciphertext, opening: Scalar, amount: nat,
                                      nonces: Vector): (r: Option<SigmaProof>)
    requires p.m > 0 && |nonces| == 3
    ensures r.Some? ==> |r.value.announced| == 4 && |r.value.responses| == 3
  {
    if !CiphertextWitness(p, secret, key, key2, ct, ct2, opening, amount) then None
    else Some(ProveLinear(p, CiphertextStatement(p, key, key2, ct, ct2), CiphertextTranscript(key, key2, ct, ct2),
                          ROWS4,
                          [secret, amount, opening], nonces))
  }

  /** The fourteen terms of the verifier's multiscalar multiplication. */
  function CiphertextCheck(p: Params, key: Point, key2: Point, ct: Ciphertext, ct2: Ciphertext, c: Scalar, w: Scalar,
                           proof: SigmaProof): (r: Point)
    requires |proof.announced| == 4 && |proof.responses| == 3
  {
    var y, z := proof.announced, proof.responses;
    var ww := w * w;
    var www := w * ww;
    Dot([z[0], -c, -1] + [w * z[1], w * z[0], -w * c, -w] + [ww * z[1], ww * z[2], -ww * c, -ww]
        + [www * z[2], -www * c, -www],
        [key, p.blind, y[0]] + [p.base, ct.handle, ct.commitment, y[1]] + [p.base, p.blind, ct2.commitment, y[2]]
            + [key2, ct2.handle, y[3]])
  }

  /** The second ciphertext is not checked for the identity. */
  predicate VerifyCiphertextEquality(p: Params, key: Point, key2: Point, ct: Ciphertext, ct2: Ciphertext,
                                     proof: SigmaProof)
    requires p.m > 0 && |proof.announced| == 4 && |proof.responses| == 3
  {
    var t := CiphertextTranscript(key, key2, ct, ct2);
    var c := FirstChallenge(p.o, t, ROWS4, proof.announced);
    var w := SecondChallenge(p.o, t, ROWS4, proof.announced, ANSWERS, proof.responses);
    && ProperPoints(p.m, [key, key2, ct.commitment, ct.handle]) && ProperPoints(p.m, proof.announced)
    && Decodes(p.m, ct2.commitment) && Decodes(p.m, ct2.handle)
    && IsIdentity(p.m, CiphertextCheck(p, key, key2, ct, ct2, c, w, proof))
  }

  lemma {:induction false} CiphertextRows(p: Params, key: Point, key2: Point, ct: Ciphertext, ct2: Ciphertext,
                                          c: Scalar, proof: SigmaProof)
    requires |proof.announced| == 4 && |proof.responses| == 3
    ensures var y, z := proof.announced, proof.responses;
            RowSums(CiphertextStatement(p, key, key2, ct, ct2), c, proof) ==
            [z[0] * key - c * p.blind - y[0], z[1] * p.base + z[0] * ct.handle - c * ct.commitment - y[1],
             z[1] * p.base + z[2] * p.blind - c * ct2.commitment - y[2], z[2] * key2 - c * ct2.handle - y[3]]
  {
    hide Dot;
    var st, z := CiphertextStatement(p, key, key2, ct, ct2), proof.responses;
    DotTriple(key, 0, 0, z[0], z[1], z[2]);
    DotTriple(ct.handle, p.base, 0, z[0], z[1], z[2]);
    DotTriple(0, p.base, p.blind, z[0], z[1], z[2]);
    DotTriple(0, 0, key2, z[0], z[1], z[2]);
    assert z == [z[0], z[1], z[2]];
  }

  lemma {:induction false} ThreeWeighed(w: int, z: int, c: int, k: int, h: int, y: int)
    ensures Dot([w * z, -w * c, -w], [k, h, y]) == w * (z * k - c * h - y)
  {
    DotTriple(w * z, -w * c, -w, k, h, y);
    assert (w * z) * k == w * (z * k) && (-w * c) * h == -(w * (c * h));
  }

  lemma {:induction false} CiphertextCheckBatched(p: Params, key: Point, key2: Point, ct: Ciphertext, ct2: Ciphertext,
                                                  c: Scalar, w: Scalar, proof: SigmaProof)
    requires |proof.announced| == 4 && |proof.responses| == 3
    ensures CiphertextCheck(p, key, key2, ct, ct2, c, w, proof)
            == BatchedSum(w, RowSums(CiphertextStatement(p, key, key2, ct, ct2), c, proof))
  {
    hide Dot, RowSums, CiphertextStatement, BatchedSum;
    var y, z, ww := proof.announced, proof.responses, w * w;
    var www := w * ww;
    CiphertextRows(p, key, key2, ct, ct2, c, proof);
    BatchedFour(w, z[0] * key - c * p.blind - y[0], z[1] * p.base + z[0] * ct.handle - c * ct.commitment - y[1],
                z[1] * p.base + z[2] * p.blind - c * ct2.commitment - y[2], z[2] * key2 - c * ct2.handle - y[3]);
    ThreeTerms(z[0], c, key, p.blind, y[0]);
    FourTerms(w, z[1], z[0], c, p.base, ct.handle, ct.commitment, y[1]);
    FourTerms(ww, z[1], z[2], c, p.base, p.blind, ct2.commitment, y[2]);
    ThreeWeighed(www, z[2], c, key2, ct2.handle, y[3]);
    DotFourParts([z[0], -c, -1], [w * z[1], w * z[0], -w * c, -w], [ww * z[1], ww * z[2], -ww * c, -ww],
                 [www * z[2], -www * c, -www],
                 [key, p.blind, y[0]], [p.base, ct.handle, ct.commitment, y[1]],
                     [p.base, p.blind, ct2.commitment, y[2]], [key2, ct2.handle, y[3]]);
  }

  lemma {:induction false} DotFourParts(a: Vector, b: Vector, c: Vector, d: Vector, a': Vector, b': Vector, c': Vector,
                                        d': Vector)
    requires |a| == |a'| && |b| == |b'| && |c| == |c'| && |d| == |d'|
    ensures Dot(a + b + c + d, a' + b' + c' + d') == Dot(a, a') + Dot(b, b') + Dot(c, c') + Dot(d, d')
  {
    hide Dot;
    DotConcat(a, b, a', b');
    DotConcat(a + b, c, a' + b', c');
    DotConcat(a + b + c, d, a' + b' + c', d');
  }

  lemma {:induction false} CiphertextDefects(p: Params, secret: Scalar, key: Point, key2: Point, ct: Ciphertext,
                                             ct2: Ciphertext, opening: Scalar, amount: nat)
    requires Prime(p.m) && CiphertextWitness(p, secret, key, key2, ct, ct2, opening, amount)
    ensures var d := Defects(CiphertextStatement(p, key, key2, ct, ct2), [secret, amount, opening]);
            forall i :: 0 <= i < |d| ==> Cong(p.m, d[i], 0)
  {
    hide PublicKey, Decrypts, Defects;
    CommitmentDefects(p, secret, key, ct, ct2.commitment, opening, amount);
    SharedDefects(p, key, key2, ct, ct2, [secret, amount, opening]);
    var d := Defects(CiphertextStatement(p, key, key2, ct, ct2), [secret, amount, opening]);
    CanonCong(p.m, key2 * opening);
    Vanishes(p.m, ct2.handle, key2 * opening);
    Negated(p.m, ct2.handle - key2 * opening);
    assert d[3] == -(ct2.handle - key2 * opening);
  }

  /** The first three relations are those of the commitment proof. */
  lemma {:induction false} SharedDefects(p: Params, key: Point, key2: Point, ct: Ciphertext, ct2: Ciphertext,
                                         secrets: Vector)
    requires |secrets| == 3
    ensures var d := Defects(CiphertextStatement(p, key, key2, ct, ct2), secrets);
            d[..3] == Defects(CommitmentStatement(p, key, ct, ct2.commitment), secrets)
                && d[3] == secrets[2] * key2 - ct2.handle
  {
    hide Dot;
    DotTriple(0, 0, key2, secrets[0], secrets[1], secrets[2]);
    assert secrets == [secrets[0], secrets[1], secrets[2]];
  }

  /** As above, for two ciphertexts. */
  lemma {:induction false} CiphertextEqualityComplete(p: Params, secret: Scalar, key: Point, key2: Point,
                                                      ct: Ciphertext, ct2: Ciphertext, opening: Scalar, amount: nat,
                                                      nonces: Vector)
    requires Prime(p.m) && |nonces| == 3
    ensures var r := GenerateCiphertextEquality(p, secret, key, key2, ct, ct2, opening, amount, nonces);
      && (r.Some? <==> CiphertextWitness(p, secret, key, key2, ct, ct2, opening, amount))
      && (r.Some? ==>
            (VerifyCiphertextEquality(p, key, key2, ct, ct2, r.value) <==>
             ProperPoints(p.m, [key, key2, ct.commitment, ct.handle]) && ProperPoints(p.m, r.value.announced)))
  {
    hide ProveLinear, CiphertextCheck, ProperPoints, IsIdentity, FirstChallenge, SecondChallenge, CiphertextWitness,
         CiphertextTranscript, PublicKey, Decrypts, Encrypt;
    var r := GenerateCiphertextEquality(p, secret, key, key2, ct, ct2, opening, amount, nonces);
    if r.Some? {
      CiphertextSum(p, secret, key, key2, ct, ct2, opening, amount, nonces);
      SecondDecodes(p, secret, key, key2, ct, ct2, opening, amount);
    }
  }

  lemma {:induction false} SecondDecodes(p: Params, secret: Scalar, key: Point, key2: Point, ct: Ciphertext,
                                         ct2: Ciphertext, opening: Scalar, amount: nat)
    requires p.m > 0 && CiphertextWitness(p, secret, key, key2, ct, ct2, opening, amount)
    ensures Decodes(p.m, ct2.commitment) && Decodes(p.m, ct2.handle)
  {
    hide PublicKey, Decrypts, Commit;
  }

  lemma {:induction false} CiphertextSum(p: Params, secret: Scalar, key: Point, key2: Point, ct: Ciphertext,
                                         ct2: Ciphertext, opening: Scalar, amount: nat, nonces: Vector)
    requires Prime(p.m) && |nonces| == 3 && CiphertextWitness(p, secret, key, key2, ct, ct2, opening, amount)
    ensures var st, t := CiphertextStatement(p, key, key2, ct, ct2), CiphertextTranscript(key, key2, ct, ct2);
      var proof := ProveLinear(p, st, t, ROWS4, [secret, amount, opening], nonces);
      IsIdentity(p.m, CiphertextCheck(p, key, key2, ct, ct2, FirstChallenge(p.o, t, ROWS4, proof.announced),
                                      SecondChallenge(p.o, t, ROWS4, proof.announced, ANSWERS, proof.responses), proof))
  {
    hide ProveLinear, CiphertextCheck, IsIdentity, FirstChallenge, SecondChallenge, CiphertextWitness,
         CiphertextTranscript, BatchedSum, RowSums, Defects, CiphertextStatement;
    var st, t := CiphertextStatement(p, key, key2, ct, ct2), CiphertextTranscript(key, key2, ct, ct2);
    var proof := ProveLinear(p, st, t, ROWS4, [secret, amount, opening], nonces);
    var c := FirstChallenge(p.o, t, ROWS4, proof.announced);
    var w := SecondChallenge(p.o, t, ROWS4, proof.announced, ANSWERS, proof.responses);
    CiphertextCheckBatched(p, key, key2, ct, ct2, c, w, proof);
    ProvedSum(p, st, t, ROWS4, ANSWERS, [secret, amount, opening], nonces);
    CiphertextDefects(p, secret, key, key2, ct, ct2, opening, amount);
    NoDefects(p.m, c, w, Defects(st, [secret, amount, opening]));
  }
}
