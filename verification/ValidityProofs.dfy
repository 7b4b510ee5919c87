/**
 Grouped ciphertext validity (programs/token-2022/confidential_validity.go): a commitment and its decryption handles,
 for any number of keys, come from one amount and one opening; two such ciphertexts are proved together after being
 combined with a challenge.
 */
module ValidityProofs {
  import opened Wrappers
  import opened Residues
  import opened Vectors
  import opened Transcripts
  import opened InnerProduct
  import opened RangeProof
  import opened ElGamal
  import opened SigmaProofs
  import opened EqualityProofs

  const VALIDITY_ANSWERS: seq<string> := ["z_r", "z_x"]

  function RowTag(i: nat): (s: string) {
    if i == 0 then "Y_0" else if i == 1 then "Y_1" else if i == 2 then "Y_2" else "Y_3"
  }

  function RowTags(n: nat): (r: seq<string>)
    ensures |r| == n
  {
    seq(n, i requires 0 <= i => RowTag(i))
  }

  function KeyTag(i: nat): (s: string) {
    if i == 0 then "first-pubkey" else if i == 1 then "second-pubkey" else "third-pubkey"
  }

  // ----- the statement -----

  /** opening * blind + amount * base is the commitment and opening * key the handle of each key. */
  function ValidityRows(p: Params, keys: Vector): (rows: seq<Vector>)
    ensures |rows| == |keys| + 1 && forall i :: 0 <= i < |rows| ==> |rows[i]| == 2
  {
    [[p.blind, p.base]] + seq(|keys|, i requires 0 <= i < |keys| => [keys[i], 0])
  }

  /** One ciphertext as it is, two combined with the challenge. */
  function Combined(cts: seq<Vector>, t: Scalar): (r: Vector)
    requires 1 <= |cts| <= 2 && (|cts| == 2 ==> |cts[0]| == |cts[1]|)
    ensures |r| == |cts[0]|
  {
    if |cts| == 1 then cts[0] else Add(cts[0], Scale(t, cts[1]))
  }

  function CombinedScalar(xs: seq<int>, t: Scalar): (r: Scalar)
    requires 1 <= |xs| <= 2
  {
    if |xs| == 1 then xs[0] else xs[0] + xs[1] * t
  }

  function ContextTranscript(tag: string, keys: Vector, cts: seq<Vector>): (t: Transcript)
    requires 1 <= |cts| <= 2
  {
    [Domain(tag)] + seq(|keys|, i requires 0 <= i < |keys| => Message(KeyTag(i), [keys[i]]))
    + (if |cts| == 1 then [Message("grouped-ciphertext", cts[0])]
       else [Message("grouped-ciphertext-lo", cts[0]), Message("grouped-ciphertext-hi", cts[1])])
  }

  /** The transcript up to the announcements, and the combining challenge, if there is one. */
  function Started(o: Oracle, tag: string, keys: Vector, cts: seq<Vector>): (r: (Transcript, Scalar))
    requires 1 <= |cts| <= 2
  {
    var t0 := ContextTranscript(tag, keys, cts);
    var t1 := t0 + [Domain("batched-validity-proof"), Message("handles", [|keys|])];
    var (t2, batching) := if |cts| == 1 then (t0, 0) else (Extract(t1, "t"), o(t1, "t"));
    (t2 + [Domain("validity-proof"), Message("handles", [|keys|])], batching)
  }

  /** The generator's check: each ciphertext is the encryption of its amount with its opening. */
  predicate ValidityWitness(p: Params, keys: Vector, cts: seq<Vector>, amounts: seq<nat>, openings: Vector)
    requires p.m > 0
  {
    && 1 <= |cts| <= 2 && |amounts| == |openings| == |cts|
    && forall i :: 0 <= i < |cts| ==> cts[i] == Encrypt(p, keys, amounts[i], openings[i])
  }

  function GenerateValidity(p: Params, tag: string, keys: Vector, cts: seq<Vector>, amounts: seq<nat>, openings: Vector,
                            nonces: Vector): (r: Option<SigmaProof>)
    requires p.m > 0 && |nonces| == 2
    ensures r.Some? ==> |r.value.announced| == |keys| + 1 && |r.value.responses| == 2
  {
    if !ValidityWitness(p, keys, cts, amounts, openings) then None
    else
      var (t, batching) := Started(p.o, tag, keys, cts);
      Some(ProveLinear(p, Statement(ValidityRows(p, keys), Combined(cts, batching)), t, RowTags(|keys| + 1),
                       [CombinedScalar(openings, batching), CombinedScalar(amounts, batching)], nonces))
  }

  /** The words the verifier takes for points, none of the keys, commitments and announcements it checks being the
      identity. The last announced point and the last key may be the identity: there may be no auditor. */
  predicate PointsAccepted(m: int, keys: Vector, cts: seq<Vector>, announced: Vector)
    requires m > 0 && |keys| > 0 && |announced| == |keys| + 1 && forall i :: 0 <= i < |cts| ==> |cts[i]| > 0
  {
    && Encoded(m, keys) && !IsIdentity(m, keys[0]) && (|keys| == 3 ==> !IsIdentity(m, keys[1]))
    && (forall i :: 0 <= i < |cts| ==> Encoded(m, cts[i]) && !IsIdentity(m, cts[i][0]))
    && Encoded(m, announced) && (forall i :: 0 <= i < |keys| ==> !IsIdentity(m, announced[i]))
  }

  predicate VerifyValidity(p: Params, tag: string, keys: Vector, cts: seq<Vector>, proof: SigmaProof)
    requires p.m > 0 && |keys| > 0 && 1 <= |cts| <= 2 && forall i :: 0 <= i < |cts| ==> |cts[i]| == |keys| + 1
    requires |proof.announced| == |keys| + 1 && |proof.responses| == 2
  {
    var (t, batching) := Started(p.o, tag, keys, cts);
    && PointsAccepted(p.m, keys, cts, proof.announced)
    && IsIdentity(p.m, LinearSum(p, Statement(ValidityRows(p, keys), Combined(cts, batching)), t, RowTags(|keys| + 1),
                                 VALIDITY_ANSWERS, proof))
  }

  // ----- the verifier's loop -----

  lemma {:induction false} DotTwo(a: int, b: int, a': int, b': int)
    ensures Dot([a, b], [a', b']) == a * a' + b * b'
  {
    DotCons(a, [b], a', [b']);
    DotSingle([b], [b']);
    assert [a] + [b] == [a, b] && [a'] + [b'] == [a', b'];
  }

  lemma {:induction false} ValidityRow(p: Params, keys: Vector, targets: Vector, c: Scalar, proof: SigmaProof, i: nat)
    requires |targets| == |proof.announced| == |keys| + 1 && |proof.responses| == 2 && i <= |keys|
    ensures var row := RowSums(Statement(ValidityRows(p, keys), targets), c, proof)[i];
            row == (if i == 0 then p.blind * proof.responses[0] + p.base * proof.responses[1]
                    else keys[i - 1] * proof.responses[0])
                   - c * targets[i] - proof.announced[i]
  {
    hide Dot;
    var z := proof.responses;
    assert z == [z[0], z[1]];
    if i == 0 {
      DotTwo(p.blind, p.base, z[0], z[1]);
    } else {
      DotTwo(keys[i - 1], 0, z[0], z[1]);
    }
  }

  lemma {:induction false} BatchedStep(w: Scalar, rows: Vector, i: nat)
    requires i < |rows|
    ensures BatchedSum(w, rows[..i + 1]) == BatchedSum(w, rows[..i]) + Pow(w, i) * rows[i]
  {
    assert Powers(w, i + 1)[..i] == Powers(w, i) && rows[..i + 1][..i] == rows[..i];
  }

  /** The terms that the loop adds for one key. */
  lemma {:induction false} KeyTerms(scalars: Vector, points: Vector, power: int, c: int, z: int, k: int, h: int, y: int)
    requires |scalars| == |points|
    ensures Dot(scalars + [power * z, -power * c, -power], points + [k, h, y])
            == Dot(scalars, points) + power * (k * z - c * h - y)
  {
    hide Dot;
    DotConcat(scalars, [power * z, -power * c, -power], points, [k, h, y]);
    ThreeWeighed(power, z, c, k, h, y);
    assert z * k == k * z;
  }

  /** Terms collected key by key with a running power, one multiscalar multiplication at the end. */
  method SumTerms(p: Params, keys: Vector, targets: Vector, c: Scalar, w: Scalar, proof: SigmaProof)
    returns (sum: Point)
    requires |targets| == |proof.announced| == |keys| + 1 && |proof.responses| == 2
    ensures sum == BatchedSum(w, RowSums(Statement(ValidityRows(p, keys), targets), c, proof))
  {
    hide Dot, RowSums, ValidityRows, BatchedSum;
    var y, z := proof.announced, proof.responses;
    ghost var rows := RowSums(Statement(ValidityRows(p, keys), targets), c, proof);
    var scalars, points := [z[0], z[1], -c, -1], [p.blind, p.base, targets[0], y[0]];
    DotFour(z[0], z[1], -c, -1, p.blind, p.base, targets[0], y[0]);
    ValidityRow(p, keys, targets, c, proof, 0);
    FirstRow(w, rows);
    var power := 1;
    for i := 0 to |keys|
      invariant |scalars| == |points| && power == Pow(w, i)
      invariant Dot(scalars, points) == BatchedSum(w, rows[..i + 1])
    {
      power := power * w;
      ValidityRow(p, keys, targets, c, proof, i + 1);
      BatchedStep(w, rows, i + 1);
      KeyTerms(scalars, points, power, c, z[0], keys[i], targets[i + 1], y[i + 1]);
      scalars := scalars + [power * z[0], -power * c, -power];
      points := points + [keys[i], targets[i + 1], y[i + 1]];
    }
    assert rows[..|keys| + 1] == rows;
    sum := Dot(scalars, points);
  }

  lemma {:induction false} FirstRow(w: Scalar, rows: Vector)
    requires |rows| > 0
    ensures BatchedSum(w, rows[..1]) == rows[0]
  {
    BatchedStep(w, rows, 0);
  }

  method DecodePoints(m: int, words: Vector) returns (ok: bool)
    ensures ok == Encoded(m, words)
  {
    for i := 0 to |words|
      invariant forall j :: 0 <= j < i ==> Decodes(m, words[j])
    {
      if !Decodes(m, words[i]) {
        return false;
      }
    }
    ok := true;
  }

  /** verifyGroupedCiphertextValidityProof, with its loops over keys, ciphertexts and announcements. */
  method CheckValidity(p: Params, tag: string, keys: Vector, cts: seq<Vector>, proof: SigmaProof) returns (ok: bool)
    requires p.m > 0 && |keys| > 0 && 1 <= |cts| <= 2 && forall i :: 0 <= i < |cts| ==> |cts[i]| == |keys| + 1
    requires |proof.announced| == |keys| + 1 && |proof.responses| == 2
    ensures ok == VerifyValidity(p, tag, keys, cts, proof)
  {
    hide RowSums, ValidityRows, BatchedSum, Started, FirstChallenge, SecondChallenge, IsIdentity, Encoded;
    var decoded := DecodePoints(p.m, keys);
    if !decoded || IsIdentity(p.m, keys[0]) || (|keys| == 3 && IsIdentity(p.m, keys[1])) {
      return false;
    }
    for i := 0 to |cts|
      invariant forall j :: 0 <= j < i ==> Encoded(p.m, cts[j]) && !IsIdentity(p.m, cts[j][0])
    {
      decoded := DecodePoints(p.m, cts[i]);
      if !decoded || IsIdentity(p.m, cts[i][0]) {
        return false;
      }
    }
    decoded := DecodePoints(p.m, proof.announced);
    if !decoded {
      return false;
    }
    for i := 0 to |keys|
      invariant forall j :: 0 <= j < i ==> !IsIdentity(p.m, proof.announced[j])
    {
      if IsIdentity(p.m, proof.announced[i]) {
        return false;
      }
    }
    var (t, batching) := Started(p.o, tag, keys, cts);
    var combined := CombinePoints(cts, batching);
    var c := FirstChallenge(p.o, t, RowTags(|keys| + 1), proof.announced);
    var w := SecondChallenge(p.o, t, RowTags(|keys| + 1), proof.announced, VALIDITY_ANSWERS, proof.responses);
    var sum := SumTerms(p, keys, combined, c, w, proof);
    ok := IsIdentity(p.m, sum);
  }

  method CombinePoints(cts: seq<Vector>, t: Scalar) returns (r: Vector)
    requires 1 <= |cts| <= 2 && (|cts| == 2 ==> |cts[0]| == |cts[1]|)
    ensures r == Combined(cts, t)
  {
    if |cts| == 1 { return cts[0]; }
    r := [];
    for i := 0 to |cts[0]|
      invariant |r| == i && forall j :: 0 <= j < i ==> r[j] == cts[0][j] + t * cts[1][j]
    {
      r := r + [cts[0][i] + t * cts[1][i]];
    }
  }

  // ----- completeness -----

  lemma {:induction false} EncryptedRow(p: Params, keys: Vector, amount: nat, opening: Scalar, i: nat)
    requires p.m > 0 && i <= |keys|
    ensures Cong(p.m, Dot(ValidityRows(p, keys)[i], [opening, amount]) - Encrypt(p, keys, amount, opening)[i], 0)
  {
    hide Dot, Canon;
    var x := if i == 0 then Commit(p, amount, opening) else keys[i - 1] * opening;
    if i == 0 {
      DotTwo(p.blind, p.base, opening, amount);
    } else {
      DotTwo(keys[i - 1], 0, opening, amount);
    }
    CanonCong(p.m, x);
    Vanishes(p.m, Canon(p.m, x), x);
    Negated(p.m, Canon(p.m, x) - x);
  }

  /** Combining ciphertexts combines what was put into them. */
  lemma {:induction false} CombinedRow(m: int, row: Vector, r0: int, x0: int, c0: int, r1: int, x1: int, c1: int,
                                       t: int)
    requires |row| == 2 && Cong(m, Dot(row, [r0, x0]) - c0, 0) && Cong(m, Dot(row, [r1, x1]) - c1, 0)
    ensures Cong(m, Dot(row, [r0 + r1 * t, x0 + x1 * t]) - (c0 + t * c1), 0)
  {
    hide Dot;
    DotTwo(row[0], row[1], r0, x0);
    DotTwo(row[0], row[1], r1, x1);
    DotTwo(row[0], row[1], r0 + r1 * t, x0 + x1 * t);
    assert row == [row[0], row[1]];
    var d0, d1 := Dot(row, [r0, x0]) - c0, Dot(row, [r1, x1]) - c1;
    CongScale(m, t, d1, 0);
    CongAdd(m, d0, 0, t * d1, t * 0);
    CombinedArithmetic(row[0], row[1], r0, x0, c0, r1, x1, c1, t);
  }

  lemma {:induction false} CombinedArithmetic(a: int, b: int, r0: int, x0: int, c0: int, r1: int, x1: int, c1: int,
                                              t: int)
    ensures a * (r0 + r1 * t) + b * (x0 + x1 * t) - (c0 + t * c1) == (a * r0 + b * x0 - c0) + t * (a * r1 + b * x1 - c1)
  {
    assert a * (r1 * t) == t * (a * r1) && b * (x1 * t) == t * (b * x1);
  }

  lemma {:induction false} ValidityDefects(p: Params, keys: Vector, cts: seq<Vector>, amounts: seq<nat>,
                                           openings: Vector, t: Scalar)
    requires p.m > 0 && ValidityWitness(p, keys, cts, amounts, openings)
    ensures var d := Defects(Statement(ValidityRows(p, keys), Combined(cts, t)),
                             [CombinedScalar(openings, t), CombinedScalar(amounts, t)]);
            forall i :: 0 <= i < |d| ==> Cong(p.m, d[i], 0)
  {
    hide Dot, Encrypt, ValidityRows;
    var rows := ValidityRows(p, keys);
    var d := Defects(Statement(rows, Combined(cts, t)), [CombinedScalar(openings, t), CombinedScalar(amounts, t)]);
    forall i | 0 <= i < |d| ensures Cong(p.m, d[i], 0) {
      EncryptedRow(p, keys, amounts[0], openings[0], i);
      if |cts| == 2 {
        EncryptedRow(p, keys, amounts[1], openings[1], i);
        CombinedRow(p.m, rows[i], openings[0], amounts[0], cts[0][i], openings[1], amounts[1], cts[1][i], t);
      }
    }
  }

  /** What is generated, for one ciphertext or two and any number of keys, verifies unless a checked point is the
      identity; and it is generated exactly for encryptions of the given amounts. */
  lemma {:induction false} ValidityComplete(p: Params, tag: string, keys: Vector, cts: seq<Vector>, amounts: seq<nat>,
                                            openings: Vector, nonces: Vector)
    requires p.m > 0 && |nonces| == 2 && |keys| > 0
    ensures var r := GenerateValidity(p, tag, keys, cts, amounts, openings, nonces);
      && (r.Some? <==> ValidityWitness(p, keys, cts, amounts, openings))
      && (r.Some? ==> (VerifyValidity(p, tag, keys, cts, r.value)
                       <==> PointsAccepted(p.m, keys, cts, r.value.announced)))
  {
    hide ProveLinear, LinearSum, PointsAccepted, IsIdentity, Started, Encrypt, ValidityRows;
    var r := GenerateValidity(p, tag, keys, cts, amounts, openings, nonces);
    if r.Some? {
      var (t, batching) := Started(p.o, tag, keys, cts);
      ValiditySum(p, keys, cts, amounts, openings, nonces, t, batching);
    }
  }

  lemma {:induction false} ValiditySum(p: Params, keys: Vector, cts: seq<Vector>, amounts: seq<nat>, openings: Vector,
                                       nonces: Vector, t: Transcript, batching: Scalar)
    requires p.m > 0 && |nonces| == 2 && |keys| > 0 && ValidityWitness(p, keys, cts, amounts, openings)
    ensures var st := Statement(ValidityRows(p, keys), Combined(cts, batching));
      var proof := ProveLinear(p, st, t, RowTags(|keys| + 1),
                               [CombinedScalar(openings, batching), CombinedScalar(amounts, batching)], nonces);
      IsIdentity(p.m, LinearSum(p, st, t, RowTags(|keys| + 1), VALIDITY_ANSWERS, proof))
  {
    hide ProveLinear, LinearSum, IsIdentity, Encrypt, ValidityRows, FirstChallenge, SecondChallenge, BatchedSum,
         Defects, Combined, CombinedScalar;
    var st := Statement(ValidityRows(p, keys), Combined(cts, batching));
    var secrets := [CombinedScalar(openings, batching), CombinedScalar(amounts, batching)];
    var tags := RowTags(|keys| + 1);
    var proof := ProveLinear(p, st, t, tags, secrets, nonces);
    ProvedSum(p, st, t, tags, VALIDITY_ANSWERS, secrets, nonces);
    ValidityDefects(p, keys, cts, amounts, openings, batching);
    NoDefects(p.m, FirstChallenge(p.o, t, tags, proof.announced),
              SecondChallenge(p.o, t, tags, proof.announced, VALIDITY_ANSWERS, proof.responses), Defects(st, secrets));
  }
}
