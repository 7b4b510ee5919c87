/**
 Proofs of linear relations with a challenge and one batched check, the common core of the equality, validity and
 percentage proofs of programs/token-2022: secrets x satisfy A x = T; the prover announces A n for nonces n and
 answers z = c x + n; the verifier checks all rows A z - c T - Y = 0 at once, weighed by powers of a second challenge.
 */
module SigmaProofs {
  import opened Residues
  import opened Vectors
  import opened Transcripts
  import opened InnerProduct
  import opened RangeProof

  /** The rows of A and the targets T, in canonical encoding. */
  datatype Statement = Statement(rows: seq<Vector>, targets: Vector)

  /** The announced points and the responses, in canonical encoding. */
  datatype SigmaProof = SigmaProof(announced: Vector, responses: Vector)

  ghost predicate WellFormed(st: Statement, k: nat) {
    |st.rows| == |st.targets| && forall i :: 0 <= i < |st.rows| ==> |st.rows[i]| == k
  }

  function Announce(m: int, rows: seq<Vector>, nonces: Vector): (r: Vector)
    requires m > 0 && forall i :: 0 <= i < |rows| ==> |rows[i]| == |nonces|
    ensures |r| == |rows|
  {
    seq(|rows|, i requires 0 <= i < |rows| => Canon(m, Dot(rows[i], nonces)))
  }

  function Respond(m: int, c: Scalar, secrets: Vector, nonces: Vector): (r: Vector)
    requires m > 0 && |secrets| == |nonces|
    ensures |r| == |secrets|
  {
    seq(|secrets|, j requires 0 <= j < |secrets| => Canon(m, c * secrets[j] + nonces[j]))
  }

  /** What the verifier finds in each row. */
  function RowSums(st: Statement, c: Scalar, proof: SigmaProof): (r: Vector)
    requires |st.rows| == |st.targets| == |proof.announced|
    requires forall i :: 0 <= i < |st.rows| ==> |st.rows[i]| == |proof.responses|
    ensures |r| == |st.rows|
  {
    seq(|st.rows|, i requires 0 <= i < |st.rows| => Dot(st.rows[i], proof.responses) - c * st.targets[i]
        - proof.announced[i])
  }

  /** By how much the secrets miss each relation. */
  function Defects(st: Statement, secrets: Vector): (r: Vector)
    requires |st.rows| == |st.targets|
    requires forall i :: 0 <= i < |st.rows| ==> |st.rows[i]| == |secrets|
    ensures |r| == |st.rows|
  {
    seq(|st.rows|, i requires 0 <= i < |st.rows| => Dot(st.rows[i], secrets) - st.targets[i])
  }

  function BatchedSum(w: Scalar, rows: Vector): (r: Point) {
    Dot(Powers(w, |rows|), rows)
  }

  lemma {:induction false} ResponseRow(m: int, c: Scalar, row: Vector, secrets: Vector, nonces: Vector)
    requires m > 0 && |row| == |secrets| == |nonces|
    ensures Cong(m, Dot(row, Respond(m, c, secrets, nonces)), c * Dot(row, secrets) + Dot(row, nonces))
  {
    hide Dot, Canon;
    var z := Respond(m, c, secrets, nonces);
    var exact := Add(Scale(c, secrets), nonces);
    forall j | 0 <= j < |z| ensures Cong(m, z[j], exact[j]) {
      CanonCong(m, c * secrets[j] + nonces[j]);
    }
    DotCong(m, z, exact, row);
    DotSym(z, row);
    DotSym(exact, row);
    DotAddRight(row, Scale(c, secrets), nonces);
    DotScaleRight(c, row, secrets);
  }

  /** An honest row misses its target by the challenge times what the secrets miss. */
  lemma {:induction false} HonestRow(m: int, c: Scalar, row: Vector, target: Point, secrets: Vector, nonces: Vector)
    requires m > 0 && |row| == |secrets| == |nonces|
    ensures Cong(m, Dot(row, Respond(m, c, secrets, nonces)) - c * target - Canon(m, Dot(row, nonces)),
                 c * (Dot(row, secrets) - target))
  {
    hide Dot, Canon, Respond;
    var z, x, n := Dot(row, Respond(m, c, secrets, nonces)), Dot(row, secrets), Dot(row, nonces);
    ResponseRow(m, c, row, secrets, nonces);
    CanonCong(m, n);
    CongRefl(m, c * target);
    CongSub(m, z, c * x + n, c * target, c * target);
    CongSub(m, z - c * target, c * x + n - c * target, Canon(m, n), n);
    assert c * x + n - c * target - n == c * (x - target);
  }

  lemma {:induction false} HonestRows(m: int, st: Statement, c: Scalar, secrets: Vector, nonces: Vector)
    requires m > 0 && |secrets| == |nonces| && WellFormed(st, |secrets|)
    ensures var proof := SigmaProof(Announce(m, st.rows, nonces), Respond(m, c, secrets, nonces));
            VecCong(m, RowSums(st, c, proof), Scale(c, Defects(st, secrets)))
  {
    hide Dot, Canon;
    var proof := SigmaProof(Announce(m, st.rows, nonces), Respond(m, c, secrets, nonces));
    forall i | 0 <= i < |st.rows| ensures Cong(m, RowSums(st, c, proof)[i], Scale(c, Defects(st, secrets))[i]) {
      HonestRow(m, c, st.rows[i], st.targets[i], secrets, nonces);
    }
  }

  /** The batched sum of an honest proof is the challenge times the batched defects, whatever the secrets. */
  lemma {:induction false} HonestSum(m: int, st: Statement, c: Scalar, w: Scalar, secrets: Vector, nonces: Vector)
    requires m > 0 && |secrets| == |nonces| && WellFormed(st, |secrets|)
    ensures var proof := SigmaProof(Announce(m, st.rows, nonces), Respond(m, c, secrets, nonces));
            IsIdentity(m, BatchedSum(w, RowSums(st, c, proof)))
            <==> IsIdentity(m, c * BatchedSum(w, Defects(st, secrets)))
  {
    hide Dot, Canon, Announce, Respond, RowSums, Defects, IsIdentity, Powers;
    var proof := SigmaProof(Announce(m, st.rows, nonces), Respond(m, c, secrets, nonces));
    var rows, defects := RowSums(st, c, proof), Defects(st, secrets);
    var ws := Powers(w, |rows|);
    HonestRows(m, st, c, secrets, nonces);
    DotCong(m, rows, Scale(c, defects), ws);
    DotSym(rows, ws);
    DotSym(Scale(c, defects), ws);
    DotScaleRight(c, ws, defects);
    CongIdentity(m, BatchedSum(w, rows), c * BatchedSum(w, defects));
  }

  lemma {:induction false} CongIdentity(m: int, x: int, y: int)
    requires m > 0 && Cong(m, x, y)
    ensures IsIdentity(m, x) <==> IsIdentity(m, y)
  {
    CanonEqual(m, x, y);
  }

  /** Defects that all vanish vanish together. */
  lemma {:induction false} NoDefects(m: int, c: Scalar, w: Scalar, defects: Vector)
    requires m > 0 && forall i :: 0 <= i < |defects| ==> Cong(m, defects[i], 0)
    ensures IsIdentity(m, c * BatchedSum(w, defects))
  {
    hide Dot, Powers;
    var zeros := Const(0, |defects|);
    DotCong(m, defects, zeros, Powers(w, |defects|));
    DotSym(defects, Powers(w, |defects|));
    DotSym(zeros, Powers(w, |defects|));
    DotZero(Powers(w, |defects|));
    CongScale(m, c, BatchedSum(w, defects), 0);
    IdentityCong(m, c * BatchedSum(w, defects));
  }

  // ----- the transcript -----

  function AppendWords(t: Transcript, tags: seq<string>, words: Vector): (r: Transcript)
    requires |tags| == |words|
    decreases |words|
  {
    if words == [] then t else AppendWords(Append(t, tags[0], words[0]), tags[1..], words[1..])
  }

  /** The first challenge binds the announced points, the second the responses. */
  function FirstChallenge(o: Oracle, t: Transcript, tags: seq<string>, announced: Vector): (c: Scalar)
    requires |tags| == |announced|
  {
    o(AppendWords(t, tags, announced), "c")
  }

  function SecondChallenge(o: Oracle, t: Transcript, tags: seq<string>, announced: Vector, answerTags: seq<string>,
                           responses: Vector): (w: Scalar)
    requires |tags| == |announced| && |answerTags| == |responses|
  {
    o(AppendWords(Extract(AppendWords(t, tags, announced), "c"), answerTags, responses), "w")
  }

  function ProveLinear(p: Params, st: Statement, t: Transcript, tags: seq<string>, secrets: Vector,
                       nonces: Vector): (proof: SigmaProof)
    requires p.m > 0 && |secrets| == |nonces| && |tags| == |st.rows|
    requires forall i :: 0 <= i < |st.rows| ==> |st.rows[i]| == |secrets|
    ensures |proof.announced| == |st.rows| && |proof.responses| == |secrets|
  {
    var announced := Announce(p.m, st.rows, nonces);
    SigmaProof(announced, Respond(p.m, FirstChallenge(p.o, t, tags, announced), secrets, nonces))
  }

  /** The verifier's sum. */
  function LinearSum(p: Params, st: Statement, t: Transcript, tags: seq<string>, answerTags: seq<string>,
                     proof: SigmaProof): (r: Point)
    requires |st.rows| == |st.targets| == |proof.announced| == |tags| && |answerTags| == |proof.responses|
    requires forall i :: 0 <= i < |st.rows| ==> |st.rows[i]| == |proof.responses|
  {
    BatchedSum(SecondChallenge(p.o, t, tags, proof.announced, answerTags, proof.responses),
               RowSums(st, FirstChallenge(p.o, t, tags, proof.announced), proof))
  }

  /** Prover against verifier: the sum vanishes exactly when the challenge kills the batched defects of the secrets. */
  lemma {:induction false} ProvedSum(p: Params, st: Statement, t: Transcript, tags: seq<string>,
                                     answerTags: seq<string>, secrets: Vector, nonces: Vector)
    requires p.m > 0 && |secrets| == |nonces| == |answerTags| && |tags| == |st.rows| && WellFormed(st, |secrets|)
    ensures var proof := ProveLinear(p, st, t, tags, secrets, nonces);
            var c := FirstChallenge(p.o, t, tags, proof.announced);
            var w := SecondChallenge(p.o, t, tags, proof.announced, answerTags, proof.responses);
            IsIdentity(p.m, LinearSum(p, st, t, tags, answerTags, proof))
            <==> IsIdentity(p.m, c * BatchedSum(w, Defects(st, secrets)))
  {
    hide FirstChallenge, SecondChallenge, IsIdentity, BatchedSum, RowSums, Defects, Announce, Respond;
    var proof := ProveLinear(p, st, t, tags, secrets, nonces);
    HonestSum(p.m, st, FirstChallenge(p.o, t, tags, proof.announced),
              SecondChallenge(p.o, t, tags, proof.announced, answerTags, proof.responses), secrets, nonces);
  }
}
