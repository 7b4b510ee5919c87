/**
 Twisted ElGamal over Pedersen commitments (programs/token-2022/confidential_encryption.go,
 confidential_arithmetic.go, confidential_keys.go): one commitment shared by any number of decryption handles, and
 the arithmetic done on encrypted amounts. Ciphertexts hold canonical encodings.
 */
module ElGamal {
  import opened Wrappers
  import opened Residues
  import opened Vectors
  import opened RangeProof

  datatype Ciphertext = Ciphertext(commitment: Point, handle: Point)

  const SPLIT := 65536

  /** The public key of a secret: its inverse times the blinding base. */
  function PublicKey(p: Params, secret: Scalar): (k: Point)
    requires p.m > 0
  {
    Canon(p.m, Inv(p.m, secret) * p.blind)
  }

  /** encryptGroupedElGamal: the commitment, then one handle a key. */
  function Encrypt(p: Params, keys: Vector, amount: int, opening: Scalar): (r: Vector)
    requires p.m > 0
    ensures |r| == |keys| + 1
  {
    [Canon(p.m, Commit(p, amount, opening))] + seq(|keys|, i requires 0 <= i < |keys| => Canon(p.m, keys[i] * opening))
  }

  /** One recipient's view of a grouped ciphertext. */
  function HandleOf(grouped: Vector, i: nat): (c: Ciphertext)
    requires i + 1 < |grouped|
  {
    Ciphertext(grouped[0], grouped[i + 1])
  }

  /** What a secret makes of a ciphertext: the amount times the base, if it is its recipient's. */
  function Target(p: Params, secret: Scalar, c: Ciphertext): (t: Point)
    requires p.m > 0
  {
    Canon(p.m, c.commitment - c.handle * secret)
  }

  /** elGamalDecryptionMatchesAmount. */
  predicate Decrypts(p: Params, secret: Scalar, c: Ciphertext, amount: int)
    requires p.m > 0
  {
    Target(p, secret, c) == Canon(p.m, amount * p.base)
  }

  function AddCiphertexts(p: Params, a: Ciphertext, b: Ciphertext): (c: Ciphertext)
    requires p.m > 0
  {
    Ciphertext(Canon(p.m, a.commitment + b.commitment), Canon(p.m, a.handle + b.handle))
  }

  function SubtractCiphertexts(p: Params, a: Ciphertext, b: Ciphertext): (c: Ciphertext)
    requires p.m > 0
  {
    Ciphertext(Canon(p.m, a.commitment - b.commitment), Canon(p.m, a.handle - b.handle))
  }

  function ScaleCiphertext(p: Params, a: Ciphertext, k: int): (c: Ciphertext)
    requires p.m > 0
  {
    Ciphertext(Canon(p.m, a.commitment * k), Canon(p.m, a.handle * k))
  }

  /** A plain amount taken off: the handle stays. */
  function SubtractAmount(p: Params, a: Ciphertext, amount: int): (c: Ciphertext)
    requires p.m > 0
  {
    Ciphertext(Canon(p.m, a.commitment - amount * p.base), a.handle)
  }

  /** The two halves of an amount put together again. */
  function CombineCiphertexts(p: Params, low: Ciphertext, high: Ciphertext): (c: Ciphertext)
    requires p.m > 0
  {
    AddCiphertexts(p, low, ScaleCiphertext(p, high, SPLIT))
  }

  /** The all-zero ciphertext. */
  function Zero(): (c: Ciphertext) {
    Ciphertext(0, 0)
  }

  // ----- what decryption sees -----

  lemma {:induction false} DecryptsCong(p: Params, secret: Scalar, c: Ciphertext, amount: int)
    requires p.m > 0
    ensures Decrypts(p, secret, c, amount) <==> Cong(p.m, c.commitment - c.handle * secret, amount * p.base)
  {
    CanonEqual(p.m, c.commitment - c.handle * secret, amount * p.base);
  }

  lemma {:induction false} KeyLaw(p: Params, secret: Scalar)
    requires Prime(p.m) && !IsIdentity(p.m, secret)
    ensures Cong(p.m, secret * PublicKey(p, secret), p.blind)
  {
    var v := Inv(p.m, secret);
    InvLaw(p.m, secret);
    CanonCong(p.m, v * p.blind);
    CongScale(p.m, secret, PublicKey(p, secret), v * p.blind);
    CongScale(p.m, p.blind, secret * v, 1);
    assert p.blind * (secret * v) == secret * (v * p.blind);
    CongTrans(p.m, secret * PublicKey(p, secret), secret * (v * p.blind), p.blind * 1);
  }

  /** Every recipient of a grouped ciphertext decrypts it to the amount. */
  lemma {:induction false} EncryptDecrypts(p: Params, keys: Vector, amount: int, opening: Scalar, i: nat,
                                           secret: Scalar)
    requires Prime(p.m) && !IsIdentity(p.m, secret) && i < |keys| && keys[i] == PublicKey(p, secret)
    ensures Decrypts(p, secret, HandleOf(Encrypt(p, keys, amount, opening), i), amount)
  {
    var m, c := p.m, HandleOf(Encrypt(p, keys, amount, opening), i);
    KeyLaw(p, secret);
    var key := keys[i];
    CanonCong(m, Commit(p, amount, opening));
    CanonCong(m, key * opening);
    CongScale(m, secret, c.handle, key * opening);
    CongScale(m, opening, secret * key, p.blind);
    assert opening * (secret * key) == secret * (key * opening);
    CongTrans(m, secret * c.handle, secret * (key * opening), opening * p.blind);
    CongSub(m, c.commitment, Commit(p, amount, opening), secret * c.handle, opening * p.blind);
    assert secret * c.handle == c.handle * secret;
    DecryptsCong(p, secret, c, amount);
  }

  /** The sum of canonical parts decrypts like the sum of the parts. */
  lemma {:induction false} Recombined(p: Params, secret: Scalar, x: int, y: int, c: Ciphertext, amount: int)
    requires p.m > 0 && c.commitment == Canon(p.m, x) && c.handle == Canon(p.m, y)
    requires Cong(p.m, x - y * secret, amount * p.base)
    ensures Decrypts(p, secret, c, amount)
  {
    CanonCong(p.m, x);
    CanonCong(p.m, y);
    CongScale(p.m, secret, c.handle, y);
    CongSub(p.m, c.commitment, x, secret * c.handle, secret * y);
    assert secret * y == y * secret && secret * c.handle == c.handle * secret;
    CongTrans(p.m, c.commitment - c.handle * secret, x - y * secret, amount * p.base);
    DecryptsCong(p, secret, c, amount);
  }

  lemma {:induction false} AddDecrypts(p: Params, secret: Scalar, a: Ciphertext, x: int, b: Ciphertext, y: int)
    requires p.m > 0 && Decrypts(p, secret, a, x) && Decrypts(p, secret, b, y)
    ensures Decrypts(p, secret, AddCiphertexts(p, a, b), x + y)
  {
    DecryptsCong(p, secret, a, x);
    DecryptsCong(p, secret, b, y);
    CongAdd(p.m, a.commitment - a.handle * secret, x * p.base, b.commitment - b.handle * secret, y * p.base);
    Joined(a.commitment, a.handle, b.commitment, b.handle, secret, x, y, p.base);
    Recombined(p, secret, a.commitment + b.commitment, a.handle + b.handle, AddCiphertexts(p, a, b), x + y);
  }

  lemma {:induction false} SubtractDecrypts(p: Params, secret: Scalar, a: Ciphertext, x: int, b: Ciphertext, y: int)
    requires p.m > 0 && Decrypts(p, secret, a, x) && Decrypts(p, secret, b, y)
    ensures Decrypts(p, secret, SubtractCiphertexts(p, a, b), x - y)
  {
    DecryptsCong(p, secret, a, x);
    DecryptsCong(p, secret, b, y);
    CongSub(p.m, a.commitment - a.handle * secret, x * p.base, b.commitment - b.handle * secret, y * p.base);
    Parted(a.commitment, a.handle, b.commitment, b.handle, secret, x, y, p.base);
    Recombined(p, secret, a.commitment - b.commitment, a.handle - b.handle, SubtractCiphertexts(p, a, b), x - y);
  }

  lemma {:induction false} Joined(a: int, a': int, b: int, b': int, s: int, x: int, y: int, g: int)
    ensures (a + b) - (a' + b') * s == (a - a' * s) + (b - b' * s)
    ensures (x + y) * g == x * g + y * g
  {
  }

  lemma {:induction false} Parted(a: int, a': int, b: int, b': int, s: int, x: int, y: int, g: int)
    ensures (a - b) - (a' - b') * s == (a - a' * s) - (b - b' * s)
    ensures (x - y) * g == x * g - y * g
  {
  }

  lemma {:induction false} ScaleDecrypts(p: Params, secret: Scalar, a: Ciphertext, x: int, k: int)
    requires p.m > 0 && Decrypts(p, secret, a, x)
    ensures Decrypts(p, secret, ScaleCiphertext(p, a, k), x * k)
  {
    DecryptsCong(p, secret, a, x);
    CongScale(p.m, k, a.commitment - a.handle * secret, x * p.base);
    ScaleArithmetic(a.commitment, a.handle, secret, k, x, p.base);
    Recombined(p, secret, a.commitment * k, a.handle * k, ScaleCiphertext(p, a, k), x * k);
  }

  lemma {:induction false} ScaleArithmetic(c: int, h: int, s: int, k: int, x: int, g: int)
    ensures k * (c - h * s) == c * k - (h * k) * s && k * (x * g) == (x * k) * g
  {
    assert k * (h * s) == (h * k) * s;
  }

  lemma {:induction false} SubtractAmountDecrypts(p: Params, secret: Scalar, a: Ciphertext, x: int, y: int)
    requires p.m > 0 && Decrypts(p, secret, a, x)
    ensures Decrypts(p, secret, SubtractAmount(p, a, y), x - y)
  {
    var c := SubtractAmount(p, a, y);
    DecryptsCong(p, secret, a, x);
    CanonCong(p.m, a.commitment - y * p.base);
    CongRefl(p.m, a.handle * secret);
    CongSub(p.m, c.commitment, a.commitment - y * p.base, a.handle * secret, a.handle * secret);
    CongRefl(p.m, y * p.base);
    CongSub(p.m, a.commitment - a.handle * secret, x * p.base, y * p.base, y * p.base);
    assert (x - y) * p.base == x * p.base - y * p.base;
    CongTrans(p.m, c.commitment - c.handle * secret, a.commitment - a.handle * secret - y * p.base, (x - y) * p.base);
    DecryptsCong(p, secret, c, x - y);
  }

  lemma {:induction false} CombineDecrypts(p: Params, secret: Scalar, low: Ciphertext, x: int, high: Ciphertext, y: int)
    requires p.m > 0 && Decrypts(p, secret, low, x) && Decrypts(p, secret, high, y)
    ensures Decrypts(p, secret, CombineCiphertexts(p, low, high), x + y * SPLIT)
  {
    ScaleDecrypts(p, secret, high, y, SPLIT);
    AddDecrypts(p, secret, low, x, ScaleCiphertext(p, high, SPLIT), y * SPLIT);
  }

  lemma {:induction false} ZeroDecrypts(p: Params, secret: Scalar)
    requires p.m > 0
    ensures Decrypts(p, secret, Zero(), 0)
  {
  }

  // ----- sums over accounts -----

  function Sum(amounts: seq<int>): (r: int) {
    if amounts == [] then 0 else Sum(amounts[..|amounts| - 1]) + amounts[|amounts| - 1]
  }

  /** The running total over the withheld amounts of any list of accounts decrypts to the sum of what they withhold. */
  method SumWithheld(p: Params, withheld: seq<Ciphertext>, ghost secret: Scalar, ghost amounts: seq<int>)
    returns (total: Ciphertext)
    requires p.m > 0 && |amounts| == |withheld|
    requires forall i :: 0 <= i < |withheld| ==> Decrypts(p, secret, withheld[i], amounts[i])
    ensures Decrypts(p, secret, total, Sum(amounts))
  {
    hide Decrypts;
    total := Zero();
    ZeroDecrypts(p, secret);
    for i := 0 to |withheld|
      invariant Decrypts(p, secret, total, Sum(amounts[..i]))
    {
      AddDecrypts(p, secret, total, Sum(amounts[..i]), withheld[i], amounts[i]);
      assert amounts[..i + 1][..i] == amounts[..i];
      total := AddCiphertexts(p, total, withheld[i]);
    }
    assert amounts[..|withheld|] == amounts;
  }
}
