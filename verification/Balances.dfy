/**
 Reading balances back (programs/token-2022/confidential_balances.go, confidential_discrete_log.go): pending balances
 kept in two halves, and the supply, of which only the distance to a known amount is searched for.
 */
module Balances {
  import opened Wrappers
  import opened Words
  import opened Residues
  import opened Vectors
  import opened RangeProof
  import opened ElGamal
  import opened DiscreteLog
  import opened ConfidentialTransfers

  /** DecryptElGamalU32: the amount, exactly when the ciphertext holds one below 2^32. */
  method DecryptU32(p: Params, secret: Scalar, c: Ciphertext, table: Table) returns (r: Option<nat>)
    requires Suitable(p.m, p.base) && Complete(p.m, p.base, table, SPLIT)
    ensures forall v: nat :: r == Some(v) <==> v < RANGE && Decrypts(p, secret, c, v)
  {
    hide Complete;
    var target := Target(p, secret, c);
    r := Decode(p.m, p.base, target, table);
    CanonIdempotent(p.m, c.commitment - c.handle * secret);
  }

  /** What the two halves of a pending balance hold together. */
  ghost predicate Holds(p: Params, secret: Scalar, low: Ciphertext, high: Ciphertext, lo: nat, hi: nat)
    requires p.m > 0
  {
    lo < SPLIT && hi < RANGE && Decrypts(p, secret, low, lo) && Decrypts(p, secret, high, hi)
  }

  /** DecryptPendingBalance: found exactly when the low half holds sixteen bits and the high half thirty-two. */
  method DecryptPendingBalance(p: Params, secret: Scalar, low: Ciphertext, high: Ciphertext, table: Table)
    returns (r: Option<nat>)
    requires Suitable(p.m, p.base) && Complete(p.m, p.base, table, SPLIT)
    ensures r.Some? ==> exists lo: nat, hi: nat :: Holds(p, secret, low, high, lo, hi) && r.value == lo + hi * SPLIT
    ensures forall lo: nat, hi: nat :: Holds(p, secret, low, high, lo, hi) ==> r == Some(lo + hi * SPLIT)
  {
    hide Complete, Suitable, Decrypts;
    SuitablePositive(p.m, p.base);
    var lo := DecryptU32(p, secret, low, table);
    assert forall v: nat, u: nat :: Holds(p, secret, low, high, v, u) ==> lo == Some(v);
    if lo == None || lo.value >= SPLIT {
      return None;
    }
    var hi := DecryptU32(p, secret, high, table);
    assert forall v: nat, u: nat :: Holds(p, secret, low, high, v, u) ==> hi == Some(u);
    if hi == None {
      return None;
    }
    assert Holds(p, secret, low, high, lo.value, hi.value);
    r := Some(lo.value + hi.value * SPLIT);
  }

  /** The amounts a group of this order tells apart from their negatives. */
  ghost predicate Wide(m: int) {
    m > 2 * WORD64
  }

  lemma {:induction false} SmallAmount(p: Params, secret: Scalar, c: Ciphertext, x: int, v: nat)
    requires Suitable(p.m, p.base) && Wide(p.m) && -WORD64 < x < WORD64 && v < RANGE && Decrypts(p, secret, c, x)
             && Decrypts(p, secret, c, v)
    ensures x == v
  {
    CanonEqual(p.m, x * p.base, v * p.base);
    var k := CongWitness(p.m, x * p.base, v * p.base);
    assert p.base * (x - v) == x * p.base - v * p.base;
    CongBy(p.m, p.base * (x - v), 0, k);
    CancelNonzero(p.m, p.base, x - v);
    var j := CongWitness(p.m, x - v, 0);
    SmallMultiple(p.m, x - v, j);
  }

  /** DecryptCurrentConfidentialSupply: the supply, exactly when it lies less than 2^32 below the known amount. */
  method DecryptSupply(p: Params, secret: Scalar, known: nat, opening: Scalar, ct: Ciphertext, table: Table,
                       ghost supply: nat)
    returns (r: Option<nat>)
    requires Suitable(p.m, p.base) && Wide(p.m) && Complete(p.m, p.base, table, SPLIT) && !IsIdentity(p.m, secret)
    requires known < WORD64 && supply < WORD64 && Decrypts(p, secret, ct, supply)
    ensures r == if supply <= known < supply + RANGE then Some(supply) else None
  {
    hide Complete, Decrypts, IsIdentity, Encrypt, SubtractCiphertexts, PublicKey;
    var key := PublicKey(p, secret);
    var knownCt := HandleOf(Encrypt(p, [key], known, opening), 0);
    var deltaCt := SubtractCiphertexts(p, knownCt, ct);
    EncryptDecrypts(p, [key], known, opening, 0, secret);
    SubtractDecrypts(p, secret, knownCt, known, ct, supply);
    var delta := DecryptU32(p, secret, deltaCt, table);
    if delta == None {
      assert supply <= known < supply + RANGE ==> delta == Some(known - supply);
      return None;
    }
    SmallAmount(p, secret, deltaCt, known - supply, delta.value);
    if known < delta.value { return None; }
    r := Some(known - delta.value);
  }
}
