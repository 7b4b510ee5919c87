/**
 CalculateConfidentialTransferFee (programs/token-2022/confidential_fee.go): the fee in 128-bit arithmetic made of
 64-bit words, against what it is meant to be: the smaller of the maximum and the fee rounded up.
 */
module Fees {
  import opened Wrappers
  import opened Words

  // ----- the machine's arithmetic -----

  /** The two words of a product. */
  function Mul64(x: U64, y: U64): (r: (U64, U64))
    ensures r.0 * WORD64 + r.1 == x * y
  {
    assert x * y <= x * WORD64 && x * WORD64 < WORD64 * WORD64;
    assert x * y / WORD64 < WORD64;
    (x * y / WORD64, x * y % WORD64)
  }

  /** Sum and carry. */
  function Add64(x: U64, y: U64): (r: (U64, nat)) {
    ((x + y) % WORD64, (x + y) / WORD64)
  }

  /** Difference and borrow. */
  function Sub64(x: U64, y: U64, borrow: nat): (r: (U64, nat))
    requires borrow <= 1
  {
    if x >= y + borrow then (x - y - borrow, 0) else (WORD64 + x - y - borrow, 1)
  }

  /** The machine's division traps unless the quotient fits a word; that it never does is a precondition here. */
  function Div64(hi: U64, lo: U64, y: U64): (r: (U64, U64))
    requires y > 0 && hi < y
    ensures r.0 * y + r.1 == hi * WORD64 + lo && r.1 < y
  {
    var n := hi * WORD64 + lo;
    DivFits(hi, lo, y);
    (n / y, n % y)
  }

  lemma {:induction false} DivFits(hi: nat, lo: nat, y: nat)
    requires y > 0 && hi < y && lo < WORD64
    ensures (hi * WORD64 + lo) / y < WORD64
  {
    assert hi * WORD64 + lo < y * WORD64;
    var q := (hi * WORD64 + lo) / y;
    assert q >= WORD64 ==> q * y >= WORD64 * y;
  }

  // ----- the fee -----

  /** Divided by ten thousand and rounded up. */
  function RoundedUp(n: nat): (r: nat)
    ensures 10000 * r - 9999 <= n <= 10000 * r
  {
    (n + 9999) / 10000
  }

  lemma {:induction false} SmallHigh(n: nat, hi: nat, lo: nat)
    requires hi * WORD64 + lo == n && n < 10000 * WORD64
    ensures hi < 10000
  {
  }

  /** Adding a small number to two words, with the carry. */
  lemma {:induction false} CarryAdd(n: nat, hi: U64, lo: U64)
    requires hi * WORD64 + lo == n && n + 9999 < 10000 * WORD64
    ensures var (sum, carry) := Add64(lo, 9999); (hi + carry) * WORD64 + sum == n + 9999 && hi + carry < 10000
  {
    var (sum, carry) := Add64(lo, 9999);
    assert sum + carry * WORD64 == lo + 9999;
    SmallHigh(n + 9999, hi + carry, sum);
  }

  lemma {:induction false} ProductBound(amount: U64, basisPoints: nat)
    requires basisPoints <= 10000
    ensures amount * basisPoints <= amount * 10000 && amount * basisPoints + 9999 < 10000 * WORD64
  {
    MulMonotone(amount, basisPoints, 10000);
  }

  lemma {:induction false} MulMonotone(a: nat, b: nat, c: nat)
    requires b <= c
    ensures a * b <= a * c
  {
    assert a * c == a * b + a * (c - b);
  }

  /** 9999 added to two words. */
  function AddSmall(ghost n: nat, hi: U64, lo: U64): (r: (U64, U64))
    requires hi * WORD64 + lo == n && n + 9999 < 10000 * WORD64
    ensures r.0 * WORD64 + r.1 == n + 9999 && r.0 < 10000
  {
    var (sum, carry) := Add64(lo, 9999);
    CarryAdd(n, hi, lo);
    ((hi + carry) % WORD64, sum)
  }

  /** amount * basisPoints + 9999, in two words. */
  function Numerator(amount: U64, basisPoints: nat): (r: (U64, U64))
    requires basisPoints <= 10000
    ensures r.0 * WORD64 + r.1 == amount * basisPoints + 9999 && r.0 < 10000
  {
    var (hi, lo) := Mul64(amount, basisPoints);
    ProductBound(amount, basisPoints);
    AddSmall(amount * basisPoints, hi, lo)
  }

  /** The fee and how far it was rounded, or nothing for more than ten thousand basis points. */
  function CalculateFee(amount: U64, basisPoints: nat, maximum: U64): (r: Option<(U64, U64)>) {
    if basisPoints > 10000 then None
    else
      var (hi, lo) := Numerator(amount, basisPoints);
      var rawFee := Div64(hi, lo, 10000).0;
      if maximum < rawFee then Some((maximum, 0))
      else
        var (feeHi, feeLo) := Mul64(rawFee, 10000);
        var (numHi, numLo) := Mul64(amount, basisPoints);
        var (deltaLo, borrow) := Sub64(feeLo, numLo, 0);
        var (deltaHi, _) := Sub64(feeHi, numHi, borrow);
        if deltaHi != 0 then None else Some((rawFee, deltaLo))
  }

  lemma {:induction false} RawFee(amount: U64, basisPoints: nat)
    requires basisPoints <= 10000
    ensures var (hi, lo) := Numerator(amount, basisPoints); Div64(hi, lo, 10000).0 == RoundedUp(amount * basisPoints)
    ensures RoundedUp(amount * basisPoints) <= amount
  {
    hide RoundedUp;
    var (hi, lo) := Numerator(amount, basisPoints);
    var (q, r) := Div64(hi, lo, 10000);
    hide Numerator, Div64;
    ProductBound(amount, basisPoints);
    Quotient(amount * basisPoints, q, r);
    assert RoundedUp(amount * basisPoints) <= amount;
  }

  lemma {:induction false} Quotient(n: nat, q: nat, r: nat)
    requires q * 10000 + r == n + 9999 && r < 10000
    ensures q == RoundedUp(n)
  {
  }

  /** Subtracting word by word subtracts, when the difference fits the low word. */
  lemma {:induction false} WordDifference(feeHi: U64, feeLo: U64, numHi: U64, numLo: U64, delta: nat)
    requires feeHi * WORD64 + feeLo == numHi * WORD64 + numLo + delta && delta < WORD64
    ensures var (deltaLo, borrow) := Sub64(feeLo, numLo, 0); deltaLo == delta && Sub64(feeHi, numHi, borrow).0 == 0
  {
    var (deltaLo, borrow) := Sub64(feeLo, numLo, 0);
    assert feeLo == numLo + deltaLo - borrow * WORD64;
    assert (feeHi - numHi - borrow) * WORD64 == delta - deltaLo;
    OneWord(feeHi - numHi - borrow, delta, deltaLo);
  }

  lemma {:induction false} OneWord(k: int, x: nat, y: nat)
    requires k * WORD64 == x - y && x < WORD64 && y < WORD64
    ensures k == 0 && x == y
  {
  }

  /** Exactly the smaller of the maximum and the rounded fee, never more than the amount; the remainder of the rounding
      is below ten thousand; and only too many basis points are refused, so the overflow branch is dead. */
  lemma {:induction false} FeeExact(amount: U64, basisPoints: nat, maximum: U64)
    ensures var r := CalculateFee(amount, basisPoints, maximum);
      var raw := RoundedUp(amount * basisPoints);
      && (r.None? <==> basisPoints > 10000)
      && (r.Some? ==> r.value.0 == (if maximum < raw then maximum else raw) && r.value.0 <= amount)
      && (r.Some? ==> r.value.1 == (if maximum < raw then 0 else 10000 * raw - amount * basisPoints)
                      && r.value.1 <= 9999)
  {
    if basisPoints <= 10000 {
      hide RoundedUp, Numerator, Div64;
      var raw := RoundedUp(amount * basisPoints);
      RawFee(amount, basisPoints);
      if maximum >= raw {
        var (feeHi, feeLo) := Mul64(raw, 10000);
        var (numHi, numLo) := Mul64(amount, basisPoints);
        WordDifference(feeHi, feeLo, numHi, numLo, 10000 * raw - amount * basisPoints);
      }
    }
  }
}
