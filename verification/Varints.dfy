/**
 Base-128 lengths and integers: the looping shortvec code (shortvec.go), the unrolled compact-u16 reader and
 writer and the 64-bit varints (binary/decoder.go, binary/encoder.go).

 Bytes are numbers: the low seven bits of b are b % 128, its top bit is set when b >= 128, and since the groups
 of seven bits do not overlap, joining them is adding them.
 */
module Varints {
  import opened Wrappers
  import opened ByteStrings

  datatype Error = Truncated | NonCanonical | TooLarge

  const MAX16 := 65535
  const MAX64 := 0xFFFF_FFFF_FFFF_FFFF

  // ----- the encoding and its meaning -----

  /** Seven bits a byte, least significant first, the top bit set on every byte but the last. */
  function Encode(n: nat): (r: Bytes)
    ensures |r| > 0
  {
    if n < 128 then [n] else [n % 128 + 128] + Encode(n / 128)
  }

  /** The group a byte carries. */
  function Group(b: Byte): (r: nat)
    ensures r < 128
  {
    b % 128
  }

  /** The number a run of groups stands for. */
  function Value(s: Bytes): (n: nat) {
    if s == [] then 0 else Group(s[0]) + 128 * Value(s[1..])
  }

  /** Complete, and with no useless group at the end. */
  predicate Canonical(s: Bytes) {
    && s != []
    && (forall i :: 0 <= i < |s| - 1 ==> s[i] >= 128)
    && s[|s| - 1] < 128
    && (|s| > 1 ==> s[|s| - 1] != 0)
  }

  function Pow128(k: nat): (n: nat)
    ensures n > 0
  {
    if k == 0 then 1 else 128 * Pow128(k - 1)
  }

  lemma {:induction false} EncodeCanonical(n: nat)
    ensures Canonical(Encode(n)) && Value(Encode(n)) == n
    decreases n
  {
    if n >= 128 {
      var rest := Encode(n / 128);
      EncodeCanonical(n / 128);
      assert Encode(n)[1..] == rest;
      assert forall i :: 1 <= i < |Encode(n)| ==> Encode(n)[i] == rest[i - 1];
      if |rest| == 1 {
        assert rest == [n / 128];
      }
    }
  }

  /** Only one canonical string stands for a number. */
  lemma {:induction false} CanonicalEncodes(s: Bytes)
    requires Canonical(s)
    ensures s == Encode(Value(s))
    decreases |s|
  {
    if |s| == 1 {
      assert Value(s[1..]) == 0;
    } else {
      var rest := s[1..];
      assert forall i :: 0 <= i < |rest| ==> rest[i] == s[i + 1];
      CanonicalEncodes(rest);
      CanonicalPositive(rest);
      assert s == [s[0]] + rest;
    }
  }

  lemma {:induction false} CanonicalPositive(s: Bytes)
    requires Canonical(s) && s[|s| - 1] != 0
    ensures Value(s) > 0
    decreases |s|
  {
    if |s| > 1 {
      assert forall i :: 0 <= i < |s| - 1 ==> s[1..][i] == s[i + 1];
      CanonicalPositive(s[1..]);
    }
  }

  lemma {:induction false} ValueSnoc(s: Bytes, b: Byte)
    ensures Value(s + [b]) == Value(s) + Group(b) * Pow128(|s|)
    decreases |s|
  {
    if s == [] {
      assert s + [b] == [b] && [b][1..] == [];
    } else {
      ValueSnoc(s[1..], b);
      assert (s + [b])[1..] == s[1..] + [b];
      Distribute(Value(s[1..]), Group(b), Pow128(|s| - 1));
    }
  }

  lemma {:induction false} Distribute(v: nat, b: nat, p: nat)
    ensures 128 * (v + b * p) == 128 * v + b * (128 * p)
  {
  }

  lemma {:induction false} ValueBound(s: Bytes)
    ensures Value(s) < Pow128(|s|)
    decreases |s|
  {
    if s != [] {
      ValueBound(s[1..]);
    }
  }

  /** A number below 128^k takes at most k bytes, and a longer string a number of at least 128^k. */
  lemma {:induction false} EncodeLength(n: nat, k: nat)
    requires k > 0
    ensures |Encode(n)| <= k <==> n < Pow128(k)
    decreases k
  {
    if k == 1 {
      assert Pow128(1) == 128 * Pow128(0);
    } else if n >= 128 {
      EncodeLength(n / 128, k - 1);
      assert n < Pow128(k) <==> n / 128 < Pow128(k - 1);
    } else {
      assert Pow128(k) == 128 * Pow128(k - 1);
    }
  }

  lemma {:induction false} Powers()
    ensures Pow128(1) == 128 && Pow128(2) == 16384 && Pow128(3) == 0x20_0000
    ensures Pow128(9) == 0x8000_0000_0000_0000 && Pow128(10) == 128 * Pow128(9)
  {
    assert Pow128(0) == 1 && Pow128(1) == 128 && Pow128(2) == 16384 && Pow128(3) == 0x20_0000;
    assert Pow128(4) == 0x1000_0000 && Pow128(5) == 0x8_0000_0000 && Pow128(6) == 0x400_0000_0000;
    assert Pow128(7) == 0x2_0000_0000_0000 && Pow128(8) == 0x100_0000_0000_0000;
  }

  // ----- shortvec -----

  /** appendShortvecLen: one group a turn. */
  method AppendShortvecLen(dst: Bytes, n: nat) returns (r: Bytes)
    ensures r == dst + Encode(n)
  {
    var m := n;
    r := dst;
    while m >= 128
      invariant r + Encode(m) == dst + Encode(n)
    {
      assert Encode(m) == [m % 128 + 128] + Encode(m / 128);
      assert r + ([m % 128 + 128] + Encode(m / 128)) == (r + [m % 128 + 128]) + Encode(m / 128);
      r := r + [m % 128 + 128];
      m := m / 128;
    }
    r := r + [m];
  }

  /** shortvecLen: the exact size of what appendShortvecLen appends. */
  method ShortvecLen(n: nat) returns (size: nat)
    ensures size == |Encode(n)|
  {
    var m := n;
    size := 1;
    while m >= 128
      invariant size + |Encode(m)| == |Encode(n)| + 1
    {
      m := m / 128;
      size := size + 1;
    }
  }

  /** What decodeShortvecLen makes of the data: the number and its size in bytes, or the first thing wrong with it. */
  function Decode16(data: Bytes): (r: Result<(nat, nat), Error>) {
    if |data| < 1 then Err(Truncated)
    else if data[0] < 128 then Ok((data[0], 1))
    else if |data| < 2 then Err(Truncated)
    else if data[1] == 0 then Err(NonCanonical)
    else if data[1] < 128 then Ok((Group(data[0]) + 128 * Group(data[1]), 2))
    else if |data| < 3 then Err(Truncated)
    else if data[2] == 0 then Err(NonCanonical)
    else
      var value := Group(data[0]) + 128 * Group(data[1]) + 16384 * Group(data[2]);
      if data[2] >= 128 || value > MAX16 then Err(TooLarge) else Ok((value, 3))
  }

  lemma {:induction false} ValueOfThree(s: Bytes)
    ensures |s| == 1 ==> Value(s) == Group(s[0])
    ensures |s| == 2 ==> Value(s) == Group(s[0]) + 128 * Group(s[1])
    ensures |s| == 3 ==> Value(s) == Group(s[0]) + 128 * Group(s[1]) + 16384 * Group(s[2])
  {
    if |s| == 1 {
      assert s[1..] == [];
    } else if |s| == 2 {
      assert s[1..] == [s[1]] && [s[1]][1..] == [];
      assert Value([s[1]]) == Group(s[1]);
    } else if |s| == 3 {
      assert s[1..] == [s[1], s[2]] && [s[1], s[2]][1..] == [s[2]] && [s[2]][1..] == [];
      assert Value([s[2]]) == Group(s[2]);
      assert Value([s[1], s[2]]) == Group(s[1]) + 128 * Value([s[2]]);
    }
  }

  /** The decoder accepts exactly the encodings of the numbers up to 65535, whatever follows them. */
  lemma {:induction false} Decode16Exact(data: Bytes, n: nat, k: nat)
    ensures Decode16(data) == Ok((n, k)) <==> n <= MAX16 && k <= |data| && data[..k] == Encode(n)
  {
    if Decode16(data) == Ok((n, k)) {
      ValueOfThree(data[..k]);
      CanonicalEncodes(data[..k]);
    }
    if n <= MAX16 && k <= |data| && data[..k] == Encode(n) {
      Decode16Complete(data, n, k);
    }
  }

  lemma {:induction false} Decode16Complete(data: Bytes, n: nat, k: nat)
    requires n <= MAX16 && k <= |data| && data[..k] == Encode(n)
    ensures Decode16(data) == Ok((n, k))
  {
    EncodeCanonical(n);
    EncodeLength(n, 3);
    Powers();
    ValueOfThree(data[..k]);
    var s := data[..k];
    assert forall i :: 0 <= i < k ==> s[i] == data[i];
    assert s[k - 1] < 128;
    assert k > 1 ==> s[0] >= 128 && s[k - 1] != 0;
    assert k > 2 ==> s[1] >= 128;
  }

  /** decodeShortvecLen: its loop of three turns. */
  method DecodeShortvecLen(data: Bytes) returns (r: Result<(nat, nat), Error>)
    ensures r == Decode16(data)
  {
    var value, i := 0, 0;
    while i < 3
      invariant 0 <= i <= 3 && i <= |data|
      invariant forall j :: 0 <= j < i ==> data[j] >= 128
      invariant forall j :: 1 <= j < i ==> data[j] != 0
      invariant value == Value(data[..i])
    {
      if i >= |data| { return Err(Truncated); }
      var b := data[i];
      if i > 0 && b == 0 { return Err(NonCanonical); }
      ValueSnoc(data[..i], b);
      assert data[..i] + [b] == data[..i + 1];
      Powers();
      assert Pow128(0) == 1;
      value := value + Group(b) * (if i == 0 then 1 else if i == 1 then 128 else 16384);
      ValueOfThree(data[..i + 1]);
      if b < 128 {
        if value > MAX16 { return Err(TooLarge); }
        return Ok((value, i + 1));
      }
      i := i + 1;
    }
    r := Err(TooLarge);
  }

  // ----- 64-bit varints -----

  /** What a reader of at most ten bytes makes of the data, `i` groups of which have been taken. */
  function Decode64From(data: Bytes, i: nat): (r: Result<(nat, nat), Error>)
    requires i <= 10
    decreases 10 - i
  {
    if i == 10 then Err(TooLarge)
    else if |data| <= i then Err(Truncated)
    else if i == 9 && data[i] > 1 then Err(TooLarge)
    else if data[i] >= 128 then Decode64From(data, i + 1)
    else if i > 0 && data[i] == 0 then Err(NonCanonical)
    else Ok((Value(data[..i + 1]), i + 1))
  }

  function Decode64(data: Bytes): (r: Result<(nat, nat), Error>) {
    Decode64From(data, 0)
  }

  lemma {:induction false} Decode64Sound(data: Bytes, i: nat)
    requires i <= 10 && i <= |data| && forall j :: 0 <= j < i ==> data[j] >= 128
    ensures var r := Decode64From(data, i);
      r.Ok? ==>
        && i < r.value.1 <= 10 && r.value.1 <= |data| && (r.value.1 == 10 ==> data[9] <= 1)
        && Canonical(data[..r.value.1]) && r.value.0 == Value(data[..r.value.1])
    decreases 10 - i
  {
    if i < 10 && i < |data| && data[i] >= 128 {
      Decode64Sound(data, i + 1);
    }
  }

  lemma {:induction false} Decode64Finds(data: Bytes, i: nat, k: nat)
    requires i < k <= 10 && k <= |data| && Canonical(data[..k]) && (k == 10 ==> data[9] <= 1)
    ensures Decode64From(data, i) == Ok((Value(data[..k]), k))
    decreases 10 - i
  {
    var s := data[..k];
    assert forall j :: 0 <= j < k ==> s[j] == data[j];
    if i < k - 1 {
      assert s[i] >= 128;
      Decode64Finds(data, i + 1, k);
    }
  }

  /** Ten groups fit into 64 bits exactly when the last is at most one. */
  lemma {:induction false} TenGroups(s: Bytes)
    requires |s| == 10
    ensures Value(s) <= MAX64 <==> Group(s[9]) <= 1
  {
    ValueSnoc(s[..9], s[9]);
    assert s[..9] + [s[9]] == s;
    ValueBound(s[..9]);
    Powers();
    TenGroupsArithmetic(Value(s[..9]), Group(s[9]));
  }

  lemma {:induction false} TenGroupsArithmetic(v: nat, g: nat)
    requires v < 0x8000_0000_0000_0000
    ensures v + g * 0x8000_0000_0000_0000 <= MAX64 <==> g <= 1
  {
  }

  /** The reader accepts exactly the encodings of the numbers below 2^64, whatever follows them. */
  lemma {:induction false} Decode64Exact(data: Bytes, n: nat, k: nat)
    ensures Decode64(data) == Ok((n, k)) <==> n <= MAX64 && k <= |data| && data[..k] == Encode(n)
  {
    if Decode64(data) == Ok((n, k)) {
      Decode64Sound(data, 0);
      CanonicalEncodes(data[..k]);
      FitsSound(data[..k]);
    }
    if n <= MAX64 && k <= |data| && data[..k] == Encode(n) {
      EncodeCanonical(n);
      FitsComplete(n);
      Decode64Finds(data, 0, k);
    }
  }

  lemma {:induction false} FitsSound(s: Bytes)
    requires 0 < |s| <= 10 && (|s| == 10 ==> s[9] <= 1)
    ensures Value(s) <= MAX64
  {
    Powers();
    if |s| == 10 {
      TenGroups(s);
    } else {
      ValueBound(s);
      PowMonotone(|s|, 9);
    }
  }

  lemma {:induction false} FitsComplete(n: nat)
    requires n <= MAX64
    ensures |Encode(n)| <= 10 && (|Encode(n)| == 10 ==> Encode(n)[9] <= 1)
  {
    Powers();
    EncodeLength(n, 10);
    EncodeCanonical(n);
    if |Encode(n)| == 10 {
      TenGroups(Encode(n));
    }
  }

  lemma {:induction false} PowMonotone(i: nat, j: nat)
    requires i <= j
    ensures Pow128(i) <= Pow128(j)
    decreases j
  {
    if i < j {
      PowMonotone(i, j - 1);
    }
  }
}
