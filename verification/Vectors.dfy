/**
 Vectors of scalars and of points: inner products (which are also the multiscalar
 multiplications of the group) and their laws.
 */
module Vectors {
  import opened Residues

  type Vector = seq<int>

  function Dot(a: Vector, b: Vector): (r: int)
    requires |a| == |b|
  {
    if |a| == 0 then 0
    else
      var n := |a| - 1;
      Dot(a[..n], b[..n]) + a[n] * b[n]
  }

  function Add(a: Vector, b: Vector): (r: Vector)
    requires |a| == |b|
    ensures |r| == |a|
  {
    seq(|a|, i requires 0 <= i < |a| => a[i] + b[i])
  }

  function Scale(k: int, a: Vector): (r: Vector)
    ensures |r| == |a|
  {
    seq(|a|, i requires 0 <= i < |a| => k * a[i])
  }

  /** Pointwise product. */
  function Had(a: Vector, b: Vector): (r: Vector)
    requires |a| == |b|
    ensures |r| == |a|
  {
    seq(|a|, i requires 0 <= i < |a| => a[i] * b[i])
  }

  function Const(k: int, n: nat): (r: Vector)
    ensures |r| == n
  {
    seq(n, i => k)
  }

  function Reverse(a: Vector): (r: Vector)
    ensures |r| == |a|
  {
    seq(|a|, i requires 0 <= i < |a| => a[|a| - 1 - i])
  }

  ghost predicate VecCong(m: int, a: Vector, b: Vector) {
    |a| == |b| && forall i :: 0 <= i < |a| ==> Cong(m, a[i], b[i])
  }

  lemma {:induction false} DotAdd(a: Vector, b: Vector, c: Vector)
    requires |a| == |b| == |c|
    ensures Dot(Add(a, b), c) == Dot(a, c) + Dot(b, c)
  {
    if |a| > 0 {
      var n := |a| - 1;
      DotAdd(a[..n], b[..n], c[..n]);
      assert Add(a, b)[..n] == Add(a[..n], b[..n]);
    }
  }

  lemma {:induction false} DotScale(k: int, a: Vector, c: Vector)
    requires |a| == |c|
    ensures Dot(Scale(k, a), c) == k * Dot(a, c)
  {
    if |a| > 0 {
      var n := |a| - 1;
      DotScale(k, a[..n], c[..n]);
      assert Scale(k, a)[..n] == Scale(k, a[..n]);
      assert (k * a[n]) * c[n] == k * (a[n] * c[n]);
    }
  }

  lemma {:induction false} DotSym(a: Vector, b: Vector)
    requires |a| == |b|
    ensures Dot(a, b) == Dot(b, a)
  {
    if |a| > 0 {
      var n := |a| - 1;
      DotSym(a[..n], b[..n]);
    }
  }

  lemma {:induction false} DotHad(a: Vector, b: Vector, c: Vector)
    requires |a| == |b| == |c|
    ensures Dot(Had(a, b), c) == Dot(a, Had(b, c))
  {
    if |a| > 0 {
      var n := |a| - 1;
      DotHad(a[..n], b[..n], c[..n]);
      assert Had(a, b)[..n] == Had(a[..n], b[..n]);
      assert Had(b, c)[..n] == Had(b[..n], c[..n]);
      assert (a[n] * b[n]) * c[n] == a[n] * (b[n] * c[n]);
    }
  }

  lemma {:induction false} DotConcat(a: Vector, a': Vector, b: Vector, b': Vector)
    requires |a| == |b| && |a'| == |b'|
    ensures Dot(a + a', b + b') == Dot(a, b) + Dot(a', b')
  {
    if |a'| == 0 {
      assert a + a' == a && b + b' == b;
    } else {
      var n := |a'| - 1;
      DotConcat(a, a'[..n], b, b'[..n]);
      assert (a + a')[..|a| + n] == a + a'[..n];
      assert (b + b')[..|b| + n] == b + b'[..n];
    }
  }

  lemma {:induction false} DotCong(m: int, a: Vector, b: Vector, c: Vector)
    requires VecCong(m, a, b) && |a| == |c|
    ensures Cong(m, Dot(a, c), Dot(b, c))
  {
    if |a| == 0 {
      CongRefl(m, 0);
    } else {
      var n := |a| - 1;
      DotCong(m, a[..n], b[..n], c[..n]);
      assert Cong(m, a[n], b[n]);
      CongScale(m, c[n], a[n], b[n]);
      CongAdd(m, Dot(a[..n], c[..n]), Dot(b[..n], c[..n]), c[n] * a[n], c[n] * b[n]);
      assert c[n] * a[n] == a[n] * c[n] && c[n] * b[n] == b[n] * c[n];
    }
  }

  /** Right-linear forms of the laws above. */
  lemma {:induction false} DotAddRight(c: Vector, a: Vector, b: Vector)
    requires |a| == |b| == |c|
    ensures Dot(c, Add(a, b)) == Dot(c, a) + Dot(c, b)
  {
    DotAdd(a, b, c);
    DotSym(c, Add(a, b));
    DotSym(c, a);
    DotSym(c, b);
  }

  lemma {:induction false} DotScaleRight(k: int, c: Vector, a: Vector)
    requires |a| == |c|
    ensures Dot(c, Scale(k, a)) == k * Dot(c, a)
  {
    DotScale(k, a, c);
    DotSym(c, Scale(k, a));
    DotSym(c, a);
  }

  lemma {:induction false} DotHalves(a: Vector, b: Vector, h: nat)
    requires |a| == |b| && h <= |a|
    ensures Dot(a, b) == Dot(a[..h], b[..h]) + Dot(a[h..], b[h..])
  {
    DotConcat(a[..h], a[h..], b[..h], b[h..]);
    assert a == a[..h] + a[h..] && b == b[..h] + b[h..];
  }

  /** The inner product of the source, accumulated left to right; vectors of different lengths are refused. */
  method ScalarInnerProduct(left: Vector, right: Vector) returns (ok: bool, result: int)
    ensures ok <==> |left| == |right|
    ensures ok ==> result == Dot(left, right)
  {
    result := 0;
    if |left| != |right| {
      return false, 0;
    }
    for index := 0 to |left|
      invariant result == Dot(left[..index], right[..index])
    {
      result := result + left[index] * right[index];
      assert left[..index + 1][..index] == left[..index];
      assert right[..index + 1][..index] == right[..index];
    }
    ok := true;
    assert left[..|left|] == left && right[..|right|] == right;
  }

  /** [1, b, b^2, ...] with n entries. */
  function Powers(b: int, n: nat): (r: Vector)
    ensures |r| == n
  {
    seq(n, i requires 0 <= i => Pow(b, i))
  }

  function PowerSum(b: int, n: nat): (r: int) {
    Dot(Powers(b, n), Const(1, n))
  }

  method ScalarPowers(value: int, size: nat) returns (powers: Vector)
    ensures powers == Powers(value, size)
  {
    powers := [];
    var current := 1;
    for index := 0 to size
      invariant powers == Powers(value, index) && current == Pow(value, index)
    {
      powers := powers + [current];
      current := current * value;
    }
  }

  lemma {:induction false} PowerSumStep(b: int, n: nat)
    ensures PowerSum(b, n + 1) == PowerSum(b, n) + Pow(b, n)
    ensures PowerSum(b, 0) == 0
  {
    assert Powers(b, n + 1)[..n] == Powers(b, n);
    assert Const(1, n + 1)[..n] == Const(1, n);
  }

  method ScalarPowerSum(value: int, size: nat) returns (result: int)
    ensures result == PowerSum(value, size)
  {
    var powers := ScalarPowers(value, size);
    result := 0;
    PowerSumStep(value, 0);
    for index := 0 to size
      invariant result == PowerSum(value, index)
    {
      PowerSumStep(value, index);
      result := result + powers[index];
    }
  }
}
