/** Bytes and byte strings. */
module ByteStrings {

  type Byte = x: int | 0 <= x < 256

  type Bytes = seq<Byte>

  // ----- little-endian integers -----

  function Pow256(k: nat): (n: nat)
    ensures n > 0
  {
    if k == 0 then 1 else 256 * Pow256(k - 1)
  }

  function PutLE(n: nat, k: nat, tail: Bytes): (r: Bytes)
    ensures |r| == k + |tail| && r[k..] == tail
    decreases k
  {
    if k == 0 then tail else [n % 256] + PutLE(n / 256, k - 1, tail)
  }

  function ReadLE(data: Bytes, k: nat): (n: nat)
    requires k <= |data|
    ensures n < Pow256(k)
    decreases k
  {
    if k == 0 then 0 else data[0] + 256 * (ReadLE(data[1..], k - 1) as int)
  }

  lemma {:induction false} ReadPut(n: nat, k: nat, tail: Bytes)
    requires n < Pow256(k)
    ensures ReadLE(PutLE(n, k, tail), k) == n
    decreases k
  {
    if k > 0 {
      ReadPut(n / 256, k - 1, tail);
      assert PutLE(n, k, tail)[1..] == PutLE(n / 256, k - 1, tail);
    }
  }

  lemma {:induction false} PutRead(data: Bytes, k: nat)
    requires k <= |data|
    ensures PutLE(ReadLE(data, k), k, data[k..]) == data
    decreases k
  {
    if k > 0 {
      PutRead(data[1..], k - 1);
      assert data[1..][k - 1..] == data[k..];
      assert data == [data[0]] + data[1..];
    }
  }

  lemma {:induction false} Widths()
    ensures Pow256(2) == 65536 && Pow256(4) == 0x1_0000_0000 && Pow256(8) == 0x1_0000_0000_0000_0000
  {
    assert Pow256(0) == 1 && Pow256(1) == 256 && Pow256(2) == 65536 && Pow256(3) == 0x100_0000;
    assert Pow256(4) == 0x1_0000_0000;
    assert Pow256(5) == 0x100_0000_0000 && Pow256(6) == 0x1_0000_0000_0000 && Pow256(7) == 0x100_0000_0000_0000;
  }
}
