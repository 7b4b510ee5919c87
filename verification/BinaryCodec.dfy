/**
 The sticky-error reader and writer of the binary package (binary/decoder.go, binary/encoder.go), as far as their
 variable-length integers go. The first error stays; after it nothing is read or written.
 */
module BinaryCodec {
  import opened Wrappers
  import opened ByteStrings
  import opened Varints

  class Decoder {
    const data: Bytes
    var pos: nat
    var err: Option<Error>

    ghost predicate Valid()
      reads this
    {
      pos <= |data|
    }

    constructor (data: Bytes)
      ensures Valid() && this.data == data && pos == 0 && err == None
    {
      this.data := data;
      pos, err := 0, None;
    }

    method Fail(e: Error)
      modifies this`err
      ensures err == if old(err) == None then Some(e) else old(err)
    {
      if err == None { err := Some(e); }
    }

    /** What one read of a number must do: take it, or record why not and stay. */
    twostate predicate ReadAs(was: Result<(nat, nat), Error>, r: nat)
      reads this
    {
      && Valid()
      && (old(err).Some? ==> r == 0 && pos == old(pos) && err == old(err))
      && (old(err) == None && was.Ok? ==> r == was.value.0 && pos == old(pos) + was.value.1 && err == None)
      && (old(err) == None && was.Err? ==> r == 0 && pos == old(pos) && err == Some(was.error))
    }

    /** The fast path for a single byte in front of the slow one. */
    method ReadCompactU16() returns (r: nat)
      requires Valid()
      modifies this
      ensures ReadAs(Decode16(data[old(pos)..]), r)
    {
      if err == None && |data| - pos >= 1 && data[pos] < 128 {
        r := data[pos];
        pos := pos + 1;
      } else {
        r := ReadCompactU16Slow();
      }
    }

    /** The unrolled reader: the same numbers, sizes and errors as the shortvec loop, on every input. */
    method ReadCompactU16Slow() returns (r: nat)
      requires Valid()
      modifies this
      ensures ReadAs(Decode16(data[old(pos)..]), r)
    {
      if err.Some? || |data| - pos < 1 {
        Fail(Truncated);
        return 0;
      }
      var rest := data[pos..];
      var b0 := rest[0];
      if b0 < 128 {
        pos := pos + 1;
        return b0;
      }
      if |rest| < 2 {
        Fail(Truncated);
        return 0;
      }
      var b1 := rest[1];
      if b1 == 0 {
        Fail(NonCanonical);
        return 0;
      }
      var value := Group(b0) + 128 * Group(b1);
      if b1 < 128 {
        pos := pos + 2;
        return value;
      }
      if |rest| < 3 {
        Fail(Truncated);
        return 0;
      }
      var b2 := rest[2];
      if b2 == 0 {
        Fail(NonCanonical);
        return 0;
      }
      value := value + 16384 * Group(b2);
      if b2 >= 128 || value > MAX16 {
        Fail(TooLarge);
        return 0;
      }
      pos := pos + 3;
      r := value;
    }

    method ReadVarUint64() returns (r: nat)
      requires Valid()
      modifies this
      ensures ReadAs(Decode64(data[old(pos)..]), r)
    {
      if err.Some? { return 0; }
      var value, power, index := 0, 1, 0;
      ghost var rest := data[pos..];
      while index < 10
        invariant 0 <= index <= 10 && index <= |rest| && power == Pow128(index)
        invariant value == Value(rest[..index])
        invariant Decode64(rest) == Decode64From(rest, index)
        invariant pos == old(pos) && err == None
      {
        if |data| - pos <= index {
          Fail(Truncated);
          return 0;
        }
        var current := data[pos + index];
        assert current == rest[index];
        if index == 9 && current > 1 {
          Fail(TooLarge);
          return 0;
        }
        ValueSnoc(rest[..index], current);
        assert rest[..index] + [current] == rest[..index + 1];
        value := value + Group(current) * power;
        if current < 128 {
          if index > 0 && current == 0 {
            Fail(NonCanonical);
            return 0;
          }
          pos := pos + index + 1;
          return value;
        }
        power, index := 128 * power, index + 1;
      }
      Fail(TooLarge);
      r := 0;
    }
  }

  class Encoder {
    var data: Bytes
    var err: Option<Error>

    constructor (dst: Bytes)
      ensures data == dst && err == None
    {
      data, err := dst, None;
    }

    /** Unrolled for one, two and three bytes; a value out of range leaves the buffer alone. */
    method WriteCompactU16(v: int)
      modifies this
      ensures old(err).Some? ==> data == old(data) && err == old(err)
      ensures old(err) == None && 0 <= v <= MAX16 ==> data == old(data) + Encode(v) && err == None
      ensures old(err) == None && !(0 <= v <= MAX16) ==> data == old(data) && err == Some(TooLarge)
    {
      if err.Some? { return; }
      if v < 0 || v > MAX16 {
        err := Some(TooLarge);
        return;
      }
      if v < 128 {
        data := data + [v];
      } else if v < 16384 {
        assert Encode(v / 128) == [v / 128];
        data := data + [v % 128 + 128, v / 128];
      } else {
        assert v / 128 / 128 == v / 16384;
        assert Encode(v / 16384) == [v / 16384];
        assert Encode(v / 128) == [v / 128 % 128 + 128] + Encode(v / 128 / 128);
        data := data + [v % 128 + 128, v / 128 % 128 + 128, v / 16384];
      }
    }

    method WriteVarUint64(v: nat)
      requires v <= MAX64
      modifies this
      ensures old(err).Some? ==> data == old(data)
      ensures old(err) == None ==> data == old(data) + Encode(v)
      ensures err == old(err)
    {
      if err.Some? { return; }
      var m := v;
      while m >= 128
        invariant data + Encode(m) == old(data) + Encode(v)
        invariant err == None
      {
        assert data + Encode(m) == (data + [m % 128 + 128]) + Encode(m / 128);
        data := data + [m % 128 + 128];
        m := m / 128;
      }
      data := data + [m];
    }
  }
}
