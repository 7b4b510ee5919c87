/**
 Decoding a point back to the amount it stands for (programs/token-2022/confidential_discrete_log.go,
 confidential_service.go): a table of the first 65536 multiples of the base, filled in chunks by any number of
 workers, and a search that takes giant steps of 65536.
 */
module DiscreteLog {
  import opened Wrappers
  import opened Residues
  import opened RangeProof
  import opened ElGamal

  const RANGE := SPLIT * SPLIT

  type Table = map<Point, nat>

  /** The order is beyond 32 bits, and the base generates the group. */
  ghost predicate Suitable(m: int, base: Point) {
    Prime(m) && m > RANGE && !IsIdentity(m, base)
  }

  /** Different small multiples are different points. */
  lemma {:induction false} Injective(m: int, base: Point, x: int, y: int)
    requires Suitable(m, base) && 0 <= x < RANGE && 0 <= y < RANGE && Canon(m, x * base) == Canon(m, y * base)
    ensures x == y
  {
    CanonEqual(m, x * base, y * base);
    var k := CongWitness(m, x * base, y * base);
    assert base * (x - y) == x * base - y * base;
    CongBy(m, base * (x - y), 0, k);
    IdentityCong(m, base * (x - y));
    CancelNonzero(m, base, x - y);
    IdentityCong(m, x - y);
    var j := CongWitness(m, x - y, 0);
    SmallMultiple(m, x - y, j);
  }

  // ----- the table -----

  /** The table holds exactly the first `size` multiples. */
  ghost predicate Complete(m: int, base: Point, table: Table, size: nat)
    requires m > 0
  {
    && (forall j :: 0 <= j < size ==> Canon(m, j * base) in table && table[Canon(m, j * base)] == j)
    && (forall key :: key in table ==> table[key] < size && key == Canon(m, table[key] * base))
  }

  /** One worker: its own slots, from a running point; no other slot. */
  method Build(m: int, base: Point, entries: array<(Point, nat)>, start: nat, end: nat)
    requires m > 0 && start <= end <= entries.Length
    modifies entries
    ensures forall j :: start <= j < end ==> entries[j] == (Canon(m, j * base), j)
    ensures forall j :: 0 <= j < entries.Length && !(start <= j < end) ==> entries[j] == old(entries[j])
  {
    var point := start * base;
    for value := start to end
      invariant point == value * base
      invariant forall j :: start <= j < value ==> entries[j] == (Canon(m, j * base), j)
      invariant forall j :: 0 <= j < entries.Length && !(start <= j < value) ==> entries[j] == old(entries[j])
    {
      entries[value] := (Canon(m, point), value);
      assert (value + 1) * base == value * base + base;
      point := point + base;
    }
  }

  /** Where the chunks start. */
  function Starts(size: nat, chunk: nat): (r: set<nat>)
    requires chunk > 0
  {
    set s | 0 <= s < size && s % chunk == 0
  }

  lemma {:induction false} Covered(size: nat, chunk: nat, j: nat)
    requires chunk > 0 && j < size
    ensures var s := j / chunk * chunk; s in Starts(size, chunk) && s <= j < s + chunk
  {
    assert j / chunk * chunk % chunk == 0 by { Multiple(j / chunk, chunk); }
  }

  /** Two workers never share a slot, so that it does not matter how their writes interleave. */
  lemma {:induction false} ChunksApart(size: nat, chunk: nat, s: nat, s': nat)
    requires chunk > 0 && s in Starts(size, chunk) && s' in Starts(size, chunk) && s < s'
    ensures s + chunk <= s'
  {
    var a, b := s / chunk, s' / chunk;
    assert s == a * chunk && s' == b * chunk;
    TimesGrows(b, a, chunk);
    TimesGrows(a + 1, b, chunk);
  }

  lemma {:induction false} TimesGrows(x: nat, y: nat, n: nat)
    ensures x <= y ==> x * n <= y * n
  {
  }

  lemma {:induction false} Multiple(k: nat, n: nat)
    requires n > 0
    ensures k * n % n == 0
  {
    ModUnique(k * n, n, k, 0);
  }

  /** All workers, finishing in any order. */
  method Fill(m: int, base: Point, entries: array<(Point, nat)>, workers: nat)
    requires m > 0 && workers > 0
    modifies entries
    ensures forall j :: 0 <= j < entries.Length ==> entries[j] == (Canon(m, j * base), j)
  {
    var size := entries.Length;
    if size == 0 { return; }
    var w := if workers < size then workers else size;
    var chunk := (size + w - 1) / w;
    assert chunk > 0 by { ChunkPositive(size, w); }
    var todo := Starts(size, chunk);
    while todo != {}
      invariant todo <= Starts(size, chunk)
      invariant forall s, j :: s in Starts(size, chunk) && s !in todo && s <= j < s + chunk && j < size ==>
                  entries[j] == (Canon(m, j * base), j)
    {
      var s :| s in todo;
      Build(m, base, entries, s, if s + chunk < size then s + chunk else size);
      todo := todo - {s};
    }
    forall j | 0 <= j < size ensures entries[j] == (Canon(m, j * base), j) {
      Covered(size, chunk, j);
    }
  }

  lemma {:induction false} ChunkPositive(size: nat, w: nat)
    requires size > 0 && w > 0
    ensures (size + w - 1) / w > 0
  {
    assert size + w - 1 >= w;
  }

  /** buildDiscreteLogTable: every slot filled, no two slots under one key. */
  method BuildTable(m: int, base: Point, workers: nat) returns (table: Table)
    requires Suitable(m, base) && workers > 0
    ensures Complete(m, base, table, SPLIT)
  {
    hide Canon, Suitable, Complete;
    SuitablePositive(m, base);
    NoEntries(m, base);
    var entries := new (Point, nat)[SPLIT](_ => (0, 0));
    Fill(m, base, entries, workers);
    table := map[];
    for i := 0 to SPLIT
      invariant forall j :: 0 <= j < SPLIT ==> entries[j] == (Canon(m, j * base), j)
      invariant Complete(m, base, table, i)
    {
      AddEntry(m, base, table, i);
      table := table[entries[i].0 := entries[i].1];
    }
  }

  lemma {:induction false} NoEntries(m: int, base: Point)
    requires m > 0
    ensures Complete(m, base, map[], 0)
  {
  }

  lemma {:induction false} AddEntry(m: int, base: Point, table: Table, i: nat)
    requires Suitable(m, base) && Complete(m, base, table, i) && i < SPLIT
    ensures Complete(m, base, table[Canon(m, i * base) := i], i + 1)
  {
    hide Canon;
    var key := Canon(m, i * base);
    if key in table {
      Injective(m, base, i, table[key]);
      assert false;
    }
  }

  lemma {:induction false} SuitablePositive(m: int, base: Point)
    requires Suitable(m, base)
    ensures m > 0
  {
  }

  // ----- the search -----

  /** decodePedersenCommitmentU32: the amount, exactly when there is one below 2^32. */
  method Decode(m: int, base: Point, target: Point, table: Table) returns (r: Option<nat>)
    requires Suitable(m, base) && Complete(m, base, table, SPLIT)
    ensures forall v: nat :: r == Some(v) <==> v < RANGE && Canon(m, target) == Canon(m, v * base)
  {
    hide Canon, Suitable, Complete;
    SuitablePositive(m, base);
    var point, step := target, base * SPLIT;
    for high := 0 to SPLIT
      invariant point == target - high * step
      invariant forall v: nat :: v < high * SPLIT ==> Canon(m, target) != Canon(m, v * base)
    {
      Stride(m, base, target, table, high, point);
      if Canon(m, point) in table {
        r := Some(high * SPLIT + table[Canon(m, point)]);
        Found(m, base, target, r.value);
        return;
      }
      assert (high + 1) * step == high * step + step;
      point := point - step;
    }
    r := None;
  }

  /** One stride: a hit is the amount, a miss rules out the next 65536 amounts. */
  lemma {:induction false} Stride(m: int, base: Point, target: Point, table: Table, high: nat, point: Point)
    requires Suitable(m, base) && Complete(m, base, table, SPLIT) && point == target - high * (base * SPLIT)
             && high < SPLIT
    ensures var key := Canon(m, point);
      && (key in table ==> var v := high * SPLIT + table[key]; v < RANGE && Canon(m, target) == Canon(m, v * base))
      && (key !in table ==> forall v: nat :: high * SPLIT <= v < (high + 1) * SPLIT ==>
          Canon(m, target) != Canon(m, v * base))
  {
    var key := Canon(m, point);
    if key in table {
      var low := table[key];
      Shift(m, base, target, high, low, point);
    } else {
      forall v: nat | high * SPLIT <= v < (high + 1) * SPLIT ensures Canon(m, target) != Canon(m, v * base) {
        var low := v - high * SPLIT;
        Shift(m, base, target, high, low, point);
      }
    }
  }

  lemma {:induction false} Shift(m: int, base: Point, target: Point, high: nat, low: nat, point: Point)
    requires m > 0 && point == target - high * (base * SPLIT)
    ensures Canon(m, point) == Canon(m, low * base) <==> Canon(m, target) == Canon(m, (high * SPLIT + low) * base)
  {
    CanonEqual(m, point, low * base);
    CanonEqual(m, target, (high * SPLIT + low) * base);
    assert (high * SPLIT + low) * base == high * (base * SPLIT) + low * base;
    CongRefl(m, high * (base * SPLIT));
    if Cong(m, point, low * base) {
      CongAdd(m, point, low * base, high * (base * SPLIT), high * (base * SPLIT));
    }
    if Cong(m, target, (high * SPLIT + low) * base) {
      CongSub(m, target, (high * SPLIT + low) * base, high * (base * SPLIT), high * (base * SPLIT));
    }
  }

  lemma {:induction false} Found(m: int, base: Point, target: Point, v: nat)
    requires Suitable(m, base) && v < RANGE && Canon(m, target) == Canon(m, v * base)
    ensures forall u: nat :: v == u <==> u < RANGE && Canon(m, target) == Canon(m, u * base)
  {
    forall u: nat | u < RANGE && Canon(m, target) == Canon(m, u * base) ensures u == v {
      Injective(m, base, u, v);
    }
  }
}
