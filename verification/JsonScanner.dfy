/**
 The incremental scanner of rpc/stream.go: a compacting, growing buffer over a reader that hands out
 its input in pieces of any size. Every operation is specified by the functions of JsonScan on the
 whole input, so its result does not depend on how the input was cut; where it does depend on that,
 the contracts say how.
 */
module JsonScanner {
  import opened Wrappers
  import opened ByteStrings
  import opened JsonScan
  import opened JsonBatches

  // ----- readers -----

  /** The end of the piece that starts at p: the next cut, or the end of the input. */
  function Stop(cuts: set<nat>, size: nat, p: nat): (q: nat)
    requires p < size
    ensures p < q <= size && (q == size || q in cuts)
    ensures forall c :: c in cuts && p < c ==> q <= c
    decreases size - p
  {
    if p + 1 == size || p + 1 in cuts then p + 1 else Stop(cuts, size, p + 1)
  }

  /** The start of the piece that p is in. */
  function LastCut(cuts: set<nat>, p: nat): (q: nat)
    ensures q <= p && (q == 0 || q in cuts)
    ensures forall c :: c in cuts && c <= p ==> c <= q
  {
    if p == 0 || p in cuts then p else LastCut(cuts, p - 1)
  }

  /** An io.Reader over a fixed input. A read yields what is left of a piece, or what fits, and at least one byte
      until the input is exhausted; then it reports the end of file, or a failure. Pieces end at the cuts, which may
      be any. */
  class Reader {
    const input: Bytes
    const broken: bool
    const cuts: set<nat>
    var at: nat

    constructor (input: Bytes, broken: bool, cuts: set<nat>)
      ensures this.input == input && this.broken == broken && this.cuts == cuts && at == 0
    {
      this.input := input;
      this.broken := broken;
      this.cuts := cuts;
      at := 0;
    }

    method Read(max: nat) returns (chunk: Bytes)
      requires at <= |input| && max > 0
      modifies this
      ensures old(at) <= at <= |input| && chunk == input[old(at)..at] && |chunk| <= max
      ensures chunk == [] <==> old(at) == |input|
      ensures old(at) < |input| ==>
                var stop := Stop(cuts, |input|, old(at));
                at == if stop - old(at) <= max then stop else old(at) + max
    {
      if at == |input| {
        return [];
      }
      var n := 1;
      while n < max && at + n < |input| && at + n !in cuts
        invariant 1 <= n <= max && at + n <= |input|
        invariant at + n <= Stop(cuts, |input|, at)
      {
        n := n + 1;
      }
      chunk := input[at..at + n];
      at := at + n;
    }
  }

  /** Where position p of the input stands in the buffer when it is reached from position `at`, which stands at
      `offset`: a refill of an exhausted buffer starts it afresh. */
  function FrontOf(cuts: set<nat>, size: nat, at: nat, offset: nat, p: nat): (r: nat)
    requires at <= p < size
  {
    if p < Stop(cuts, size, at) then offset + (p - at) else p - LastCut(cuts, p)
  }

  lemma {:induction false} FrontStep(cuts: set<nat>, size: nat, at: nat, offset: nat, p: nat)
    requires at < p < size
    ensures var more := Stop(cuts, size, at) > at + 1;
            && (more ==> Stop(cuts, size, at + 1) == Stop(cuts, size, at))
            && FrontOf(cuts, size, at + 1, if more then offset + 1 else 0, p) == FrontOf(cuts, size, at, offset, p)
  {
  }

  lemma {:induction false} StopSame(cuts: set<nat>, size: nat, p: nat)
    requires p < size && Stop(cuts, size, p) > p + 1
    ensures p + 1 < size && Stop(cuts, size, p + 1) == Stop(cuts, size, p)
  {
  }

  // ----- the end of the input -----

  /** What scanValue makes of a top-level primitive that runs to the end of the input: its offset in the buffer is
      not corrected for the compaction of the last refill, so that many leading bytes are lost, and a value no longer
      than that is refused. */
  function AtEnd(value: Bytes, offset: nat): (r: Result<Bytes, Failure>) {
    if |value| > offset then Ok(value[offset..]) else Err(UnexpectedEOF)
  }

  /** The outcome when the input ends inside the value at p. */
  function Unfinished(input: Bytes, p: nat, broken: bool, offset: nat): (r: Result<Bytes, Failure>)
    requires p <= |input|
  {
    var last := FinalState(input, p, START);
    if p < |input| && last.depth == 0 && !last.inString && !broken then AtEnd(input[p..], offset)
    else Err(if broken then ReadFailed else UnexpectedEOF)
  }

  lemma {:induction false} WholeAt(input: Bytes, p: nat, offset: nat)
    requires p <= |input|
    ensures EndsOpen(input, p) ==> (Unfinished(input, p, false, offset) == Ok(input[p..]) <==> offset == 0)
  {
    hide FinalState, ValueEnd;
    if 0 < offset < |input[p..]| {
      assert |input[p..][offset..]| != |input[p..]|;
    }
    assert input[p..][0..] == input[p..];
  }

  lemma {:induction false} EndsNowhere(input: Bytes)
    ensures ValueEnd(input, |input|, START) == None
  {
  }

  lemma {:induction false} UnfinishedStarted(input: Bytes, p: nat, broken: bool, offset: nat)
    requires p <= |input|
    ensures ValueEnd(input, p, START) == None && Unfinished(input, p, broken, offset).Ok? ==> EndsOpen(input, p)
  {
  }

  lemma {:induction false} EndOfInput(input: Bytes, st: State)
    ensures ValueEnd(input, |input|, st) == None && FinalState(input, |input|, st) == st
  {
  }

  /** n elements moved to the front, first to last. */
  method ShiftDown(buf: array<Byte>, from: nat, n: nat)
    requires from + n <= buf.Length
    modifies buf
    ensures forall j :: 0 <= j < n ==> buf[j] == old(buf[from + j])
  {
    var i := 0;
    while i < n
      invariant 0 <= i <= n
      invariant forall j :: 0 <= j < i ==> buf[j] == old(buf[from + j])
      invariant forall j :: from + i <= j < from + n ==> buf[j] == old(buf[j])
    {
      buf[i] := buf[from + i];
      i := i + 1;
    }
  }

  /** A scan that has reached position q in state st goes on like the one that began at p0 in state st0. */
  predicate Alike(input: Bytes, p0: nat, st0: State, q: nat, st: State)
    requires p0 <= |input| && q <= |input|
  {
    && ValueEnd(input, q, st) == ValueEnd(input, p0, st0)
    && FinalState(input, q, st) == FinalState(input, p0, st0)
    && Closes(input, q, st) == Closes(input, p0, st0)
  }

  /** What one byte does to a scan. */
  lemma {:induction false} OneByte(input: Bytes, p0: nat, st0: State, q: nat, st: State)
    requires p0 <= |input| && q < |input| && Alike(input, p0, st0, q, st)
    ensures match Advance(st, input[q])
            case StopBefore => ValueEnd(input, p0, st0) == Some(q) && !Closes(input, p0, st0)
            case StopAfter => ValueEnd(input, p0, st0) == Some(q + 1) && Closes(input, p0, st0)
            case Next(next) => Alike(input, p0, st0, q + 1, next)
  {
    hide Advance;
  }

  lemma {:induction false} AlikeSelf(input: Bytes, p: nat, st: State)
    requires p <= |input|
    ensures Alike(input, p, st, p, st)
  {
  }

  class Scanner {
    const reader: Reader
    var buf: array<Byte>
    var pos: nat
    var end: nat
    var mark: nat

    /** buf[mark..end] is the last stretch of what was read. */
    ghost predicate Valid()
      reads this, reader, buf
    {
      && mark <= pos <= end <= buf.Length && buf.Length > 0
      && end - mark <= reader.at <= |reader.input|
      && (forall i :: mark <= i < end ==> buf[i] == reader.input[reader.at - (end - i)])
    }

    /** The position in the input that pos stands for. */
    ghost function At(): (p: nat)
      requires Valid()
      reads this, reader, buf
      ensures p <= |reader.input|
    {
      reader.at - (end - pos)
    }

    /** The buffer has room for the whole input, so that reads end where pieces end, and what it holds ends with the
        piece that pos is in. */
    ghost predicate Fed()
      requires Valid()
      reads this, reader, buf
    {
      && |reader.input| <= buf.Length
      && (pos < end ==> reader.at == Stop(reader.cuts, |reader.input|, At()))
    }

    /** Where position p of the input will stand in the buffer. */
    ghost function Front(p: nat): (r: nat)
      requires Valid() && At() <= p < |reader.input|
      reads this, reader, buf
    {
      FrontOf(reader.cuts, |reader.input|, At(), if pos < end then pos else pos - mark, p)
    }

    constructor (reader: Reader, capacity: nat)
      requires capacity > 0 && reader.at <= |reader.input|
      ensures Valid() && this.reader == reader && fresh(buf) && At() == reader.at
      ensures pos == end == mark == 0 && buf.Length == capacity
      ensures capacity >= |reader.input| ==> Fed()
    {
      this.reader := reader;
      buf := new Byte[capacity](_ => 0);
      pos, end, mark := 0, 0, 0;
    }

    lemma {:induction false} Current()
      requires Valid() && pos < end
      ensures At() < |reader.input| && buf[pos] == reader.input[At()]
    {
    }

    method CopyDown()
      requires Valid()
      modifies this, buf
      ensures Valid() && mark == 0 && buf == old(buf)
      ensures pos == old(pos - mark) && end == old(end - mark)
    {
      ShiftDown(buf, mark, end - mark);
      pos, end, mark := pos - mark, end - mark, 0;
    }

    method Grow()
      requires Valid() && mark == 0
      modifies this
      ensures Valid() && fresh(buf) && buf.Length == 2 * old(buf.Length)
      ensures pos == old(pos) && end == old(end) && mark == 0
    {
      var was, n := buf, end;
      var grown := new Byte[buf.Length * 2](i reads was requires was.Length >= n => if 0 <= i < n then was[i] else 0);
      buf := grown;
    }

    /** Reads into the free part of the buffer. */
    method ReadMore() returns (n: nat)
      requires Valid() && mark == 0 && end < buf.Length
      modifies this, reader, buf
      ensures Valid() && mark == 0 && pos == old(pos) && buf == old(buf)
      ensures end == old(end) + n && reader.at == old(reader.at) + n
      ensures n == 0 <==> old(reader.at) == |reader.input|
      ensures n > 0 && |reader.input| <= buf.Length ==> reader.at == Stop(reader.cuts, |reader.input|, old(reader.at))
    {
      hide Stop;
      var chunk := reader.Read(buf.Length - end);
      n := |chunk|;
      var i := 0;
      while i < n
        invariant 0 <= i <= n
        invariant forall j :: 0 <= j < end ==> buf[j] == old(buf[j])
        invariant forall j :: 0 <= j < i ==> buf[end + j] == chunk[j]
        modifies buf
      {
        buf[end + i] := chunk[i];
        i := i + 1;
      }
      forall j | end <= j < end + n ensures buf[j] == reader.input[reader.at - (end + n - j)] {
        assert buf[end + (j - end)] == chunk[j - end];
      }
      end := end + n;
    }

    /** Drops everything before mark, grows a full buffer and reads more. */
    method Fill() returns (err: Option<Failure>)
      requires Valid()
      modifies this, reader, buf
      ensures Valid() && fresh({buf} - {old(buf)}) && buf.Length >= old(buf.Length)
      ensures mark == 0 && pos == old(pos - mark) && At() == old(At())
      ensures err == None ==> end - pos > old(end - pos) && reader.at > old(reader.at)
      ensures err.Some? <==> old(reader.at) == |reader.input|
      ensures err.Some? ==> reader.at == old(reader.at) && end - pos == old(end - pos)
      ensures err.Some? ==> err.value == if reader.broken then ReadFailed else UnexpectedEOF
      ensures old(pos == end && Fed()) ==> Fed()
    {
      hide Stop;
      if mark > 0 {
        CopyDown();
      }
      if end == buf.Length {
        Grow();
      }
      var n := ReadMore();
      if n > 0 {
        return None;
      }
      err := Some(if reader.broken then ReadFailed else UnexpectedEOF);
    }

    /** Skips the spaces the buffer holds. */
    method SkipBuffered() returns (c: Option<Byte>)
      requires Valid()
      modifies this`pos, this`mark
      ensures Valid() && old(At()) <= At() && SkipSpace(reader.input, At()) == SkipSpace(reader.input, old(At()))
      ensures c.Some? ==> pos < end && At() < |reader.input| && c.value == reader.input[At()]
      ensures c.Some? ==> At() == SkipSpace(reader.input, At())
      ensures c == None ==> pos == end
      ensures old(Fed()) ==> Fed()
      ensures var p := SkipSpace(reader.input, old(At()));
              old(Fed()) && p < |reader.input| ==> Front(p) == old(Front(SkipSpace(reader.input, At())))
    {
      hide FrontOf, Stop;
      ghost var target := SkipSpace(reader.input, At());
      ghost var fed := Fed();
      while pos < end
        invariant Valid() && old(At()) <= At() && SkipSpace(reader.input, At()) == target
        invariant fed ==> Fed()
        invariant fed && target < |reader.input| ==> Front(target) == old(Front(SkipSpace(reader.input, At())))
      {
        Current();
        if !IsSpace(buf[pos]) {
          return Some(buf[pos]);
        }
        if fed {
          Onward(target);
        }
        pos := pos + 1;
        mark := pos;
      }
      c := None;
    }

    /** One byte further on, with what came before let go. */
    lemma {:induction false} Onward(target: nat)
      requires Valid() && Fed() && pos < end && At() < target <= |reader.input|
      ensures reader.at > At() + 1 ==> Stop(reader.cuts, |reader.input|, At() + 1) == reader.at
      ensures target < |reader.input| ==>
                FrontOf(reader.cuts, |reader.input|, At() + 1, if pos + 1 < end then pos + 1 else 0, target)
                    == Front(target)
    {
      hide Stop, FrontOf;
      if reader.at > At() + 1 {
        StopSame(reader.cuts, |reader.input|, At());
      }
      if target < |reader.input| {
        FrontStep(reader.cuts, |reader.input|, At(), pos, target);
      }
    }

    method PeekNonSpace() returns (c: Result<Byte, Failure>)
      requires Valid()
      modifies this, reader, buf
      ensures Valid() && fresh({buf} - {old(buf)})
      ensures At() == SkipSpace(reader.input, old(At()))
      ensures c.Ok? <==> At() < |reader.input|
      ensures c.Ok? ==> pos < end && c.value == reader.input[At()]
      ensures c.Err? ==> c.error == if reader.broken then ReadFailed else UnexpectedEOF
      ensures old(Fed()) ==> Fed() && (c.Ok? ==> pos == old(Front(SkipSpace(reader.input, At()))))
    {
      ghost var target := SkipSpace(reader.input, At());
      ghost var fed := Fed();
      SkipAtEnd(reader.input);
      hide SkipSpace, FrontOf, Stop;
      while true
        invariant Valid() && fresh({buf} - {old(buf)})
        invariant old(At()) <= At() && SkipSpace(reader.input, At()) == target
        invariant fed ==> Fed()
        invariant fed && target < |reader.input| ==> Front(target) == old(Front(SkipSpace(reader.input, At())))
        decreases |reader.input| - reader.at
      {
        var found := SkipBuffered();
        if found.Some? {
          if fed {
            FrontHere();
          }
          return Ok(found.value);
        }
        var err := Fill();
        if err.Some? {
          return Err(err.value);
        }
      }
    }

    lemma {:induction false} FrontHere()
      requires Valid() && pos < end
      ensures Front(At()) == pos
    {
    }

    method NextNonSpace() returns (c: Result<Byte, Failure>)
      requires Valid()
      modifies this, reader, buf
      ensures Valid() && fresh({buf} - {old(buf)})
      ensures var q := SkipSpace(reader.input, old(At()));
              && (c.Ok? <==> q < |reader.input|)
              && (c.Ok? ==> c.value == reader.input[q] && At() == q + 1)
      ensures c.Err? ==> c.error == if reader.broken then ReadFailed else UnexpectedEOF
      ensures old(Fed()) ==> Fed()
    {
      hide SkipSpace, FrontOf, Stop;
      ghost var fed := Fed();
      c := PeekNonSpace();
      if c.Err? {
        return;
      }
      if fed {
        Onward(At() + 1);
      }
      pos := pos + 1;
    }

    /** The bytes from start to pos are the input from p on. */
    function Slice(start: nat, ghost p: nat): (r: Bytes)
      requires Valid() && mark <= start <= pos && p == At() - (pos - start)
      reads this, reader, buf
      ensures r == reader.input[p..At()]
    {
      buf[start..pos]
    }

    /** Behind a value the buffer is used up only if the value closed itself; and if it was fed, exactly when also a
        piece ends there. */
    ghost predicate RunDry(closed: bool, fed: bool)
      requires Valid()
      reads this, reader, buf
    {
      && (pos == end ==> closed)
      && (fed ==> (pos == end <==> closed && (At() in reader.cuts || At() == |reader.input|)))
    }

    /** One byte read. */
    method Forward()
      requires Valid() && pos < end
      modifies this`pos
      ensures Valid() && pos == old(pos) + 1 && At() == old(At()) + 1
      ensures old(Fed()) ==> Fed() && RunDry(true, true)
    {
      hide Stop;
      if Fed() {
        Onward(At() + 1);
      }
      pos := pos + 1;
    }

    /** Scans what the buffer holds: either the value is complete, or the buffer is used up. */
    method ScanBuffered(start: nat, st0: State, ghost p: nat) returns (done: Option<Bytes>, st: State)
      requires Valid() && mark == start <= pos && p == At() - (pos - start)
      modifies this`pos, this`mark
      ensures Valid() && old(pos) <= pos
      ensures done.Some? ==> ValueEnd(reader.input, old(At()), st0) == Some(At()) && done.value == reader.input[p..At()]
      ensures done == None ==> pos == end && mark == start && p == At() - (pos - start)
      ensures done == None ==> Alike(reader.input, old(At()), st0, At(), st)
      ensures old(Fed()) ==> Fed()
      ensures done.Some? ==> RunDry(Closes(reader.input, old(At()), st0), old(Fed()))
    {
      hide ValueEnd, FinalState, Closes, Advance, Stop, FrontOf;
      st := st0;
      AlikeSelf(reader.input, At(), st0);
      hide Alike;
      ghost var input, p0 := reader.input, At();
      ghost var fed := Fed();
      while pos < end
        invariant Valid() && mark == start <= pos && old(pos) <= pos && p == At() - (pos - start)
        invariant Alike(input, p0, st0, At(), st)
        invariant fed ==> Fed()
        modifies this`pos, this`mark
      {
        Current();
        var step := Advance(st, buf[pos]);
        OneByte(input, p0, st0, At(), st);
        if step.StopBefore? {
          done := Some(Slice(start, p));
          mark := pos;
          return;
        }
        Forward();
        if step.StopAfter? {
          done := Some(Slice(start, p));
          mark := pos;
          return;
        }
        st := step.st;
      }
      done := None;
    }

    /** The input has ended inside the value, which the last refill has moved to the front of the buffer. */
    method EndValue(start: nat, st: State, err: Failure, ghost p: nat) returns (r: Result<Bytes, Failure>)
      requires Valid() && mark == 0 && pos == end && reader.at == |reader.input| && p < |reader.input|
      requires pos == |reader.input| - p && FinalState(reader.input, p, START) == st
      requires err == if reader.broken then ReadFailed else UnexpectedEOF
      modifies this`mark
      ensures Valid() && At() == |reader.input| && r == Unfinished(reader.input, p, reader.broken, start)
    {
      hide FinalState;
      r := Err(err);
      if err == UnexpectedEOF && st.depth == 0 && !st.inString && pos > start {
        r := Ok(buf[start..pos]);
        assert buf[start..pos] == reader.input[p..][start..];
        mark := pos;
      }
    }

    /** One value from its first byte on, whatever the pieces it arrives in. If the input ends inside it, its start is
        taken from the front of the buffer when there was a refill, and otherwise from where it stood. */
    method ScanFrom() returns (r: Result<Bytes, Failure>)
      requires Valid() && pos < end
      modifies this, reader, buf
      ensures Valid() && fresh({buf} - {old(buf)})
      ensures var p := old(At());
              var e := ValueEnd(reader.input, p, START);
              e.Some? ==>
                && r == Ok(reader.input[p..e.value]) && At() == e.value
                && RunDry(Closes(reader.input, p, START), old(Fed())) && (old(Fed()) ==> Fed())
      ensures var p := old(At());
              var offset := if old(reader.at) < |reader.input| then 0 else old(pos);
              ValueEnd(reader.input, p, START) == None ==>
                r == Unfinished(reader.input, p, reader.broken, offset) && At() == |reader.input|
      ensures var p := old(At());
              EndsOpen(reader.input, p) && !reader.broken ==>
                (r == Ok(reader.input[p..]) <==> old(reader.at) < |reader.input| || old(pos) == 0)
    {
      hide ValueEnd, FinalState, Closes, Stop;
      ghost var p, input, fed := At(), reader.input, Fed();
      WholeAt(input, p, if reader.at < |input| then 0 else pos);
      mark := pos;
      var start, st := pos, START;
      while true
        invariant Valid() && fresh({buf} - {old(buf)})
        invariant mark == start <= pos && p == At() - (pos - start) && (pos > start || At() < |input|)
        invariant old(reader.at) <= reader.at && start == if reader.at > old(reader.at) then 0 else old(pos)
        invariant Alike(input, p, START, At(), st)
        invariant fed ==> Fed()
        decreases |input| - reader.at
      {
        var done;
        done, st := ScanBuffered(start, st, p);
        if done.Some? {
          return Ok(done.value);
        }
        var before := mark;
        var err := Fill();
        if err.Some? {
          EndOfInput(input, st);
          r := EndValue(start, st, err.value, p);
          return;
        }
        start := start - (before - mark);
      }
    }

    /** One value, complete, whatever the pieces it arrives in. When the input ends inside it the outcome depends on the
        offset of its start, which is known beforehand for a buffer that holds the input. */
    method ScanValue() returns (r: Result<Bytes, Failure>, ghost offset: nat)
      requires Valid()
      modifies this, reader, buf
      ensures Valid() && fresh({buf} - {old(buf)})
      ensures var p := SkipSpace(reader.input, old(At()));
              var e := ValueEnd(reader.input, p, START);
              e.Some? ==>
                && r == Ok(reader.input[p..e.value]) && At() == e.value
                && RunDry(Closes(reader.input, p, START), old(Fed())) && (old(Fed()) ==> Fed())
      ensures var p := SkipSpace(reader.input, old(At()));
              ValueEnd(reader.input, p, START) == None ==>
                r == Unfinished(reader.input, p, reader.broken, offset) && At() == |reader.input|
      ensures var p := SkipSpace(reader.input, old(At()));
              old(Fed()) && p < |reader.input| ==>
                offset == if Stop(reader.cuts, |reader.input|, p) < |reader.input| then 0
                          else old(Front(SkipSpace(reader.input, At())))
    {
      hide ValueEnd, FinalState, SkipSpace, Closes, Stop, FrontOf;
      offset := 0;
      var c := PeekNonSpace();
      if c.Err? {
        EndsNowhere(reader.input);
        return Err(c.error), 0;
      }
      offset := if reader.at < |reader.input| then 0 else pos;
      r := ScanFrom();
    }

    /** One element scanned and added to the batch; the batch is flushed when it is full or the buffer has run dry.
        t elements were taken before; dry is corrected to say whether the buffer has run dry behind this one. */
    method TakeElement<A(!new)>(unmarshal: Bytes -> Option<seq<A>>, accepts: seq<A> -> bool,
                                ghost dec: Bytes -> Option<A>, ghost es: Elements, ghost dry0: seq<bool>, ghost t: nat,
                                batch0: Bytes, count0: nat, delivered0: seq<A>)
      returns (batch: Bytes, count: nat, delivered: seq<A>, err: Option<Failure>, ghost dry: seq<bool>)
      requires Valid() && Elementwise(unmarshal, dec)
      requires Holding(dec, accepts, es, dry0, t, batch0, count0, delivered0)
      requires ElementsFrom(reader.input, At()) == Elements(es.values[t..], es.next, es.partial)
      requires dry0[t..] == DryAt(MarksFrom(reader.input, At()), reader.cuts, |reader.input|)
      modifies this, reader, buf
      ensures Valid() && fresh({buf} - {old(buf)}) && |dry| == |dry0| == |es.values|
      ensures err.Some? ==> Ends(dec, accepts, es, dry, delivered, err)
      ensures var p := SkipSpace(reader.input, old(At()));
              err == None ==>
                if p < |reader.input| && ValueEnd(reader.input, p, START).Some? then
                  && At() == ValueEnd(reader.input, p, START).value && t < |es.values|
                  && Holding(dec, accepts, es, dry, t + 1, batch, count, delivered)
                else At() == |reader.input| && es.next == None && es.partial
      ensures var p := SkipSpace(reader.input, old(At()));
              old(Fed()) && ValueEnd(reader.input, p, START).Some? ==> Fed()
      ensures |dry| == |dry0| && t <= |dry| && (t < |dry| ==> dry[t + 1..] == dry0[t + 1..])
      ensures old(Fed()) ==> dry == dry0
    {
      hide SkipSpace, ElementsFrom, MarksFrom, DecodeAll, Elementwise, ValueEnd, EndsOpen, Closes, Join, Unfinished;
      hide Holding, Ends, Full, Stop, FrontOf, Flushed, DryAt;
      ghost var input, p := reader.input, At();
      ghost var start := SkipSpace(input, p);
      NextElement(input, p);
      NextDry(input, p, reader.cuts);
      SkipAtEnd(input);
      EndsNowhere(input);
      HoldingSize(dec, accepts, es, dry0, t, batch0, count0, delivered0);
      var raw, offset := ScanValue();
      ghost var cut := start == |input| || ValueEnd(input, start, START) == None;
      UnfinishedStarted(input, start, reader.broken, offset);
      dry := dry0;
      if raw.Err? {
        ScanFailed(dec, accepts, es, dry0, batch0, count0, delivered0, Some(raw.error));
        return batch0, count0, delivered0, Some(raw.error), dry;
      }
      if !cut {
        dry := dry[t := pos >= end];
        if pos >= end {
          ClosedNotEmpty(input, start, START);
        }
      }
      batch, count, delivered, err :=
        Queue(unmarshal, accepts, dec, es, dry0, t, batch0, count0, delivered0, raw.value, pos >= end, cut);
    }

    /** The array behind a consumed '[', whatever the pieces it arrives in: `dry` says behind which of the elements it
        scanned the buffer ran dry, which for a buffer that holds the input is where pieces end. */
    method StreamAccounts<A(!new)>(unmarshal: Bytes -> Option<seq<A>>, accepts: seq<A> -> bool,
                                   ghost dec: Bytes -> Option<A>)
      returns (delivered: seq<A>, err: Option<Failure>, ghost dry: seq<bool>)
      requires Valid() && Elementwise(unmarshal, dec)
      modifies this, reader, buf
      ensures Valid() && fresh({buf} - {old(buf)})
      ensures |dry| == |ArrayFrom(reader.input, old(At())).values|
      ensures Ends(dec, accepts, ArrayFrom(reader.input, old(At())), dry, delivered, err)
      ensures err == None ==> ArrayFrom(reader.input, old(At())).next == Some(At())
      ensures old(Fed()) ==> dry == DryAt(ArrayMarks(reader.input, old(At())), reader.cuts, |reader.input|)
    {
      hide SkipSpace, ElementsFrom, MarksFrom, Elementwise, ValueEnd, Holding, Ends, DryAt, Stop, FrontOf;
      ghost var input := reader.input;
      ghost var es := ArrayFrom(input, At());
      SkipTwice(input, At());
      MarksTwice(input, At());
      ArrayMarked(input, At());
      dry := DryAt(ArrayMarks(input, At()), reader.cuts, |input|);
      DryPresent(es, ArrayMarks(input, At()), reader.cuts, |input|);
      HoldNothing(dec, accepts, es, dry);
      var c := PeekNonSpace();
      NextElement(input, At());
      if c.Err? {
        ScanFailed(dec, accepts, es, dry, [], 0, [], Some(c.error));
        return [], Some(c.error), dry;
      }
      if c.value == CLOSE_BRACKET {
        pos := pos + 1;
        LastFlush(unmarshal, dec, accepts, es, dry, [], 0, []);
        return [], None, dry;
      }
      delivered, err, dry := StreamElements(unmarshal, accepts, dec, es, dry);
    }

    /** The loop over the elements. */
    method StreamElements<A(!new)>(unmarshal: Bytes -> Option<seq<A>>, accepts: seq<A> -> bool,
                                   ghost dec: Bytes -> Option<A>, ghost es: Elements, ghost dry0: seq<bool>)
      returns (delivered: seq<A>, err: Option<Failure>, ghost dry: seq<bool>)
      requires Valid() && Elementwise(unmarshal, dec)
      requires es == ElementsFrom(reader.input, At())
      requires Holding(dec, accepts, es, dry0, 0, [], 0, [])
      requires dry0 == DryAt(MarksFrom(reader.input, At()), reader.cuts, |reader.input|)
      modifies this, reader, buf
      ensures Valid() && fresh({buf} - {old(buf)})
      ensures |dry| == |es.values| && Ends(dec, accepts, es, dry, delivered, err)
      ensures err == None ==> es.next == Some(At())
      ensures old(Fed()) ==> dry == dry0
    {
      hide SkipSpace, ElementsFrom, MarksFrom, Elementwise, ValueEnd, Holding, Ends, Join, Refused, DryAt, Stop,
           FrontOf;
      hide Flushed;
      ghost var input, t, fed := reader.input, 0, Fed();
      var batch: Bytes, count := [], 0;
      delivered, dry := [], dry0;
      HoldingSize(dec, accepts, es, dry, 0, [], 0, []);
      while true
        invariant Valid() && fresh({buf} - {old(buf)})
        invariant Holding(dec, accepts, es, dry, t, batch, count, delivered) && t <= |es.values| == |dry|
        invariant ElementsFrom(input, At()) == Elements(es.values[t..], es.next, es.partial)
        invariant dry[t..] == DryAt(MarksFrom(input, At()), reader.cuts, |input|)
        invariant fed ==> Fed() && dry == dry0
        decreases |input| - At()
      {
        AfterElement(input, At());
        NextDry(input, At(), reader.cuts);
        SkipAtEnd(input);
        batch, count, delivered, err, dry := TakeElement(unmarshal, accepts, dec, es, dry, t, batch, count, delivered);
        if err.Some? {
          return;
        }
        var next := NextNonSpace();
        if next != Ok(COMMA) {
          delivered, err := EndArray(unmarshal, accepts, dec, es, dry, batch, count, delivered, next);
          return;
        }
        t := t + 1;
      }
    }
  }

  /** What no comma follows: the last flush behind a bracket, and otherwise an error. */
  method EndArray<A(!new)>(unmarshal: Bytes -> Option<seq<A>>, accepts: seq<A> -> bool, ghost dec: Bytes -> Option<A>,
                           ghost es: Elements, ghost dry: seq<bool>, batch: Bytes, count: nat, before: seq<A>,
                           next: Result<Byte, Failure>)
    returns (delivered: seq<A>, err: Option<Failure>)
    requires Elementwise(unmarshal, dec) && next != Ok(COMMA) && |dry| == |es.values|
    requires if es.next.Some? then next == Ok(CLOSE_BRACKET) && !es.partial else next != Ok(CLOSE_BRACKET)
    requires !es.partial ==> Holding(dec, accepts, es, dry, |es.values|, batch, count, before)
    ensures Ends(dec, accepts, es, dry, delivered, err) && (err == None ==> es.next.Some?)
  {
    hide Holding, Elementwise, Join, Refused, Flushed, Ends;
    if next == Ok(CLOSE_BRACKET) {
      HoldingSize(dec, accepts, es, dry, |es.values|, batch, count, before);
      LastFlush(unmarshal, dec, accepts, es, dry, batch, count, before);
      assert es.values[|es.values| - count..] == es.values[|es.values| - count..|es.values|];
      delivered, err := Flush(unmarshal, accepts, es.values[|es.values| - count..], batch, count, before);
      return;
    }
    delivered, err := before, Some(if next.Err? then next.error else Expected);
    if es.partial {
      EndsInside(dec, accepts, es, dry, delivered, err);
    } else {
      ScanFailed(dec, accepts, es, dry, batch, count, before, err);
    }
  }

  /** Adds a scanned element to the batch and flushes the batch when it is full or the buffer ran dry. `cut` says that
      the element is what was left of the input. */
  method Queue<A(!new)>(unmarshal: Bytes -> Option<seq<A>>, accepts: seq<A> -> bool, ghost dec: Bytes -> Option<A>,
                        ghost es: Elements, ghost dry: seq<bool>, ghost t: nat, batch0: Bytes, count0: nat,
                        delivered0: seq<A>, raw: Bytes, ran: bool, ghost cut: bool)
    returns (batch: Bytes, count: nat, delivered: seq<A>, err: Option<Failure>)
    requires Elementwise(unmarshal, dec)
    requires Holding(dec, accepts, es, dry, t, batch0, count0, delivered0) && t <= |es.values| == |dry|
    requires if cut then es.partial else t < |es.values| && raw == es.values[t] && (ran ==> raw != [])
    ensures err == None && !cut ==> Holding(dec, accepts, es, dry[t := ran], t + 1, batch, count, delivered)
    ensures err.Some? ==> Ends(dec, accepts, es, if cut then dry else dry[t := ran], delivered, err)
  {
    hide Holding, Elementwise, Join, Refused, Flushed, Seen, Hands, Complete, Handed;
    HoldingSize(dec, accepts, es, dry, t, batch0, count0, delivered0);
    batch := (if count0 == 0 then batch0 + [OPEN_BRACKET] else batch0 + [COMMA]) + raw;
    count := count0 + 1;
    delivered, err := delivered0, None;
    ghost var pending := es.values[t - count0..t];
    JoinStep(pending, raw);
    assert !cut ==> pending + [raw] == es.values[t - count0..t + 1];
    if !cut {
      JoinNext(dec, accepts, es, dry, t, batch0, count0, delivered0);
    }
    if count >= BATCH_ELEMENTS || |batch| >= BATCH_BYTES || ran {
      delivered, err := Flush(unmarshal, accepts, pending + [raw], batch, count, delivered);
      if !cut {
        TakeFlushed(unmarshal, dec, accepts, es, dry, t, batch0, count0, delivered0, ran);
      }
      batch, count := [], 0;
    } else if !cut {
      TakeWaiting(dec, accepts, es, dry, t, batch0, count0, delivered0);
    }
  }

  /** Hands the accounts to the callback one by one until it refuses. */
  method Deliver<A>(accepts: seq<A> -> bool, before: seq<A>, accounts: seq<A>)
    returns (delivered: seq<A>, refused: bool)
    requires !Refused(accepts, before)
    ensures var d := before + accounts;
            delivered == d[..Seen(accepts, d)] && refused == Refused(accepts, d)
  {
    hide Seen;
    ghost var d := before + accounts;
    delivered := before;
    SeenAll(accepts, before);
    assert forall j :: 0 < j <= |before| ==> d[..j] == before[..j];
    for i := 0 to |accounts|
      invariant delivered == d[..|before| + i]
      invariant forall j :: 0 < j <= |before| + i ==> accepts(d[..j])
    {
      delivered := delivered + [accounts[i]];
      assert delivered == d[..|before| + i + 1];
      if !accepts(delivered) {
        SeenIs(accepts, d, |before| + i + 1);
        return delivered, true;
      }
    }
    SeenIs(accepts, d, |d|);
    refused := false;
    assert d[..|d|] == d;
  }

  /** Decodes one batch and hands it to the callback. */
  method Flush<A>(unmarshal: Bytes -> Option<seq<A>>, accepts: seq<A> -> bool, ghost pending: seq<Bytes>,
                  batch: Bytes, count: nat, before: seq<A>)
    returns (delivered: seq<A>, err: Option<Failure>)
    requires batch == Join(pending) && count == |pending| && !Refused(accepts, before)
    ensures (delivered, err) == Flushed(unmarshal, accepts, pending, before)
  {
    hide Seen, Join, Refused;
    if count == 0 {
      return before, None;
    }
    var accounts := unmarshal(batch + [CLOSE_BRACKET]);
    assert batch + [CLOSE_BRACKET] == Batch(pending);
    if accounts == None {
      return before, Some(DecodeFailed);
    }
    var refused;
    delivered, refused := Deliver(accepts, before, accounts.value);
    err := if refused then Some(CallbackFailed) else None;
  }

  // ----- from the start of an input -----

  /** How far into its value a scan begun at the start of the input misses the value's start, when the input ends inside
      the value: nothing if it arrives in several pieces, else the bytes in front of it in its piece. */
  function Lost(cuts: set<nat>, size: nat, p: nat): (n: nat)
    requires p < size
  {
    if Stop(cuts, size, p) < size then 0 else p - LastCut(cuts, p)
  }

  lemma {:induction false} FrontOfFirst(cuts: set<nat>, size: nat, p: nat)
    requires p < size
    ensures FrontOf(cuts, size, 0, 0, p) == p - LastCut(cuts, p)
  {
    if p < Stop(cuts, size, 0) {
      assert LastCut(cuts, p) == 0;
    }
  }

  /** Scans the first value of an input. */
  method ScanFirst(input: Bytes, broken: bool, cuts: set<nat>, capacity: nat) returns (r: Result<Bytes, Failure>)
    requires capacity > 0 && capacity >= |input|
    ensures var p := SkipSpace(input, 0);
            match ValueEnd(input, p, START)
            case Some(e) => r == Ok(input[p..e])
            case None => r == Unfinished(input, p, broken, if p < |input| then Lost(cuts, |input|, p) else 0)
  {
    hide SkipSpace, ValueEnd, FinalState, Stop, FrontOf, LastCut;
    var reader := new Reader(input, broken, cuts);
    var scanner := new Scanner(reader, capacity);
    ghost var p := SkipSpace(input, 0);
    if p < |input| {
      FrontOfFirst(cuts, |input|, p);
    }
    ghost var offset;
    r, offset := scanner.ScanValue();
  }

  /** A primitive that runs to the end of the input comes back whole exactly when it begins the input or a piece, or
      arrives in several pieces. */
  lemma {:induction false} WholeExact(input: Bytes, p: nat, cuts: set<nat>)
    requires p < |input| && EndsOpen(input, p)
    ensures Unfinished(input, p, false, Lost(cuts, |input|, p)) == Ok(input[p..]) <==>
            p == 0 || exists c :: c in cuts && p <= c < |input|
  {
    hide EndsOpen, Unfinished, Stop, LastCut;
    WholeAt(input, p, Lost(cuts, |input|, p));
    if c :| c in cuts && p <= c < |input| {
      assert c == p || Stop(cuts, |input|, p) <= c;
    }
  }

  /** The same three bytes: a space and a number, in one piece and in two. */
  method SpaceTwelve() returns (one: Result<Bytes, Failure>, two: Result<Bytes, Failure>)
    ensures one == Ok([50]) && two == Ok([49, 50])
  {
    var input: Bytes := [SPACE, 49, 50];
    one := ScanFirst(input, false, {}, 65536);
    two := ScanFirst(input, false, {1}, 65536);
    assert SkipSpace(input, 0) == 1;
    assert ValueEnd(input, 1, START) == None && FinalState(input, 1, START) == START by {
      assert ValueEnd(input, 3, START) == None && FinalState(input, 3, START) == START;
      assert ValueEnd(input, 2, START) == None && FinalState(input, 2, START) == START;
    }
    assert Stop({}, 3, 1) == 3 && LastCut({}, 1) == 0;
    assert input[1..][1..] == [50] && input[1..][0..] == [49, 50];
  }

  /** Streams an array from the start of an input, its bracket consumed. */
  method StreamFirst<A(!new)>(input: Bytes, broken: bool, cuts: set<nat>, capacity: nat,
                              unmarshal: Bytes -> Option<seq<A>>, accepts: seq<A> -> bool,
                                  ghost dec: Bytes -> Option<A>)
    returns (delivered: seq<A>, err: Option<Failure>)
    requires capacity > 0 && capacity >= |input| && Elementwise(unmarshal, dec)
    ensures var es, dry := ArrayFrom(input, 0), DryAt(ArrayMarks(input, 0), cuts, |input|);
            |dry| == |es.values| && Ends(dec, accepts, es, dry, delivered, err)
    ensures err == None <==> EndsWell(dec, accepts, input, 0, cuts)
  {
    hide ArrayFrom, ArrayMarks, Stop, FrontOf, Ends, Elementwise;
    var reader := new Reader(input, broken, cuts);
    var scanner := new Scanner(reader, capacity);
    ghost var dry;
    delivered, err, dry := scanner.StreamAccounts(unmarshal, accepts, dec);
    NoErrorExact(dec, accepts, ArrayFrom(input, 0), dry, delivered, err);
  }

  const OBJECT: Bytes := [OPEN_BRACE, CLOSE_BRACE]

  /** An empty object and a trailing comma: what the scanner finds. */
  lemma {:induction false} ObjectComma(input: Bytes)
    requires input == OBJECT + [COMMA, CLOSE_BRACKET]
    ensures ArrayFrom(input, 0) == Elements([OBJECT, []], Some(4), false)
    ensures ArrayMarks(input, 0) == [Mark(2, true), Mark(3, false)]
  {
    var inside := State(1, false, false);
    assert input[0] == OPEN_BRACE && input[1] == CLOSE_BRACE && input[2] == COMMA && input[3] == CLOSE_BRACKET;
    assert Advance(START, OPEN_BRACE) == Next(inside) && Advance(inside, CLOSE_BRACE) == StopAfter;
    assert ValueEnd(input, 1, inside) == Some(2) && Closes(input, 1, inside);
    assert ValueEnd(input, 0, START) == Some(2) && Closes(input, 0, START);
    assert ValueEnd(input, 3, START) == Some(3) && !Closes(input, 3, START);
    NotSpace(input, 0);
    NotSpace(input, 2);
    NotSpace(input, 3);
    SecondMissing(input);
    hide ElementsFrom, MarksFrom, ValueEnd, Closes, SkipSpace;
    NextElement(input, 0);
    NextMark(input, 0);
    assert input[0..2] == OBJECT;
  }

  lemma {:induction false} SecondMissing(input: Bytes)
    requires |input| == 4 && input[3] == CLOSE_BRACKET
    requires ValueEnd(input, 3, START) == Some(3) && !Closes(input, 3, START) && SkipSpace(input, 3) == 3
    ensures ElementsFrom(input, 3) == Elements([[]], Some(4), false) && MarksFrom(input, 3) == [Mark(3, false)]
  {
    hide ElementsFrom, MarksFrom, ValueEnd, Closes, SkipSpace;
    NextElement(input, 3);
    NextMark(input, 3);
    assert input[3..3] == [];
  }

  lemma {:induction false} OneWaits(dry: seq<bool>)
    requires |dry| == 2
    ensures Waiting([OBJECT, []], dry, 1) == if dry[0] then 0 else 1
    ensures Present([OBJECT, []]) == 1
  {
    assert [OBJECT, []][0..1] == [OBJECT];
    assert Waiting([OBJECT, []], dry, 0) == 0;
    assert [OBJECT, []][1..] == [[]];
  }

  /** The same four bytes, an empty object and a trailing comma: refused in one piece, accepted when cut behind the
      object. */
  method ObjectCommaStreamed<A(!new)>(unmarshal: Bytes -> Option<seq<A>>, ghost dec: Bytes -> Option<A>, account: A)
    returns (one: (seq<A>, Option<Failure>), two: (seq<A>, Option<Failure>))
    requires Elementwise(unmarshal, dec) && dec(OBJECT) == Some(account)
    ensures one == ([], Some(DecodeFailed)) && two == ([account], None)
  {
    hide ArrayFrom, ArrayMarks, Elementwise, Waiting, Present;
    var input := OBJECT + [COMMA, CLOSE_BRACKET];
    var accepts := (all: seq<A>) => true;
    var d, e := StreamFirst(input, false, {}, 65536, unmarshal, accepts, dec);
    var d', e' := StreamFirst(input, false, {2}, 65536, unmarshal, accepts, dec);
    one, two := (d, e), (d', e');
    ObjectComma(input);
    OneWaits(DryAt(ArrayMarks(input, 0), {}, 4));
    OneWaits(DryAt(ArrayMarks(input, 0), {2}, 4));
    var values: seq<Bytes> := [OBJECT, []];
    assert values[..0] == [] && values[..1] == [OBJECT];
    assert DecodeAll(dec, []) == Some([]);
    assert DecodeAll(dec, [OBJECT]) == Some([account]) by {
      assert [OBJECT][..0] == [];
    }
    SeenIs(accepts, [account], 1);
    assert !Refused(accepts, [account]) && [account][..1] == [account];
  }
}
