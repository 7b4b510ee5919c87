/**
 What the incremental JSON scanner of rpc/stream.go computes, as functions of the whole input.
 */
module JsonScan {
  import opened Wrappers
  import opened ByteStrings

  const SPACE: Byte := 32
  const TAB: Byte := 9
  const NEWLINE: Byte := 10
  const RETURN: Byte := 13
  const QUOTE: Byte := 34
  const BACKSLASH: Byte := 92
  const COMMA: Byte := 44
  const OPEN_BRACKET: Byte := 91
  const CLOSE_BRACKET: Byte := 93
  const OPEN_BRACE: Byte := 123
  const CLOSE_BRACE: Byte := 125

  predicate IsSpace(c: Byte) {
    c == SPACE || c == TAB || c == NEWLINE || c == RETURN
  }

  /** The first position from p on that holds no white space. */
  function SkipSpace(s: Bytes, p: nat): (q: nat)
    requires p <= |s|
    ensures p <= q <= |s|
    ensures q < |s| ==> !IsSpace(s[q])
    ensures forall i :: p <= i < q ==> IsSpace(s[i])
    decreases |s| - p
  {
    if p < |s| && IsSpace(s[p]) then SkipSpace(s, p + 1) else p
  }

  /** Nesting depth, inside a string, behind a backslash. */
  datatype State = State(depth: nat, inString: bool, escaped: bool)

  const START: State := State(0, false, false)

  datatype Step = Next(st: State) | StopBefore | StopAfter

  /** One byte of scanValue's loop. */
  function Advance(st: State, c: Byte): (r: Step) {
    if st.inString then
      if st.escaped then Next(st.(escaped := false))
      else if c == BACKSLASH then Next(st.(escaped := true))
      else if c == QUOTE then (if st.depth == 0 then StopAfter else Next(st.(inString := false)))
      else Next(st)
    else if c == QUOTE then Next(st.(inString := true))
    else if c == OPEN_BRACE || c == OPEN_BRACKET then Next(st.(depth := st.depth + 1))
    else if c == CLOSE_BRACE || c == CLOSE_BRACKET then
      if st.depth == 0 then StopBefore
      else if st.depth == 1 then StopAfter
      else Next(st.(depth := st.depth - 1))
    else if c == COMMA && st.depth == 0 then StopBefore
    else Next(st)
  }

  /** Where the value being scanned at position i in state st ends, None when the input ends first. */
  function ValueEnd(s: Bytes, i: nat, st: State): (e: Option<nat>)
    requires i <= |s|
    ensures e.Some? ==> i <= e.value <= |s|
    decreases |s| - i
  {
    if i == |s| then None
    else
      match Advance(st, s[i])
      case StopBefore => Some(i)
      case StopAfter => Some(i + 1)
      case Next(st') => ValueEnd(s, i + 1, st')
  }

  /** Whether a value ends with a byte of its own, as strings, objects and arrays do, rather than before the next. */
  predicate Closes(s: Bytes, i: nat, st: State)
    requires i <= |s|
    decreases |s| - i
  {
    i < |s| &&
    match Advance(st, s[i])
    case StopBefore => false
    case StopAfter => true
    case Next(st') => Closes(s, i + 1, st')
  }

  /** The state in which the input runs out. */
  function FinalState(s: Bytes, i: nat, st: State): (r: State)
    requires i <= |s|
    decreases |s| - i
  {
    if i == |s| then st
    else
      match Advance(st, s[i])
      case Next(st') => FinalState(s, i + 1, st')
      case _ => st
  }

  /** The value at p is a primitive that runs to the end of the input. */
  predicate EndsOpen(s: Bytes, p: nat) {
    && p < |s| && ValueEnd(s, p, START) == None
    && FinalState(s, p, START).depth == 0 && !FinalState(s, p, START).inString
  }

  // ----- elements -----

  /** A byte string that scans as exactly one value when a comma follows. */
  predicate IsElement(e: Bytes) {
    ValueEnd(e + [COMMA], 0, START) == Some(|e|)
  }

  /** An element that is there: not empty, and without leading white space. */
  predicate IsValue(e: Bytes) {
    e != [] && !IsSpace(e[0]) && IsElement(e)
  }

  /** What the scanner finds between commas: values, and nothing where one is missing. */
  predicate Scannable(es: seq<Bytes>) {
    forall i :: 0 <= i < |es| ==> es[i] == [] || IsValue(es[i])
  }

  /** The scanned bytes alone decide where the value ends. */
  lemma {:induction false} ScannedIsElement(s: Bytes, p: nat, i: nat, st: State)
    requires p <= i <= |s| && ValueEnd(s, i, st).Some?
    ensures var e := s[p..ValueEnd(s, i, st).value];
            i - p <= |e| && ValueEnd(e + [COMMA], i - p, st) == Some(|e|)
    decreases |s| - i
  {
    var end := ValueEnd(s, i, st).value;
    var e := s[p..end];
    var t := e + [COMMA];
    match Advance(st, s[i])
    case StopBefore =>
      assert t[i - p] == COMMA;
      assert !st.inString && st.depth == 0;
    case StopAfter =>
      assert t[i - p] == s[i];
    case Next(st') =>
      ScannedIsElement(s, p, i + 1, st');
      assert t[i - p] == s[i];
  }

  // ----- arrays -----

  /** What an array holds from position p on, just behind '[' or ',': its elements, and the position behind its ']'.
      When it is malformed or cut short, next is None and the elements are those scanned before; `partial` says that
      the input ends with a primitive that may go on. */
  datatype Elements = Elements(values: seq<Bytes>, next: Option<nat>, partial: bool)

  function ElementsFrom(s: Bytes, p: nat): (r: Elements)
    requires p <= |s|
    ensures r.next.Some? ==> p <= r.next.value <= |s| && !r.partial
    decreases |s| - p
  {
    var start := SkipSpace(s, p);
    if start == |s| then Elements([], None, false)
    else
      var end := ValueEnd(s, start, START);
      if end == None then Elements([], None, EndsOpen(s, start))
      else
        var e := s[start..end.value];
        var c := SkipSpace(s, end.value);
        if c == |s| then Elements([e], None, false)
        else if s[c] == CLOSE_BRACKET then Elements([e], Some(c + 1), false)
        else if s[c] == COMMA then
          var rest := ElementsFrom(s, c + 1);
          Elements([e] + rest.values, rest.next, rest.partial)
        else Elements([e], None, false)
  }

  /** The array whose '[' is already consumed. */
  function ArrayFrom(s: Bytes, p: nat): (r: Elements)
    requires p <= |s|
    ensures r.next.Some? ==> p <= r.next.value <= |s| && !r.partial
  {
    var start := SkipSpace(s, p);
    if start < |s| && s[start] == CLOSE_BRACKET then Elements([], Some(start + 1), false) else ElementsFrom(s, p)
  }

  // ----- where elements end -----

  /** Where an element ends, and whether it ends with a byte of its own. */
  datatype Mark = Mark(end: nat, closed: bool)

  function MarksFrom(s: Bytes, p: nat): (r: seq<Mark>)
    requires p <= |s|
    decreases |s| - p
  {
    var start := SkipSpace(s, p);
    if start == |s| || ValueEnd(s, start, START) == None then []
    else
      var end := ValueEnd(s, start, START).value;
      var c := SkipSpace(s, end);
      [Mark(end, Closes(s, start, START))] + if c < |s| && s[c] == COMMA then MarksFrom(s, c + 1) else []
  }

  lemma {:induction false} ClosedNotEmpty(s: Bytes, i: nat, st: State)
    requires i <= |s| && Closes(s, i, st)
    ensures ValueEnd(s, i, st).Some? && i < ValueEnd(s, i, st).value
    decreases |s| - i
  {
    if Advance(st, s[i]).Next? {
      ClosedNotEmpty(s, i + 1, Advance(st, s[i]).st);
    }
  }

  /** Marks behind p and inside the input, in order; with room for a ']' behind those of a complete array. */
  predicate InPlace(ms: seq<Mark>, p: nat, limit: nat) {
    && (forall i :: 0 <= i < |ms| ==> p <= ms[i].end <= limit)
    && (forall i, j :: 0 <= i < j < |ms| ==> ms[i].end < ms[j].end)
  }

  lemma {:induction false} InPlaceAfter(m: Mark, ms: seq<Mark>, p: nat, q: nat, limit: nat)
    requires InPlace(ms, q, limit) && p <= m.end < q && m.end <= limit
    ensures InPlace([m] + ms, p, limit)
  {
  }

  lemma {:induction false} NextMark(s: Bytes, p: nat)
    requires p <= |s|
    ensures var start := SkipSpace(s, p);
            start == |s| || ValueEnd(s, start, START) == None ==> MarksFrom(s, p) == []
    ensures var start := SkipSpace(s, p);
            var end := ValueEnd(s, start, START);
            start < |s| && end.Some? ==>
              var m, c := Mark(end.value, Closes(s, start, START)), SkipSpace(s, end.value);
              MarksFrom(s, p) == [m] + if c < |s| && s[c] == COMMA then MarksFrom(s, c + 1) else []
  {
    hide SkipSpace, ValueEnd, Closes;
  }

  lemma {:induction false} MarksInPlace(s: Bytes, p: nat)
    requires p <= |s|
    ensures InPlace(MarksFrom(s, p), p, if ElementsFrom(s, p).next.Some? then |s| - 1 else |s|)
    decreases |s| - p
  {
    hide InPlace, SkipSpace, ValueEnd, Closes, MarksFrom, ElementsFrom;
    NextMark(s, p);
    NextElement(s, p);
    var start := SkipSpace(s, p);
    if start < |s| && ValueEnd(s, start, START).Some? {
      var end := ValueEnd(s, start, START).value;
      var m := Mark(end, Closes(s, start, START));
      var c := SkipSpace(s, end);
      var limit := if ElementsFrom(s, p).next.Some? then |s| - 1 else |s|;
      if c < |s| && s[c] == COMMA {
        MarksInPlace(s, c + 1);
        InPlaceAfter(m, MarksFrom(s, c + 1), p, c + 1, limit);
      } else {
        NoMarks(end + 1, limit);
        InPlaceAfter(m, [], p, end + 1, limit);
        assert MarksFrom(s, p) == [m] + [];
      }
    } else {
      NoMarks(p, |s|);
      NoMarks(p, |s| - 1);
    }
  }

  lemma {:induction false} NoMarks(p: nat, limit: int)
    ensures limit >= 0 ==> InPlace([], p, limit)
  {
  }

  /** One mark an element, and only an element that is there closes itself. */
  lemma {:induction false} MarksOfElements(s: Bytes, p: nat)
    requires p <= |s|
    ensures var ms, values := MarksFrom(s, p), ElementsFrom(s, p).values;
            |ms| == |values| && forall i :: 0 <= i < |ms| && ms[i].closed ==> values[i] != []
    decreases |s| - p
  {
    hide SkipSpace, ValueEnd, Closes, MarksFrom, ElementsFrom;
    NextMark(s, p);
    NextElement(s, p);
    var start := SkipSpace(s, p);
    if start < |s| && ValueEnd(s, start, START).Some? {
      var end := ValueEnd(s, start, START).value;
      if Closes(s, start, START) {
        ClosedNotEmpty(s, start, START);
      }
      var c := SkipSpace(s, end);
      if c < |s| && s[c] == COMMA {
        MarksOfElements(s, c + 1);
      }
    }
  }

  lemma {:induction false} ScannedScannable(s: Bytes, start: nat)
    requires start < |s| && !IsSpace(s[start]) && ValueEnd(s, start, START).Some?
    ensures var e := s[start..ValueEnd(s, start, START).value]; e == [] || IsValue(e)
  {
    hide ValueEnd;
    ScannedIsElement(s, start, start, START);
  }

  lemma {:induction false} ElementsScannable(s: Bytes, p: nat)
    requires p <= |s|
    ensures Scannable(ElementsFrom(s, p).values)
    decreases |s| - p
  {
    hide SkipSpace, ValueEnd, ElementsFrom, IsValue;
    NextElement(s, p);
    var start := SkipSpace(s, p);
    if start < |s| && ValueEnd(s, start, START).Some? {
      ScannedScannable(s, start);
      var c := SkipSpace(s, ValueEnd(s, start, START).value);
      if c < |s| && s[c] == COMMA {
        ElementsScannable(s, c + 1);
      }
    }
  }

  /** The marks of the array whose '[' is already consumed. */
  function ArrayMarks(s: Bytes, p: nat): (r: seq<Mark>)
    requires p <= |s|
  {
    var start := SkipSpace(s, p);
    if start < |s| && s[start] == CLOSE_BRACKET then [] else MarksFrom(s, p)
  }

  lemma {:induction false} ArrayMarked(s: Bytes, p: nat)
    requires p <= |s|
    ensures var ms, es := ArrayMarks(s, p), ArrayFrom(s, p);
            && |ms| == |es.values| && Scannable(es.values)
            && InPlace(ms, p, if es.next.Some? then |s| - 1 else |s|)
            && (forall i :: 0 <= i < |ms| && ms[i].closed ==> es.values[i] != [])
  {
    hide SkipSpace, MarksFrom, ElementsFrom, IsValue;
    ElementsScannable(s, p);
    MarksInPlace(s, p);
    MarksOfElements(s, p);
  }

  /** A missing element is never alone in an array. */
  lemma {:induction false} NotOneMissing(s: Bytes, p: nat)
    requires p <= |s| && ArrayFrom(s, p).next.Some? && |ArrayFrom(s, p).values| == 1
    ensures ArrayFrom(s, p).values[0] != []
  {
    SkipTwice(s, p);
    NextElement(s, p);
  }

  // ----- steps of the streaming loop -----

  lemma {:induction false} NextElement(s: Bytes, p: nat)
    requires p <= |s|
    ensures var start := SkipSpace(s, p);
            start == |s| || ValueEnd(s, start, START) == None ==>
              ElementsFrom(s, p) == Elements([], None, EndsOpen(s, start))
    ensures var start := SkipSpace(s, p);
            var end := ValueEnd(s, start, START);
            start < |s| && end.Some? ==>
              var e, c := s[start..end.value], SkipSpace(s, end.value);
              ElementsFrom(s, p) ==
                if c < |s| && s[c] == CLOSE_BRACKET then Elements([e], Some(c + 1), false)
                else if c < |s| && s[c] == COMMA then
                  var more := ElementsFrom(s, c + 1);
                  Elements([e] + more.values, more.next, more.partial)
                else Elements([e], None, false)
  {
  }

  /** What remains of the array once the element at p is scanned, by the byte that follows it. */
  lemma {:induction false} AfterElement(s: Bytes, p: nat)
    requires p <= |s|
    ensures var start := SkipSpace(s, p);
            var end := ValueEnd(s, start, START);
            start < |s| && end.Some? ==>
              var c, es := SkipSpace(s, end.value), ElementsFrom(s, p);
              && |es.values| > 0
              && (c < |s| && s[c] == CLOSE_BRACKET ==> es.values[1..] == [] && es.next == Some(c + 1))
              && (c < |s| && s[c] == COMMA ==>
                    var more := ElementsFrom(s, c + 1);
                    es.values[1..] == more.values && es.next == more.next && es.partial == more.partial)
              && (c == |s| || (s[c] != COMMA && s[c] != CLOSE_BRACKET) ==> es.values[1..] == [] && es.next == None)
  {
    hide SkipSpace, ValueEnd;
    NextElement(s, p);
  }

  lemma {:induction false} SkipTwice(s: Bytes, p: nat)
    requires p <= |s|
    ensures SkipSpace(s, SkipSpace(s, p)) == SkipSpace(s, p)
    ensures ElementsFrom(s, SkipSpace(s, p)) == ElementsFrom(s, p)
  {
  }

  lemma {:induction false} MarksTwice(s: Bytes, p: nat)
    requires p <= |s|
    ensures MarksFrom(s, SkipSpace(s, p)) == MarksFrom(s, p)
  {
    hide ValueEnd, Closes, ElementsFrom;
    SkipTwice(s, p);
  }

  lemma {:induction false} SkipAtEnd(s: Bytes)
    ensures SkipSpace(s, |s|) == |s|
  {
  }
}
