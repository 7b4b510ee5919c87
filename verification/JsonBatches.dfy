/**
 How streamAccounts of rpc/stream.go batches array elements for the decoder: a batch is handed over when it is full
 or when the wire buffer has run dry, and what the callback sees must not depend on where that happens. It does not,
 unless an element is missing.
 */
module JsonBatches {
  import opened Wrappers
  import opened ByteStrings
  import opened JsonScan

  const BATCH_ELEMENTS := 32
  const BATCH_BYTES := 262144

  datatype Failure = UnexpectedEOF | ReadFailed | Expected | DecodeFailed | CallbackFailed

  // ----- batches -----

  function Join(es: seq<Bytes>): (r: Bytes) {
    if es == [] then []
    else if |es| == 1 then [OPEN_BRACKET] + es[0]
    else Join(es[..|es| - 1]) + [COMMA] + es[|es| - 1]
  }

  /** The batch as handed to the decoder. */
  function Batch(es: seq<Bytes>): (r: Bytes) {
    Join(es) + [CLOSE_BRACKET]
  }

  lemma {:induction false} JoinStep(es: seq<Bytes>, e: Bytes)
    ensures Join(es + [e]) == Join(es) + (if es == [] then [OPEN_BRACKET] else [COMMA]) + e
  {
    assert (es + [e])[..|es|] == es;
  }

  /** What follows the opening bracket. */
  function Listed(es: seq<Bytes>): (r: Bytes)
    requires es != []
  {
    if |es| == 1 then es[0] + [CLOSE_BRACKET] else es[0] + [COMMA] + Listed(es[1..])
  }

  lemma {:induction false} ListedStep(es: seq<Bytes>, e: Bytes)
    requires es != []
    ensures Listed(es)[..|Listed(es)| - 1] + [COMMA] + e + [CLOSE_BRACKET] == Listed(es + [e])
    ensures |Listed(es)| > 0
  {
    assert (es + [e])[0] == es[0] && (es + [e])[1..] == es[1..] + [e];
    if |es| > 1 {
      ListedStep(es[1..], e);
      var more := Listed(es[1..]);
      assert Listed(es)[..|Listed(es)| - 1] == es[0] + [COMMA] + more[..|more| - 1];
    } else {
      assert es[1..] + [e] == [e];
      assert Listed(es)[..|Listed(es)| - 1] == es[0];
    }
  }

  lemma {:induction false} BatchListed(es: seq<Bytes>)
    requires es != []
    ensures Batch(es) == [OPEN_BRACKET] + Listed(es)
  {
    if |es| > 1 {
      var before, last := es[..|es| - 1], es[|es| - 1];
      BatchListed(before);
      ListedStep(before, last);
      assert before + [last] == es;
      assert Join(before) == ([OPEN_BRACKET] + Listed(before))[..|Listed(before)|];
    }
  }

  // ----- scanning a batch gives its elements back -----

  /** An element scans alike wherever it stands. */
  lemma {:induction false} ElementEnds(e: Bytes, s: Bytes, q: nat, i: nat, st: State)
    requires i <= |e| && q + |e| < |s| && s[q..q + |e|] == e && (s[q + |e|] == COMMA || s[q + |e|] == CLOSE_BRACKET)
    requires ValueEnd(e + [COMMA], i, st) == Some(|e|)
    ensures ValueEnd(s, q + i, st) == Some(q + |e|)
    decreases |e| - i
  {
    var t := e + [COMMA];
    if i < |e| {
      assert t[i] == e[i] == s[q + i];
      match Advance(st, e[i])
      case Next(st') => ElementEnds(e, s, q, i + 1, st');
      case _ =>
    }
  }

  lemma {:induction false} NotSpace(s: Bytes, p: nat)
    requires p < |s| && !IsSpace(s[p])
    ensures SkipSpace(s, p) == p
  {
  }

  lemma {:induction false} ListedFirst(es: seq<Bytes>, s: Bytes, p: nat)
    requires es != [] && p <= |s| && s[p..] == Listed(es)
    ensures var q := p + |es[0]|;
            && q < |s| && s[p..q] == es[0]
            && (|es| == 1 ==> s[q] == CLOSE_BRACKET && |s| == q + 1)
            && (|es| > 1 ==> s[q] == COMMA && s[q + 1..] == Listed(es[1..]))
  {
    var e := es[0];
    var q := p + |e|;
    assert s[p..q] == s[p..][..|e|];
    assert s[q] == s[p..][|e|];
    if |es| > 1 {
      assert s[q + 1..] == s[p..][|e| + 1..];
    }
  }

  /** A list of elements, some perhaps missing, scans as just those elements. */
  lemma {:induction false} ListScans(es: seq<Bytes>, s: Bytes, p: nat)
    requires es != [] && Scannable(es) && p <= |s| && s[p..] == Listed(es)
    ensures ElementsFrom(s, p) == Elements(es, Some(|s|), false)
    decreases |es|
  {
    hide ValueEnd, SkipSpace, IsValue, ElementsFrom, Listed;
    ListedFirst(es, s, p);
    FirstElement(es[0], s, p);
    NotSpace(s, p + |es[0]|);
    NextElement(s, p);
    if |es| > 1 {
      ListScans(es[1..], s, p + |es[0]| + 1);
      assert [es[0]] + es[1..] == es;
    } else {
      assert [es[0]] == es;
    }
  }

  lemma {:induction false} FirstElement(e: Bytes, s: Bytes, p: nat)
    requires e == [] || IsValue(e)
    requires p + |e| < |s| && s[p..p + |e|] == e && (s[p + |e|] == COMMA || s[p + |e|] == CLOSE_BRACKET)
    ensures SkipSpace(s, p) == p && ValueEnd(s, p, START) == Some(p + |e|)
  {
    if e != [] {
      assert s[p] == s[p..p + |e|][0];
      ElementEnds(e, s, p, 0, START);
    }
  }

  /** A batch scans as its elements, unless all it has is one missing element. */
  lemma {:induction false} BatchScans(es: seq<Bytes>)
    requires es != [] && Scannable(es)
    ensures Batch(es)[0] == OPEN_BRACKET
    ensures ArrayFrom(Batch(es), 1) == Elements(if es == [[]] then [] else es, Some(|Batch(es)|), false)
  {
    BatchListed(es);
    var s := Batch(es);
    assert s[1..] == Listed(es);
    ListScans(es, s, 1);
    if es[0] == [] {
      assert s[1] == if |es| == 1 then CLOSE_BRACKET else COMMA;
      NotSpace(s, 1);
      if |es| == 1 {
        assert Listed(es) == [CLOSE_BRACKET] && es == [[]];
      }
    } else {
      StartsValue(es[0]);
      assert s[1] == es[0][0];
      NotSpace(s, 1);
    }
  }

  lemma {:induction false} StartsValue(e: Bytes)
    requires IsValue(e)
    ensures e[0] != CLOSE_BRACKET
  {
    assert (e + [COMMA])[0] == e[0];
  }

  // ----- decoding -----

  function DecodeAll<A>(dec: Bytes -> Option<A>, es: seq<Bytes>): (r: Option<seq<A>>)
    ensures r.Some? ==> |r.value| == |es|
  {
    if es == [] then Some([])
    else
      var before, last := DecodeAll(dec, es[..|es| - 1]), dec(es[|es| - 1]);
      if before.Some? && last.Some? then Some(before.value + [last.value]) else None
  }

  /** What the scanner relies on in a JSON decoder: a batch of values decodes value by value, the empty array is
      nothing, and an element missing beside a comma is refused. */
  ghost predicate Elementwise<A(!new)>(unmarshal: Bytes -> Option<seq<A>>, dec: Bytes -> Option<A>) {
    && unmarshal(Batch([[]])) == Some([])
    && (forall es: seq<Bytes> :: es != [] && Scannable(es) && [] !in es ==> unmarshal(Batch(es)) == DecodeAll(dec, es))
    && (forall es: seq<Bytes> :: |es| > 1 && Scannable(es) && [] in es ==> unmarshal(Batch(es)) == None)
  }

  /** Scans an array and decodes its elements. */
  function Decoded<A>(dec: Bytes -> Option<A>, b: Bytes): (r: Option<seq<A>>) {
    if b == [] || b[0] != OPEN_BRACKET then None
    else
      var es := ArrayFrom(b, 1);
      if es.next == Some(|b|) && [] !in es.values then DecodeAll(dec, es.values) else None
  }

  /** Whatever the decoding of one element, there is such a decoder. */
  lemma {:induction false} DecoderExists<A(!new)>(dec: Bytes -> Option<A>)
    ensures Elementwise(b => Decoded(dec, b), dec)
  {
    hide DecodeAll, ArrayFrom, Batch;
    forall es: seq<Bytes> | es != [] && Scannable(es)
      ensures Decoded(dec, Batch(es)) ==
              if es == [[]] then DecodeAll(dec, []) else if [] in es then None else DecodeAll(dec, es)
    {
      BatchScans(es);
    }
    NothingDecoded(dec);
    assert Scannable([[]]);
  }

  lemma {:induction false} NothingDecoded<A>(dec: Bytes -> Option<A>)
    ensures DecodeAll(dec, []) == Some([])
  {
  }

  lemma {:induction false} DecodeJoin<A>(dec: Bytes -> Option<A>, es: seq<Bytes>, fs: seq<Bytes>)
    ensures DecodeAll(dec, es + fs) ==
            var a, b := DecodeAll(dec, es), DecodeAll(dec, fs);
            if a.Some? && b.Some? then Some(a.value + b.value) else None
  {
    if fs == [] {
      assert es + fs == es;
      var a := DecodeAll(dec, es);
      assert a.Some? ==> a.value + [] == a.value;
    } else {
      var n := |fs| - 1;
      DecodeJoin(dec, es, fs[..n]);
      assert (es + fs)[..|es| + n] == es + fs[..n];
      var a, b, c := DecodeAll(dec, es), DecodeAll(dec, fs[..n]), dec(fs[n]);
      if a.Some? && b.Some? && c.Some? {
        assert a.value + (b.value + [c.value]) == (a.value + b.value) + [c.value];
      }
    }
  }

  // ----- the callback -----

  /** The number of accounts the callback sees: all, or up to and including the first it refuses. */
  function Seen<A>(accepts: seq<A> -> bool, all: seq<A>): (n: nat)
    ensures n <= |all|
  {
    if all == [] then 0
    else
      var before := Seen(accepts, all[..|all| - 1]);
      if before < |all| - 1 || (before > 0 && !accepts(all[..before])) then before else |all|
  }

  predicate Refused<A>(accepts: seq<A> -> bool, all: seq<A>) {
    Seen(accepts, all) > 0 && !accepts(all[..Seen(accepts, all)])
  }

  lemma {:induction false} SeenAll<A>(accepts: seq<A> -> bool, all: seq<A>)
    ensures !Refused(accepts, all) ==>
              Seen(accepts, all) == |all| && forall k :: 0 < k <= |all| ==> accepts(all[..k])
    ensures Refused(accepts, all) ==> forall k :: 0 < k < Seen(accepts, all) ==> accepts(all[..k])
  {
    if all != [] {
      var n := |all| - 1;
      SeenAll(accepts, all[..n]);
      assert forall k :: 0 <= k <= n ==> all[..n][..k] == all[..k];
      assert all[..|all|] == all;
    }
  }

  lemma {:induction false} SeenIs<A>(accepts: seq<A> -> bool, all: seq<A>, k: nat)
    requires k <= |all| && forall j :: 0 < j < k ==> accepts(all[..j])
    requires k == |all| || (k > 0 && !accepts(all[..k]))
    ensures Seen(accepts, all) == k
  {
    if all != [] {
      var n := |all| - 1;
      assert forall j :: 0 <= j <= n ==> all[..n][..j] == all[..j];
      if k <= n {
        SeenIs(accepts, all[..n], k);
      } else {
        SeenIs(accepts, all[..n], n);
      }
    }
  }

  lemma {:induction false} SeenPrefix<A>(accepts: seq<A> -> bool, d: seq<A>, all: seq<A>)
    requires d <= all && Refused(accepts, d)
    ensures Refused(accepts, all) && all[..Seen(accepts, all)] == d[..Seen(accepts, d)]
  {
    SeenAll(accepts, d);
    var k := Seen(accepts, d);
    assert forall j :: 0 <= j <= |d| ==> d[..j] == all[..j];
    SeenIs(accepts, all, k);
  }

  lemma {:induction false} NotRefusedAll<A>(accepts: seq<A> -> bool, d: seq<A>)
    requires !Refused(accepts, d)
    ensures d[..Seen(accepts, d)] == d
  {
    SeenAll(accepts, d);
  }

  /** What is delivered, and the error if any, once a batch behind `before` has been handed over. */
  function Flushed<A>(unmarshal: Bytes -> Option<seq<A>>, accepts: seq<A> -> bool, pending: seq<Bytes>, before: seq<A>)
    : (r: (seq<A>, Option<Failure>))
  {
    if pending == [] then (before, None)
    else
      match unmarshal(Batch(pending))
      case None => (before, Some(DecodeFailed))
      case Some(accounts) => Shown(accepts, before + accounts)
  }

  function Shown<A>(accepts: seq<A> -> bool, d: seq<A>): (r: (seq<A>, Option<Failure>)) {
    (d[..Seen(accepts, d)], if Refused(accepts, d) then Some(CallbackFailed) else None)
  }

  /** The accounts are a prefix of the decoded elements, in order. */
  ghost predicate InOrder<A>(dec: Bytes -> Option<A>, values: seq<Bytes>, accounts: seq<A>) {
    exists k: nat :: k <= |values| && DecodesTo(dec, values[..k], accounts)
  }

  /** The elements decode, and the accounts are the first of what they decode to. */
  predicate DecodesTo<A(==)>(dec: Bytes -> Option<A>, es: seq<Bytes>, accounts: seq<A>) {
    DecodeAll(dec, es).Some? && accounts <= DecodeAll(dec, es).value
  }

  // ----- flush points -----

  predicate Full(batch: seq<Bytes>) {
    |batch| >= BATCH_ELEMENTS || |Join(batch)| >= BATCH_BYTES
  }

  /** How many of the first i elements wait in the batch. dry[j] says that the buffer ran dry behind element j. */
  function Waiting(values: seq<Bytes>, dry: seq<bool>, i: nat): (w: nat)
    requires i <= |values| == |dry|
    ensures w <= i
  {
    if i == 0 then 0
    else
      var w := Waiting(values, dry, i - 1) + 1;
      if Full(values[i - w..i]) || dry[i - 1] then 0 else w
  }

  /** The elements now waiting were waiting as each of them was taken. */
  lemma {:induction false} WaitingRun(values: seq<Bytes>, dry: seq<bool>, i: nat, j: nat)
    requires i <= |values| == |dry| && i - Waiting(values, dry, i) <= j <= i
    ensures Waiting(values, dry, j) == j - (i - Waiting(values, dry, i))
    decreases i
  {
    hide Full;
    if j < i {
      WaitingRun(values, dry, i - 1, j);
    }
  }

  /** No more wait than were taken since the last flush. */
  lemma {:induction false} WaitingSince(values: seq<Bytes>, dry: seq<bool>, i: nat, j: nat)
    requires i <= j <= |values| == |dry| && Waiting(values, dry, i) == 0
    ensures Waiting(values, dry, j) <= j - i
    decreases j
  {
    hide Full;
    if i < j {
      WaitingSince(values, dry, i, j - 1);
    }
  }

  /** What waits is decided by what happened so far. */
  lemma {:induction false} WaitingSame(values: seq<Bytes>, dry: seq<bool>, dry': seq<bool>, i: nat)
    requires i <= |values| == |dry| == |dry'| && forall j :: 0 <= j < i ==> dry[j] == dry'[j]
    ensures Waiting(values, dry, i) == Waiting(values, dry', i)
  {
    hide Full;
    if i > 0 {
      WaitingSame(values, dry, dry', i - 1);
    }
  }

  // ----- how a stream ends -----

  /** How many elements come before the first that is missing. */
  function Present(es: seq<Bytes>): (k: nat)
    ensures k <= |es| && (k < |es| ==> es[k] == [])
    ensures forall i :: 0 <= i < k ==> es[i] != []
  {
    if es == [] || es[0] == [] then 0 else 1 + Present(es[1..])
  }

  /** The array is closed and no element is missing, or only the last, behind a trailing comma, and it is alone in
      its batch. */
  predicate Complete(es: Elements, dry: seq<bool>)
    requires |dry| == |es.values|
  {
    var k := Present(es.values);
    es.next.Some? && (k == |es.values| || (k + 1 == |es.values| && Waiting(es.values, dry, k) == 0))
  }

  /** The elements that reach the decoder in batches it can read. */
  function Handed(es: Elements, dry: seq<bool>): (n: nat)
    requires |dry| == |es.values|
    ensures n <= |es.values|
  {
    var k := Present(es.values);
    if Complete(es, dry) then k else k - Waiting(es.values, dry, k)
  }

  /** The callback sees the elements in order up to the first it refuses; unless it refuses one, the stream stops as
      given. When an element does not decode the stream ends in an error behind some of those before it. */
  ghost predicate Hands<A>(dec: Bytes -> Option<A>, accepts: seq<A> -> bool, values: seq<Bytes>, stop: Option<Failure>,
                           delivered: seq<A>, err: Option<Failure>) {
    match DecodeAll(dec, values)
    case Some(all) =>
      delivered == all[..Seen(accepts, all)] && err == if Refused(accepts, all) then Some(CallbackFailed) else stop
    case None => err.Some? && InOrder(dec, values, delivered)
  }

  /** How streaming an array ends, given where the buffer ran dry. A complete array ends well; one with a missing
      element ends where its batch is decoded; a malformed one where the scanner finds out. An input that ends with a
      primitive ends in some error. */
  ghost predicate Ends<A>(dec: Bytes -> Option<A>, accepts: seq<A> -> bool, es: Elements, dry: seq<bool>,
                          delivered: seq<A>, err: Option<Failure>)
    requires |dry| == |es.values|
  {
    if es.partial then err.Some?
    else if Complete(es, dry) then Hands(dec, accepts, es.values[..Handed(es, dry)], None, delivered, err)
    else if es.next.Some? then Hands(dec, accepts, es.values[..Handed(es, dry)], Some(DecodeFailed), delivered, err)
    else err.Some? && Hands(dec, accepts, es.values[..Handed(es, dry)], err, delivered, err)
  }

  /** With no element missing, how a closed array ends does not depend on where the buffer ran dry. */
  lemma {:induction false} PiecesDoNotMatter<A>(dec: Bytes -> Option<A>, accepts: seq<A> -> bool, es: Elements,
                                                dry: seq<bool>, delivered: seq<A>, err: Option<Failure>)
    requires |dry| == |es.values| && es.next.Some? && !es.partial && [] !in es.values
    ensures Ends(dec, accepts, es, dry, delivered, err) <==> Hands(dec, accepts, es.values, None, delivered, err)
  {
    hide Hands, Waiting;
    assert Present(es.values) == |es.values|;
    assert es.values[..|es.values|] == es.values;
  }

  // ----- the streaming loop -----

  /** Between elements, t of them taken: those handed over are delivered, the others make up the batch. */
  ghost predicate Holding<A>(dec: Bytes -> Option<A>, accepts: seq<A> -> bool, es: Elements, dry: seq<bool>, t: nat,
                             batch: Bytes, count: nat, delivered: seq<A>) {
    && t <= |es.values| == |dry| && Scannable(es.values)
    && (forall i :: 0 <= i < |dry| && dry[i] ==> es.values[i] != [])
    && count == Waiting(es.values, dry, t) && t - count <= Present(es.values)
    && batch == Join(es.values[t - count..t])
    && DecodeAll(dec, es.values[..t - count]) == Some(delivered) && !Refused(accepts, delivered)
  }

  /** Handing over vs[b..e] when vs[..b] is delivered: a failure is a failure of the whole. */
  lemma {:induction false} FlushWithin<A>(dec: Bytes -> Option<A>, accepts: seq<A> -> bool, vs: seq<Bytes>, b: nat,
                                          e: nat, before: seq<A>, stop: Option<Failure>)
    requires b <= e <= |vs| && DecodeAll(dec, vs[..b]) == Some(before)
    ensures var v := DecodeAll(dec, vs[b..e]);
            && (v == None ==> DecodeAll(dec, vs[..e]) == None
                              && Hands(dec, accepts, vs, stop, before, Some(DecodeFailed)))
            && (v.Some? ==> DecodeAll(dec, vs[..e]) == Some(before + v.value))
            && (v.Some? && Refused(accepts, before + v.value) ==>
                  var (d, err) := Shown(accepts, before + v.value);
                  Hands(dec, accepts, vs, stop, d, err))
  {
    hide Seen, Refused, DecodeAll;
    var v := DecodeAll(dec, vs[b..e]);
    assert vs[..e] == vs[..b] + vs[b..e];
    DecodeJoin(dec, vs[..b], vs[b..e]);
    assert vs == vs[..e] + vs[e..];
    DecodeJoin(dec, vs[..e], vs[e..]);
    var all := DecodeAll(dec, vs);
    if v == None {
      assert DecodesTo(dec, vs[..b], before);
    } else if Refused(accepts, before + v.value) {
      var d := before + v.value;
      if all.Some? {
        SeenPrefix(accepts, d, all.value);
      } else {
        assert DecodesTo(dec, vs[..e], d[..Seen(accepts, d)]);
      }
    }
  }

  lemma {:induction false} HoldNothing<A>(dec: Bytes -> Option<A>, accepts: seq<A> -> bool, es: Elements,
                                          dry: seq<bool>)
    requires |dry| == |es.values| && Scannable(es.values)
    requires forall i :: 0 <= i < |dry| && dry[i] ==> es.values[i] != []
    ensures Holding(dec, accepts, es, dry, 0, [], 0, [])
  {
    hide IsValue;
  }

  /** The next element joins the batch. */
  lemma {:induction false} JoinNext<A>(dec: Bytes -> Option<A>, accepts: seq<A> -> bool, es: Elements, dry: seq<bool>,
                                       t: nat, batch: Bytes, count: nat, delivered: seq<A>)
    requires Holding(dec, accepts, es, dry, t, batch, count, delivered) && t < |es.values|
    ensures var pending := es.values[t - count..t + 1];
            && Join(pending) == (if count == 0 then batch + [OPEN_BRACKET] else batch + [COMMA]) + es.values[t]
            && (Full(pending) <==> count + 1 >= BATCH_ELEMENTS || |Join(pending)| >= BATCH_BYTES)
  {
    hide Scannable, Waiting, Refused, Present, DecodeAll;
    var pending := es.values[t - count..t];
    JoinStep(pending, es.values[t]);
    assert pending + [es.values[t]] == es.values[t - count..t + 1];
  }

  /** Nothing to flush: the element waits. */
  lemma {:induction false} TakeWaiting<A>(dec: Bytes -> Option<A>, accepts: seq<A> -> bool, es: Elements,
                                          dry: seq<bool>, t: nat, batch: Bytes, count: nat, delivered: seq<A>)
    requires Holding(dec, accepts, es, dry, t, batch, count, delivered) && t < |es.values|
    requires !Full(es.values[t - count..t + 1])
    ensures Holding(dec, accepts, es, dry[t := false], t + 1, Join(es.values[t - count..t + 1]), count + 1, delivered)
  {
    hide Scannable, Full, Refused, Present, DecodeAll, Join;
    WaitingSame(es.values, dry, dry[t := false], t);
  }

  /** A flush: it goes well and nothing waits, or the stream ends. */
  lemma {:induction false} TakeFlushed<A(!new)>(unmarshal: Bytes -> Option<seq<A>>, dec: Bytes -> Option<A>,
                                                accepts: seq<A> -> bool, es: Elements, dry: seq<bool>, t: nat,
                                                batch: Bytes, count: nat, delivered: seq<A>, ran: bool)
    requires Elementwise(unmarshal, dec)
    requires Holding(dec, accepts, es, dry, t, batch, count, delivered) && t < |es.values|
    requires (ran ==> es.values[t] != []) && (ran || Full(es.values[t - count..t + 1]))
    ensures var (d, err) := Flushed(unmarshal, accepts, es.values[t - count..t + 1], delivered);
            && (err == None ==> Holding(dec, accepts, es, dry[t := ran], t + 1, [], 0, d))
            && (err.Some? ==> Ends(dec, accepts, es, dry[t := ran], d, err))
  {
    hide Full, Refused, DecodeAll, Join, Elementwise, Seen, Ends, Flushed, Present, Scannable, Waiting, Handed,
         Complete;
    var dry' := dry[t := ran];
    var b, k := t - count, Present(es.values);
    NothingWaiting(es, dry, t, ran);
    if k > t {
      FlushPresent(unmarshal, dec, accepts, es, dry', b, t + 1, delivered);
      assert es.values[t + 1..t + 1] == [];
      NothingJoined();
    } else {
      if count == 0 {
        assert k == t && es.values[t..t + 1] == [[]];
        NotFull();
        assert false;
      }
      FlushMissing(unmarshal, dec, accepts, es, dry', t, b, delivered);
    }
  }

  /** Behind a flush nothing waits, and elements not missing so far have been handed over. */
  lemma {:induction false} NothingWaiting(es: Elements, dry: seq<bool>, t: nat, ran: bool)
    requires t < |es.values| == |dry| && (ran || Full(es.values[t - Waiting(es.values, dry, t)..t + 1]))
    ensures Waiting(es.values, dry[t := ran], t) == Waiting(es.values, dry, t)
    ensures Waiting(es.values, dry[t := ran], t + 1) == 0
    ensures Present(es.values) > t ==> t + 1 <= Handed(es, dry[t := ran])
  {
    hide Full, Present;
    var dry' := dry[t := ran];
    WaitingSame(es.values, dry, dry', t);
    assert Waiting(es.values, dry', t + 1) == 0;
    if Present(es.values) > t {
      WaitingSince(es.values, dry', t + 1, Present(es.values));
    }
  }

  /** A batch in which an element is missing beside others: the stream ends. */
  lemma {:induction false} FlushMissing<A(!new)>(unmarshal: Bytes -> Option<seq<A>>, dec: Bytes -> Option<A>,
                                                 accepts: seq<A> -> bool, es: Elements, dry: seq<bool>, t: nat, b: nat,
                                                 before: seq<A>)
    requires Elementwise(unmarshal, dec) && Scannable(es.values) && t < |es.values| == |dry|
    requires b == t - Waiting(es.values, dry, t) && b < t && b <= Present(es.values) <= t
    requires DecodeAll(dec, es.values[..b]) == Some(before) && !Refused(accepts, before)
    ensures var (d, err) := Flushed(unmarshal, accepts, es.values[b..t + 1], before);
            err.Some? && Ends(dec, accepts, es, dry, d, err)
  {
    hide IsValue, Refused, DecodeAll, Elementwise, Seen, Hands, Flushed, Scannable, Waiting;
    var k := Present(es.values);
    RefusedBatch(unmarshal, dec, accepts, es.values, b, t + 1, k, before);
    WaitingRun(es.values, dry, t, k);
    StopsHere(dec, accepts, es.values[..b], before, Some(DecodeFailed));
  }

  lemma {:induction false} NothingJoined()
    ensures Join([]) == []
  {
  }

  lemma {:induction false} NotFull()
    ensures !Full([[]])
  {
  }

  lemma {:induction false} StopsHere<A>(dec: Bytes -> Option<A>, accepts: seq<A> -> bool, vs: seq<Bytes>,
                                        delivered: seq<A>, stop: Option<Failure>)
    requires DecodeAll(dec, vs) == Some(delivered) && !Refused(accepts, delivered)
    ensures Hands(dec, accepts, vs, stop, delivered, stop)
  {
    NotRefusedAll(accepts, delivered);
  }

  /** A batch with a missing element beside others is refused. */
  lemma {:induction false} RefusedBatch<A(!new)>(unmarshal: Bytes -> Option<seq<A>>, dec: Bytes -> Option<A>,
                                                 accepts: seq<A> -> bool, values: seq<Bytes>, b: nat, e: nat, k: nat,
                                                 before: seq<A>)
    requires Elementwise(unmarshal, dec) && Scannable(values) && b <= k < e <= |values| && e - b > 1 && values[k] == []
    ensures Flushed(unmarshal, accepts, values[b..e], before) == (before, Some(DecodeFailed))
  {
    hide IsValue, Batch, DecodeAll;
    var pending := values[b..e];
    assert pending[k - b] == [];
    assert Scannable(pending);
  }

  /** A batch of values, none missing, handed over at a flush point. */
  lemma {:induction false} FlushPresent<A(!new)>(unmarshal: Bytes -> Option<seq<A>>, dec: Bytes -> Option<A>,
                                                 accepts: seq<A> -> bool, es: Elements, dry: seq<bool>, b: nat, e: nat,
                                                 before: seq<A>)
    requires Elementwise(unmarshal, dec) && Scannable(es.values) && |dry| == |es.values|
    requires b < e <= Present(es.values) && e <= Handed(es, dry)
    requires DecodeAll(dec, es.values[..b]) == Some(before) && !Refused(accepts, before)
    ensures var (d, err) := Flushed(unmarshal, accepts, es.values[b..e], before);
            && (err == None ==> DecodeAll(dec, es.values[..e]) == Some(d) && !Refused(accepts, d))
            && (err.Some? ==> Ends(dec, accepts, es, dry, d, err))
  {
    hide IsValue, Refused, DecodeAll, Join, Seen, Hands, Complete, Handed, Batch, Present;
    var vs, f := es.values, Handed(es, dry);
    var pending := vs[b..e];
    assert Scannable(pending) && [] !in pending;
    assert unmarshal(Batch(pending)) == DecodeAll(dec, pending);
    assert vs[..f][b..e] == pending && vs[..f][..b] == vs[..b] && vs[..f][..e] == vs[..e];
    var (d, err) := Flushed(unmarshal, accepts, pending, before);
    FlushWithin(dec, accepts, vs[..f], b, e, before, None);
    FlushWithin(dec, accepts, vs[..f], b, e, before, Some(DecodeFailed));
    FlushWithin(dec, accepts, vs[..f], b, e, before, err);
    if err == None {
      NotRefusedAll(accepts, before + DecodeAll(dec, pending).value);
    }
  }

  /** The last flush, behind the closing bracket. */
  lemma {:induction false} LastFlush<A(!new)>(unmarshal: Bytes -> Option<seq<A>>, dec: Bytes -> Option<A>,
                                              accepts: seq<A> -> bool, es: Elements, dry: seq<bool>, batch: Bytes,
                                              count: nat, delivered: seq<A>)
    requires Elementwise(unmarshal, dec) && !es.partial && es.next.Some?
    requires Holding(dec, accepts, es, dry, |es.values|, batch, count, delivered)
    ensures var (d, err) := Flushed(unmarshal, accepts, es.values[|es.values| - count..], delivered);
            Ends(dec, accepts, es, dry, d, err)
  {
    hide Scannable, Refused, DecodeAll, Join, Elementwise, Seen, Hands, Waiting, Flushed, Present;
    var n, k := |es.values|, Present(es.values);
    var b := n - count;
    assert es.values[..n] == es.values && es.values[b..] == es.values[b..n];
    if k < n {
      LastMissing(unmarshal, dec, accepts, es, dry, count, delivered);
    } else if count == 0 {
      NothingFlushed(unmarshal, accepts, delivered);
      assert es.values[n..] == [];
      StopsHere(dec, accepts, es.values, delivered, None);
    } else {
      FlushPresent(unmarshal, dec, accepts, es, dry, b, n, delivered);
      var (d, err) := Flushed(unmarshal, accepts, es.values[b..], delivered);
      if err == None {
        StopsHere(dec, accepts, es.values, d, None);
      }
    }
  }

  lemma {:induction false} NothingFlushed<A>(unmarshal: Bytes -> Option<seq<A>>, accepts: seq<A> -> bool,
                                             before: seq<A>)
    ensures Flushed(unmarshal, accepts, [], before) == (before, None)
  {
  }

  /** The last flush when an element is missing: it is alone, or refused. */
  lemma {:induction false} LastMissing<A(!new)>(unmarshal: Bytes -> Option<seq<A>>, dec: Bytes -> Option<A>,
                                                accepts: seq<A> -> bool, es: Elements, dry: seq<bool>, count: nat,
                                                before: seq<A>)
    requires Elementwise(unmarshal, dec) && !es.partial && es.next.Some? && Scannable(es.values)
    requires |dry| == |es.values| && count == Waiting(es.values, dry, |dry|)
    requires |dry| - count <= Present(es.values) < |dry|
    requires DecodeAll(dec, es.values[..|dry| - count]) == Some(before) && !Refused(accepts, before)
    ensures var (d, err) := Flushed(unmarshal, accepts, es.values[|dry| - count..], before);
            Ends(dec, accepts, es, dry, d, err)
  {
    hide Scannable, Refused, DecodeAll, Elementwise, Seen, Hands, Waiting, Flushed;
    var n, k := |es.values|, Present(es.values);
    var b := n - count;
    assert es.values[b..] == es.values[b..n];
    WaitingRun(es.values, dry, n, k);
    if count > 1 {
      RefusedBatch(unmarshal, dec, accepts, es.values, b, n, k, before);
      StopsHere(dec, accepts, es.values[..b], before, Some(DecodeFailed));
    } else {
      assert es.values[b..] == [[]];
      EmptyBatch(unmarshal, dec, accepts, before);
      StopsHere(dec, accepts, es.values[..b], before, None);
    }
  }

  lemma {:induction false} EmptyBatch<A(!new)>(unmarshal: Bytes -> Option<seq<A>>, dec: Bytes -> Option<A>,
                                               accepts: seq<A> -> bool, before: seq<A>)
    requires Elementwise(unmarshal, dec) && !Refused(accepts, before)
    ensures Flushed(unmarshal, accepts, [[]], before) == (before, None)
  {
    hide Refused, Seen;
    assert before + [] == before;
    NotRefusedAll(accepts, before);
  }

  /** The scanner fails behind the last element: what waits is lost. */
  lemma {:induction false} ScanFailed<A>(dec: Bytes -> Option<A>, accepts: seq<A> -> bool, es: Elements, dry: seq<bool>,
                                         batch: Bytes, count: nat, delivered: seq<A>, err: Option<Failure>)
    requires es.next == None && err.Some?
    requires Holding(dec, accepts, es, dry, |es.values|, batch, count, delivered)
    ensures Ends(dec, accepts, es, dry, delivered, err)
  {
    hide IsValue, Full, Refused, DecodeAll, Join, Seen, Hands;
    var n, k := |es.values|, Present(es.values);
    WaitingRun(es.values, dry, n, k);
    StopsHere(dec, accepts, es.values[..n - count], delivered, err);
  }

  /** The input ends with a primitive. */
  lemma {:induction false} EndsInside<A>(dec: Bytes -> Option<A>, accepts: seq<A> -> bool, es: Elements, dry: seq<bool>,
                                         delivered: seq<A>, err: Option<Failure>)
    requires |dry| == |es.values| && es.partial && err.Some?
    ensures Ends(dec, accepts, es, dry, delivered, err)
  {
  }

  lemma {:induction false} HoldingSize<A>(dec: Bytes -> Option<A>, accepts: seq<A> -> bool, es: Elements,
                                          dry: seq<bool>, t: nat, batch: Bytes, count: nat, delivered: seq<A>)
    requires Holding(dec, accepts, es, dry, t, batch, count, delivered)
    ensures t <= |es.values| == |dry| && count <= t && batch == Join(es.values[t - count..t])
    ensures !Refused(accepts, delivered)
  {
    hide Scannable, Refused, DecodeAll, Join, Present;
  }

  // ----- when the pieces in which the input arrives matter -----

  /** Where the buffer runs dry when it holds all that arrives: behind elements that close themselves at the end of a
      piece. */
  function DryAt(marks: seq<Mark>, cuts: set<nat>, size: nat): (r: seq<bool>)
    ensures |r| == |marks|
  {
    seq(|marks|, i requires 0 <= i < |marks| => marks[i].closed && (marks[i].end in cuts || marks[i].end == size))
  }

  lemma {:induction false} NextDry(s: Bytes, p: nat, cuts: set<nat>)
    requires p <= |s|
    ensures var start := SkipSpace(s, p);
            var end := ValueEnd(s, start, START);
            start < |s| && end.Some? ==>
              var dry := DryAt(MarksFrom(s, p), cuts, |s|);
              var c := SkipSpace(s, end.value);
              && |dry| > 0 && dry[0] == (Closes(s, start, START) && (end.value in cuts || end.value == |s|))
              && (c < |s| && s[c] == COMMA ==> dry[1..] == DryAt(MarksFrom(s, c + 1), cuts, |s|))
  {
    hide SkipSpace, ValueEnd, Closes, MarksFrom;
    NextMark(s, p);
  }

  lemma {:induction false} DryPresent(es: Elements, marks: seq<Mark>, cuts: set<nat>, size: nat)
    requires |marks| == |es.values| && forall i :: 0 <= i < |marks| && marks[i].closed ==> es.values[i] != []
    ensures forall i :: 0 <= i < |marks| && DryAt(marks, cuts, size)[i] ==> es.values[i] != []
  {
  }

  /** The array behind p is streamed without an error when it arrives in pieces that end at the cuts. */
  predicate EndsWell<A>(dec: Bytes -> Option<A>, accepts: seq<A> -> bool, s: Bytes, p: nat, cuts: set<nat>)
    requires p <= |s|
  {
    ArrayMarked(s, p);
    var es := ArrayFrom(s, p);
    Complete(es, DryAt(ArrayMarks(s, p), cuts, |s|)) && Accepted(dec, accepts, es.values[..Present(es.values)])
  }

  predicate Accepted<A>(dec: Bytes -> Option<A>, accepts: seq<A> -> bool, values: seq<Bytes>) {
    DecodeAll(dec, values).Some? && !Refused(accepts, DecodeAll(dec, values).value)
  }

  /** A stream ends without an error exactly when its array is complete, decodes, and is accepted. */
  lemma {:induction false} NoErrorExact<A>(dec: Bytes -> Option<A>, accepts: seq<A> -> bool, es: Elements,
                                           dry: seq<bool>, delivered: seq<A>, err: Option<Failure>)
    requires |dry| == |es.values| && (es.next.Some? ==> !es.partial) && Ends(dec, accepts, es, dry, delivered, err)
    ensures err == None <==> Complete(es, dry) && Accepted(dec, accepts, es.values[..Present(es.values)])
  {
    hide Refused, Seen, DecodeAll, Waiting;
  }

  lemma {:induction false} JoinHolds(es: seq<Bytes>)
    requires es != []
    ensures |Join(es)| > |es[|es| - 1]|
  {
  }

  /** The last element before a trailing comma is flushed for its size alone, or need not be. */
  lemma {:induction false} FlushedForSize(values: seq<Bytes>, dry: seq<bool>, k: nat)
    requires 0 < k <= |values| == |dry|
    ensures |values[k - 1]| + 1 >= BATCH_BYTES ==> Waiting(values, dry, k) == 0
    ensures |values[k - 1]| + 1 < BATCH_BYTES && Waiting(values, dry, k - 1) == 0 && !dry[k - 1] ==>
              Waiting(values, dry, k) == 1
  {
    var w := Waiting(values, dry, k - 1) + 1;
    JoinHolds(values[k - w..k]);
    assert values[k - 1..k] == [values[k - 1]];
  }

  /** One cut behind an element that closes itself. */
  lemma {:induction false} CutBehind(marks: seq<Mark>, p: nat, limit: nat, size: nat, k: nat)
    requires InPlace(marks, p, limit) && limit < size && k < |marks| && marks[k].closed
    ensures var dry := DryAt(marks, {marks[k].end}, size);
            dry[k] && forall i :: 0 <= i < |marks| && i != k ==> !dry[i]
  {
  }

  /** Elements that are there close themselves, as accounts do. */
  predicate SelfClosing(es: Elements, marks: seq<Mark>) {
    |marks| == |es.values| && forall i :: 0 <= i < |marks| && es.values[i] != [] ==> marks[i].closed
  }

  /** A closed array, accepted but for a trailing comma behind an element that does not fill a batch by itself. */
  predicate TrailingComma<A>(dec: Bytes -> Option<A>, accepts: seq<A> -> bool, es: Elements) {
    var k := Present(es.values);
    && es.next.Some? && 0 < k && k + 1 == |es.values|
    && Accepted(dec, accepts, es.values[..k]) && |es.values[k - 1]| + 1 < BATCH_BYTES
  }

  /** Cut behind its last element, such an array is accepted; cut behind the one before, it is not. */
  lemma {:induction false} EitherWay<A>(dec: Bytes -> Option<A>, accepts: seq<A> -> bool, s: Bytes, p: nat)
    requires p <= |s| && SelfClosing(ArrayFrom(s, p), ArrayMarks(s, p)) && TrailingComma(dec, accepts, ArrayFrom(s, p))
    ensures var ms, k := ArrayMarks(s, p), Present(ArrayFrom(s, p).values);
            && EndsWell(dec, accepts, s, p, {ms[k - 1].end})
            && !EndsWell(dec, accepts, s, p, if k > 1 then {ms[k - 2].end} else {})
  {
    hide ArrayFrom, ArrayMarks, Accepted, Full, Scannable, Waiting, DryAt;
    ArrayMarked(s, p);
    var ms, es := ArrayMarks(s, p), ArrayFrom(s, p);
    var k := Present(es.values);
    CutBehind(ms, p, |s| - 1, |s|, k - 1);
    var cuts: set<nat> := if k > 1 then {ms[k - 2].end} else {};
    var well, ill := DryAt(ms, {ms[k - 1].end}, |s|), DryAt(ms, cuts, |s|);
    DryFlushes(es.values, well, k);
    if k > 1 {
      CutBehind(ms, p, |s| - 1, |s|, k - 2);
      DryFlushes(es.values, ill, k - 1);
    } else {
      NoCuts(ms, p, |s| - 1, |s|);
      NothingWaits(es.values, ill);
    }
    FlushedForSize(es.values, ill, k);
  }

  lemma {:induction false} DryFlushes(values: seq<Bytes>, dry: seq<bool>, i: nat)
    requires 0 < i <= |values| == |dry| && dry[i - 1]
    ensures Waiting(values, dry, i) == 0
  {
  }

  lemma {:induction false} NothingWaits(values: seq<Bytes>, dry: seq<bool>)
    requires |values| == |dry|
    ensures Waiting(values, dry, 0) == 0
  {
  }

  lemma {:induction false} NoCuts(marks: seq<Mark>, p: nat, limit: nat, size: nat)
    requires InPlace(marks, p, limit) && limit < size
    ensures forall i :: 0 <= i < |marks| ==> !DryAt(marks, {}, size)[i]
  {
  }

  /** Only behind a trailing comma does it matter how the input arrives. For an array of elements that close themselves
      some pieces make the stream end well and some do not if and only if the array is closed, only its last element is
      missing, the others decode and are accepted, and the last of them does not fill a batch. */
  lemma {:induction false} PiecesMatter<A>(dec: Bytes -> Option<A>, accepts: seq<A> -> bool, s: Bytes, p: nat)
    requires p <= |s| && SelfClosing(ArrayFrom(s, p), ArrayMarks(s, p))
    ensures (exists well, ill :: EndsWell(dec, accepts, s, p, well) && !EndsWell(dec, accepts, s, p, ill)) <==>
            TrailingComma(dec, accepts, ArrayFrom(s, p))
  {
    hide ArrayFrom, ArrayMarks, Accepted, Full, Scannable, InPlace, Waiting, DryAt;
    var ms, es := ArrayMarks(s, p), ArrayFrom(s, p);
    var k := Present(es.values);
    if TrailingComma(dec, accepts, es) {
      EitherWay(dec, accepts, s, p);
    }
    if well, ill :| EndsWell(dec, accepts, s, p, well) && !EndsWell(dec, accepts, s, p, ill) {
      ArrayMarked(s, p);
      if k == 0 {
        NotOneMissing(s, p);
      }
      assert k > 0 && k + 1 == |es.values|;
      FlushedForSize(es.values, DryAt(ms, ill, |s|), k);
    }
  }
}
