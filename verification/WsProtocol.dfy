/**
 The subscription protocol of ws/client.go as a machine of atomic steps: every step is one stretch of
 code under the client's mutex, or one channel operation outside it. Any interleaving of readers,
 subscribers and cancellations is a sequence of such steps.

 Requests and entries are named by the order of their creation. Closing a closed channel, sending on one,
 and a send that would block set the flag `fault`; the theorems say that no run ever does.
 */
module WsProtocol {
  import opened Wrappers

  /** An answer to a request: whether it carries an error, and the subscription id its result decodes to. */
  datatype Response = Response(error: bool, id: Option<nat>)

  /** The response channel of one request: capacity one. `sends` and `closes` count what happened to it. */
  datatype Request = Request(entry: Option<nat>, buffered: seq<Response>, sends: nat, closes: nat)

  /** The notification channel of one subscription. `routed` is every notification routed to it, in arrival order,
      and `kept` says which of them were enqueued; `received` is what its owner took out. */
  datatype Entry = Entry(queue: seq<nat>, closes: nat, dropped: nat, routed: seq<nat>, kept: seq<bool>,
                         received: seq<nat>)

  datatype State = State(
    capacity: nat,
    pending: map<nat, Option<nat>>,
    subs: map<nat, nat>,
    failed: bool,
    doneCloses: nat,
    requests: seq<Request>,
    entries: seq<Entry>,
    inflight: Option<(nat, Response)>,
    fault: bool)

  datatype Action =
    | Start(subscribe: bool)
    | Withdraw(id: nat)
    | Ack(id: nat, response: Response)
    | Deliver
    | Notify(sub: nat, payload: nat)
    | Take(id: nat)
    | Receive(e: nat)
    | Release(sub: nat, e: nat)
    | Fail

  function Init(capacity: nat): (s: State) {
    State(capacity, map[], map[], false, 0, [], [], None, false)
  }

  // ----- channels -----

  function CloseEntry(s: State, e: nat): (r: State)
    requires e < |s.entries|
  {
    var entry := s.entries[e];
    s.(entries := s.entries[e := entry.(closes := entry.closes + 1)], fault := s.fault || entry.closes > 0)
  }

  function CloseRequest(s: State, q: nat): (r: State)
    requires q < |s.requests|
  {
    var req := s.requests[q];
    s.(requests := s.requests[q := req.(closes := req.closes + 1)], fault := s.fault || req.closes > 0)
  }

  /** The response send: it must find the channel open and empty. */
  function SendResponse(s: State, q: nat, response: Response): (r: State)
    requires q < |s.requests|
  {
    var req := s.requests[q];
    s.(requests := s.requests[q := req.(buffered := req.buffered + [response], sends := req.sends + 1)],
       fault := s.fault || req.closes > 0 || |req.buffered| > 0)
  }

  /** The non-blocking notification send. */
  function SendNotification(s: State, e: nat, payload: nat): (r: State)
    requires e < |s.entries|
  {
    var entry := s.entries[e];
    var room := |entry.queue| < s.capacity;
    var routed := entry.(routed := entry.routed + [payload], kept := entry.kept + [room]);
    s.(entries := s.entries[e := if room then routed.(queue := entry.queue + [payload])
                            else routed.(dropped := entry.dropped + 1)],
       fault := s.fault || entry.closes > 0)
  }

  // ----- closing everything -----

  /** Every registered entry closed once, every other left alone. */
  function CloseSubs(entries: seq<Entry>, subs: map<nat, nat>): (r: seq<Entry>)
    ensures |r| == |entries|
  {
    seq(|entries|, i requires 0 <= i < |entries| =>
      if i in subs.Values then entries[i].(closes := entries[i].closes + 1) else entries[i])
  }

  function ClosePending(requests: seq<Request>, pending: map<nat, Option<nat>>): (r: seq<Request>)
    ensures |r| == |requests|
  {
    seq(|requests|, i requires 0 <= i < |requests| =>
      if i in pending then requests[i].(closes := requests[i].closes + 1) else requests[i])
  }

  /** Closing a set of channels faults when one of them is closed already, or is named twice. */
  predicate CloseFaults(s: State) {
    || s.doneCloses > 0
    || (exists i :: i in s.subs && s.subs[i] < |s.entries| && s.entries[s.subs[i]].closes > 0)
    || (exists i, j :: i in s.subs && j in s.subs && i != j && s.subs[i] == s.subs[j])
    || (exists q :: q in s.pending && q < |s.requests| && s.requests[q].closes > 0)
  }

  function FailStep(s: State): (r: State) {
    if s.failed then s
    else
      s.(failed := true, doneCloses := s.doneCloses + 1,
         entries := CloseSubs(s.entries, s.subs), subs := map[],
         requests := ClosePending(s.requests, s.pending), pending := map[],
         fault := s.fault || CloseFaults(s))
  }

  // ----- the other steps -----

  /** A request that is only created, not yet registered. */
  function Created(s: State, subscribe: bool): (r: State) {
    s.(requests := s.requests + [Request(if subscribe then Some(|s.entries|) else None, [], 0, 0)],
       entries := if subscribe then s.entries + [Entry([], 0, 0, [], [], [])] else s.entries)
  }

  /** request: a fresh channel, and for a subscription a fresh entry; nothing is registered after a failure. */
  function StartStep(s: State, subscribe: bool): (r: State) {
    var s' := Created(s, subscribe);
    if s.failed then s' else s'.(pending := s.pending[|s.requests| := s'.requests[|s.requests|].entry])
  }

  /** A cancelled request, or one whose write failed. */
  function WithdrawStep(s: State, id: nat): (r: State) {
    s.(pending := s.pending - {id})
  }

  /** An answer frame under the mutex: the request leaves pending, and a subscription is registered on the spot.
      The answer itself is handed over in a later step. */
  function AckStep(s: State, id: nat, response: Response): (r: State) {
    if id !in s.pending then s
    else
      var entry := s.pending[id];
      var s' := s.(pending := s.pending - {id}, inflight := Some((id, response)));
      if entry.Some? && !response.error && response.id.Some? then s'.(subs := s.subs[response.id.value := entry.value])
         else s'
  }

  function DeliverStep(s: State): (r: State) {
    if s.inflight == None || s.inflight.value.0 >= |s.requests| then s
    else SendResponse(s, s.inflight.value.0, s.inflight.value.1).(inflight := None)
  }

  function NotifyStep(s: State, sub: nat, payload: nat): (r: State) {
    if sub in s.subs && s.subs[sub] < |s.entries| then SendNotification(s, s.subs[sub], payload) else s
  }

  function TakeStep(s: State, id: nat): (r: State) {
    if id < |s.requests| && |s.requests[id].buffered| > 0 then
      s.(requests := s.requests[id := s.requests[id].(buffered := s.requests[id].buffered[1..])])
    else s
  }

  function ReceiveStep(s: State, e: nat): (r: State) {
    if e < |s.entries| && |s.entries[e].queue| > 0 then
      var entry := s.entries[e];
      s.(entries := s.entries[e := entry.(queue := entry.queue[1..], received := entry.received + [entry.queue[0]])])
    else s
  }

  /** Only when the id still names this very entry. */
  function ReleaseStep(s: State, sub: nat, e: nat): (r: State) {
    if sub in s.subs && s.subs[sub] == e && e < |s.entries| then CloseEntry(s.(subs := s.subs - {sub}), e) else s
  }

  /** A step; the reader handles one answer at a time, so it takes no frame while one is in flight. */
  function Step(s: State, a: Action): (r: State) {
    match a
    case Start(subscribe) => StartStep(s, subscribe)
    case Withdraw(id) => WithdrawStep(s, id)
    case Ack(id, response) => if s.inflight.Some? then s else AckStep(s, id, response)
    case Deliver => DeliverStep(s)
    case Notify(sub, payload) => if s.inflight.Some? then s else NotifyStep(s, sub, payload)
    case Take(id) => TakeStep(s, id)
    case Receive(e) => ReceiveStep(s, e)
    case Release(sub, e) => ReleaseStep(s, sub, e)
    case Fail => FailStep(s)
  }

  function Run(s: State, run: seq<Action>): (r: State) {
    if run == [] then s else Step(Run(s, run[..|run| - 1]), run[|run| - 1])
  }

  // ----- the invariant -----

  /** A registered entry is open and registered once; no pending request waits for it. */
  ghost predicate SubsOk(s: State) {
    && (forall i :: i in s.subs ==> s.subs[i] < |s.entries| && s.entries[s.subs[i]].closes == 0)
    && (forall i, j :: i in s.subs && j in s.subs && s.subs[i] == s.subs[j] ==> i == j)
    && (forall i, q :: i in s.subs && q in s.pending ==> s.pending[q] != Some(s.subs[i]))
  }

  /** A pending request has heard nothing yet; its entry is open and waits for it alone. */
  ghost predicate PendingOk(s: State) {
    && (forall q :: q in s.pending ==> q < |s.requests| && Untouched(s.requests[q]))
    && (forall q :: q in s.pending && s.pending[q].Some? ==>
          s.pending[q].value < |s.entries| && s.entries[s.pending[q].value].closes == 0
              && s.entries[s.pending[q].value].routed == [])
    && (forall q, q' :: q in s.pending && q' in s.pending && s.pending[q].Some? && s.pending[q] == s.pending[q'] ==>
        q == q')
  }

  predicate Untouched(r: Request) {
    r.sends == 0 && r.closes == 0 && r.buffered == []
  }

  ghost predicate InflightOk(s: State) {
    s.inflight.Some? ==> s.inflight.value.0 < |s.requests| && Untouched(s.requests[s.inflight.value.0])
                         && s.inflight.value.0 !in s.pending
  }

  ghost predicate FailedOk(s: State) {
    && s.doneCloses == (if s.failed then 1 else 0)
    && (s.failed ==> s.subs == map[] && s.pending == map[])
  }

  /** A channel is closed at most once; a request hears at most one of an answer and a close;
      no more is queued than the buffer holds. */
  ghost predicate CountsOk(s: State) {
    && (forall e :: 0 <= e < |s.entries| ==> s.entries[e].closes <= 1 && |s.entries[e].queue| <= s.capacity)
    && (forall q :: 0 <= q < |s.requests| ==> s.requests[q].sends + s.requests[q].closes <= 1)
  }

  ghost predicate Invariant(s: State) {
    !s.fault && SubsOk(s) && PendingOk(s) && InflightOk(s) && FailedOk(s) && CountsOk(s)
        && (forall e :: 0 <= e < |s.entries| ==> Accounted(s.entries[e]))
  }

  /** The payloads that were kept. */
  function Kept(routed: seq<nat>, kept: seq<bool>): (r: seq<nat>)
    requires |routed| == |kept|
  {
    if routed == [] then []
    else
      var n := |routed| - 1;
      Kept(routed[..n], kept[..n]) + (if kept[n] then [routed[n]] else [])
  }

  function Misses(kept: seq<bool>): (n: nat) {
    if kept == [] then 0 else Misses(kept[..|kept| - 1]) + (if kept[|kept| - 1] then 0 else 1)
  }

  /** Every routed notification is accounted for: received or still queued in arrival order, or counted as dropped. */
  ghost predicate Accounted(e: Entry) {
    && |e.routed| == |e.kept|
    && e.received + e.queue == Kept(e.routed, e.kept)
    && e.dropped == Misses(e.kept)
    && |e.received + e.queue| + e.dropped == |e.routed|
  }

  // ----- every step keeps the invariant -----

  lemma {:induction false} Routed(e: Entry, payload: nat, room: bool)
    requires Accounted(e)
    ensures Accounted(e.(routed := e.routed + [payload], kept := e.kept + [room],
                         queue := if room then e.queue + [payload] else e.queue,
                         dropped := if room then e.dropped else e.dropped + 1))
  {
    var routed, kept := e.routed + [payload], e.kept + [room];
    assert routed[..|e.routed|] == e.routed && kept[..|e.kept|] == e.kept;
    assert e.received + (e.queue + [payload]) == (e.received + e.queue) + [payload];
  }

  lemma {:induction false} Drained(e: Entry)
    requires Accounted(e) && |e.queue| > 0
    ensures Accounted(e.(queue := e.queue[1..], received := e.received + [e.queue[0]]))
  {
    assert (e.received + [e.queue[0]]) + e.queue[1..] == e.received + e.queue;
  }

  lemma {:induction false} CreatedKeeps(s: State, subscribe: bool)
    requires Invariant(s)
    ensures Invariant(Created(s, subscribe))
  {
    hide Invariant;
    var entry := if subscribe then Some(|s.entries|) else None;
    OneMoreRequest(s, Request(entry, [], 0, 0));
    if subscribe {
      OneMoreEntry(s.(requests := s.requests + [Request(entry, [], 0, 0)]));
    }
  }

  lemma {:induction false} OneMoreRequest(s: State, request: Request)
    requires Invariant(s) && Untouched(request)
    ensures Invariant(s.(requests := s.requests + [request]))
  {
    hide Kept, Misses, Accounted;
    var r := s.(requests := s.requests + [request]);
    assert forall q :: 0 <= q < |s.requests| ==> r.requests[q] == s.requests[q];
    assert SubsOk(r) && PendingOk(r) && InflightOk(r) && FailedOk(r) && CountsOk(r);
  }

  lemma {:induction false} OneMoreEntry(s: State)
    requires Invariant(s)
    ensures Invariant(s.(entries := s.entries + [Entry([], 0, 0, [], [], [])]))
  {
    hide Kept, Misses, Accounted;
    var r := s.(entries := s.entries + [Entry([], 0, 0, [], [], [])]);
    Fresh();
    assert forall e :: 0 <= e < |s.entries| ==> r.entries[e] == s.entries[e];
    assert SubsOk(r) && PendingOk(r) && InflightOk(r) && FailedOk(r) && CountsOk(r);
  }

  lemma {:induction false} RegisterKeeps(s: State, q: nat, entry: Option<nat>)
    requires Invariant(s) && !s.failed
    requires q < |s.requests| && q !in s.pending && Untouched(s.requests[q])
             && (s.inflight.Some? ==> s.inflight.value.0 != q)
    requires entry.Some? ==>
             entry.value < |s.entries| && s.entries[entry.value].closes == 0 && s.entries[entry.value].routed == []
    requires entry.Some? ==>
             (forall i :: i in s.subs ==> s.subs[i] != entry.value)
             && (forall p :: p in s.pending ==> s.pending[p] != entry)
    ensures Invariant(s.(pending := s.pending[q := entry]))
  {
    hide Kept, Misses, Accounted;
  }

  lemma {:induction false} StartKeeps(s: State, subscribe: bool)
    requires Invariant(s)
    ensures Invariant(StartStep(s, subscribe))
  {
    hide Kept, Misses, Accounted;
    CreatedKeeps(s, subscribe);
    var r := Created(s, subscribe);
    if s.failed {
      assert StartStep(s, subscribe) == r;
    } else {
      var q := |s.requests|;
      var entry := if subscribe then Some(|s.entries|) else None;
      assert q !in s.pending;
      assert forall p :: p in s.pending && s.pending[p].Some? ==> s.pending[p].value < |s.entries|;
      RegisterKeeps(r, q, entry);
      assert StartStep(s, subscribe) == r.(pending := r.pending[q := entry]);
    }
  }

  lemma {:induction false} Fresh()
    ensures Accounted(Entry([], 0, 0, [], [], []))
  {
  }

  lemma {:induction false} AckKeeps(s: State, id: nat, response: Response)
    requires Invariant(s) && s.inflight == None
    ensures Invariant(AckStep(s, id, response))
  {
    if id in s.pending {
      var entry := s.pending[id];
      TakenOut(s, id, response);
      if entry.Some? && !response.error && response.id.Some? {
        WaitsAlone(s, id);
        hide Invariant;
        Subscribed(s.(pending := s.pending - {id}, inflight := Some((id, response))), response.id.value, entry.value);
      }
    }
  }

  lemma {:induction false} TakenOut(s: State, id: nat, response: Response)
    requires Invariant(s) && s.inflight == None && id in s.pending
    ensures Invariant(s.(pending := s.pending - {id}, inflight := Some((id, response))))
  {
    hide Kept, Misses, Accounted;
  }

  /** The entry of a pending request is open, belongs to nothing registered and to no other request. */
  lemma {:induction false} WaitsAlone(s: State, id: nat)
    requires Invariant(s) && id in s.pending && s.pending[id].Some?
    ensures var e := s.pending[id].value;
      && !s.failed && e < |s.entries| && s.entries[e].closes == 0
      && (forall i :: i in s.subs ==> s.subs[i] != e)
      && (forall q :: q in s.pending - {id} ==> s.pending[q] != Some(e))
  {
    hide Kept, Misses, Accounted;
  }

  lemma {:induction false} Subscribed(s: State, sub: nat, e: nat)
    requires Invariant(s) && !s.failed && e < |s.entries| && s.entries[e].closes == 0
    requires (forall i :: i in s.subs ==> s.subs[i] != e) && (forall q :: q in s.pending ==> s.pending[q] != Some(e))
    ensures Invariant(s.(subs := s.subs[sub := e]))
  {
    hide Kept, Misses, Accounted;
  }

  lemma {:induction false} DeliverKeeps(s: State)
    requires Invariant(s)
    ensures Invariant(DeliverStep(s))
  {
    hide Kept, Misses, Accounted;
  }

  lemma {:induction false} NotifyKeeps(s: State, sub: nat, payload: nat)
    requires Invariant(s)
    ensures Invariant(NotifyStep(s, sub, payload))
  {
    hide Kept, Misses, Accounted;
    if sub in s.subs {
      var entry := s.entries[s.subs[sub]];
      Routed(entry, payload, |entry.queue| < s.capacity);
    }
  }

  lemma {:induction false} TakeKeeps(s: State, id: nat)
    requires Invariant(s)
    ensures Invariant(TakeStep(s, id))
  {
    hide Kept, Misses, Accounted;
  }

  lemma {:induction false} ReceiveKeeps(s: State, e: nat)
    requires Invariant(s)
    ensures Invariant(ReceiveStep(s, e))
  {
    hide Kept, Misses, Accounted;
    if e < |s.entries| && |s.entries[e].queue| > 0 {
      Drained(s.entries[e]);
    }
  }

  lemma {:induction false} CloseAccounted(e: Entry, closes: nat)
    requires Accounted(e)
    ensures Accounted(e.(closes := closes))
  {
  }

  lemma {:induction false} ReleaseKeeps(s: State, sub: nat, e: nat)
    requires Invariant(s)
    ensures Invariant(ReleaseStep(s, sub, e))
  {
    hide Kept, Misses, Accounted;
    if e < |s.entries| {
      CloseAccounted(s.entries[e], s.entries[e].closes + 1);
    }
  }

  lemma {:induction false} NoCloseFaults(s: State)
    requires Invariant(s) && !s.failed
    ensures !CloseFaults(s)
  {
    hide Kept, Misses, Accounted;
  }

  lemma {:induction false} FailKeepsCounts(s: State)
    requires Invariant(s) && !s.failed
    ensures CountsOk(FailStep(s))
  {
    hide Kept, Misses, Accounted, CloseFaults;
    forall e | 0 <= e < |s.entries| ensures CloseSubs(s.entries, s.subs)[e].closes <= 1 {
      assert e in s.subs.Values ==> exists i :: i in s.subs && s.subs[i] == e;
    }
  }

  lemma {:induction false} FailKeepsInflight(s: State)
    requires Invariant(s) && !s.failed
    ensures InflightOk(FailStep(s))
  {
    hide Kept, Misses, Accounted, CloseFaults;
  }

  lemma {:induction false} FailKeeps(s: State)
    requires Invariant(s)
    ensures Invariant(FailStep(s))
  {
    hide Kept, Misses, Accounted, CloseFaults, CountsOk, InflightOk;
    if !s.failed {
      NoCloseFaults(s);
      FailKeepsCounts(s);
      FailKeepsInflight(s);
      forall e | 0 <= e < |s.entries| ensures Accounted(CloseSubs(s.entries, s.subs)[e]) {
        CloseAccounted(s.entries[e], s.entries[e].closes + 1);
      }
    }
  }

  lemma {:induction false} StepKeeps(s: State, a: Action)
    requires Invariant(s)
    ensures Invariant(Step(s, a))
  {
    hide Invariant, StartStep, AckStep, DeliverStep, NotifyStep, TakeStep, ReceiveStep, ReleaseStep, FailStep;
    match a
    case Start(subscribe) => StartKeeps(s, subscribe);
    case Withdraw(id) => WithdrawKeeps(s, id);
    case Ack(id, response) => if s.inflight == None { AckKeeps(s, id, response); }
    case Deliver => DeliverKeeps(s);
    case Notify(sub, payload) => NotifyKeeps(s, sub, payload);
    case Take(id) => TakeKeeps(s, id);
    case Receive(e) => ReceiveKeeps(s, e);
    case Release(sub, e) => ReleaseKeeps(s, sub, e);
    case Fail => FailKeeps(s);
  }

  lemma {:induction false} WithdrawKeeps(s: State, id: nat)
    requires Invariant(s)
    ensures Invariant(WithdrawStep(s, id))
  {
    hide Kept, Misses, Accounted;
  }

  // ----- over every run -----

  /** No run closes a channel twice, sends on a closed one or blocks the reader; a request hears at most one of an
      answer and a close; an entry is registered under at most one id; every notification is accounted for. */
  lemma {:induction false} EveryRunSafe(capacity: nat, run: seq<Action>)
    ensures Invariant(Run(Init(capacity), run))
    decreases |run|
  {
    hide Step, Invariant;
    if run == [] {
      InitSafe(capacity);
    } else {
      EveryRunSafe(capacity, run[..|run| - 1]);
      StepKeeps(Run(Init(capacity), run[..|run| - 1]), run[|run| - 1]);
    }
  }

  lemma {:induction false} InitSafe(capacity: nat)
    ensures Invariant(Init(capacity))
  {
  }

  lemma {:induction false} RunKeeps(s: State, run: seq<Action>)
    requires Invariant(s)
    ensures Invariant(Run(s, run))
    decreases |run|
  {
    hide Step, Invariant;
    if run != [] {
      RunKeeps(s, run[..|run| - 1]);
      StepKeeps(Run(s, run[..|run| - 1]), run[|run| - 1]);
    }
  }

  /** Once the connection has failed, no run registers anything again. */
  lemma {:induction false} FailedForever(s: State, run: seq<Action>)
    requires Invariant(s) && s.failed
    ensures var r := Run(s, run); r.failed && r.subs == map[] && r.pending == map[] && r.doneCloses == 1
    decreases |run|
  {
    RunKeeps(s, run);
    StaysFailed(s, run);
    FailedIsEmpty(Run(s, run));
  }

  lemma {:induction false} FailedIsEmpty(s: State)
    requires Invariant(s) && s.failed
    ensures s.subs == map[] && s.pending == map[] && s.doneCloses == 1
  {
  }

  lemma {:induction false} StaysFailed(s: State, run: seq<Action>)
    requires s.failed
    ensures Run(s, run).failed
    decreases |run|
  {
    hide Step;
    if run != [] {
      StaysFailed(s, run[..|run| - 1]);
      StepStaysFailed(Run(s, run[..|run| - 1]), run[|run| - 1]);
    }
  }

  lemma {:induction false} StepStaysFailed(s: State, a: Action)
    requires s.failed
    ensures Step(s, a).failed
  {
    hide CloseFaults;
  }

  /** A failure closes every registered entry and every waiting request, once each, and nothing else; whatever happens
      later, such a request never hears an answer. */
  lemma {:induction false} FailureReachesEveryone(s: State, run: seq<Action>)
    requires Invariant(s) && !s.failed
    ensures var r := Step(s, Fail);
      && (forall e :: 0 <= e < |s.entries| ==>
          r.entries[e].closes == if e in s.subs.Values then 1 else s.entries[e].closes)
      && (forall q :: 0 <= q < |s.requests| ==>
          r.requests[q].closes == if q in s.pending then 1 else s.requests[q].closes)
    ensures |Run(Step(s, Fail), run).requests| >= |s.requests|
    ensures forall q :: q in s.pending ==> Run(Step(s, Fail), run).requests[q].sends == 0
  {
    FailureCloses(s);
    var r := Step(s, Fail);
    StepKeeps(s, Fail);
    RunKeeps(r, run);
    CountsBound(Run(r, run));
    Monotone(r, run);
    PendingBound(s);
  }

  lemma {:induction false} FailureCloses(s: State)
    requires Invariant(s) && !s.failed
    ensures var r := Step(s, Fail);
      && |r.entries| == |s.entries| && |r.requests| == |s.requests|
      && (forall e :: 0 <= e < |s.entries| ==>
          r.entries[e].closes == if e in s.subs.Values then 1 else s.entries[e].closes)
      && (forall q :: 0 <= q < |s.requests| ==>
          r.requests[q].closes == if q in s.pending then 1 else s.requests[q].closes)
  {
    hide Kept, Misses, Accounted, CloseFaults;
    assert forall e :: e in s.subs.Values ==> exists i :: i in s.subs && s.subs[i] == e;
  }

  lemma {:induction false} PendingBound(s: State)
    requires Invariant(s)
    ensures forall q :: q in s.pending ==> q < |s.requests|
  {
  }

  lemma {:induction false} CountsBound(s: State)
    requires Invariant(s)
    ensures forall q :: 0 <= q < |s.requests| ==> s.requests[q].sends + s.requests[q].closes <= 1
    ensures forall e :: 0 <= e < |s.entries| ==> s.entries[e].closes <= 1
  {
  }

  /** Nothing is forgotten: channels are never reopened and requests and entries never disappear. */
  ghost predicate Later(s: State, r: State) {
    && |s.requests| <= |r.requests| && |s.entries| <= |r.entries|
    && (forall q :: 0 <= q < |s.requests| ==> s.requests[q].closes <= r.requests[q].closes)
    && (forall e :: 0 <= e < |s.entries| ==> s.entries[e].closes <= r.entries[e].closes)
  }

  lemma {:induction false} Monotone(s: State, run: seq<Action>)
    ensures Later(s, Run(s, run))
    decreases |run|
  {
    hide Step;
    if run != [] {
      Monotone(s, run[..|run| - 1]);
      StepMonotone(Run(s, run[..|run| - 1]), run[|run| - 1]);
    }
  }

  lemma {:induction false} StepMonotone(s: State, a: Action)
    ensures Later(s, Step(s, a))
  {
    hide CloseFaults;
  }

  // ----- from the acknowledgement on, no notification is missed -----

  /** The payloads of the notification frames for `sub` the reader takes during a run. */
  function Frames(s: State, run: seq<Action>, sub: nat): (r: seq<nat>) {
    if run == [] then []
    else
      var n := |run| - 1;
      Frames(s, run[..n], sub) + (if FrameFor(Run(s, run[..n]), run[n], sub) then [run[n].payload] else [])
  }

  /** For each of those frames, whether the entry's queue had room as the reader took it. */
  function Rooms(s: State, run: seq<Action>, sub: nat, e: nat): (r: seq<bool>) {
    if run == [] then []
    else
      var n := |run| - 1;
      var now := Run(s, run[..n]);
      Rooms(s, run[..n], sub, e) + (if FrameFor(now, run[n], sub) then [HasRoom(now, e)] else [])
  }

  /** The reader takes a notification frame for `sub`. */
  predicate FrameFor(s: State, a: Action, sub: nat) {
    a.Notify? && a.sub == sub && s.inflight == None
  }

  predicate HasRoom(s: State, e: nat) {
    e < |s.entries| && |s.entries[e].queue| < s.capacity
  }

  /** The actions that can take the id away from the entry: its own release, a failure, or the server giving the
      same id to another subscription. */
  predicate Detaches(a: Action, sub: nat, e: nat) {
    a == Release(sub, e) || a == Fail || (a.Ack? && !a.response.error && a.response.id == Some(sub))
  }

  lemma {:induction false} StepAttached(s: State, a: Action, sub: nat, e: nat)
    requires Invariant(s) && sub in s.subs && s.subs[sub] == e && !Detaches(a, sub, e)
    ensures var r := Step(s, a);
      && sub in r.subs && r.subs[sub] == e && e < |s.entries| && e < |r.entries|
      && r.entries[e].routed == s.entries[e].routed + (if FrameFor(s, a, sub) then [a.payload] else [])
      && r.entries[e].kept == s.entries[e].kept + (if FrameFor(s, a, sub) then [HasRoom(s, e)] else [])
  {
    hide Kept, Misses, Accounted;
    if a.Notify? && a.sub != sub && a.sub in s.subs {
      assert s.subs[a.sub] != e;
    }
    assert forall x: seq<nat> :: x + [] == x;
    assert forall x: seq<bool> :: x + [] == x;
  }

  lemma {:induction false} Attached(s: State, run: seq<Action>, sub: nat, e: nat)
    requires Invariant(s) && sub in s.subs && s.subs[sub] == e
    requires forall a :: a in run ==> !Detaches(a, sub, e)
    ensures var r := Run(s, run);
      && sub in r.subs && r.subs[sub] == e && e < |s.entries| && e < |r.entries|
      && r.entries[e].routed == s.entries[e].routed + Frames(s, run, sub)
      && r.entries[e].kept == s.entries[e].kept + Rooms(s, run, sub, e)
    decreases |run|
  {
    hide Step, Invariant, Detaches, FrameFor, HasRoom;
    if run == [] {
      SubsBound(s);
      assert s.entries[e].routed + [] == s.entries[e].routed && s.entries[e].kept + [] == s.entries[e].kept;
    } else {
      var n := |run| - 1;
      assert forall a :: a in run[..n] ==> a in run;
      Attached(s, run[..n], sub, e);
      RunKeeps(s, run[..n]);
      StepAttached(Run(s, run[..n]), run[n], sub, e);
    }
  }

  lemma {:induction false} SubsBound(s: State)
    requires Invariant(s)
    ensures forall i :: i in s.subs ==> s.subs[i] < |s.entries|
  {
  }

  lemma {:induction false} AckRegisters(s: State, id: nat, sub: nat)
    requires Invariant(s) && s.inflight == None && id in s.pending && s.pending[id].Some?
    ensures var r := Step(s, Ack(id, Response(false, Some(sub))));
      && sub in r.subs && r.subs[sub] == s.pending[id].value
      && r.subs[sub] < |r.entries| && r.entries[r.subs[sub]].routed == [] && r.entries[r.subs[sub]].kept == []
  {
  }

  lemma {:induction false} AllAccounted(s: State, e: nat)
    requires Invariant(s) && e < |s.entries|
    ensures Accounted(s.entries[e])
  {
  }

  /** From the moment the acknowledgement is routed until something detaches the entry, what its owner received, then
      what is still queued, is in order exactly what was kept of the frames for its id: those that found room in its
      queue as the reader took them. The drop counter is exactly the number of the others. */
  lemma {:induction false} NoNotificationMissed(capacity: nat, before: seq<Action>, id: nat, sub: nat,
                                                after: seq<Action>)
    requires var s := Run(Init(capacity), before); s.inflight == None && id in s.pending && s.pending[id].Some?
    requires var s := Run(Init(capacity), before); forall a :: a in after ==> !Detaches(a, sub, s.pending[id].value)
    ensures var s := Run(Init(capacity), before);
      var acked := Step(s, Ack(id, Response(false, Some(sub))));
      var r := Run(acked, after);
      var e := s.pending[id].value;
      var frames := Frames(acked, after, sub);
      && r.capacity == capacity
      && e < |r.entries| && |r.entries[e].kept| == |frames| && r.entries[e].kept == Rooms(acked, after, sub, e)
      && r.entries[e].received + r.entries[e].queue == Kept(frames, r.entries[e].kept)
      && r.entries[e].dropped == Misses(r.entries[e].kept)
      && |r.entries[e].received| + |r.entries[e].queue| + r.entries[e].dropped == |frames|
  {
    hide Step, Run, Invariant, Frames, Rooms, Kept, Misses, Detaches;
    var s := Run(Init(capacity), before);
    EveryRunSafe(capacity, before);
    AckRegisters(s, id, sub);
    var a := Ack(id, Response(false, Some(sub)));
    StepKeeps(s, a);
    var acked, e := Step(s, a), s.pending[id].value;
    Attached(acked, after, sub, e);
    RunKeeps(acked, after);
    AllAccounted(Run(acked, after), e);
    CapacityKept(Init(capacity), before);
    StepCapacity(s, a);
    CapacityKept(acked, after);
    assert [] + Frames(acked, after, sub) == Frames(acked, after, sub);
    assert [] + Rooms(acked, after, sub, e) == Rooms(acked, after, sub, e);
  }

  lemma {:induction false} CapacityKept(s: State, run: seq<Action>)
    ensures Run(s, run).capacity == s.capacity
    decreases |run|
  {
    hide Step;
    if run != [] {
      CapacityKept(s, run[..|run| - 1]);
      StepCapacity(Run(s, run[..|run| - 1]), run[|run| - 1]);
    }
  }

  lemma {:induction false} StepCapacity(s: State, a: Action)
    ensures Step(s, a).capacity == s.capacity
  {
    hide CloseFaults, CloseSubs, ClosePending;
  }

  /** The owner never has `capacity` notifications to take. */
  ghost predicate NeverBehind(s: State, run: seq<Action>, e: nat) {
    forall n :: 0 <= n < |run| ==> HasRoom(Run(s, run[..n]), e)
  }

  lemma {:induction false} RoomForAll(s: State, run: seq<Action>, sub: nat, e: nat)
    requires NeverBehind(s, run, e)
    ensures forall i :: 0 <= i < |Rooms(s, run, sub, e)| ==> Rooms(s, run, sub, e)[i]
    decreases |run|
  {
    hide HasRoom, FrameFor;
    if run != [] {
      var n := |run| - 1;
      forall k | 0 <= k < n ensures HasRoom(Run(s, run[..n][..k]), e) {
        assert run[..n][..k] == run[..k];
      }
      RoomForAll(s, run[..n], sub, e);
    }
  }

  lemma {:induction false} AllKept(frames: seq<nat>, kept: seq<bool>)
    requires |frames| == |kept| && forall i :: 0 <= i < |kept| ==> kept[i]
    ensures Kept(frames, kept) == frames && Misses(kept) == 0
    decreases |frames|
  {
    if frames != [] {
      var n := |frames| - 1;
      AllKept(frames[..n], kept[..n]);
    }
  }

  /** An owner that is never `capacity` notifications behind misses none: it gets every frame for its id, in order. */
  lemma {:induction false} NothingDropped(capacity: nat, before: seq<Action>, id: nat, sub: nat, after: seq<Action>)
    requires var s := Run(Init(capacity), before); s.inflight == None && id in s.pending && s.pending[id].Some?
    requires var s := Run(Init(capacity), before); forall a :: a in after ==> !Detaches(a, sub, s.pending[id].value)
    requires var s := Run(Init(capacity), before);
      NeverBehind(Step(s, Ack(id, Response(false, Some(sub)))), after, s.pending[id].value)
    ensures var s := Run(Init(capacity), before);
      var acked := Step(s, Ack(id, Response(false, Some(sub))));
      var r := Run(acked, after);
      var e := s.pending[id].value;
      && e < |r.entries| && r.entries[e].dropped == 0
      && r.entries[e].received + r.entries[e].queue == Frames(acked, after, sub)
  {
    hide Step, Run, Frames, Rooms, Kept, Misses, Detaches, NeverBehind;
    NoNotificationMissed(capacity, before, id, sub, after);
    var s := Run(Init(capacity), before);
    var acked, e := Step(s, Ack(id, Response(false, Some(sub)))), s.pending[id].value;
    RoomForAll(acked, after, sub, e);
    AllKept(Frames(acked, after, sub), Rooms(acked, after, sub, e));
  }

  // ----- releases and closed entries -----

  /** A closed entry is out of the reader's reach for good: nothing more is routed to it or dropped, and its owner
      drains what was queued, in order. */
  lemma {:induction false} ClosedIsFinal(s: State, run: seq<Action>, e: nat)
    requires Invariant(s) && e < |s.entries| && s.entries[e].closes == 1
    ensures var r := Run(s, run);
      && e < |r.entries| && r.entries[e].closes == 1
      && r.entries[e].routed == s.entries[e].routed && r.entries[e].dropped == s.entries[e].dropped
      && r.entries[e].received + r.entries[e].queue == s.entries[e].received + s.entries[e].queue
      && s.entries[e].received <= r.entries[e].received
    decreases |run|
  {
    hide Step, Invariant;
    if run != [] {
      var n := |run| - 1;
      ClosedIsFinal(s, run[..n], e);
      RunKeeps(s, run[..n]);
      StepClosed(Run(s, run[..n]), run[n], e);
    }
  }

  lemma {:induction false} StepClosed(s: State, a: Action, e: nat)
    requires Invariant(s) && e < |s.entries| && s.entries[e].closes == 1
    ensures var r := Step(s, a);
      && e < |r.entries| && r.entries[e].closes == 1
      && r.entries[e].routed == s.entries[e].routed && r.entries[e].dropped == s.entries[e].dropped
      && r.entries[e].received + r.entries[e].queue == s.entries[e].received + s.entries[e].queue
      && s.entries[e].received <= r.entries[e].received
  {
    hide Invariant;
    Exclusive(s);
    hide SubsOk, PendingOk, InflightOk, FailedOk;
    ClosedUnregistered(s, e);
    if a == Receive(e) {
      ReceiveDrains(s, e);
    } else {
      hide CountsOk;
      OthersLeaveClosed(s, a, e);
    }
  }

  lemma {:induction false} ClosedUnregistered(s: State, e: nat)
    requires SubsOk(s) && e < |s.entries| && s.entries[e].closes == 1
    ensures forall i :: i in s.subs ==> s.subs[i] != e
  {
  }

  lemma {:induction false} ReceiveDrains(s: State, e: nat)
    requires e < |s.entries|
    ensures var r := ReceiveStep(s, e);
      && e < |r.entries| && r.entries[e].closes == s.entries[e].closes
      && r.entries[e].routed == s.entries[e].routed && r.entries[e].dropped == s.entries[e].dropped
      && r.entries[e].received + r.entries[e].queue == s.entries[e].received + s.entries[e].queue
      && s.entries[e].received <= r.entries[e].received
  {
    if |s.entries[e].queue| > 0 {
      var queue := s.entries[e].queue;
      assert queue == [queue[0]] + queue[1..];
    }
  }

  /** An entry that is not registered is changed by its own receiver only. */
  lemma {:induction false} OthersLeaveClosed(s: State, a: Action, e: nat)
    requires e < |s.entries| && (forall i :: i in s.subs ==> s.subs[i] != e) && a != Receive(e)
    ensures var r := Step(s, a); e < |r.entries| && r.entries[e] == s.entries[e]
  {
    hide CloseFaults;
    assert e !in s.subs.Values;
  }

  /** Neither registered under `sub` nor waiting to be registered. */
  ghost predicate Detached(s: State, sub: nat, e: nat) {
    && e < |s.entries|
    && !(sub in s.subs && s.subs[sub] == e)
    && (forall q :: q in s.pending ==> s.pending[q] != Some(e))
  }

  lemma {:induction false} StepDetached(s: State, a: Action, sub: nat, e: nat)
    requires Invariant(s) && Detached(s, sub, e)
    ensures Detached(Step(s, a), sub, e)
  {
    hide Kept, Misses, Accounted;
  }

  /** A handle whose id has been released, or has passed to a newer entry, can be released again at any later time
      without touching anything. */
  lemma {:induction false} StaleReleaseHarmless(s: State, run: seq<Action>, sub: nat, e: nat)
    requires Invariant(s) && Detached(s, sub, e)
    ensures Detached(Run(s, run), sub, e)
    ensures Step(Run(s, run), Release(sub, e)) == Run(s, run)
    decreases |run|
  {
    if run != [] {
      hide Step, Invariant;
      StaleReleaseHarmless(s, run[..|run| - 1], sub, e);
      RunKeeps(s, run[..|run| - 1]);
      StepDetached(Run(s, run[..|run| - 1]), run[|run| - 1], sub, e);
    }
    ReleaseDetached(Run(s, run), sub, e);
  }

  lemma {:induction false} ReleaseDetached(s: State, sub: nat, e: nat)
    requires Detached(s, sub, e)
    ensures Step(s, Release(sub, e)) == s
  {
  }

  // ----- who is told about the end of the connection -----

  /** The server acknowledges a new subscription under an id that still names `e`. */
  predicate Displaces(s: State, a: Action, sub: nat, e: nat) {
    && a.Ack? && s.inflight == None && a.id in s.pending && s.pending[a.id].Some?
    && !a.response.error && a.response.id == Some(sub)
    && sub in s.subs && s.subs[sub] == e
  }

  predicate Displaced(s: State, run: seq<Action>, sub: nat, e: nat) {
    run != [] && (Displaced(s, run[..|run| - 1], sub, e) || Displaces(Run(s, run[..|run| - 1]), run[|run| - 1], sub, e))
  }

  /** What has become of an entry that was registered under `sub`. */
  ghost predicate Fate(s: State, sub: nat, e: nat, displaced: bool) {
    && e < |s.entries|
    && (forall q :: q in s.pending ==> s.pending[q] != Some(e))
    && (displaced ==> s.entries[e].closes == 0 && forall i :: i in s.subs ==> s.subs[i] != e)
    && (!displaced ==> s.entries[e].closes == 1 || (sub in s.subs && s.subs[sub] == e))
  }

  lemma {:induction false} StepFate(s: State, a: Action, sub: nat, e: nat, displaced: bool)
    requires Invariant(s) && Fate(s, sub, e, displaced)
    ensures Fate(Step(s, a), sub, e, displaced || Displaces(s, a, sub, e))
  {
    hide Invariant, Fate, SubsOk, PendingOk, InflightOk, FailedOk, CountsOk;
    hide StartStep, AckStep, DeliverStep, NotifyStep, TakeStep, ReceiveStep, ReleaseStep, FailStep;
    Exclusive(s);
    if a.Ack? {
      AckFate(s, a.id, a.response, sub, e, displaced);
    } else if a.Start? {
      StartFate(s, a.subscribe, sub, e, displaced);
    } else if a == Fail {
      FailFate(s, sub, e, displaced);
    } else {
      OtherFate(s, a, sub, e, displaced);
    }
  }

  lemma {:induction false} AckFate(s: State, id: nat, response: Response, sub: nat, e: nat, displaced: bool)
    requires SubsOk(s) && PendingOk(s) && Fate(s, sub, e, displaced)
    ensures Fate(Step(s, Ack(id, response)), sub, e, displaced || Displaces(s, Ack(id, response), sub, e))
  {
  }

  lemma {:induction false} StartFate(s: State, subscribe: bool, sub: nat, e: nat, displaced: bool)
    requires PendingOk(s) && Fate(s, sub, e, displaced)
    ensures Fate(StartStep(s, subscribe), sub, e, displaced)
  {
  }

  lemma {:induction false} OtherFate(s: State, a: Action, sub: nat, e: nat, displaced: bool)
    requires SubsOk(s) && CountsOk(s) && Fate(s, sub, e, displaced)
    requires !a.Ack? && !a.Start? && a != Fail
    ensures Fate(Step(s, a), sub, e, displaced)
  {
  }

  /** The part of the invariant that keeps entries apart. */
  lemma {:induction false} Exclusive(s: State)
    requires Invariant(s)
    ensures SubsOk(s) && PendingOk(s) && InflightOk(s) && FailedOk(s) && CountsOk(s)
  {
  }

  lemma {:induction false} FailFate(s: State, sub: nat, e: nat, displaced: bool)
    requires SubsOk(s) && FailedOk(s) && CountsOk(s) && Fate(s, sub, e, displaced)
    ensures Fate(FailStep(s), sub, e, displaced)
  {
    hide CloseFaults;
    assert e in s.subs.Values <==> exists i :: i in s.subs && s.subs[i] == e;
    assert sub in s.subs && s.subs[sub] == e ==> e in s.subs.Values;
  }

  lemma {:induction false} RunFate(s: State, run: seq<Action>, sub: nat, e: nat)
    requires Invariant(s) && sub in s.subs && s.subs[sub] == e
    ensures Fate(Run(s, run), sub, e, Displaced(s, run, sub, e))
    decreases |run|
  {
    if run == [] {
      Exclusive(s);
    } else {
      hide Step, Invariant, Fate, Displaces;
      RunFate(s, run[..|run| - 1], sub, e);
      RunKeeps(s, run[..|run| - 1]);
      StepFate(Run(s, run[..|run| - 1]), run[|run| - 1], sub, e, Displaced(s, run[..|run| - 1], sub, e));
    }
  }

  /** Once the connection has failed, the receiver of an entry that was registered is woken by a closed channel if and
      only if the server never gave the id to another subscription while the entry held it. */
  lemma {:induction false} EndReachesReceiver(s: State, run: seq<Action>, sub: nat, e: nat)
    requires Invariant(s) && sub in s.subs && s.subs[sub] == e
    requires Run(s, run).failed
    ensures e < |Run(s, run).entries|
    ensures Run(s, run).entries[e].closes == 1 <==> !Displaced(s, run, sub, e)
  {
    RunFate(s, run, sub, e);
    RunKeeps(s, run);
    FailedIsEmpty(Run(s, run));
  }

  /** Two subscriptions acknowledged under one id, then the end of the connection: the first is never closed. */
  lemma {:induction false} DisplacedReceiverIsNotWoken(capacity: nat, ack: Response)
    requires !ack.error && ack.id.Some?
    ensures var r := Run(Init(capacity), [Start(true), Ack(0, ack), Deliver, Start(true)] + [Ack(1, ack)] + [Fail]);
      r.failed && |r.entries| == 2 && r.entries[0].closes == 0 && r.entries[1].closes == 1
  {
    var run := [Start(true), Ack(0, ack), Deliver, Start(true)];
    RunSnoc(Init(capacity), run, Ack(1, ack));
    RunSnoc(Init(capacity), run + [Ack(1, ack)], Fail);
    hide Run, CloseFaults;
    var s4 := FourSteps(capacity, ack);
    var s5 := Step(s4, Ack(1, ack));
    assert s5.subs == map[ack.id.value := 1];
    assert 1 in s5.subs.Values by { assert s5.subs[ack.id.value] == 1; }
    assert 0 !in s5.subs.Values;
  }

  lemma {:induction false} FourSteps(capacity: nat, ack: Response) returns (s: State)
    requires !ack.error && ack.id.Some?
    ensures s == Run(Init(capacity), [Start(true), Ack(0, ack), Deliver, Start(true)])
    ensures s.entries == [Entry([], 0, 0, [], [], []), Entry([], 0, 0, [], [], [])] && s.pending == map[1 := Some(1)]
    ensures s.subs == map[ack.id.value := 0] && s.inflight == None && !s.failed
  {
    var s2 := TwoSteps(capacity, ack);
    var run := [Start(true), Ack(0, ack)];
    RunSnoc(Init(capacity), run, Deliver);
    RunSnoc(Init(capacity), run + [Deliver], Start(true));
    hide Run;
    s := Step(Step(s2, Deliver), Start(true));
    assert run + [Deliver] + [Start(true)] == [Start(true), Ack(0, ack), Deliver, Start(true)];
  }

  lemma {:induction false} TwoSteps(capacity: nat, ack: Response) returns (s: State)
    requires !ack.error && ack.id.Some?
    ensures s == Run(Init(capacity), [Start(true), Ack(0, ack)])
    ensures s == State(capacity, map[], map[ack.id.value := 0], false, 0, [Request(Some(0), [], 0, 0)],
                       [Entry([], 0, 0, [], [], [])], Some((0, ack)), false)
  {
    var s1 := Step(Init(capacity), Start(true));
    s := Step(s1, Ack(0, ack));
    assert s.pending == map[];
    RunSnoc(Init(capacity), [], Start(true));
    RunSnoc(Init(capacity), [Start(true)], Ack(0, ack));
    assert [] + [Start(true)] == [Start(true)] && [Start(true)] + [Ack(0, ack)] == [Start(true), Ack(0, ack)];
  }

  lemma {:induction false} RunSnoc(s: State, run: seq<Action>, a: Action)
    ensures Run(s, run + [a]) == Step(Run(s, run), a)
  {
    assert (run + [a])[..|run|] == run;
  }
}
