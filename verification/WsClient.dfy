/**
 The client of ws/client.go as an object: its two maps, its terminal error and its channels, changed in place.
 Each method is one critical section, or one channel operation, and is proved to be a step of the protocol machine.
 */
module WsClient {
  import opened Wrappers
  import opened WsProtocol

  /** What a receiver sees. */
  datatype Received = Notification(payload: nat) | Closed | Waiting

  ghost predicate Injective(subs: map<nat, nat>) {
    forall i, j :: i in subs && j in subs && subs[i] == subs[j] ==> i == j
  }

  /** The entries whose ids are not in `todo` have been closed once more, and no others. */
  ghost predicate ClosedBut(before: seq<Entry>, now: seq<Entry>, subs: map<nat, nat>, todo: set<nat>) {
    now == CloseSubs(before, subs - todo)
  }

  lemma {:induction false} NoneClosed(before: seq<Entry>, subs: map<nat, nat>)
    ensures ClosedBut(before, before, subs, subs.Keys)
  {
    assert subs - subs.Keys == map[];
  }

  lemma {:induction false} AllClosed(before: seq<Entry>, now: seq<Entry>, subs: map<nat, nat>)
    requires ClosedBut(before, now, subs, {})
    ensures now == CloseSubs(before, subs)
  {
    assert subs - {} == subs;
  }

  lemma {:induction false} OneMoreClosed(before: seq<Entry>, now: seq<Entry>, subs: map<nat, nat>, todo: set<nat>,
                                         id: nat)
    requires ClosedBut(before, now, subs, todo) && Injective(subs) && id in subs && id in todo && subs[id] < |before|
    ensures |now| == |before| && now[subs[id]] == before[subs[id]]
    ensures ClosedBut(before, now[subs[id] := now[subs[id]].(closes := now[subs[id]].closes + 1)], subs, todo - {id})
  {
    var less, more := subs - todo, subs - (todo - {id});
    assert more[id] == subs[id];
    assert forall i :: i in less ==> i in more && more[i] == less[i];
    assert forall i :: i in more && i != id ==> i in less && more[i] == less[i];
    assert forall i :: i in less ==> less[i] != subs[id];
    forall e | 0 <= e < |before| && e != subs[id] ensures e in more.Values <==> e in less.Values {
    }
  }

  ghost predicate AnsweredBut(before: seq<Request>, now: seq<Request>, pending: map<nat, Option<nat>>, todo: set<nat>) {
    now == ClosePending(before, pending - todo)
  }

  lemma {:induction false} NoneAnswered(before: seq<Request>, pending: map<nat, Option<nat>>)
    ensures AnsweredBut(before, before, pending, pending.Keys)
  {
    assert pending - pending.Keys == map[];
  }

  lemma {:induction false} AllAnswered(before: seq<Request>, now: seq<Request>, pending: map<nat, Option<nat>>)
    requires AnsweredBut(before, now, pending, {})
    ensures now == ClosePending(before, pending)
  {
    assert pending - {} == pending;
  }

  lemma {:induction false} OneMoreAnswered(before: seq<Request>, now: seq<Request>, pending: map<nat, Option<nat>>,
                                           todo: set<nat>, q: nat)
    requires AnsweredBut(before, now, pending, todo) && q in pending && q in todo && q < |before|
    ensures |now| == |before| && now[q] == before[q]
    ensures AnsweredBut(before, now[q := now[q].(closes := now[q].closes + 1)], pending, todo - {q})
  {
    assert (pending - (todo - {q})).Keys == (pending - todo).Keys + {q};
  }

  class Client {
    const capacity: nat
    var pending: map<nat, Option<nat>>
    var subs: map<nat, nat>
    var failed: bool
    var doneCloses: nat
    var requests: seq<Request>
    var entries: seq<Entry>
    var inflight: Option<(nat, Response)>
    var fault: bool

    ghost function Now(): (s: State)
      reads this
    {
      State(capacity, pending, subs, failed, doneCloses, requests, entries, inflight, fault)
    }

    ghost predicate Valid()
      reads this
    {
      Invariant(Now())
    }

    constructor (capacity: nat)
      ensures Valid() && Now() == Init(capacity)
    {
      this.capacity := capacity;
      pending, subs, failed, doneCloses := map[], map[], false, 0;
      requests, entries, inflight, fault := [], [], None, false;
      new;
      InitSafe(capacity);
    }

    method CloseEntry(e: nat)
      requires e < |entries|
      modifies this`entries, this`fault
      ensures entries == old(entries)[e := old(entries)[e].(closes := old(entries)[e].closes + 1)]
      ensures fault == (old(fault) || old(entries)[e].closes > 0)
    {
      if entries[e].closes > 0 { fault := true; }
      entries := entries[e := entries[e].(closes := entries[e].closes + 1)];
    }

    method CloseRequest(q: nat)
      requires q < |requests|
      modifies this`requests, this`fault
      ensures requests == old(requests)[q := old(requests)[q].(closes := old(requests)[q].closes + 1)]
      ensures fault == (old(fault) || old(requests)[q].closes > 0)
    {
      if requests[q].closes > 0 { fault := true; }
      requests := requests[q := requests[q].(closes := requests[q].closes + 1)];
    }

    /** The registered entries closed one by one, in whatever order the map yields them. */
    method CloseAllSubs()
      requires Injective(subs) && forall i :: i in subs ==> subs[i] < |entries| && entries[subs[i]].closes == 0
      modifies this`subs, this`entries, this`fault
      ensures subs == map[] && fault == old(fault)
      ensures entries == CloseSubs(old(entries), old(subs))
    {
      hide CloseSubs, ClosedBut, Injective;
      ghost var was, before := subs, entries;
      NoneClosed(before, was);
      var todo := subs.Keys;
      while todo != {}
        invariant todo <= was.Keys && fault == old(fault)
        invariant subs == map i | i in todo :: was[i]
        invariant ClosedBut(before, entries, was, todo)
      {
        var id :| id in todo;
        OneMoreClosed(before, entries, was, todo, id);
        CloseEntry(subs[id]);
        subs, todo := subs - {id}, todo - {id};
      }
      AllClosed(before, entries, was);
    }

    /** The waiting requests closed likewise. */
    method CloseAllPending()
      requires forall q :: q in pending ==> q < |requests| && requests[q].closes == 0
      modifies this`pending, this`requests, this`fault
      ensures pending == map[] && fault == old(fault)
      ensures requests == ClosePending(old(requests), old(pending))
    {
      hide ClosePending, AnsweredBut;
      ghost var was, before := pending, requests;
      NoneAnswered(before, was);
      var todo := pending.Keys;
      while todo != {}
        invariant todo <= was.Keys && fault == old(fault)
        invariant pending == map q | q in todo :: was[q]
        invariant AnsweredBut(before, requests, was, todo)
      {
        var q :| q in todo;
        OneMoreAnswered(before, requests, was, todo, q);
        CloseRequest(q);
        pending, todo := pending - {q}, todo - {q};
      }
      AllAnswered(before, requests, was);
    }

    /** fail: only the first terminal error counts. */
    method Fail()
      requires Valid()
      modifies this
      ensures Valid() && Now() == Step(old(Now()), Action.Fail)
    {
      hide Invariant, CloseFaults, CloseSubs, ClosePending;
      StepKeeps(Now(), Action.Fail);
      if failed { return; }
      Exclusive(Now());
      NoCloseFaults(Now());
      failed := true;
      fault := fault || doneCloses > 0;
      doneCloses := doneCloses + 1;
      CloseAllSubs();
      CloseAllPending();
    }

    /** The first half of request. A failed client registers nothing and reports its error. */
    method Request(subscribe: bool) returns (id: nat, ok: bool)
      requires Valid()
      modifies this
      ensures Valid() && Now() == Step(old(Now()), Start(subscribe))
      ensures id == old(|requests|) && ok == !old(failed)
    {
      hide Invariant;
      StepKeeps(Now(), Start(subscribe));
      id := |requests|;
      var entry := None;
      if subscribe {
        entry := Some(|entries|);
        entries := entries + [Entry([], 0, 0, [], [], [])];
      }
      requests := requests + [WsProtocol.Request(entry, [], 0, 0)];
      ok := !failed;
      if ok { pending := pending[id := entry]; }
    }

    /** The request gives up: its write failed, or its context ended. */
    method Withdraw(id: nat)
      requires Valid()
      modifies this`pending
      ensures Valid() && Now() == Step(old(Now()), Action.Withdraw(id))
    {
      hide Invariant;
      StepKeeps(Now(), Action.Withdraw(id));
      pending := pending - {id};
    }

    /** route, for an answer: what happens under the mutex. The reader comes here only between deliveries. */
    method RouteAnswer(id: nat, response: Response)
      requires Valid() && inflight == None
      modifies this`pending, this`subs, this`inflight
      ensures Valid() && Now() == Step(old(Now()), Ack(id, response))
    {
      hide Invariant;
      StepKeeps(Now(), Ack(id, response));
      if id in pending {
        var entry := pending[id];
        pending := pending - {id};
        if entry.Some? && !response.error && response.id.Some? {
          subs := subs[response.id.value := entry.value];
        }
        inflight := Some((id, response));
      }
    }

    /** route, for an answer: the send after the mutex is released. It neither blocks nor finds a closed channel. */
    method Deliver()
      requires Valid()
      modifies this`requests, this`inflight
      ensures Valid() && Now() == Step(old(Now()), Action.Deliver)
    {
      hide Invariant;
      StepKeeps(Now(), Action.Deliver);
      Exclusive(Now());
      if inflight.Some? {
        var (q, response) := inflight.value;
        requests := requests[q := requests[q].(buffered := requests[q].buffered + [response],
                                               sends := requests[q].sends + 1)];
        inflight := None;
      }
    }

    /** route, for a notification: a send that gives up when the buffer is full, counted then as dropped. */
    method RouteNotification(sub: nat, payload: nat)
      requires Valid() && inflight == None
      modifies this`entries
      ensures Valid() && Now() == Step(old(Now()), Notify(sub, payload))
    {
      hide Invariant;
      StepKeeps(Now(), Notify(sub, payload));
      Exclusive(Now());
      if sub in subs {
        var entry := entries[subs[sub]];
        var room := |entry.queue| < capacity;
        entry := entry.(routed := entry.routed + [payload], kept := entry.kept + [room]);
        if room {
          entry := entry.(queue := entry.queue + [payload]);
        } else {
          entry := entry.(dropped := entry.dropped + 1);
        }
        entries := entries[subs[sub] := entry];
      }
    }

    /** Recv: the oldest queued notification; the close is seen only once the queue is empty. */
    method Recv(e: nat) returns (r: Received)
      requires Valid() && e < |entries|
      modifies this`entries
      ensures Valid() && Now() == Step(old(Now()), Receive(e))
      ensures r.Notification? <==> |old(entries)[e].queue| > 0
      ensures r.Notification? ==> entries[e].received == old(entries)[e].received + [r.payload]
      ensures r == Closed <==> old(entries)[e].queue == [] && old(entries)[e].closes > 0
    {
      hide Invariant;
      StepKeeps(Now(), Receive(e));
      var entry := entries[e];
      if |entry.queue| > 0 {
        r := Notification(entry.queue[0]);
        entries := entries[e := entry.(queue := entry.queue[1..], received := entry.received + [entry.queue[0]])];
      } else if entry.closes > 0 {
        r := Closed;
      } else {
        r := Waiting;
      }
    }

    /** Release, with its identity check. */
    method Release(sub: nat, e: nat)
      requires Valid() && e < |entries|
      modifies this`subs, this`entries, this`fault
      ensures Valid() && Now() == Step(old(Now()), Action.Release(sub, e))
    {
      hide Invariant;
      StepKeeps(Now(), Action.Release(sub, e));
      if sub in subs && subs[sub] == e {
        subs := subs - {sub};
        CloseEntry(e);
      }
    }
  }
}
