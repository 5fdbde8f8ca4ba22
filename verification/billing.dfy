/**
 Billing webhooks: each provider event is recorded once by its external id, and its data
 reaches the subscription or refund row only if it is not older than what the row shows.
 */
module Billing {
  import opened Prelude

  datatype Target = Subscription | Refund(providerRefundId: string)

  datatype Event = Event(externalId: string, target: Target, providerTime: int, data: string)

  datatype Row = Row(data: string, providerTime: int, version: nat)

  datatype Outcome = Applied | Duplicate | Stale

  datatype Books = Books(seen: set<string>, rows: map<Target, Row>)

  const EMPTY := Books({}, map[])

  function OutcomeOf(b: Books, e: Event): Outcome {
    if e.externalId in b.seen then Duplicate
    else if e.target !in b.rows || b.rows[e.target].providerTime <= e.providerTime then Applied
    else Stale
  }

  function Process(b: Books, e: Event): Books {
    match OutcomeOf(b, e)
    case Duplicate => b
    case Stale => b.(seen := b.seen + {e.externalId})
    case Applied =>
      Books(b.seen + {e.externalId},
            b.rows[e.target := Row(e.data, e.providerTime, if e.target in b.rows then b.rows[e.target].version + 1 else 1)])
  }

  function ProcessAll(deliveries: seq<Event>): Books {
    if deliveries == [] then EMPTY
    else Process(ProcessAll(deliveries[..|deliveries| - 1]), deliveries[|deliveries| - 1])
  }

  ghost function Rows(subscription: Option<Row>, refunds: map<string, Row>): map<Target, Row> {
    (map r | r in refunds :: Refund(r) := refunds[r])
    + (if subscription.Some? then map[Subscription := subscription.value] else map[])
  }

  lemma RefundRowShows(subscription: Option<Row>, refunds: map<string, Row>, id: string)
    ensures id in refunds <==> Refund(id) in Rows(subscription, refunds)
    ensures id in refunds ==> Rows(subscription, refunds)[Refund(id)] == refunds[id]
  {
  }

  lemma RefundRowChanges(subscription: Option<Row>, refunds: map<string, Row>, id: string, row: Row)
    ensures Rows(subscription, refunds[id := row]) == Rows(subscription, refunds)[Refund(id) := row]
  {
    var before, after := Rows(subscription, refunds)[Refund(id) := row], Rows(subscription, refunds[id := row]);
    forall t: Target ensures (t in after <==> t in before) && (t in after ==> after[t] == before[t]) {
      if t.Refund? {
        RefundRowShows(subscription, refunds, t.providerRefundId);
        RefundRowShows(subscription, refunds[id := row], t.providerRefundId);
      }
    }
  }

  /** What one refund event does to the refund rows. */
  function RefundsAfter(refunds: map<string, Row>, e: Event): map<string, Row>
    requires e.target.Refund?
  {
    var id := e.target.providerRefundId;
    if id !in refunds then refunds[id := Row(e.data, e.providerTime, 1)]
    else if refunds[id].providerTime <= e.providerTime then
      refunds[id := Row(e.data, e.providerTime, refunds[id].version + 1)]
    else refunds
  }

  lemma RefundIsProcessed(seen: set<string>, subscription: Option<Row>, refunds: map<string, Row>, e: Event)
    requires e.target.Refund? && e.externalId !in seen
    ensures Process(Books(seen, Rows(subscription, refunds)), e)
         == Books(seen + {e.externalId}, Rows(subscription, RefundsAfter(refunds, e)))
  {
    var id := e.target.providerRefundId;
    RefundRowShows(subscription, refunds, id);
    RefundRowChanges(subscription, refunds, id,
                     Row(e.data, e.providerTime, if id in refunds then refunds[id].version + 1 else 1));
  }

  class BillingTables {
    var events: set<string>
    var subscription: Option<Row>
    var refunds: map<string, Row>

    ghost function Contents(): Books
      reads this
    {
      Books(events, Rows(subscription, refunds))
    }

    constructor ()
      ensures Contents() == EMPTY
    {
      events, subscription, refunds := {}, None, map[];
    }

    method ProcessBillingEvent(e: Event) returns (outcome: Outcome)
      requires e.target.Subscription?
      modifies this
      ensures Contents() == Process(old(Contents()), e) && outcome == OutcomeOf(old(Contents()), e)
    {
      if e.externalId in events {
        return Duplicate;
      }
      events := events + {e.externalId};
      outcome := Stale;
      if subscription.None? {
        subscription := Some(Row(e.data, e.providerTime, 1));
        outcome := Applied;
      } else if subscription.value.providerTime <= e.providerTime {
        subscription := Some(Row(e.data, e.providerTime, subscription.value.version + 1));
        outcome := Applied;
      }
    }

    method ProcessRefundEvent(e: Event) returns (outcome: Outcome)
      requires e.target.Refund?
      modifies this
      ensures Contents() == Process(old(Contents()), e) && outcome == OutcomeOf(old(Contents()), e)
    {
      if e.externalId in events {
        return Duplicate;
      }
      events := events + {e.externalId};
      var id := e.target.providerRefundId;
      outcome := Stale;
      RefundRowShows(subscription, refunds, id);
      RefundIsProcessed(old(events), subscription, refunds, e);
      if id !in refunds {
        refunds := refunds[id := Row(e.data, e.providerTime, 1)];
        outcome := Applied;
      } else if refunds[id].providerTime <= e.providerTime {
        refunds := refunds[id := Row(e.data, e.providerTime, refunds[id].version + 1)];
        outcome := Applied;
      }
    }
  }

  // ----- what any sequence of deliveries leaves behind -----

  /** Delivery `i` is the first one of its event. */
  predicate First(deliveries: seq<Event>, i: nat)
    requires i < |deliveries|
  {
    forall j :: 0 <= j < i ==> deliveries[j].externalId != deliveries[i].externalId
  }

  predicate FirstFor(deliveries: seq<Event>, target: Target, i: nat)
    requires i < |deliveries|
  {
    deliveries[i].target == target && First(deliveries, i)
  }

  /** Among the distinct events of the target, `i` has the greatest time and, of equals, came last. */
  predicate Latest(deliveries: seq<Event>, target: Target, i: nat)
    requires i < |deliveries|
  {
    && FirstFor(deliveries, target, i)
    && forall j :: 0 <= j < |deliveries| && FirstFor(deliveries, target, j) ==>
         && deliveries[j].providerTime <= deliveries[i].providerTime
         && (j > i ==> deliveries[j].providerTime < deliveries[i].providerTime)
  }

  predicate Shows(row: Row, e: Event) {
    row.data == e.data && row.providerTime == e.providerTime
  }

  function AppliedCount(deliveries: seq<Event>, target: Target): nat {
    if deliveries == [] then 0
    else
      var before := deliveries[..|deliveries| - 1];
      var e := deliveries[|deliveries| - 1];
      AppliedCount(before, target)
      + (if e.target == target && OutcomeOf(ProcessAll(before), e) == Applied then 1 else 0)
  }

  lemma {:induction false} SeenIsDelivered(deliveries: seq<Event>)
    ensures forall id :: id in ProcessAll(deliveries).seen <==>
                         exists i :: 0 <= i < |deliveries| && deliveries[i].externalId == id
    decreases |deliveries|
  {
    if deliveries != [] {
      var n := |deliveries| - 1;
      SeenIsDelivered(deliveries[..n]);
      forall id ensures id in ProcessAll(deliveries).seen <==>
                        exists i :: 0 <= i < |deliveries| && deliveries[i].externalId == id
      {
        if id in ProcessAll(deliveries[..n]).seen {
          var i :| 0 <= i < n && deliveries[..n][i].externalId == id;
          assert deliveries[i].externalId == id;
        }
        if i :| 0 <= i < |deliveries| && deliveries[i].externalId == id {
          if i < n { assert deliveries[..n][i].externalId == id; }
        }
      }
    }
  }

  lemma FirstIsLocal(deliveries: seq<Event>, i: nat)
    requires i < |deliveries| - 1
    ensures First(deliveries, i) <==> First(deliveries[..|deliveries| - 1], i)
  {
    var before := deliveries[..|deliveries| - 1];
    assert forall j :: 0 <= j <= i ==> before[j] == deliveries[j];
  }

  predicate Reached(deliveries: seq<Event>, target: Target) {
    exists i :: 0 <= i < |deliveries| && FirstFor(deliveries, target, i)
  }

  predicate ShowsLatest(deliveries: seq<Event>, target: Target, row: Row) {
    exists i :: 0 <= i < |deliveries| && Latest(deliveries, target, i) && Shows(row, deliveries[i])
  }

  /** A delivery that is not a first one for the target, or is older, changes nothing for it. */
  lemma LatestStays(deliveries: seq<Event>, target: Target, row: Row)
    requires deliveries != []
    requires ShowsLatest(deliveries[..|deliveries| - 1], target, row)
    requires var n := |deliveries| - 1;
      FirstFor(deliveries, target, n) ==> deliveries[n].providerTime < row.providerTime
    ensures ShowsLatest(deliveries, target, row)
  {
    var n := |deliveries| - 1;
    var before := deliveries[..n];
    var i :| 0 <= i < n && Latest(before, target, i) && Shows(row, before[i]);
    FirstIsLocal(deliveries, i);
    forall j: nat | j < |deliveries| && FirstFor(deliveries, target, j)
      ensures deliveries[j].providerTime <= deliveries[i].providerTime
      ensures j > i ==> deliveries[j].providerTime < deliveries[i].providerTime
    {
      if j < n {
        FirstIsLocal(deliveries, j);
        assert FirstFor(before, target, j) && before[j] == deliveries[j];
      }
    }
    assert Latest(deliveries, target, i);
  }

  lemma LatestArrives(deliveries: seq<Event>, target: Target)
    requires deliveries != []
    requires var n := |deliveries| - 1;
      && FirstFor(deliveries, target, n)
      && forall j :: 0 <= j < n && FirstFor(deliveries[..n], target, j) ==>
           deliveries[j].providerTime <= deliveries[n].providerTime
    ensures Latest(deliveries, target, |deliveries| - 1)
  {
    forall j: nat | j < |deliveries| - 1
      ensures FirstFor(deliveries[..|deliveries| - 1], target, j) <==> FirstFor(deliveries, target, j)
    {
      FirstIsLocal(deliveries, j);
    }
  }

  lemma ReachedGrows(deliveries: seq<Event>, target: Target)
    requires deliveries != []
    ensures var n := |deliveries| - 1;
      Reached(deliveries, target) <==> Reached(deliveries[..n], target) || FirstFor(deliveries, target, n)
  {
    var n := |deliveries| - 1;
    forall j: nat | j < n ensures FirstFor(deliveries[..n], target, j) <==> FirstFor(deliveries, target, j) {
      FirstIsLocal(deliveries, j);
    }
    if Reached(deliveries[..n], target) {
      var j :| 0 <= j < n && FirstFor(deliveries[..n], target, j);
      assert FirstFor(deliveries, target, j);
    }
    if Reached(deliveries, target) && !FirstFor(deliveries, target, n) {
      var j :| 0 <= j < |deliveries| && FirstFor(deliveries, target, j);
      assert FirstFor(deliveries[..n], target, j);
    }
  }

  lemma SeenUnlessFirst(deliveries: seq<Event>)
    requires deliveries != []
    ensures var n := |deliveries| - 1;
      deliveries[n].externalId !in ProcessAll(deliveries[..n]).seen <==> First(deliveries, n)
  {
    var n := |deliveries| - 1;
    SeenIsDelivered(deliveries[..n]);
    assert forall j :: 0 <= j < n ==> deliveries[..n][j] == deliveries[j];
  }

  /** One more delivery: the row keeps showing the latest event. */
  lemma {:induction false} RowFollows(deliveries: seq<Event>, target: Target)
    requires deliveries != []
    requires var n := |deliveries| - 1;
      deliveries[n].externalId !in ProcessAll(deliveries[..n]).seen <==> First(deliveries, n)
    requires var before := deliveries[..|deliveries| - 1];
      && (target in ProcessAll(before).rows <==> Reached(before, target))
      && (target in ProcessAll(before).rows ==> ShowsLatest(before, target, ProcessAll(before).rows[target]))
    ensures target in ProcessAll(deliveries).rows ==>
              ShowsLatest(deliveries, target, ProcessAll(deliveries).rows[target])
  {
    var n := |deliveries| - 1;
    var before, e := deliveries[..n], deliveries[n];
    var books := ProcessAll(before);
    if e.target == target && OutcomeOf(books, e) == Applied {
      if target in books.rows {
        var i :| 0 <= i < n && Latest(before, target, i) && Shows(books.rows[target], before[i]);
      }
      LatestArrives(deliveries, target);
    } else if target in books.rows {
      LatestStays(deliveries, target, books.rows[target]);
    }
  }

  /**
   For any order and any repetition, a row shows the distinct event with the greatest
   provider time, ties going to the later first delivery, and its version counts the
   deliveries that were applied to it.
   */
  lemma {:induction false} RowShowsLatestEvent(deliveries: seq<Event>, target: Target)
    ensures target in ProcessAll(deliveries).rows <==> Reached(deliveries, target)
    ensures target in ProcessAll(deliveries).rows ==>
              && ProcessAll(deliveries).rows[target].version == AppliedCount(deliveries, target)
              && ShowsLatest(deliveries, target, ProcessAll(deliveries).rows[target])
    ensures target !in ProcessAll(deliveries).rows ==> AppliedCount(deliveries, target) == 0
    decreases |deliveries|
  {
    if deliveries == [] {
      return;
    }
    RowShowsLatestEvent(deliveries[..|deliveries| - 1], target);
    ReachedGrows(deliveries, target);
    SeenUnlessFirst(deliveries);
    RowFollows(deliveries, target);
  }

  /** An event of the target that came first among its deliveries and is newer than the given time. */
  predicate HasNewer(deliveries: seq<Event>, target: Target, time: int) {
    exists i :: 0 <= i < |deliveries| && FirstFor(deliveries, target, i) && deliveries[i].providerTime > time
  }

  /**
   What a delivery is answered: duplicate exactly when its id was delivered before; otherwise
   stale exactly when a newer event of the same target was; otherwise applied.
   */
  lemma {:induction false} AnswersAreExact(deliveries: seq<Event>, e: Event)
    ensures var outcome := OutcomeOf(ProcessAll(deliveries), e);
      && (outcome == Duplicate <==> exists i :: 0 <= i < |deliveries| && deliveries[i].externalId == e.externalId)
      && (outcome != Duplicate ==> (outcome == Stale <==> HasNewer(deliveries, e.target, e.providerTime)))
  {
    var rows := ProcessAll(deliveries).rows;
    SeenIsDelivered(deliveries);
    RowShowsLatestEvent(deliveries, e.target);
    if e.target in rows {
      var k :| 0 <= k < |deliveries| && Latest(deliveries, e.target, k) && Shows(rows[e.target], deliveries[k]);
      assert FirstFor(deliveries, e.target, k);
      if HasNewer(deliveries, e.target, e.providerTime) {
        var i :| 0 <= i < |deliveries| && FirstFor(deliveries, e.target, i) && deliveries[i].providerTime > e.providerTime;
        assert deliveries[i].providerTime <= deliveries[k].providerTime;
      }
    }
  }

  /** The first delivery of an event that was delivered at all. */
  lemma FirstDelivery(deliveries: seq<Event>, i: nat) returns (first: nat)
    requires i < |deliveries|
    ensures first <= i && deliveries[first].externalId == deliveries[i].externalId && First(deliveries, first)
  {
    first := 0;
    while deliveries[first].externalId != deliveries[i].externalId
      invariant first <= i
      invariant forall j :: 0 <= j < first ==> deliveries[j].externalId != deliveries[i].externalId
      decreases i - first
    {
      first := first + 1;
    }
  }

  /** An external id stands for one event, here and in the other deliveries. */
  predicate Identifies(some: seq<Event>, others: seq<Event>) {
    forall i, j :: 0 <= i < |some| && 0 <= j < |others| && some[i].externalId == others[j].externalId ==>
      some[i] == others[j]
  }

  predicate SameEvents(some: seq<Event>, others: seq<Event>) {
    (forall e :: e in some ==> e in others) && (forall e :: e in others ==> e in some)
  }

  /** What a reader of the target's row sees; the version also counts how it got there. */
  predicate ShowsTheSame(some: seq<Event>, others: seq<Event>, target: Target) {
    var a, b := ProcessAll(some).rows, ProcessAll(others).rows;
    && (target in a <==> target in b)
    && (target in a ==> a[target].data == b[target].data && a[target].providerTime == b[target].providerTime)
  }

  /** Every delivery of the same events, in any order and with any repetition, leaves the same row. */
  ghost predicate Converges(events: seq<Event>, target: Target) {
    forall others :: SameEvents(events, others) ==> ShowsTheSame(events, others, target)
  }

  /** An event of the target that no other event of it is newer than. */
  predicate IsTop(events: seq<Event>, target: Target, e: Event) {
    e in events && e.target == target && forall f :: f in events && f.target == target ==> f.providerTime <= e.providerTime
  }

  /** All events of the target with the greatest provider time carry the same data. */
  predicate TopsAgree(events: seq<Event>, target: Target) {
    forall e, f :: e in events && f in events && IsTop(events, target, e) && IsTop(events, target, f) ==> e.data == f.data
  }

  /** The event a row shows is a top one. */
  lemma RowShowsTop(events: seq<Event>, target: Target) returns (top: Event)
    requires Identifies(events, events) && target in ProcessAll(events).rows
    ensures IsTop(events, target, top) && Shows(ProcessAll(events).rows[target], top)
  {
    RowShowsLatestEvent(events, target);
    var k :| 0 <= k < |events| && Latest(events, target, k) && Shows(ProcessAll(events).rows[target], events[k]);
    top := events[k];
    forall f | f in events && f.target == target ensures f.providerTime <= top.providerTime {
      var j :| 0 <= j < |events| && events[j] == f;
      var first := FirstDelivery(events, j);
      assert events[first] == events[j];
      assert FirstFor(events, target, first);
    }
  }

  lemma {:induction false} RowExists(events: seq<Event>, target: Target, e: Event)
    requires Identifies(events, events) && e in events && e.target == target
    ensures target in ProcessAll(events).rows
  {
    RowShowsLatestEvent(events, target);
    var j :| 0 <= j < |events| && events[j] == e;
    var first := FirstDelivery(events, j);
    assert events[first] == events[j];
    assert FirstFor(events, target, first);
  }

  lemma AgreeingTopsConverge(some: seq<Event>, others: seq<Event>, target: Target)
    requires Identifies(some, some) && SameEvents(some, others) && TopsAgree(some, target)
    ensures ShowsTheSame(some, others, target)
  {
    assert Identifies(others, others) by {
      forall i, j | 0 <= i < |others| && 0 <= j < |others| && others[i].externalId == others[j].externalId
        ensures others[i] == others[j]
      {
        assert others[i] in some && others[j] in some;
        var k :| 0 <= k < |some| && some[k] == others[i];
        var l :| 0 <= l < |some| && some[l] == others[j];
        assert some[k] == some[l];
      }
    }
    if target in ProcessAll(some).rows {
      var e := RowShowsTop(some, target);
      RowExists(others, target, e);
      var f := RowShowsTop(others, target);
      assert IsTop(some, target, f);
    } else if target in ProcessAll(others).rows {
      var f := RowShowsTop(others, target);
      RowExists(some, target, f);
    }
  }

  function Without(events: seq<Event>, e: Event): (rest: seq<Event>)
    ensures forall f :: f in rest <==> f in events && f != e
  {
    if events == [] then []
    else
      var last := events[|events| - 1];
      var before := Without(events[..|events| - 1], e);
      assert events == events[..|events| - 1] + [last];
      if last == e then before else before + [last]
  }

  /** The row of some events is no newer than any time that none of the target's events exceeds. */
  lemma {:induction false} RowIsNoNewer(events: seq<Event>, target: Target, time: int)
    requires forall f :: f in events && f.target == target ==> f.providerTime <= time
    ensures target in ProcessAll(events).rows ==> ProcessAll(events).rows[target].providerTime <= time
  {
    if target in ProcessAll(events).rows {
      RowShowsLatestEvent(events, target);
      var k :| 0 <= k < |events| && Latest(events, target, k) && Shows(ProcessAll(events).rows[target], events[k]);
      assert events[k] in events;
    }
  }

  lemma {:induction false} MovedLast(events: seq<Event>, e: Event)
    requires e in events
    ensures SameEvents(events, Without(events, e) + [e])
  {
    var rest := Without(events, e);
    forall f | f in events ensures f in rest + [e] {
      assert f == e || f in rest;
    }
  }

  /** A top event that is delivered after all others wins. */
  lemma {:induction false} LastTopWins(events: seq<Event>, target: Target, e: Event)
    requires Identifies(events, events) && IsTop(events, target, e)
    ensures var others := Without(events, e) + [e];
      && SameEvents(events, others) && target in ProcessAll(others).rows
      && ProcessAll(others).rows[target].data == e.data
  {
    var rest := Without(events, e);
    var others := rest + [e];
    MovedLast(events, e);
    var j :| 0 <= j < |events| && events[j] == e;
    forall f | f in rest ensures f.externalId != e.externalId {
      var i :| 0 <= i < |events| && events[i] == f;
    }
    SeenIsDelivered(rest);
    RowIsNoNewer(rest, target, e.providerTime);
    assert others[..|rest|] == rest && others[|rest|] == e;
    assert ProcessAll(others) == Process(ProcessAll(rest), e);
  }

  lemma {:induction false} ConvergingShowsTop(events: seq<Event>, target: Target, e: Event)
    requires Identifies(events, events) && Converges(events, target) && IsTop(events, target, e)
    ensures target in ProcessAll(events).rows && ProcessAll(events).rows[target].data == e.data
  {
    LastTopWins(events, target, e);
    assert ShowsTheSame(events, Without(events, e) + [e], target);
  }

  /**
   Deliveries of the same events converge, in every order and with every repetition, if and
   only if the events of the target with the greatest provider time carry the same data.
   */
  lemma DeliveriesConvergeExactly(events: seq<Event>, target: Target)
    requires Identifies(events, events)
    ensures Converges(events, target) <==> TopsAgree(events, target)
  {
    if TopsAgree(events, target) {
      forall others | SameEvents(events, others) ensures ShowsTheSame(events, others, target) {
        AgreeingTopsConverge(events, others, target);
      }
    }
    if Converges(events, target) {
      forall e, f | e in events && f in events && IsTop(events, target, e) && IsTop(events, target, f)
        ensures e.data == f.data
      {
        ConvergingShowsTop(events, target, e);
        ConvergingShowsTop(events, target, f);
      }
    }
  }

  /** Two disagreeing events at the same time: whichever is delivered last stays. */
  lemma EqualTimesDependOnOrder(a: Event, b: Event)
    requires a.target == b.target && a.providerTime == b.providerTime && a.externalId != b.externalId
    ensures a.target in ProcessAll([a, b]).rows && ProcessAll([a, b]).rows[a.target].data == b.data
    ensures a.target in ProcessAll([b, a]).rows && ProcessAll([b, a]).rows[a.target].data == a.data
  {
    assert [a, b][..1] == [a] && [b, a][..1] == [b] && [a][..0] == [] && [b][..0] == [];
    assert ProcessAll([a]) == Process(EMPTY, a) && ProcessAll([b]) == Process(EMPTY, b);
  }
}
