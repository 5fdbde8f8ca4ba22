/**
 The idempotency ledger and the routes that use it as three separate transactions:
 reserve the key, mutate, complete the record. The routes are given as statements over
 one vault, and as any number of concurrent requests that may disappear between any two
 transactions.
 */
module Idempotency {
  import opened Prelude

  datatype Response = Response(statusCode: nat, body: string)

  datatype Record = Record(requestHash: string, response: Option<Response>)

  type Ledger = map<string, Record>

  datatype Reservation = Fresh | InProgress | Replay(response: Response)

  function Reserve(ledger: Ledger, key: string, hash: string): (Ledger, Result<Reservation>) {
    if key !in ledger then (ledger[key := Record(hash, None)], Ok(Fresh))
    else if ledger[key].requestHash != hash then (ledger, Err("idempotency key reused with different request"))
    else if ledger[key].response.None? then (ledger, Ok(InProgress))
    else (ledger, Ok(Replay(ledger[key].response.value)))
  }

  function Complete(ledger: Ledger, key: string, response: Response): Ledger {
    if key in ledger && ledger[key].response.None?
    then ledger[key := ledger[key].(response := Some(response))]
    else ledger
  }

  /** Once stored, a hash and a first response never change. */
  predicate Extends(before: Ledger, after: Ledger) {
    forall key :: key in before ==>
      && key in after && after[key].requestHash == before[key].requestHash
      && (before[key].response.Some? ==> after[key] == before[key])
  }

  // ----- the fact decisions -----

  datatype FactStatus = Candidate | Confirmed | Rejected | Disputed

  datatype Fact = Fact(status: FactStatus, version: nat, manual: bool, evidence: nat)

  datatype Decision = Confirm | Reject | Dispute

  /** The guarded update of a decision; `None` is the conflict or policy denial. */
  function Decide(fact: Fact, decision: Decision, expectedVersion: nat): Option<Fact> {
    if fact.version != expectedVersion then None
    else match decision
      case Confirm =>
        if fact.status in {Candidate, Disputed} && (fact.manual || fact.evidence > 0)
        then Some(fact.(status := Confirmed, version := fact.version + 1)) else None
      case Reject =>
        if fact.status == Candidate then Some(fact.(status := Rejected, version := fact.version + 1)) else None
      case Dispute =>
        if fact.status == Confirmed then Some(fact.(status := Disputed, version := fact.version + 1)) else None
  }

  function Decided(decision: Decision): FactStatus {
    match decision
    case Confirm => Confirmed
    case Reject => Rejected
    case Dispute => Disputed
  }

  /** What the domain package allows, without the optimistic version. */
  predicate DomainAllows(fact: Fact, decision: Decision) {
    match decision
    case Confirm => (fact.status == Candidate || fact.status == Disputed) && (fact.evidence > 0 || fact.manual)
    case Reject => fact.status != Confirmed
    case Dispute => true
  }

  /** The rows accept no decision the domain forbids; rejecting is strictly narrower in the rows. */
  lemma RowDecisionsAreDomainDecisions(fact: Fact, decision: Decision, expectedVersion: nat)
    ensures Decide(fact, decision, expectedVersion).Some? ==>
              DomainAllows(fact, decision) && Decide(fact, decision, expectedVersion).value.version == fact.version + 1
    ensures decision == Confirm && fact.version == expectedVersion ==>
              (Decide(fact, decision, expectedVersion).Some? <==> DomainAllows(fact, decision))
    ensures decision == Reject && fact.version == expectedVersion ==>
              (Decide(fact, decision, expectedVersion).Some? <==>
               DomainAllows(fact, decision) && fact.status !in {Rejected, Disputed})
  {
  }

  /**
   The moves of a fact: a candidate or disputed one is confirmed, if it is manual or has
   evidence; a candidate is rejected; a confirmed one is disputed. Nothing else succeeds,
   and nothing at any other version.
   */
  lemma DecisionMovesExactly(fact: Fact, decision: Decision, expectedVersion: nat)
    ensures Decide(fact, decision, expectedVersion).Some? <==>
      && fact.version == expectedVersion
      && (|| (decision == Confirm && fact.status == Candidate && (fact.manual || fact.evidence > 0))
          || (decision == Confirm && fact.status == Disputed && (fact.manual || fact.evidence > 0))
          || (decision == Reject && fact.status == Candidate)
          || (decision == Dispute && fact.status == Confirmed))
    ensures Decide(fact, decision, expectedVersion).Some? ==>
      var next := Decide(fact, decision, expectedVersion).value;
      && next.version == expectedVersion + 1 && next.manual == fact.manual && next.evidence == fact.evidence
      && (decision == Confirm <==> next.status == Confirmed)
      && (decision == Reject <==> next.status == Rejected)
      && (decision == Dispute <==> next.status == Disputed)
  {
  }

  // ----- every run of decisions -----

  datatype Attempt = Attempt(id: string, decision: Decision, expectedVersion: nat)

  function Attempted(facts: map<string, Fact>, a: Attempt): map<string, Fact> {
    if a.id in facts && Decide(facts[a.id], a.decision, a.expectedVersion).Some?
    then facts[a.id := Decide(facts[a.id], a.decision, a.expectedVersion).value]
    else facts
  }

  function AfterAttempts(facts: map<string, Fact>, attempts: seq<Attempt>): map<string, Fact> {
    if attempts == [] then facts
    else Attempted(AfterAttempts(facts, attempts[..|attempts| - 1]), attempts[|attempts| - 1])
  }

  lemma {:induction false} FactsStay(facts: map<string, Fact>, attempts: seq<Attempt>, id: string)
    requires id in facts
    ensures var after := AfterAttempts(facts, attempts);
      id in after && after[id].manual == facts[id].manual && after[id].evidence == facts[id].evidence
    decreases |attempts|
  {
    if attempts != [] {
      FactsStay(facts, attempts[..|attempts| - 1], id);
    }
  }

  /** A rejected fact is never decided again. */
  lemma {:induction false} RejectedIsFinal(facts: map<string, Fact>, attempts: seq<Attempt>, id: string)
    requires id in facts && facts[id].status == Rejected
    ensures id in AfterAttempts(facts, attempts) && AfterAttempts(facts, attempts)[id] == facts[id]
    decreases |attempts|
  {
    if attempts != [] {
      var n := |attempts| - 1;
      var before := AfterAttempts(facts, attempts[..n]);
      RejectedIsFinal(facts, attempts[..n], id);
      DecisionMovesExactly(before[id], attempts[n].decision, attempts[n].expectedVersion);
    }
  }

  /** One of the attempts is this decision on the fact, made at its version when it had one of these statuses. */
  predicate WasMoved(facts: map<string, Fact>, attempts: seq<Attempt>, id: string, decision: Decision,
                     sources: set<FactStatus>)
  {
    exists k :: 0 <= k < |attempts| && attempts[k].id == id
                && MovedBy(AfterAttempts(facts, attempts[..k]), attempts[k], decision, sources)
  }

  predicate MovedBy(before: map<string, Fact>, a: Attempt, decision: Decision, sources: set<FactStatus>) {
    && a.decision == decision
    && a.id in before && before[a.id].status in sources && before[a.id].version == a.expectedVersion
  }

  lemma MovesStay(facts: map<string, Fact>, attempts: seq<Attempt>, id: string, decision: Decision,
                  sources: set<FactStatus>)
    requires attempts != [] && WasMoved(facts, attempts[..|attempts| - 1], id, decision, sources)
    ensures WasMoved(facts, attempts, id, decision, sources)
  {
    var before := attempts[..|attempts| - 1];
    var k :| 0 <= k < |before| && before[k].id == id
             && MovedBy(AfterAttempts(facts, before[..k]), before[k], decision, sources);
    assert before[..k] == attempts[..k] && before[k] == attempts[k];
  }

  /**
   Where a fact of a run came from: disputed from confirmed alone, rejected from candidate
   alone, confirmed from candidate or disputed and only if manual or with evidence; and
   nothing becomes a candidate again.
   */
  predicate Explained(facts: map<string, Fact>, attempts: seq<Attempt>, id: string, fact: Fact) {
    match fact.status
    case Candidate => false
    case Confirmed =>
      (fact.manual || fact.evidence > 0) && WasMoved(facts, attempts, id, Confirm, {Candidate, Disputed})
    case Rejected => WasMoved(facts, attempts, id, Reject, {Candidate})
    case Disputed => WasMoved(facts, attempts, id, Dispute, {Confirmed})
  }

  lemma {:induction false} LastMoveExplains(facts: map<string, Fact>, attempts: seq<Attempt>, id: string)
    requires attempts != [] && id in AfterAttempts(facts, attempts[..|attempts| - 1])
    requires id in AfterAttempts(facts, attempts)
    requires AfterAttempts(facts, attempts)[id] != AfterAttempts(facts, attempts[..|attempts| - 1])[id]
    ensures Explained(facts, attempts, id, AfterAttempts(facts, attempts)[id])
  {
    var n := |attempts| - 1;
    var before, a := AfterAttempts(facts, attempts[..n]), attempts[n];
    DecisionMovesExactly(before[id], a.decision, a.expectedVersion);
    assert a.id == id;
    match a.decision
    case Confirm =>
      assert MovedBy(before, attempts[n], Confirm, {Candidate, Disputed});
    case Reject =>
      assert MovedBy(before, attempts[n], Reject, {Candidate});
    case Dispute =>
      assert MovedBy(before, attempts[n], Dispute, {Confirmed});
  }

  lemma ExplanationStays(facts: map<string, Fact>, attempts: seq<Attempt>, id: string, fact: Fact)
    requires attempts != [] && Explained(facts, attempts[..|attempts| - 1], id, fact)
    ensures Explained(facts, attempts, id, fact)
  {
    if fact.status == Confirmed {
      MovesStay(facts, attempts, id, Confirm, {Candidate, Disputed});
    } else if fact.status == Rejected {
      MovesStay(facts, attempts, id, Reject, {Candidate});
    } else {
      MovesStay(facts, attempts, id, Dispute, {Confirmed});
    }
  }

  lemma {:induction false} EveryStatusHasItsDecision(facts: map<string, Fact>, attempts: seq<Attempt>, id: string)
    requires id in facts
    ensures var after := AfterAttempts(facts, attempts);
      id in after && (after[id] == facts[id] || Explained(facts, attempts, id, after[id]))
    decreases |attempts|
  {
    if attempts != [] {
      var before := attempts[..|attempts| - 1];
      EveryStatusHasItsDecision(facts, before, id);
      if AfterAttempts(facts, attempts)[id] != AfterAttempts(facts, before)[id] {
        LastMoveExplains(facts, attempts, id);
      } else if AfterAttempts(facts, attempts)[id] != facts[id] {
        ExplanationStays(facts, attempts, id, AfterAttempts(facts, attempts)[id]);
      }
    }
  }

  /** All three routes reserve the same request shape, so the decision is not part of the hash. */
  datatype Answer = Done(response: Response) | Processing | Conflict(error: string)

  class Vault {
    var ledger: Ledger
    var facts: map<string, Fact>

    /** Exactly one caller gets a key fresh, and nobody changes a record by reserving it again. */
    method ReserveIdempotency(key: string, hash: string) returns (reservation: Result<Reservation>)
      modifies `ledger
      ensures Extends(old(ledger), ledger) && key in ledger && (key in old(ledger) ==> ledger == old(ledger))
      ensures reservation == Ok(Fresh) <==> key !in old(ledger)
      ensures reservation.Err? <==> key in old(ledger) && old(ledger)[key].requestHash != hash
      ensures forall response :: reservation == Ok(Replay(response)) <==>
                key in old(ledger) && old(ledger)[key] == Record(hash, Some(response))
      ensures ledger == Reserve(old(ledger), key, hash).0 && reservation == Reserve(old(ledger), key, hash).1
    {
      if key !in ledger {
        ledger := ledger[key := Record(hash, None)];
        return Ok(Fresh);
      }
      var record := ledger[key];
      if record.requestHash != hash {
        return Err("idempotency key reused with different request");
      }
      reservation := Ok(if record.response.None? then InProgress else Replay(record.response.value));
    }

    /** The first response stays, whatever a later completion brings; no record comes or goes. */
    method CompleteIdempotency(key: string, response: Response)
      modifies `ledger
      ensures Extends(old(ledger), ledger) && ledger.Keys == old(ledger).Keys
      ensures forall other :: other in old(ledger) && other != key ==> ledger[other] == old(ledger)[other]
      ensures key in old(ledger) ==>
        ledger[key].response == if old(ledger)[key].response.Some? then old(ledger)[key].response else Some(response)
      ensures ledger == Complete(old(ledger), key, response)
    {
      if key in ledger && ledger[key].response.None? {
        ledger := ledger[key := ledger[key].(response := Some(response))];
      }
    }

    /** A decision moves one fact along the domain's table, one version on, and nothing else. */
    method DecideFact(id: string, decision: Decision, expectedVersion: nat) returns (decided: bool)
      modifies `facts
      ensures facts.Keys == old(facts).Keys
      ensures forall other :: other in old(facts) && other != id ==> facts[other] == old(facts)[other]
      ensures decided ==>
        && id in old(facts) && DomainAllows(old(facts)[id], decision)
        && old(facts)[id].version == expectedVersion
        && facts[id].version == expectedVersion + 1
        && facts[id].status == Decided(decision)
        && facts[id].manual == old(facts)[id].manual && facts[id].evidence == old(facts)[id].evidence
      ensures !decided ==> facts == old(facts)
      ensures decided <==>
        && id in old(facts) && old(facts)[id].version == expectedVersion
        && (match decision
            case Confirm => old(facts)[id].status in {Candidate, Disputed}
                            && (old(facts)[id].manual || old(facts)[id].evidence > 0)
            case Reject => old(facts)[id].status == Candidate
            case Dispute => old(facts)[id].status == Confirmed)
      ensures decided == (id in old(facts) && Decide(old(facts)[id], decision, expectedVersion).Some?)
      ensures facts == if decided then old(facts)[id := Decide(old(facts)[id], decision, expectedVersion).value]
                       else old(facts)
    {
      if id !in facts {
        return false;
      }
      var fact := Decide(facts[id], decision, expectedVersion);
      if fact.None? {
        return false;
      }
      facts := facts[id := fact.value];
      decided := true;
    }

    /**
     The body of the confirm, reject and dispute routes. A key that is already known
     changes nothing. A fresh key decides at most once and stores the answer; when the
     decision is refused the reservation stays, so the same request is answered
     "still processing" from then on.
     */
    method PostDecision(key: string, hash: string, id: string, decision: Decision, expectedVersion: nat,
                        response: Response)
      returns (answer: Answer)
      modifies this
      ensures key in old(ledger) ==>
                && ledger == old(ledger) && facts == old(facts)
                && (answer == match Reserve(old(ledger), key, hash).1
                    case Err(error) => Conflict(error)
                    case Ok(Replay(stored)) => Done(stored)
                    case Ok(_) => Processing)
      ensures key !in old(ledger) ==>
                var accepted := id in old(facts) && Decide(old(facts)[id], decision, expectedVersion).Some?;
                && answer == (if accepted then Done(response)
                              else Conflict("fact decision conflict or policy denial"))
                && ledger == old(ledger)[key := Record(hash, if accepted then Some(response) else None)]
                && facts == (if accepted
                             then old(facts)[id := Decide(old(facts)[id], decision, expectedVersion).value]
                             else old(facts))
    {
      var reservation := ReserveIdempotency(key, hash);
      if reservation.Err? {
        return Conflict(reservation.error);
      }
      if reservation.value.InProgress? {
        return Processing;
      }
      if reservation.value.Replay? {
        return Done(reservation.value.response);
      }
      var decided := DecideFact(id, decision, expectedVersion);
      if !decided {
        return Conflict("fact decision conflict or policy denial");
      }
      CompleteIdempotency(key, response);
      answer := Done(response);
    }
  }

  // ----- concurrent requests -----

  datatype Request =
    | Idle
    | Received(key: string, hash: string, route: string)
    | Reserved(key: string, hash: string, route: string)
    | Mutated(key: string, hash: string, route: string, response: Response)

  datatype Mutation = Mutation(key: string, hash: string, route: string, response: Response)

  datatype Sent = Sent(key: string, hash: string, route: string, response: Response)

  datatype System = System(
    ledger: Ledger,
    requests: map<nat, Request>,
    mutations: seq<Mutation>,   // history: mutations that committed
    sent: seq<Sent>)            // history: successful answers, first-hand and replayed

  datatype Action =
    | Receive(p: nat, key: string, hash: string, route: string)
    | CommitReserve(p: nat)
    | CommitMutation(p: nat, response: Response)
    | CommitComplete(p: nat)
    | Fail(p: nat)

  const INITIAL := System(map[], map[], [], [])

  function At(s: System, p: nat): Request {
    if p in s.requests then s.requests[p] else Idle
  }

  function Move(s: System, p: nat, to: Request): System {
    s.(requests := s.requests[p := to])
  }

  function Apply(s: System, a: Action): System {
    match a
    case Receive(p, key, hash, route) => if At(s, p).Idle? then Move(s, p, Received(key, hash, route)) else s
    case CommitReserve(p) =>
      (match At(s, p)
       case Received(key, hash, route) =>
         var reserved := Reserve(s.ledger, key, hash);
         (match reserved.1
          case Ok(Fresh) => Move(s.(ledger := reserved.0), p, Reserved(key, hash, route))
          case Ok(Replay(response)) => Move(s.(sent := s.sent + [Sent(key, hash, route, response)]), p, Idle)
          case _ => Move(s, p, Idle))
       case _ => s)
    case CommitMutation(p, response) =>
      (match At(s, p)
       case Reserved(key, hash, route) =>
         Move(s.(mutations := s.mutations + [Mutation(key, hash, route, response)]), p,
              Mutated(key, hash, route, response))
       case _ => s)
    case CommitComplete(p) =>
      (match At(s, p)
       case Mutated(key, hash, route, response) =>
         Move(s.(ledger := Complete(s.ledger, key, response),
                 sent := s.sent + [Sent(key, hash, route, response)]), p, Idle)
       case _ => s)
    case Fail(p) => Move(s, p, Idle)
  }

  function Execute(s: System, actions: seq<Action>): System {
    if actions == [] then s
    else Apply(Execute(s, actions[..|actions| - 1]), actions[|actions| - 1])
  }

  predicate Holds(request: Request, key: string) {
    (request.Reserved? || request.Mutated?) && request.key == key
  }

  predicate Clash(x: Request, y: Request) {
    (x.Reserved? || x.Mutated?) && Holds(y, x.key)
  }

  predicate HasMutation(mutations: seq<Mutation>, key: string, hash: string, response: Response) {
    exists m :: 0 <= m < |mutations|
                && mutations[m].key == key && mutations[m].hash == hash && mutations[m].response == response
  }

  predicate Untouched(mutations: seq<Mutation>, key: string) {
    forall m :: 0 <= m < |mutations| ==> mutations[m].key != key
  }

  predicate RequestOk(s: System, request: Request) {
    match request
    case Idle => true
    case Received(_, _, _) => true
    case Reserved(key, hash, _) =>
      key in s.ledger && s.ledger[key] == Record(hash, None) && Untouched(s.mutations, key)
    case Mutated(key, hash, _, response) =>
      key in s.ledger && s.ledger[key] == Record(hash, None) && HasMutation(s.mutations, key, hash, response)
  }

  predicate RequestsOk(s: System) {
    && (forall p :: p in s.requests ==> RequestOk(s, s.requests[p]))
    && (forall p, q :: p in s.requests && q in s.requests && Clash(s.requests[p], s.requests[q]) ==> p == q)
  }

  predicate MutationsOk(s: System) {
    && (forall m, n :: 0 <= m < n < |s.mutations| ==> s.mutations[m].key != s.mutations[n].key)
    && (forall m :: 0 <= m < |s.mutations| ==>
          s.mutations[m].key in s.ledger && s.ledger[s.mutations[m].key].requestHash == s.mutations[m].hash)
  }

  predicate LedgerOk(s: System) {
    forall key :: key in s.ledger && s.ledger[key].response.Some? ==>
      HasMutation(s.mutations, key, s.ledger[key].requestHash, s.ledger[key].response.value)
  }

  predicate SentOk(s: System) {
    forall i :: 0 <= i < |s.sent| ==>
      && HasMutation(s.mutations, s.sent[i].key, s.sent[i].hash, s.sent[i].response)
      && s.sent[i].key in s.ledger
      && s.ledger[s.sent[i].key] == Record(s.sent[i].hash, Some(s.sent[i].response))
  }

  predicate Invariant(s: System) {
    RequestsOk(s) && MutationsOk(s) && LedgerOk(s) && SentOk(s)
  }

  lemma MutationsKeepEvidence(mutations: seq<Mutation>, more: Mutation)
    ensures forall key, hash, response :: HasMutation(mutations, key, hash, response) ==>
              HasMutation(mutations + [more], key, hash, response)
    ensures HasMutation(mutations + [more], more.key, more.hash, more.response)
  {
    forall key, hash, response | HasMutation(mutations, key, hash, response)
      ensures HasMutation(mutations + [more], key, hash, response)
    {
      var m :| 0 <= m < |mutations|
               && mutations[m].key == key && mutations[m].hash == hash && mutations[m].response == response;
      assert (mutations + [more])[m] == mutations[m];
    }
    assert (mutations + [more])[|mutations|] == more;
  }

  lemma FreshReserveKeepsInvariant(s: System, p: nat)
    requires Invariant(s) && At(s, p).Received? && At(s, p).key !in s.ledger
    ensures Invariant(Apply(s, CommitReserve(p)))
  {
    var key := At(s, p).key;
    var t := s.(ledger := s.ledger[key := Record(At(s, p).hash, None)]);
    assert Untouched(s.mutations, key);
    forall q | q in s.requests ensures RequestOk(t, s.requests[q]) && !Holds(s.requests[q], key) {
      assert RequestOk(s, s.requests[q]);
    }
    assert Invariant(t);
    assert Apply(s, CommitReserve(p)) == Move(t, p, Reserved(key, At(s, p).hash, At(s, p).route));
  }

  /** A request that gives up or is answered from the ledger leaves everything else alone. */
  lemma IdleKeepsInvariant(s: System, p: nat)
    requires Invariant(s)
    ensures Invariant(Move(s, p, Idle))
  {
    var t := Move(s, p, Idle);
    forall q | q in t.requests ensures RequestOk(t, t.requests[q]) {
      assert q != p ==> RequestOk(s, s.requests[q]);
    }
  }

  lemma KnownReserveKeepsInvariant(s: System, p: nat)
    requires Invariant(s) && At(s, p).Received? && At(s, p).key in s.ledger
    ensures Invariant(Apply(s, CommitReserve(p)))
  {
    var x := At(s, p);
    var record := s.ledger[x.key];
    if record.requestHash == x.hash && record.response.Some? {
      var t := s.(sent := s.sent + [Sent(x.key, x.hash, x.route, record.response.value)]);
      assert HasMutation(s.mutations, x.key, x.hash, record.response.value);
      forall q | q in t.requests ensures RequestOk(t, t.requests[q]) {
        assert RequestOk(s, s.requests[q]);
      }
      IdleKeepsInvariant(t, p);
    } else {
      IdleKeepsInvariant(s, p);
    }
  }

  lemma MutationKeepsInvariant(s: System, p: nat, response: Response)
    requires Invariant(s) && At(s, p).Reserved?
    ensures Invariant(Apply(s, CommitMutation(p, response)))
  {
    var t := Apply(s, CommitMutation(p, response));
    var x := At(s, p);
    assert RequestOk(s, x) && Holds(x, x.key);
    MutationsKeepEvidence(s.mutations, Mutation(x.key, x.hash, x.route, response));
    forall q | q in t.requests ensures RequestOk(t, t.requests[q]) {
      if q != p {
        assert RequestOk(s, s.requests[q]) && !Clash(x, s.requests[q]);
      }
    }
  }

  lemma CompleteKeepsInvariant(s: System, p: nat)
    requires Invariant(s) && At(s, p).Mutated?
    ensures Invariant(Apply(s, CommitComplete(p)))
  {
    var t := Apply(s, CommitComplete(p));
    var x := At(s, p);
    assert RequestOk(s, x) && Holds(x, x.key);
    forall q | q in t.requests ensures RequestOk(t, t.requests[q]) {
      if q != p {
        assert RequestOk(s, s.requests[q]) && !Clash(x, s.requests[q]);
      }
    }
  }

  lemma StepKeepsInvariant(s: System, a: Action)
    requires Invariant(s)
    ensures Invariant(Apply(s, a))
  {
    match a
    case CommitReserve(p) => 
      if At(s, p).Received? {
        if At(s, p).key in s.ledger { KnownReserveKeepsInvariant(s, p); } else { FreshReserveKeepsInvariant(s, p); }
      }
    case CommitMutation(p, response) => if At(s, p).Reserved? { MutationKeepsInvariant(s, p, response); }
    case CommitComplete(p) => if At(s, p).Mutated? { CompleteKeepsInvariant(s, p); }
    case Receive(p, _, _, _) =>
      var t := Apply(s, a);
      forall q | q in t.requests ensures RequestOk(t, t.requests[q]) {
        assert q != p ==> RequestOk(s, s.requests[q]);
      }
    case Fail(p) => IdleKeepsInvariant(s, p);
  }

  lemma {:induction false} RunsKeepInvariant(actions: seq<Action>)
    ensures Invariant(Execute(INITIAL, actions))
    decreases |actions|
  {
    if actions != [] {
      RunsKeepInvariant(actions[..|actions| - 1]);
      StepKeepsInvariant(Execute(INITIAL, actions[..|actions| - 1]), actions[|actions| - 1]);
    }
  }

  /**
   At most one mutation commits per key, whatever races, retries or crashes happen, and
   every successful answer for a key, first-hand or replayed, is that mutation's answer to
   a request with the same hash.
   */
  lemma {:induction false} OneMutationPerKey(actions: seq<Action>)
    ensures var s := Execute(INITIAL, actions);
      && (forall m, n :: 0 <= m < n < |s.mutations| ==> s.mutations[m].key != s.mutations[n].key)
      && (forall i :: 0 <= i < |s.sent| ==>
            HasMutation(s.mutations, s.sent[i].key, s.sent[i].hash, s.sent[i].response))
      && (forall i, j :: 0 <= i < |s.sent| && 0 <= j < |s.sent| && s.sent[i].key == s.sent[j].key ==>
            s.sent[i].response == s.sent[j].response && s.sent[i].hash == s.sent[j].hash)
  {
    RunsKeepInvariant(actions);
  }

  lemma {:induction false} LedgerOnlyExtends(s: System, actions: seq<Action>)
    ensures Extends(s.ledger, Execute(s, actions).ledger)
    decreases |actions|
  {
    if actions != [] {
      LedgerOnlyExtends(s, actions[..|actions| - 1]);
    }
  }

  // ----- which route's answer a request gets -----

  /** The requests the routes can send: a key, the hash of a request shape, and the route. */
  type Senders = (string, string, string) -> bool

  predicate Obeys(actions: seq<Action>, may: Senders) {
    forall i :: 0 <= i < |actions| && actions[i].Receive? ==> may(actions[i].key, actions[i].hash, actions[i].route)
  }

  /** The route of the request that reserved the key fresh, which a run determines. */
  function Reserver(actions: seq<Action>, key: string): Option<string> {
    if actions == [] then None
    else
      var before := Execute(INITIAL, actions[..|actions| - 1]);
      var last := actions[|actions| - 1];
      if last.CommitReserve? && At(before, last.p).Received? && At(before, last.p).key == key && key !in before.ledger
      then Some(At(before, last.p).route)
      else Reserver(actions[..|actions| - 1], key)
  }

  predicate MutationCameFrom(s: System, key: string, route: string) {
    forall m :: 0 <= m < |s.mutations| && s.mutations[m].key == key ==> s.mutations[m].route == route
  }

  predicate HolderCameFrom(s: System, key: string, route: string) {
    forall p :: p in s.requests && Holds(s.requests[p], key) ==> s.requests[p].route == route
  }

  lemma StepKeepsReserver(s: System, a: Action, key: string, route: string)
    requires Invariant(s) && key in s.ledger && MutationCameFrom(s, key, route) && HolderCameFrom(s, key, route)
    ensures key in Apply(s, a).ledger
    ensures MutationCameFrom(Apply(s, a), key, route) && HolderCameFrom(Apply(s, a), key, route)
  {
    var t := Apply(s, a);
    forall q | q in t.requests && Holds(t.requests[q], key) ensures t.requests[q].route == route {
      if q != a.p {
        assert Holds(s.requests[q], key);
      }
    }
    if a.CommitMutation? && At(s, a.p).Reserved? && At(s, a.p).key == key {
      assert Holds(s.requests[a.p], key);
    }
  }

  lemma FreshKeyHasReserver(s: System, p: nat)
    requires Invariant(s) && At(s, p).Received? && At(s, p).key !in s.ledger
    ensures var t, key, route := Apply(s, CommitReserve(p)), At(s, p).key, At(s, p).route;
      key in t.ledger && MutationCameFrom(t, key, route) && HolderCameFrom(t, key, route)
  {
    var key := At(s, p).key;
    forall q | q in s.requests ensures !Holds(s.requests[q], key) {
      assert RequestOk(s, s.requests[q]);
    }
  }

  /** Whoever mutates for a key is the request that reserved it. */
  lemma {:induction false} ReserverMutates(actions: seq<Action>, key: string)
    ensures var s := Execute(INITIAL, actions);
      && (key in s.ledger <==> Reserver(actions, key).Some?)
      && (Reserver(actions, key).Some? ==>
            MutationCameFrom(s, key, Reserver(actions, key).value) && HolderCameFrom(s, key, Reserver(actions, key).value))
    decreases |actions|
  {
    if actions != [] {
      var n := |actions| - 1;
      var s, last := Execute(INITIAL, actions[..n]), actions[n];
      ReserverMutates(actions[..n], key);
      RunsKeepInvariant(actions[..n]);
      if key in s.ledger {
        StepKeepsReserver(s, last, key, Reserver(actions[..n], key).value);
      } else if last.CommitReserve? && At(s, last.p).Received? && At(s, last.p).key == key {
        FreshKeyHasReserver(s, last.p);
      }
    }
  }

  /** The answer is that of a mutation the answered request's own route made. */
  predicate IsOwn(s: System, i: nat)
    requires i < |s.sent|
  {
    exists m :: 0 <= m < |s.mutations| && s.mutations[m].key == s.sent[i].key && s.mutations[m].route == s.sent[i].route
  }

  /** A successful answer is its own route's exactly when the key was reserved over that route. */
  lemma {:induction false} AnswerIsOwnExactlyWhenReserved(actions: seq<Action>, i: nat)
    requires i < |Execute(INITIAL, actions).sent|
    ensures var s := Execute(INITIAL, actions);
      IsOwn(s, i) <==> Reserver(actions, s.sent[i].key) == Some(s.sent[i].route)
  {
    var s := Execute(INITIAL, actions);
    RunsKeepInvariant(actions);
    ReserverMutates(actions, s.sent[i].key);
    assert HasMutation(s.mutations, s.sent[i].key, s.sent[i].hash, s.sent[i].response);
    var m :| 0 <= m < |s.mutations| && s.mutations[m].key == s.sent[i].key;
  }

  /** Everything in the system was sent by somebody who may send it. */
  predicate Allowed(s: System, may: Senders) {
    && (forall p :: p in s.requests && !s.requests[p].Idle? ==>
          may(s.requests[p].key, s.requests[p].hash, s.requests[p].route))
    && (forall m :: 0 <= m < |s.mutations| ==> may(s.mutations[m].key, s.mutations[m].hash, s.mutations[m].route))
    && (forall i :: 0 <= i < |s.sent| ==> may(s.sent[i].key, s.sent[i].hash, s.sent[i].route))
  }

  lemma {:induction false} RunsAreAllowed(actions: seq<Action>, may: Senders)
    requires Obeys(actions, may)
    ensures Allowed(Execute(INITIAL, actions), may)
    decreases |actions|
  {
    if actions != [] {
      var n := |actions| - 1;
      RunsAreAllowed(actions[..n], may);
      StepIsAllowed(Execute(INITIAL, actions[..n]), actions[n], may);
    }
  }

  lemma StepIsAllowed(s: System, a: Action, may: Senders)
    requires Allowed(s, may) && (a.Receive? ==> may(a.key, a.hash, a.route))
    ensures Allowed(Apply(s, a), may)
  {
  }

  /** In every run of these senders, every answer for the key and hash is the answered route's own. */
  ghost predicate AnswersAreOwn(may: Senders, key: string, hash: string) {
    forall actions :: Obeys(actions, may) ==> OwnIn(Execute(INITIAL, actions), key, hash)
  }

  predicate OwnIn(s: System, key: string, hash: string) {
    forall i :: 0 <= i < |s.sent| && s.sent[i].key == key && s.sent[i].hash == hash ==> IsOwn(s, i)
  }

  ghost predicate OneRoute(may: Senders, key: string, hash: string) {
    forall first, second :: may(key, hash, first) && may(key, hash, second) ==> first == second
  }

  /**
   A replay is answered with another route's response: the fact routes send one request
   shape, so any two of them can share key and hash.
   */
  lemma ReplayMayAnswerAnotherRoute(key: string, hash: string, first: string, second: string, response: Response)
    returns (run: seq<Action>)
    ensures run == [Receive(0, key, hash, first), CommitReserve(0), CommitMutation(0, response), CommitComplete(0),
                    Receive(0, key, hash, second), CommitReserve(0)]
    ensures Execute(INITIAL, run).sent == [Sent(key, hash, first, response), Sent(key, hash, second, response)]
    ensures Execute(INITIAL, run).mutations == [Mutation(key, hash, first, response)]
  {
    var start := FirstAnswer(key, hash, first, response);
    var fifth := start + [Receive(0, key, hash, second)];
    assert fifth[..4] == start;
    run := fifth + [CommitReserve(0)];
    assert run[..5] == fifth;
    assert At(Execute(INITIAL, fifth), 0) == Received(key, hash, second);
  }

  lemma FirstAnswer(key: string, hash: string, route: string, response: Response) returns (run: seq<Action>)
    ensures run == [Receive(0, key, hash, route), CommitReserve(0), CommitMutation(0, response), CommitComplete(0)]
    ensures Execute(INITIAL, run)
         == System(map[key := Record(hash, Some(response))], map[0 := Idle], [Mutation(key, hash, route, response)],
                   [Sent(key, hash, route, response)])
  {
    var one := [Receive(0, key, hash, route)];
    var two := one + [CommitReserve(0)];
    var three := two + [CommitMutation(0, response)];
    run := three + [CommitComplete(0)];
    assert one[..0] == [] && two[..1] == one && three[..2] == two && run[..3] == three;
    assert Execute(INITIAL, one) == Move(INITIAL, 0, Received(key, hash, route));
    assert Execute(INITIAL, two) == System(map[key := Record(hash, None)], map[0 := Reserved(key, hash, route)], [], []);
    assert At(Execute(INITIAL, three), 0) == Mutated(key, hash, route, response);
  }

  /**
   Answers never cross routes, in any run, if and only if one route alone can send the key
   with that hash; it is enough that the hash determines the route.
   */
  lemma AnswersAreOwnExactlyForOneRoute(may: Senders, key: string, hash: string)
    ensures AnswersAreOwn(may, key, hash) <==> OneRoute(may, key, hash)
  {
    if OneRoute(may, key, hash) {
      forall actions | Obeys(actions, may) ensures OwnIn(Execute(INITIAL, actions), key, hash) {
        OneRouteIsOwn(actions, may, key, hash);
      }
    }
    if AnswersAreOwn(may, key, hash) {
      forall first, second | may(key, hash, first) && may(key, hash, second) ensures first == second {
        var run := ReplayMayAnswerAnotherRoute(key, hash, first, second, Response(200, ""));
        assert Obeys(run, may);
        var s := Execute(INITIAL, run);
        assert OwnIn(s, key, hash) && s.sent[1].key == key && s.sent[1].hash == hash;
        assert IsOwn(s, 1);
      }
    }
  }

  lemma {:induction false} OneRouteIsOwn(actions: seq<Action>, may: Senders, key: string, hash: string)
    requires Obeys(actions, may) && OneRoute(may, key, hash)
    ensures OwnIn(Execute(INITIAL, actions), key, hash)
  {
    var s := Execute(INITIAL, actions);
    RunsKeepInvariant(actions);
    RunsAreAllowed(actions, may);
    forall i | 0 <= i < |s.sent| && s.sent[i].key == key && s.sent[i].hash == hash ensures IsOwn(s, i) {
      assert HasMutation(s.mutations, key, hash, s.sent[i].response);
      var m :| 0 <= m < |s.mutations| && s.mutations[m].key == key && s.mutations[m].hash == hash
               && s.mutations[m].response == s.sent[i].response;
      assert may(key, hash, s.mutations[m].route) && may(key, hash, s.sent[i].route);
    }
  }
}
