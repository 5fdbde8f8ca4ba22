/**
 What the locks do not prevent: a privacy transaction that nobody disturbs gets through all
 its statements and commits what the function computes, or is refused where it is.
 */
module PrivacyProgress {
  import opened Prelude
  import opened PrivacyDeletion
  import opened PrivacyAccess
  import opened PrivacyLocks
  import PrivacyRaces

  function Lone(s: System, i: nat, x: Txn): System {
    s.(txns := map[i := x])
  }

  function AfterSerial(s: System, kind: Kind): Tables {
    match Serial(s.tables, kind, s.holds)
    case None => s.tables
    case Some(t) => t
  }

  /** The transaction has read what is there now. */
  predicate UpToDate(s: System, x: Txn) {
    && (x.kind.Complete? && x.pc >= 2 ==> x.holdsSeen == s.holds)
    && (x.removal.Some? ==>
          && (x.removal.value.grantsSeen.Some? ==> x.removal.value.grantsSeen.value == s.tables.access.grants.Keys)
          && (x.removal.value.approvalsSeen.Some? ==>
                x.removal.value.approvalsSeen.value == s.tables.access.approvals.Keys))
  }

  lemma LoneIsInvariant(s: System, i: nat, x: Txn)
    requires Invariant(s) && TxnOk(s.tables, x)
    ensures Invariant(Lone(s, i, x)) && HasRead(x)
  {
  }

  lemma LoneIsReady(s: System, i: nat, x: Txn)
    requires x.pc < FinalPc(x.kind)
    ensures Ready(Lone(s, i, x), i)
  {
    assert LockedMemberships(Lone(s, i, x), Some(i)) == {};
  }

  lemma LoneStatement(s: System, i: nat, x: Txn)
    requires s.txns == map[] && Invariant(s) && TxnOk(s.tables, x) && HasRead(x) && x.pc < FinalPc(x.kind)
    ensures Apply(Lone(s, i, x), Statement(i))
         == match NextStatement(Lone(s, i, x), i) case None => s case Some(y) => Lone(s, i, y)
    ensures NextStatement(Lone(s, i, x), i).Some? ==> TxnOk(s.tables, NextStatement(Lone(s, i, x), i).value)
  {
    var lone := Lone(s, i, x);
    LoneIsInvariant(s, i, x);
    LoneIsReady(s, i, x);
    assert lone.txns - {i} == s.txns;
    if NextStatement(lone, i).Some? {
      StatementKeepsTxn(lone, i);
      assert lone.txns[i := NextStatement(lone, i).value] == map[i := NextStatement(lone, i).value];
    }
  }

  lemma StatementsGoOn(s: System, i: nat, x: Txn)
    requires TxnOk(s.tables, x) && UpToDate(s, x) && HasRead(x) && x.pc < FinalPc(x.kind)
    requires NextStatement(Lone(s, i, x), i).Some?
    ensures var y := NextStatement(Lone(s, i, x), i).value;
      y.kind == x.kind && y.pc > x.pc && UpToDate(s, y)
  {
  }

  /** In lockstep a statement throws only where the whole transaction is refused. */
  lemma RefusalsAreSerial(s: System, i: nat, x: Txn)
    requires Lockstep(s.tables) && TxnOk(s.tables, x) && HasRead(x) && x.pc < FinalPc(x.kind)
    requires NextStatement(Lone(s, i, x), i).None?
    ensures Serial(s.tables, x.kind, s.holds).None?
  {
  }

  lemma LoneCommits(s: System, i: nat, x: Txn)
    requires s.txns == map[] && Invariant(s) && TxnOk(s.tables, x) && UpToDate(s, x) && x.pc == FinalPc(x.kind)
    ensures var t := Apply(Lone(s, i, x), Commit(i));
      t.txns == map[] && t.tables == AfterSerial(s, x.kind)
  {
    CommitIsSerialExactly(s.tables, x);
    assert Lone(s, i, x).txns - {i} == s.txns;
  }

  lemma {:induction false} OneFirst(s: System, a: Action, rest: seq<Action>)
    ensures Execute(s, [a] + rest) == Execute(Apply(s, a), rest)
  {
    PrivacyRaces.ExecuteAppends(s, [a], rest);
    assert [a][..0] == [];
    assert Execute(s, [a][..0]) == s;
  }

  predicate IsOwn(a: Action, i: nat) {
    match a
    case Begin(j, _) => j == i
    case Statement(j) => j == i
    case Commit(j) => j == i
    case _ => false
  }

  lemma NextStaysInBounds(s: System, i: nat, x: Txn)
    requires HasRead(x) && x.pc < FinalPc(x.kind) && NextStatement(Lone(s, i, x), i).Some?
    ensures NextStatement(Lone(s, i, x), i).value.pc <= FinalPc(x.kind)
  {
  }

  lemma {:induction false} RunsToItsEnd(s: System, i: nat, x: Txn) returns (steps: seq<Action>)
    requires s.txns == map[] && Invariant(s) && TxnOk(s.tables, x) && UpToDate(s, x) && x.pc <= FinalPc(x.kind)
    ensures forall k :: 0 <= k < |steps| ==> IsOwn(steps[k], i)
    ensures var t := Execute(Lone(s, i, x), steps); t.txns == map[] && t.tables == AfterSerial(s, x.kind)
    decreases FinalPc(x.kind) - x.pc
  {
    LoneIsInvariant(s, i, x);
    if x.pc == FinalPc(x.kind) {
      LoneCommits(s, i, x);
      steps := [Commit(i)];
      OneFirst(Lone(s, i, x), Commit(i), []);
      assert [Commit(i)] + [] == steps;
    } else {
      LoneStatement(s, i, x);
      match NextStatement(Lone(s, i, x), i)
      case None =>
        RefusalsAreSerial(s, i, x);
        steps := [Statement(i)];
        OneFirst(Lone(s, i, x), Statement(i), []);
        assert [Statement(i)] + [] == steps;
      case Some(y) =>
        StatementsGoOn(s, i, x);
        NextStaysInBounds(s, i, x);
        var rest := RunsToItsEnd(s, i, y);
        steps := [Statement(i)] + rest;
        OneFirst(Lone(s, i, x), Statement(i), rest);
    }
  }

  /**
   Whatever happened before, once no privacy transaction is open: one that begins and is left
   alone ends, with what the function computes of the rows and the holds, or with the rows as
   they were where the function refuses.
   */
  lemma TransactionLeftAloneIsSerial(access: Access, before: seq<Action>, i: nat, kind: Kind) returns (steps: seq<Action>)
    requires access.person && Execute(Initial(access), before).txns == map[]
    ensures forall k :: 0 <= k < |steps| ==> IsOwn(steps[k], i)
    ensures var s, t := Execute(Initial(access), before), Execute(Initial(access), before + steps);
      && t.txns == map[]
      && t.tables == (match Serial(s.tables, kind, s.holds) case None => s.tables case Some(u) => u)
  {
    var s := Execute(Initial(access), before);
    RunsKeepInvariant(access, before);
    var x := Txn(kind, 0, None, None, None, None, []);
    var rest := RunsToItsEnd(s, i, x);
    steps := [Begin(i, kind)] + rest;
    assert s.txns[i := x] == map[i := x];
    OneFirst(s, Begin(i, kind), rest);
    PrivacyRaces.ExecuteAppends(Initial(access), before, steps);
  }
}
