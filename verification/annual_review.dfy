/**
 The annual review of a household's facts: confirmed facts are grouped by field in a `Map`,
 a field is reported as contradictory when its values print differently, and the report
 is refused when a confirmed fact has no evidence.
 */
module AnnualReview {
  import opened Prelude
  import opened Json
  import opened JsonRoundTrip
  import opened JsonOrder

  datatype FactStatus = Candidate | Confirmed | Rejected | Disputed

  datatype Fact = Fact(id: string, fieldKey: string, typedValue: Value, status: FactStatus,
                       evidenceIds: seq<string>, version: nat)

  datatype Finding = Finding(fieldKey: string, factIds: seq<string>)

  function ConfirmedFacts(facts: seq<Fact>): seq<Fact> {
    if facts == [] then []
    else
      var last := facts[|facts| - 1];
      ConfirmedFacts(facts[..|facts| - 1]) + (if last.status.Confirmed? then [last] else [])
  }

  /** The fields in the order in which they first occur. */
  function Fields(facts: seq<Fact>): seq<string> {
    if facts == [] then []
    else
      var before := Fields(facts[..|facts| - 1]);
      if facts[|facts| - 1].fieldKey in before then before else before + [facts[|facts| - 1].fieldKey]
  }

  /** The facts of one field, in input order. */
  function OfField(facts: seq<Fact>, fieldKey: string): seq<Fact> {
    if facts == [] then []
    else
      var last := facts[|facts| - 1];
      OfField(facts[..|facts| - 1], fieldKey) + (if last.fieldKey == fieldKey then [last] else [])
  }

  function Ids(facts: seq<Fact>): seq<string> {
    seq(|facts|, i requires 0 <= i < |facts| => facts[i].id)
  }

  /** The distinct canonical texts of the values: `new Set(...)`. */
  function Texts(facts: seq<Fact>, order: Collation): set<string> {
    set i | 0 <= i < |facts| :: Print(facts[i].typedValue, order)
  }

  /** The findings of a sequence of confirmed facts, field by field. */
  function FindingsOf(fields: seq<string>, facts: seq<Fact>, order: Collation): seq<Finding> {
    if fields == [] then []
    else
      var last := fields[|fields| - 1];
      FindingsOf(fields[..|fields| - 1], facts, order)
      + (if |Texts(OfField(facts, last), order)| > 1 then [Finding(last, Ids(OfField(facts, last)))] else [])
  }

  function Contradictions(facts: seq<Fact>, order: Collation): seq<Finding> {
    var confirmed := ConfirmedFacts(facts);
    FindingsOf(Fields(confirmed), confirmed, order)
  }

  // ----- the loops -----

  function Groups(facts: seq<Fact>): map<string, seq<Fact>> {
    map k | k in Fields(facts) :: OfField(facts, k)
  }

  lemma GroupsGrow(before: seq<Fact>, fact: Fact)
    ensures var group := if fact.fieldKey in Groups(before) then Groups(before)[fact.fieldKey] else [];
      && Groups(before + [fact]) == Groups(before)[fact.fieldKey := group + [fact]]
      && Fields(before + [fact])
         == if fact.fieldKey in Groups(before) then Fields(before) else Fields(before) + [fact.fieldKey]
  {
    var after := before + [fact];
    assert after[..|after| - 1] == before && after[|after| - 1] == fact;
    NewFieldIsEmpty(before, fact.fieldKey);
    var group := OfField(before, fact.fieldKey);
    forall k | k in Fields(after)
      ensures OfField(after, k) == Groups(before)[fact.fieldKey := group + [fact]][k]
    {
      assert OfField(before, k) + [] == OfField(before, k);
    }
  }

  /** The `Map` the worker fills: its keys in insertion order, and its table. */
  method GroupByField(facts: seq<Fact>) returns (keys: seq<string>, table: map<string, seq<Fact>>)
    ensures keys == Fields(ConfirmedFacts(facts))
    ensures table == Groups(ConfirmedFacts(facts))
  {
    keys, table := [], map[];
    for i := 0 to |facts|
      invariant keys == Fields(ConfirmedFacts(facts[..i]))
      invariant table == Groups(ConfirmedFacts(facts[..i]))
    {
      var fact := facts[i];
      ghost var before := ConfirmedFacts(facts[..i]);
      assert facts[..i + 1][..i] == facts[..i];
      if fact.status.Confirmed? {
        GroupsGrow(before, fact);
        var group := if fact.fieldKey in table then table[fact.fieldKey] else [];
        if fact.fieldKey !in table {
          keys := keys + [fact.fieldKey];
        }
        table := table[fact.fieldKey := group + [fact]];
      } else {
        assert before + [] == before;
      }
    }
    assert facts[..|facts|] == facts;
  }

  /** The `flatMap` over the entries of the map. */
  method FindContradictions(facts: seq<Fact>, order: Collation) returns (findings: seq<Finding>)
    ensures findings == Contradictions(facts, order)
  {
    var keys, table := GroupByField(facts);
    findings := [];
    for i := 0 to |keys|
      invariant findings == FindingsOf(keys[..i], ConfirmedFacts(facts), order)
    {
      var group := table[keys[i]];
      assert keys[..i + 1][..i] == keys[..i];
      if |Texts(group, order)| > 1 {
        findings := findings + [Finding(keys[i], Ids(group))];
      }
    }
    assert keys[..|keys|] == keys;
  }

  // ----- grouping is a partition -----

  lemma {:induction false} FieldIsListedExactlyWhenItOccurs(facts: seq<Fact>, fieldKey: string)
    ensures fieldKey in Fields(facts) <==> exists i :: 0 <= i < |facts| && facts[i].fieldKey == fieldKey
    decreases |facts|
  {
    if facts != [] {
      var n := |facts| - 1;
      FieldIsListedExactlyWhenItOccurs(facts[..n], fieldKey);
      assert facts == facts[..n] + [facts[n]];
    }
  }

  /** A field that is not listed yet has no group, so the map starts one from the empty list. */
  lemma {:induction false} NewFieldIsEmpty(facts: seq<Fact>, fieldKey: string)
    ensures fieldKey in Fields(facts) <==> OfField(facts, fieldKey) != []
    decreases |facts|
  {
    if facts != [] {
      NewFieldIsEmpty(facts[..|facts| - 1], fieldKey);
    }
  }

  lemma {:induction false} FieldsAreDistinct(facts: seq<Fact>)
    ensures forall i, j :: 0 <= i < j < |Fields(facts)| ==> Fields(facts)[i] != Fields(facts)[j]
    decreases |facts|
  {
    if facts != [] {
      FieldsAreDistinct(facts[..|facts| - 1]);
    }
  }

  /** A group holds the facts of its field, each as often and in the order it was given. */
  lemma {:induction false} OfFieldSelects(facts: seq<Fact>, fieldKey: string, fact: Fact)
    ensures multiset(OfField(facts, fieldKey))[fact]
         == if fact.fieldKey == fieldKey then multiset(facts)[fact] else 0
    decreases |facts|
  {
    if facts != [] {
      var n := |facts| - 1;
      OfFieldSelects(facts[..n], fieldKey, fact);
      assert facts == facts[..n] + [facts[n]];
    }
  }

  function Flattened(fields: seq<string>, facts: seq<Fact>): seq<Fact> {
    if fields == [] then []
    else Flattened(fields[..|fields| - 1], facts) + OfField(facts, fields[|fields| - 1])
  }

  lemma {:induction false} FlattenedCounts(fields: seq<string>, facts: seq<Fact>, fact: Fact)
    requires forall i, j :: 0 <= i < j < |fields| ==> fields[i] != fields[j]
    ensures multiset(Flattened(fields, facts))[fact] == if fact.fieldKey in fields then multiset(facts)[fact] else 0
    decreases |fields|
  {
    if fields != [] {
      var n := |fields| - 1;
      FlattenedCounts(fields[..n], facts, fact);
      OfFieldSelects(facts, fields[n], fact);
      assert fields == fields[..n] + [fields[n]];
    }
  }

  lemma {:induction false} FieldIsListed(facts: seq<Fact>, fact: Fact)
    requires fact in facts
    ensures fact.fieldKey in Fields(facts)
  {
    var i :| 0 <= i < |facts| && facts[i] == fact;
    FieldIsListedExactlyWhenItOccurs(facts, fact.fieldKey);
    assert facts[i].fieldKey == fact.fieldKey;
  }

  /** Every confirmed fact is in exactly one group, and nothing else is. */
  lemma {:induction false} GroupingIsPartition(facts: seq<Fact>)
    ensures multiset(Flattened(Fields(facts), facts)) == multiset(facts)
  {
    FieldsAreDistinct(facts);
    forall fact: Fact ensures multiset(Flattened(Fields(facts), facts))[fact] == multiset(facts)[fact] {
      FlattenedCounts(Fields(facts), facts, fact);
      if fact in facts {
        FieldIsListed(facts, fact);
      }
    }
  }

  // ----- which fields are reported -----

  lemma {:induction false} FindingsAreExact(fields: seq<string>, facts: seq<Fact>, order: Collation, finding: Finding)
    ensures finding in FindingsOf(fields, facts, order) <==>
      && finding.fieldKey in fields && |Texts(OfField(facts, finding.fieldKey), order)| > 1
      && finding.factIds == Ids(OfField(facts, finding.fieldKey))
    decreases |fields|
  {
    if fields != [] {
      var n := |fields| - 1;
      FindingsAreExact(fields[..n], facts, order, finding);
      assert fields == fields[..n] + [fields[n]];
    }
  }

  predicate TextsDiffer(facts: seq<Fact>, i: nat, j: nat, order: Collation) {
    i < |facts| && j < |facts| && Print(facts[i].typedValue, order) != Print(facts[j].typedValue, order)
  }

  lemma TwoTexts(facts: seq<Fact>, order: Collation)
    ensures |Texts(facts, order)| > 1 <==>
      exists i, j :: 0 <= i < |facts| && 0 <= j < |facts| && TextsDiffer(facts, i, j, order)
  {
    var texts := Texts(facts, order);
    if i, j :| 0 <= i < |facts| && 0 <= j < |facts| && TextsDiffer(facts, i, j, order) {
      var a, b := Print(facts[i].typedValue, order), Print(facts[j].typedValue, order);
      assert a in texts && b in texts;
      assert {a, b} <= texts;
      SubsetIsSmaller({a, b}, texts);
    } else if texts != {} {
      var t :| t in texts;
      forall u | u in texts ensures u == t {
        var i :| 0 <= i < |facts| && Print(facts[i].typedValue, order) == t;
        var j :| 0 <= j < |facts| && Print(facts[j].typedValue, order) == u;
        assert !TextsDiffer(facts, i, j, order);
      }
      assert texts == {t};
    }
  }

  lemma {:induction false} SubsetIsSmaller(a: set<string>, b: set<string>)
    requires a <= b
    ensures |a| <= |b|
    decreases |a|
  {
    if a != {} {
      var x :| x in a;
      SubsetIsSmaller(a - {x}, b - {x});
    }
  }

  predicate Differ(facts: seq<Fact>, i: nat, j: nat) {
    i < |facts| && j < |facts| && !Same(facts[i].typedValue, facts[j].typedValue)
  }

  lemma TextsTellValuesApart(facts: seq<Fact>, i: nat, j: nat, order: Collation)
    requires i < |facts| && j < |facts| && WellFormed(facts[i].typedValue) && WellFormed(facts[j].typedValue)
    ensures Differ(facts, i, j) ==> TextsDiffer(facts, i, j, order)
    ensures Distinguishes(order, facts[i].typedValue) && TextsDiffer(facts, i, j, order) ==> Differ(facts, i, j)
  {
    var u, v := facts[i].typedValue, facts[j].typedValue;
    if Print(u, order) == Print(v, order) {
      PrintIsInjective(u, v, order);
    } else if Distinguishes(order, u) {
      PrintIdentifiesValues(u, v, order);
    }
  }

  /** Two confirmed facts of the field hold values that differ beyond key order. */
  predicate IsContradictory(facts: seq<Fact>, fieldKey: string) {
    var group := OfField(ConfirmedFacts(facts), fieldKey);
    exists i, j :: 0 <= i < |group| && 0 <= j < |group| && Differ(group, i, j)
  }

  /** The values are parsed JSON. */
  predicate ValuesAreJson(facts: seq<Fact>) {
    forall i :: 0 <= i < |facts| ==> WellFormed(facts[i].typedValue)
  }

  predicate KeysAreTold(facts: seq<Fact>, order: Collation) {
    forall i :: 0 <= i < |facts| ==> Distinguishes(order, facts[i].typedValue)
  }

  lemma {:induction false} SelectionsAreMembers(facts: seq<Fact>, fieldKey: string)
    ensures forall k :: 0 <= k < |ConfirmedFacts(facts)| ==>
              ConfirmedFacts(facts)[k] in facts && ConfirmedFacts(facts)[k].status.Confirmed?
    ensures forall k :: 0 <= k < |OfField(facts, fieldKey)| ==>
              OfField(facts, fieldKey)[k] in facts && OfField(facts, fieldKey)[k].fieldKey == fieldKey
    decreases |facts|
  {
    if facts != [] {
      SelectionsAreMembers(facts[..|facts| - 1], fieldKey);
      assert facts[|facts| - 1] in facts;
    }
  }

  /**
   A field is reported, with exactly its confirmed fact ids in order, if and only if two of
   those facts hold JSON values that differ beyond key order. A contradiction is never
   missed; that nothing else is reported needs a collation that tells the keys apart.
   */
  lemma {:induction false} ContradictionsAreExact(facts: seq<Fact>, order: Collation, fieldKey: string, factIds: seq<string>)
    requires ValuesAreJson(facts)
    ensures var reported := Finding(fieldKey, factIds) in Contradictions(facts, order);
      && (reported ==> factIds == Ids(OfField(ConfirmedFacts(facts), fieldKey)))
      && (IsContradictory(facts, fieldKey) && factIds == Ids(OfField(ConfirmedFacts(facts), fieldKey)) ==> reported)
      && (KeysAreTold(facts, order) && reported ==> IsContradictory(facts, fieldKey))
  {
    var confirmed := ConfirmedFacts(facts);
    var group := OfField(confirmed, fieldKey);
    FindingsAreExact(Fields(confirmed), confirmed, order, Finding(fieldKey, factIds));
    TwoTexts(group, order);
    NewFieldIsEmpty(confirmed, fieldKey);
    SelectionsAreMembers(facts, fieldKey);
    SelectionsAreMembers(confirmed, fieldKey);
    forall k | 0 <= k < |group|
      ensures WellFormed(group[k].typedValue) && (KeysAreTold(facts, order) ==> Distinguishes(order, group[k].typedValue))
    {
      assert group[k] in confirmed && group[k] in facts;
    }
    forall i, j | 0 <= i < |group| && 0 <= j < |group|
      ensures Differ(group, i, j) ==> TextsDiffer(group, i, j, order)
      ensures KeysAreTold(facts, order) && TextsDiffer(group, i, j, order) ==> Differ(group, i, j)
    {
      TextsTellValuesApart(group, i, j, order);
    }
  }

  // ----- the report -----

  datatype ClaimStatus = ClaimConfirmed | ClaimDisputed | ClaimMissing

  datatype Claim = Claim(factId: string, evidenceIds: seq<string>, fieldKey: string, renderedValue: string,
                         status: ClaimStatus)

  /** A text as it is, anything else as `JSON.stringify` prints it; nothing for an unconfirmed fact. */
  function ClaimOf(fact: Fact): Claim {
    Claim(fact.id, fact.evidenceIds, fact.fieldKey,
          if !fact.status.Confirmed? then ""
          else if fact.typedValue.Str? then fact.typedValue.text
          else Plain(fact.typedValue),
          match fact.status
          case Confirmed => ClaimConfirmed
          case Disputed => ClaimDisputed
          case _ => ClaimMissing)
  }

  function Claims(facts: seq<Fact>): (claims: seq<Claim>)
    ensures |claims| == |facts|
    ensures forall i :: 0 <= i < |facts| ==> claims[i] == ClaimOf(facts[i])
  {
    if facts == [] then [] else [ClaimOf(facts[0])] + Claims(facts[1..])
  }

  /** `Object.fromEntries`: the last version of a repeated id stays. */
  function SourceFactVersions(facts: seq<Fact>): map<string, nat> {
    if facts == [] then map[]
    else SourceFactVersions(facts[..|facts| - 1])[facts[|facts| - 1].id := facts[|facts| - 1].version]
  }

  /**
   A claim shows its fact: a confirmed one with its value, a disputed one as disputed and
   without it, and a candidate or rejected one as missing.
   */
  lemma {:induction false} ClaimsShowTheirFacts(facts: seq<Fact>, i: nat)
    requires i < |facts|
    ensures var fact, claim := facts[i], Claims(facts)[i];
      && claim.factId == fact.id && claim.fieldKey == fact.fieldKey && claim.evidenceIds == fact.evidenceIds
      && (claim.status == ClaimConfirmed <==> fact.status == Confirmed)
      && (claim.status == ClaimDisputed <==> fact.status == Disputed)
      && (claim.status == ClaimMissing <==> fact.status == Candidate || fact.status == Rejected)
      && (fact.status != Confirmed ==> claim.renderedValue == "")
      && (fact.status == Confirmed && fact.typedValue.Str? ==> fact.typedValue == Str(claim.renderedValue))
      && (fact.status == Confirmed && !fact.typedValue.Str? && WellFormed(fact.typedValue) ==>
            Parse(claim.renderedValue) == Some(fact.typedValue))
  {
    var fact := facts[i];
    if WellFormed(fact.typedValue) {
      PlainParses(fact.typedValue, "");
      assert Plain(fact.typedValue) + "" == Plain(fact.typedValue);
    }
  }

  /** The version a report names for an id is that of the last fact with the id. */
  lemma {:induction false} VersionsAreTheLast(facts: seq<Fact>, id: string)
    ensures id in SourceFactVersions(facts) <==> exists i :: 0 <= i < |facts| && facts[i].id == id
    ensures id in SourceFactVersions(facts) ==>
      exists i :: 0 <= i < |facts| && facts[i].id == id && SourceFactVersions(facts)[id] == facts[i].version
                  && forall j :: i < j < |facts| ==> facts[j].id != id
    decreases |facts|
  {
    if facts != [] {
      var n := |facts| - 1;
      VersionsAreTheLast(facts[..n], id);
      assert forall i :: 0 <= i < n ==> facts[..n][i] == facts[i];
      if facts[n].id == id {
        assert SourceFactVersions(facts)[id] == facts[n].version;
      } else if id in SourceFactVersions(facts) {
        var i :| 0 <= i < n && facts[..n][i].id == id && SourceFactVersions(facts[..n])[id] == facts[..n][i].version
                 && forall j :: i < j < n ==> facts[..n][j].id != id;
        assert facts[i].id == id && forall j :: i < j < |facts| ==> facts[j].id != id;
      }
    }
  }

  const NO_EVIDENCE := "confirmed report claim requires evidence"
  const NO_VERSION := "report claim requires a source fact version"

  predicate IsUnprovenConfirmed(c: Claim) {
    c.status.ClaimConfirmed? && c.evidenceIds == []
  }

  /** Claim `i` offends and none before it does. */
  predicate IsFirstOffender(claims: seq<Claim>, versions: map<string, nat>, i: nat) {
    && i < |claims| && (IsUnprovenConfirmed(claims[i]) || claims[i].factId !in versions)
    && forall j :: 0 <= j < i ==> !IsUnprovenConfirmed(claims[j]) && claims[j].factId in versions
  }

  /** The loop of `assertReportProvenance`: the first offending claim decides what is thrown. */
  method AssertReportProvenance(claims: seq<Claim>, versions: map<string, nat>) returns (problem: Option<string>)
    ensures problem.None? <==>
      forall i :: 0 <= i < |claims| ==> !IsUnprovenConfirmed(claims[i]) && claims[i].factId in versions
    ensures problem.Some? ==>
      exists i :: 0 <= i < |claims| && IsFirstOffender(claims, versions, i)
                  && problem.value == if IsUnprovenConfirmed(claims[i]) then NO_EVIDENCE else NO_VERSION
  {
    for i := 0 to |claims|
      invariant forall j :: 0 <= j < i ==> !IsUnprovenConfirmed(claims[j]) && claims[j].factId in versions
    {
      if claims[i].status.ClaimConfirmed? && |claims[i].evidenceIds| == 0 {
        assert IsFirstOffender(claims, versions, i);
        return Some(NO_EVIDENCE);
      }
      if claims[i].factId !in versions {
        assert IsFirstOffender(claims, versions, i);
        return Some(NO_VERSION);
      }
    }
    problem := None;
  }

  lemma {:induction false} EveryFactHasVersion(facts: seq<Fact>)
    ensures forall i :: 0 <= i < |facts| ==> facts[i].id in SourceFactVersions(facts)
    decreases |facts|
  {
    if facts != [] {
      var n := |facts| - 1;
      EveryFactHasVersion(facts[..n]);
      assert forall i :: 0 <= i < n ==> facts[..n][i] == facts[i];
    }
  }

  lemma {:induction false} UnprovenClaims(facts: seq<Fact>)
    ensures var claims := Claims(facts);
      (forall i :: 0 <= i < |claims| ==> !IsUnprovenConfirmed(claims[i]))
      <==> forall i :: 0 <= i < |facts| && facts[i].status.Confirmed? ==> facts[i].evidenceIds != []
  {
    var claims := Claims(facts);
    forall i | 0 <= i < |facts|
      ensures IsUnprovenConfirmed(claims[i]) <==> facts[i].status.Confirmed? && facts[i].evidenceIds == []
    {
      assert claims[i] == ClaimOf(facts[i]);
    }
  }

  /**
   `generateReport` fails exactly when a confirmed fact has no evidence, which manual facts
   need not have; the check of source versions never fails.
   */
  method GenerateReport(facts: seq<Fact>) returns (claims: Result<seq<Claim>>)
    ensures claims.Ok? <==> forall i :: 0 <= i < |facts| && facts[i].status.Confirmed? ==> facts[i].evidenceIds != []
    ensures claims.Ok? ==> claims.value == Claims(facts)
    ensures claims.Err? ==> claims.error == NO_EVIDENCE
  {
    var all := Claims(facts);
    var versions := SourceFactVersions(facts);
    EveryFactHasVersion(facts);
    assert forall i :: 0 <= i < |all| ==> all[i].factId == facts[i].id;
    UnprovenClaims(facts);
    var problem := AssertReportProvenance(all, versions);
    claims := if problem.Some? then Err(problem.value) else Ok(all);
  }
}
