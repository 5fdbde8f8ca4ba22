/** Reading members of parsed values, and what a parse and a sort leave of them. */
module JsonFields {
  import opened Prelude
  import opened Json
  import opened JsonRoundTrip
  import JsonOrder

  function Lookup(members: seq<Member<Value>>, key: string): Option<Value> {
    if members == [] then None
    else if members[0].key == key then Some(members[0].value)
    else Lookup(members[1..], key)
  }

  /** `v?.key`: nothing for a value that is not an object. */
  function Field(v: Option<Value>, key: string): Option<Value> {
    if v.Some? && v.value.Obj? then Lookup(v.value.members, key) else None
  }

  /** `===` on two members: by value for primitives, never for two separately parsed objects. */
  predicate StrictlyEqual(u: Option<Value>, v: Option<Value>) {
    u == v && (u.Some? ==> !u.value.Arr? && !u.value.Obj?)
  }

  predicate Has(members: seq<Member<Value>>, m: Member<Value>) {
    exists i :: 0 <= i < |members| && members[i] == m
  }

  lemma {:induction false} LookupFinds(members: seq<Member<Value>>, key: string)
    ensures Lookup(members, key).None? <==> KeyIsNew(key, members)
    ensures Lookup(members, key).Some? ==> Has(members, Member(key, Lookup(members, key).value))
    decreases |members|
  {
    if members != [] {
      if members[0].key == key {
        assert members[0] == Member(key, Lookup(members, key).value);
      } else {
        LookupFinds(members[1..], key);
        assert forall i :: 0 < i < |members| ==> members[i] == members[1..][i - 1];
        assert forall i :: 0 <= i < |members| - 1 ==> members[1..][i] == members[i + 1];
      }
    }
  }

  lemma {:induction false} LookupOfMember(members: seq<Member<Value>>, i: nat)
    requires DistinctKeys(members) && i < |members|
    ensures Lookup(members, members[i].key) == Some(members[i].value)
  {
    LookupFinds(members, members[i].key);
    var found := Lookup(members, members[i].key);
    var j :| 0 <= j < |members| && members[j] == Member(members[i].key, found.value);
    assert i == j;
  }

  function SortedOption(v: Option<Value>, order: Collation): Option<Value> {
    if v.Some? then Some(Sorted(v.value, order)) else None
  }

  lemma {:induction false} MissingStaysMissing(members: seq<Member<Value>>, key: string, order: Collation)
    requires KeyIsNew(key, members)
    ensures Lookup(Sort(SortedMembers(members, order), order), key) == None
  {
    var inner := SortedMembers(members, order);
    var sorted := Sort(inner, order);
    SortKeepsMembers(inner, order);
    forall k | 0 <= k < |sorted| ensures sorted[k].key != key {
      assert sorted[k] in inner;
    }
    LookupFinds(sorted, key);
  }

  lemma {:induction false} MemberIsFoundSorted(members: seq<Member<Value>>, i: nat, order: Collation)
    requires DistinctKeys(members) && i < |members|
    ensures Lookup(Sort(SortedMembers(members, order), order), members[i].key) == Some(Sorted(members[i].value, order))
  {
    var inner := SortedMembers(members, order);
    SortKeepsMembers(inner, order);
    JsonOrder.SortedMembersAt(members, order, i);
    assert inner[i] in Sort(inner, order);
    var k :| 0 <= k < |Sort(inner, order)| && Sort(inner, order)[k] == inner[i];
    LookupOfMember(Sort(inner, order), k);
  }

  /** Sorting at every depth moves members; reading one gives its sorted value. */
  lemma {:induction false} FieldOfSorted(v: Value, key: string, order: Collation)
    requires WellFormed(v)
    ensures Field(Some(Sorted(v, order)), key) == SortedOption(Field(Some(v), key), order)
  {
    if v.Obj? {
      LookupFinds(v.members, key);
      if Lookup(v.members, key).None? {
        MissingStaysMissing(v.members, key, order);
      } else {
        var i :| 0 <= i < |v.members| && v.members[i] == Member(key, Lookup(v.members, key).value);
        MemberIsFoundSorted(v.members, i, order);
      }
    }
  }

  lemma {:induction false} FieldIsWellFormed(v: Value, key: string)
    requires WellFormed(v)
    ensures Field(Some(v), key).Some? ==> WellFormed(Field(Some(v), key).value)
  {
    if v.Obj? {
      LookupFinds(v.members, key);
      MembersWellFormedAt(v.members);
    }
  }

  // ----- whatever is parsed is well formed -----

  lemma {:induction false} PutKeepsWellFormed(members: seq<Member<Value>>, m: Member<Value>)
    requires DistinctKeys(members) && MembersWellFormed(members) && WellFormed(m.value)
    ensures DistinctKeys(Put(members, m)) && MembersWellFormed(Put(members, m))
    ensures forall key :: KeyIsNew(key, members) && key != m.key ==> KeyIsNew(key, Put(members, m))
    decreases |members|
  {
    if members != [] {
      var rest := members[1..];
      if members[0].key == m.key {
        assert Put(members, m)[1..] == rest;
      } else {
        PutKeepsWellFormed(rest, m);
        assert Put(members, m)[1..] == Put(rest, m);
        assert KeyIsNew(members[0].key, rest);
        forall key | KeyIsNew(key, members) && key != m.key ensures KeyIsNew(key, Put(members, m)) {
          assert KeyIsNew(key, rest);
        }
      }
    } else {
      assert [m][1..] == [];
    }
  }

  lemma {:induction false} ParsedValueIsWellFormed(s: string)
    ensures ParseValue(s).Done? ==> WellFormed(ParseValue(s).value)
    decreases |s|, 1
  {
    var t := SkipSpace(s);
    if t != "" && t[0] == '[' {
      ParsedItemsAreWellFormed(t[1..]);
    } else if t != "" && t[0] == '{' {
      assert DistinctKeys<Value>([]) && MembersWellFormed([]);
      ParsedMembersAreWellFormed(t[1..], []);
    }
  }

  lemma {:induction false} ParsedItemsAreWellFormed(s: string)
    ensures ParseItems(s).Done? ==> AllWellFormed(ParseItems(s).value)
    decreases |s|, 2
  {
    ParsedValueIsWellFormed(s);
    var first := ParseValue(s);
    if first.Done? {
      var t := SkipSpace(first.rest);
      if t != "" && t[0] == ',' {
        ParsedItemsAreWellFormed(t[1..]);
        if ParseItems(s).Done? {
          assert ParseItems(s).value[1..] == ParseItems(t[1..]).value;
        }
      }
    }
  }

  lemma {:induction false} ParsedMemberIsWellFormed(s: string)
    ensures ParseMember(s).Done? ==> WellFormed(ParseMember(s).value.value)
    decreases |s|, 0
  {
    var t := SkipSpace(s);
    if t != "" && t[0] == '"' {
      var key := ParseText(t[1..]);
      if key.Done? {
        var u := SkipSpace(key.rest);
        if u != "" && u[0] == ':' {
          ParsedValueIsWellFormed(u[1..]);
        }
      }
    }
  }

  lemma {:induction false} ParsedMembersAreWellFormed(s: string, before: seq<Member<Value>>)
    requires DistinctKeys(before) && MembersWellFormed(before)
    ensures ParseMembers(s, before).Done? ==>
      DistinctKeys(ParseMembers(s, before).value) && MembersWellFormed(ParseMembers(s, before).value)
    decreases |s|, 1
  {
    ParsedMemberIsWellFormed(s);
    var first := ParseMember(s);
    if first.Done? {
      PutKeepsWellFormed(before, first.value);
      var t := SkipSpace(first.rest);
      if t != "" && t[0] == ',' {
        ParsedMembersAreWellFormed(t[1..], Put(before, first.value));
      }
    }
  }

  /** Every text that parses gives a value the printer accepts: its text is then canonical. */
  lemma ParsedIsWellFormed(s: string)
    ensures Parse(s).Some? ==> WellFormed(Parse(s).value)
  {
    ParsedValueIsWellFormed(s);
  }

  /** Two texts with equal canonical forms hold the same value with its keys sorted. */
  lemma {:induction false} SameTextSameSorted(u: Value, v: Value, order: Collation)
    requires WellFormed(u) && WellFormed(v) && Print(u, order) == Print(v, order)
    ensures Sorted(u, order) == Sorted(v, order)
  {
    ParseUndoesPrint(u, order);
    ParseUndoesPrint(v, order);
  }
}
