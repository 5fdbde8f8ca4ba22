/**
 The canonical text as an identity of values: it is unchanged by a parse, independent of
 key order, and differs whenever two values differ beyond key order. Independence needs a
 collation that tells the keys of each object apart, and fails for every tie.
 */
module JsonOrder {
  import opened Prelude
  import opened Json
  import opened JsonRoundTrip

  /** Equal up to the order of object members, at every depth. */
  predicate Same(u: Value, v: Value)
    decreases u
  {
    match (u, v)
    case (Arr(a), Arr(b)) => |a| == |b| && forall i :: 0 <= i < |a| ==> Same(a[i], b[i])
    case (Obj(a), Obj(b)) =>
      (forall i :: 0 <= i < |a| ==> Matches(a[i], b)) && (forall j :: 0 <= j < |b| ==> MatchedBy(a, b[j]))
    case _ => u == v
  }

  predicate Matches(m: Member<Value>, b: seq<Member<Value>>)
    decreases m
  {
    exists j :: 0 <= j < |b| && m.key == b[j].key && Same(m.value, b[j].value)
  }

  predicate MatchedBy(a: seq<Member<Value>>, m: Member<Value>)
    decreases a
  {
    exists i :: 0 <= i < |a| && a[i].key == m.key && Same(a[i].value, m.value)
  }

  predicate KeysApart(members: seq<Member<Value>>, order: Collation) {
    forall i, j :: 0 <= i < |members| && 0 <= j < |members| && members[i].key != members[j].key ==>
      order(members[i].key) != order(members[j].key)
  }

  /** The collation tells the keys of every object in the value apart. */
  predicate Distinguishes(order: Collation, v: Value)
    decreases v
  {
    match v
    case Arr(items) => forall i :: 0 <= i < |items| ==> Distinguishes(order, items[i])
    case Obj(members) =>
      && KeysApart(members, order)
      && forall i :: 0 <= i < |members| ==> Distinguishes(order, members[i].value)
    case _ => true
  }

  // ----- sorted sequences of members -----

  predicate Ascending(members: seq<Member<Value>>, order: Collation) {
    forall i, j :: 0 <= i < j < |members| ==> order(members[i].key) <= order(members[j].key)
  }

  predicate StrictlyAscending(members: seq<Member<Value>>, order: Collation) {
    forall i, j :: 0 <= i < j < |members| ==> order(members[i].key) < order(members[j].key)
  }

  lemma {:induction false} InsertAscends(m: Member<Value>, sorted: seq<Member<Value>>, order: Collation)
    requires Ascending(sorted, order)
    ensures Ascending(Insert(m, sorted, order), order)
    decreases |sorted|
  {
    if sorted != [] && order(m.key) > order(sorted[0].key) {
      var tail := Insert(m, sorted[1..], order);
      InsertAscends(m, sorted[1..], order);
      InsertKeepsMembers(m, sorted[1..], order);
      forall k | 0 <= k < |tail| ensures order(sorted[0].key) <= order(tail[k].key) {
        assert tail[k] in tail;
        assert tail[k] == m || tail[k] in sorted[1..];
      }
    }
  }

  lemma {:induction false} SortAscends(members: seq<Member<Value>>, order: Collation)
    ensures Ascending(Sort(members, order), order)
    decreases |members|
  {
    if members != [] {
      SortAscends(members[1..], order);
      InsertAscends(members[0], Sort(members[1..], order), order);
    }
  }

  /** Sorting is stable, so it leaves an ascending sequence alone. */
  lemma {:induction false} SortOfAscending(members: seq<Member<Value>>, order: Collation)
    requires Ascending(members, order)
    ensures Sort(members, order) == members
    decreases |members|
  {
    if members != [] {
      SortOfAscending(members[1..], order);
      assert members == [members[0]] + members[1..];
    }
  }

  lemma NonemptyHasMember(s: seq<Member<Value>>)
    ensures s != [] ==> exists m :: m in s
  {
    if s != [] {
      assert s[0] in s;
    }
  }

  lemma {:induction false} AscendingIsUnique(s: seq<Member<Value>>, t: seq<Member<Value>>, order: Collation)
    requires StrictlyAscending(s, order) && StrictlyAscending(t, order)
    requires forall m :: m in s <==> m in t
    ensures s == t
    decreases |s|
  {
    NonemptyHasMember(s);
    NonemptyHasMember(t);
    if s != [] {
      assert s[0] in s && t[0] in t;
      var k :| 0 <= k < |t| && t[k] == s[0];
      var l :| 0 <= l < |s| && s[l] == t[0];
      assert k == 0;
      forall m ensures m in s[1..] <==> m in t[1..] {
        assert m in s <==> m == s[0] || m in s[1..];
        assert m in t <==> m == t[0] || m in t[1..];
        assert s[0] !in s[1..] && t[0] !in t[1..];
      }
      AscendingIsUnique(s[1..], t[1..], order);
    }
  }

  lemma {:induction false} SortIsStrict(members: seq<Member<Value>>, order: Collation)
    requires DistinctKeys(members) && KeysApart(members, order)
    ensures StrictlyAscending(Sort(members, order), order)
  {
    var sorted := Sort(members, order);
    SortAscends(members, order);
    SortKeepsMembers(members, order);
    forall i, j | 0 <= i < j < |sorted| ensures order(sorted[i].key) < order(sorted[j].key) {
      assert sorted[i] in members && sorted[j] in members;
    }
  }

  lemma {:induction false} SortedMembersAt(members: seq<Member<Value>>, order: Collation, i: nat)
    requires i < |members|
    ensures SortedMembers(members, order)[i] == Member(members[i].key, Sorted(members[i].value, order))
    decreases |members|
  {
    if i > 0 {
      SortedMembersAt(members[1..], order, i - 1);
    }
  }

  lemma {:induction false} SortedItemsAt(items: seq<Value>, order: Collation, i: nat)
    requires i < |items|
    ensures SortedItems(items, order)[i] == Sorted(items[i], order)
    decreases |items|
  {
    if i > 0 {
      SortedItemsAt(items[1..], order, i - 1);
    }
  }

  lemma {:induction false} AllWellFormedAt(items: seq<Value>, i: nat)
    requires AllWellFormed(items) && i < |items|
    ensures WellFormed(items[i])
    decreases |items|
  {
    if i > 0 {
      AllWellFormedAt(items[1..], i - 1);
    }
  }

  // ----- independence of key order -----

  lemma {:induction false} SameSortsAlike(u: Value, v: Value, order: Collation)
    requires WellFormed(u) && WellFormed(v) && Same(u, v) && Distinguishes(order, u)
    ensures Sorted(u, order) == Sorted(v, order)
    decreases u, 1
  {
    if u.Arr? {
      ItemsSortAlike(u.items, v.items, order);
    } else if u.Obj? {
      MembersSortAlike(u.members, v.members, order);
    }
  }

  lemma {:induction false} ItemsSortAlike(a: seq<Value>, b: seq<Value>, order: Collation)
    requires WellFormed(Arr(a)) && WellFormed(Arr(b)) && Same(Arr(a), Arr(b)) && Distinguishes(order, Arr(a))
    ensures SortedItems(a, order) == SortedItems(b, order)
    decreases a, 0
  {
    forall i | 0 <= i < |a| ensures SortedItems(a, order)[i] == SortedItems(b, order)[i] {
      AllWellFormedAt(a, i);
      AllWellFormedAt(b, i);
      SameSortsAlike(a[i], b[i], order);
      SortedItemsAt(a, order, i);
      SortedItemsAt(b, order, i);
    }
  }

  lemma {:induction false} MembersSortAlike(a: seq<Member<Value>>, b: seq<Member<Value>>, order: Collation)
    requires WellFormed(Obj(a)) && WellFormed(Obj(b)) && Same(Obj(a), Obj(b)) && Distinguishes(order, Obj(a))
    ensures Sort(SortedMembers(a, order), order) == Sort(SortedMembers(b, order), order)
    decreases a, 0
  {
    var c, d := SortedMembers(a, order), SortedMembers(b, order);
    MembersWellFormedAt(a);
    MembersWellFormedAt(b);
    forall i | 0 <= i < |c| ensures c[i] in d {
      assert Matches(a[i], b);
      var j :| 0 <= j < |b| && a[i].key == b[j].key && Same(a[i].value, b[j].value);
      SameSortsAlike(a[i].value, b[j].value, order);
      SortedMembersAt(a, order, i);
      SortedMembersAt(b, order, j);
      assert c[i] == d[j];
    }
    forall j | 0 <= j < |d| ensures d[j] in c {
      assert MatchedBy(a, b[j]);
      var i :| 0 <= i < |a| && a[i].key == b[j].key && Same(a[i].value, b[j].value);
      SameSortsAlike(a[i].value, b[j].value, order);
      SortedMembersAt(a, order, i);
      SortedMembersAt(b, order, j);
      assert c[i] == d[j];
    }
    SameMembersSortAlike(c, d, order);
  }

  lemma {:induction false} SameMembersSortAlike(c: seq<Member<Value>>, d: seq<Member<Value>>, order: Collation)
    requires DistinctKeys(c) && DistinctKeys(d) && KeysApart(c, order)
    requires (forall i :: 0 <= i < |c| ==> c[i] in d) && (forall j :: 0 <= j < |d| ==> d[j] in c)
    ensures Sort(c, order) == Sort(d, order)
  {
    forall i, j | 0 <= i < |d| && 0 <= j < |d| && d[i].key != d[j].key ensures order(d[i].key) != order(d[j].key) {
      assert d[i] in c && d[j] in c;
    }
    SortIsStrict(c, order);
    SortIsStrict(d, order);
    SortKeepsMembers(c, order);
    SortKeepsMembers(d, order);
    forall m ensures m in Sort(c, order) <==> m in Sort(d, order) {
      assert m in c <==> m in d;
    }
    AscendingIsUnique(Sort(c, order), Sort(d, order), order);
  }

  /** Values that sort to the same value are the same up to key order. */
  lemma {:induction false} SortedAlikeIsSame(u: Value, v: Value, order: Collation)
    requires Sorted(u, order) == Sorted(v, order)
    ensures Same(u, v)
    decreases u, 1
  {
    if u.Arr? {
      assert |u.items| == |SortedItems(u.items, order)| && |v.items| == |SortedItems(v.items, order)|;
      forall i | 0 <= i < |u.items| ensures Same(u.items[i], v.items[i]) {
        SortedItemsAt(u.items, order, i);
        SortedItemsAt(v.items, order, i);
        SortedAlikeIsSame(u.items[i], v.items[i], order);
      }
    } else if u.Obj? {
      MembersSortedAlike(u.members, v.members, order);
    }
  }

  lemma {:induction false} MembersSortedAlike(a: seq<Member<Value>>, b: seq<Member<Value>>, order: Collation)
    requires Sort(SortedMembers(a, order), order) == Sort(SortedMembers(b, order), order)
    ensures Same(Obj(a), Obj(b))
    decreases a, 0
  {
    var c, d := SortedMembers(a, order), SortedMembers(b, order);
    forall i | 0 <= i < |a| ensures Matches(a[i], b) {
      var j := Counterpart(c, d, order, i);
      SortedMembersAt(a, order, i);
      SortedMembersAt(b, order, j);
      SortedAlikeIsSame(a[i].value, b[j].value, order);
    }
    forall j | 0 <= j < |b| ensures MatchedBy(a, b[j]) {
      var i := Counterpart(d, c, order, j);
      SortedMembersAt(a, order, i);
      SortedMembersAt(b, order, j);
      SortedAlikeIsSame(a[i].value, b[j].value, order);
    }
  }

  lemma Counterpart(c: seq<Member<Value>>, d: seq<Member<Value>>, order: Collation, i: nat) returns (j: nat)
    requires Sort(c, order) == Sort(d, order) && i < |c|
    ensures j < |d| && d[j] == c[i]
  {
    SortKeepsMembers(c, order);
    SortKeepsMembers(d, order);
    assert c[i] in Sort(c, order) && c[i] in d;
    j :| 0 <= j < |d| && d[j] == c[i];
  }

  // ----- the theorems -----

  /** Different beyond key order, different text: whatever the collation. */
  lemma {:induction false} PrintIsInjective(u: Value, v: Value, order: Collation)
    requires WellFormed(u) && WellFormed(v) && Print(u, order) == Print(v, order)
    ensures Same(u, v)
  {
    ParseUndoesPrint(u, order);
    ParseUndoesPrint(v, order);
    SortedAlikeIsSame(u, v, order);
  }

  /** Where the collation tells keys apart, the text is exactly the identity up to key order. */
  lemma {:induction false} PrintIdentifiesValues(u: Value, v: Value, order: Collation)
    requires WellFormed(u) && WellFormed(v) && Distinguishes(order, u)
    ensures Print(u, order) == Print(v, order) <==> Same(u, v)
  {
    if Same(u, v) {
      SameSortsAlike(u, v, order);
      PrintSortsFirst(u, order);
      PrintSortsFirst(v, order);
    } else if Print(u, order) == Print(v, order) {
      PrintIsInjective(u, v, order);
    }
  }

  lemma {:induction false} SortedTwice(v: Value, order: Collation)
    ensures Sorted(Sorted(v, order), order) == Sorted(v, order)
    decreases v
  {
    match v
    case Arr(items) =>
      var once := SortedItems(items, order);
      forall i | 0 <= i < |items| ensures SortedItems(once, order)[i] == once[i] {
        SortedItemsAt(items, order, i);
        SortedItemsAt(once, order, i);
        SortedTwice(items[i], order);
      }
    case Obj(members) =>
      var inner := SortedMembers(members, order);
      var once := Sort(inner, order);
      SortKeepsMembers(inner, order);
      forall i | 0 <= i < |members| ensures Sorted(inner[i].value, order) == inner[i].value {
        SortedMembersAt(members, order, i);
        SortedTwice(members[i].value, order);
      }
      forall k | 0 <= k < |once| ensures SortedMembers(once, order)[k] == once[k] {
        assert once[k] in inner;
        SortedMembersAt(once, order, k);
      }
      assert SortedMembers(once, order) == once;
      SortAscends(inner, order);
      SortOfAscending(once, order);
    case _ =>
  }

  /** Printing, parsing and printing again gives the same text: digests survive a parse. */
  lemma {:induction false} PrintIsStableUnderParse(v: Value, order: Collation)
    requires WellFormed(v)
    ensures var parsed := Parse(Print(v, order));
      parsed.Some? && Same(v, parsed.value) && Print(parsed.value, order) == Print(v, order)
  {
    ParseUndoesPrint(v, order);
    SortedTwice(v, order);
    PrintSortsFirst(v, order);
    PrintSortsFirst(Sorted(v, order), order);
    SortedAlikeIsSame(v, Sorted(v, order), order);
  }
}
