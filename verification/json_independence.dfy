/**
 When the canonical text does not depend on key order: exactly for the values in which the
 collation tells the keys of every object apart. The sort is stable, so two keys it ties
 stay in the order they were given, and swapping them gives another text.
 */
module JsonIndependence {
  import opened Prelude
  import opened Json
  import opened JsonRoundTrip
  import opened JsonOrder

  lemma {:induction false} SameAsItself(v: Value)
    ensures Same(v, v)
    decreases v
  {
    match v
    case Arr(items) =>
      forall i | 0 <= i < |items| ensures Same(items[i], items[i]) {
        SameAsItself(items[i]);
      }
    case Obj(members) =>
      forall i | 0 <= i < |members| ensures Matches(members[i], members) && MatchedBy(members, members[i]) {
        SameAsItself(members[i].value);
      }
    case _ =>
  }

  lemma {:induction false} SameIsTransitive(u: Value, v: Value, w: Value)
    requires Same(u, v) && Same(v, w)
    ensures Same(u, w)
    decreases u
  {
    if u.Arr? {
      forall i | 0 <= i < |u.items| ensures Same(u.items[i], w.items[i]) {
        SameIsTransitive(u.items[i], v.items[i], w.items[i]);
      }
    } else if u.Obj? {
      var a, b, c := u.members, v.members, w.members;
      forall i | 0 <= i < |a| ensures Matches(a[i], c) {
        assert Matches(a[i], b);
        var j :| 0 <= j < |b| && a[i].key == b[j].key && Same(a[i].value, b[j].value);
        assert Matches(b[j], c);
        var k :| 0 <= k < |c| && b[j].key == c[k].key && Same(b[j].value, c[k].value);
        SameIsTransitive(a[i].value, b[j].value, c[k].value);
      }
      forall k | 0 <= k < |c| ensures MatchedBy(a, c[k]) {
        assert MatchedBy(b, c[k]);
        var j :| 0 <= j < |b| && b[j].key == c[k].key && Same(b[j].value, c[k].value);
        assert MatchedBy(a, b[j]);
        var i :| 0 <= i < |a| && a[i].key == b[j].key && Same(a[i].value, b[j].value);
        SameIsTransitive(a[i].value, b[j].value, c[k].value);
      }
    }
  }

  // ----- stability -----

  /** The members whose keys have the given weight, in order. */
  function OfWeight(members: seq<Member<Value>>, order: Collation, weight: real): seq<Member<Value>> {
    if members == [] then []
    else (if order(members[0].key) == weight then [members[0]] else []) + OfWeight(members[1..], order, weight)
  }

  lemma {:induction false} OfWeightAppends(a: seq<Member<Value>>, b: seq<Member<Value>>, order: Collation, weight: real)
    ensures OfWeight(a + b, order, weight) == OfWeight(a, order, weight) + OfWeight(b, order, weight)
    decreases |a|
  {
    if a == [] {
      assert a + b == b;
    } else {
      OfWeightAppends(a[1..], b, order, weight);
      Joined(if order(a[0].key) == weight then [a[0]] else [], OfWeight(a[1..], order, weight), OfWeight(b, order, weight));
      assert (a + b)[1..] == a[1..] + b;
    }
  }

  lemma Joined(a: seq<Member<Value>>, b: seq<Member<Value>>, c: seq<Member<Value>>)
    ensures a + (b + c) == a + b + c
  {
  }

  lemma {:induction false} InsertIsStable(m: Member<Value>, sorted: seq<Member<Value>>, order: Collation, weight: real)
    ensures OfWeight(Insert(m, sorted, order), order, weight) == OfWeight([m] + sorted, order, weight)
    decreases |sorted|
  {
    assert ([m] + sorted)[1..] == sorted;
    if sorted != [] && order(m.key) > order(sorted[0].key) {
      InsertIsStable(m, sorted[1..], order, weight);
      assert Insert(m, sorted, order)[1..] == Insert(m, sorted[1..], order);
      assert ([m] + sorted[1..])[1..] == sorted[1..];
    }
  }

  /** Sorting leaves members of equal weight in the order they were given. */
  lemma {:induction false} SortIsStable(members: seq<Member<Value>>, order: Collation, weight: real)
    ensures OfWeight(Sort(members, order), order, weight) == OfWeight(members, order, weight)
    decreases |members|
  {
    if members != [] {
      var tail := Sort(members[1..], order);
      SortIsStable(members[1..], order, weight);
      InsertIsStable(members[0], tail, order, weight);
      assert ([members[0]] + tail)[1..] == tail;
    }
  }

  /** Sequences that agree up to a place, and there differ in members of one weight, sort differently. */
  lemma {:induction false} FirstTieDecides(c: seq<Member<Value>>, d: seq<Member<Value>>, order: Collation, i: nat)
    requires i < |c| && i < |d| && c[..i] == d[..i] && c[i] != d[i] && order(c[i].key) == order(d[i].key)
    ensures Sort(c, order) != Sort(d, order)
  {
    var weight := order(c[i].key);
    SortIsStable(c, order, weight);
    SortIsStable(d, order, weight);
    var before := OfWeight(c[..i], order, weight);
    assert c == c[..i] + c[i..] && d == d[..i] + d[i..];
    OfWeightAppends(c[..i], c[i..], order, weight);
    OfWeightAppends(d[..i], d[i..], order, weight);
    assert OfWeight(c, order, weight)[|before|] == c[i];
    assert OfWeight(d, order, weight)[|before|] == d[i];
  }

  // ----- swapping two members -----

  function Swapped(members: seq<Member<Value>>, i: nat, j: nat): seq<Member<Value>>
    requires i < j < |members|
  {
    members[i := members[j]][j := members[i]]
  }

  /** Where a member of the swapped sequence came from. */
  function Origin(i: nat, j: nat, k: nat): nat {
    if k == i then j else if k == j then i else k
  }

  lemma SwappedFrom(members: seq<Member<Value>>, i: nat, j: nat, k: nat)
    requires i < j < |members| && k < |members|
    ensures Origin(i, j, k) < |members| && Origin(i, j, Origin(i, j, k)) == k
    ensures Swapped(members, i, j)[k] == members[Origin(i, j, k)]
    ensures Swapped(members, i, j)[Origin(i, j, k)] == members[k]
  {
  }

  lemma SwappedIsWellFormed(members: seq<Member<Value>>, i: nat, j: nat)
    requires i < j < |members| && WellFormed(Obj(members))
    ensures WellFormed(Obj(Swapped(members, i, j)))
  {
    var swapped := Swapped(members, i, j);
    MembersWellFormedAt(members);
    MembersWellFormedAt(swapped);
    forall k | 0 <= k < |swapped| ensures WellFormed(swapped[k].value) {
      SwappedFrom(members, i, j, k);
    }
    forall k, l | 0 <= k < l < |swapped| ensures swapped[k].key != swapped[l].key {
      SwappedFrom(members, i, j, k);
      SwappedFrom(members, i, j, l);
      assert Origin(i, j, k) != Origin(i, j, l);
    }
  }

  lemma {:induction false} FoundAt(m: Member<Value>, members: seq<Member<Value>>, k: nat)
    requires k < |members| && members[k].key == m.key
    ensures Same(m.value, members[k].value) ==> Matches(m, members)
    ensures Same(members[k].value, m.value) ==> MatchedBy(members, m)
  {
  }

  lemma SwappedIsSame(members: seq<Member<Value>>, i: nat, j: nat)
    requires i < j < |members|
    ensures Same(Obj(members), Obj(Swapped(members, i, j)))
  {
    var swapped := Swapped(members, i, j);
    forall k | 0 <= k < |members| ensures Matches(members[k], swapped) && MatchedBy(members, swapped[k]) {
      SwappedFrom(members, i, j, k);
      SameAsItself(members[k].value);
      SameAsItself(swapped[k].value);
      FoundAt(members[k], swapped, Origin(i, j, k));
      FoundAt(swapped[k], members, Origin(i, j, k));
    }
  }

  lemma SwappedTieSortsElsewhere(members: seq<Member<Value>>, i: nat, j: nat, order: Collation)
    requires i < j < |members| && members[i].key != members[j].key && order(members[i].key) == order(members[j].key)
    ensures Sorted(Obj(members), order) != Sorted(Obj(Swapped(members, i, j)), order)
  {
    var swapped := Swapped(members, i, j);
    var c, d := SortedMembers(members, order), SortedMembers(swapped, order);
    forall k | 0 <= k < i ensures c[k] == d[k] {
      SortedMembersAt(members, order, k);
      SortedMembersAt(swapped, order, k);
    }
    assert c[..i] == d[..i];
    assert c[i].key == members[i].key && d[i].key == members[j].key;
    FirstTieDecides(c, d, order, i);
  }

  // ----- replacing one part -----

  lemma {:induction false} AllWellFormedExactly(items: seq<Value>)
    ensures AllWellFormed(items) <==> forall i :: 0 <= i < |items| ==> WellFormed(items[i])
    decreases |items|
  {
    if items != [] {
      AllWellFormedExactly(items[1..]);
      assert forall i :: 1 <= i < |items| ==> items[i] == items[1..][i - 1];
    }
  }

  lemma ReplacedItem(items: seq<Value>, i: nat, w: Value, order: Collation)
    requires i < |items| && WellFormed(Arr(items)) && WellFormed(w) && Same(items[i], w)
    requires Sorted(items[i], order) != Sorted(w, order)
    ensures var v := Arr(items[i := w]);
      WellFormed(v) && Same(Arr(items), v) && Sorted(Arr(items), order) != Sorted(v, order)
  {
    var replaced := items[i := w];
    AllWellFormedExactly(items);
    AllWellFormedExactly(replaced);
    forall k | 0 <= k < |items| ensures Same(items[k], replaced[k]) {
      SameAsItself(items[k]);
    }
    SortedItemsAt(items, order, i);
    SortedItemsAt(replaced, order, i);
  }

  lemma ReplacedMemberIsWellFormed(members: seq<Member<Value>>, i: nat, w: Value)
    requires i < |members| && WellFormed(Obj(members)) && WellFormed(w)
    ensures WellFormed(Obj(members[i := Member(members[i].key, w)]))
  {
    MembersWellFormedAt(members);
    MembersWellFormedAt(members[i := Member(members[i].key, w)]);
  }

  lemma {:induction false} ReplacedMemberIsSame(members: seq<Member<Value>>, i: nat, w: Value)
    requires i < |members| && Same(members[i].value, w)
    ensures Same(Obj(members), Obj(members[i := Member(members[i].key, w)]))
  {
    var replaced := members[i := Member(members[i].key, w)];
    forall k | 0 <= k < |members| ensures Matches(members[k], replaced) && MatchedBy(members, replaced[k]) {
      SameAsItself(members[k].value);
      FoundAt(members[k], replaced, k);
      FoundAt(replaced[k], members, k);
    }
  }

  lemma ReplacedMemberSortsElsewhere(members: seq<Member<Value>>, i: nat, w: Value, order: Collation)
    requires i < |members| && DistinctKeys(members) && Sorted(members[i].value, order) != Sorted(w, order)
    ensures Sorted(Obj(members), order) != Sorted(Obj(members[i := Member(members[i].key, w)]), order)
  {
    var replaced := members[i := Member(members[i].key, w)];
    var c, d := SortedMembers(members, order), SortedMembers(replaced, order);
    SortedMembersAt(members, order, i);
    SortedMembersAt(replaced, order, i);
    if Sort(c, order) == Sort(d, order) {
      var k := Counterpart(d, c, order, i);
      assert false;
    }
  }

  // ----- the theorem -----

  /** The same value with some keys in another order and another text. */
  lemma {:induction false} TiedKeysShow(u: Value, order: Collation) returns (v: Value)
    requires WellFormed(u) && !Distinguishes(order, u)
    ensures WellFormed(v) && Same(u, v) && Sorted(u, order) != Sorted(v, order)
    decreases u
  {
    if u.Arr? {
      var i :| 0 <= i < |u.items| && !Distinguishes(order, u.items[i]);
      AllWellFormedAt(u.items, i);
      var w := TiedKeysShow(u.items[i], order);
      ReplacedItem(u.items, i, w, order);
      v := Arr(u.items[i := w]);
    } else if !KeysApart(u.members, order) {
      var i, j :| 0 <= i < |u.members| && 0 <= j < |u.members| && u.members[i].key != u.members[j].key
                  && order(u.members[i].key) == order(u.members[j].key);
      var k, l := if i < j then i else j, if i < j then j else i;
      SwappedIsWellFormed(u.members, k, l);
      SwappedIsSame(u.members, k, l);
      SwappedTieSortsElsewhere(u.members, k, l, order);
      v := Obj(Swapped(u.members, k, l));
    } else {
      var i :| 0 <= i < |u.members| && !Distinguishes(order, u.members[i].value);
      MembersWellFormedAt(u.members);
      var w := TiedKeysShow(u.members[i].value, order);
      ReplacedMemberIsWellFormed(u.members, i, w);
      ReplacedMemberIsSame(u.members, i, w);
      ReplacedMemberSortsElsewhere(u.members, i, w, order);
      v := Obj(u.members[i := Member(u.members[i].key, w)]);
    }
  }

  /** Whatever the order of its keys, at every depth, the value has one text. */
  ghost predicate HasOneText(u: Value, order: Collation) {
    forall v :: WellFormed(v) && Same(u, v) ==> Print(v, order) == Print(u, order)
  }

  /** The canonical text is independent of key order if and only if the collation tells all keys of one object apart. */
  lemma {:induction false} OneTextExactlyWhenKeysApart(u: Value, order: Collation)
    requires WellFormed(u)
    ensures HasOneText(u, order) <==> Distinguishes(order, u)
  {
    if Distinguishes(order, u) {
      forall v | WellFormed(v) && Same(u, v) ensures Print(v, order) == Print(u, order) {
        PrintIdentifiesValues(u, v, order);
      }
    } else {
      var v := TiedKeysShow(u, order);
      ParseUndoesPrint(u, order);
      ParseUndoesPrint(v, order);
      assert Print(v, order) != Print(u, order);
    }
  }
}
