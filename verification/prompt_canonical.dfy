/**
 `stableStringify`: objects are rebuilt with sorted keys, string values are normalised, and
 `JSON.stringify` prints the result. An object lists its array indices first, ascending, and
 its other keys in the order they were added (ECMAScript, OrdinaryOwnPropertyKeys). The
 normal form NFC is a parameter.
 */
module PromptCanonical {
  import opened Prelude
  import opened Json
  import opened JsonRoundTrip
  import opened JsonOrder
  import opened JsonIndependence
  import opened Numerals

  type NormalForm = string -> string

  /** String values in normal form; keys are left alone, as in the source. */
  function Normalised(v: Value, nfc: NormalForm): Value
    decreases v, 1
  {
    match v
    case Str(text) => Str(nfc(text))
    case Arr(items) => Arr(NormalisedItems(items, nfc))
    case Obj(members) => Obj(NormalisedMembers(members, nfc))
    case _ => v
  }

  function NormalisedItems(items: seq<Value>, nfc: NormalForm): seq<Value>
    decreases items, 0
  {
    if items == [] then [] else [Normalised(items[0], nfc)] + NormalisedItems(items[1..], nfc)
  }

  function NormalisedMembers(members: seq<Member<Value>>, nfc: NormalForm): (r: seq<Member<Value>>)
    ensures |r| == |members| && forall i :: 0 <= i < |members| ==> r[i].key == members[i].key
    decreases members, 0
  {
    if members == [] then []
    else [Member(members[0].key, Normalised(members[0].value, nfc))] + NormalisedMembers(members[1..], nfc)
  }

  /** `canonicalize` works bottom up in one pass: values are rebuilt, then their object is sorted. */
  function Canonicalize(v: Value, order: Collation, nfc: NormalForm): Value
    decreases v, 1
  {
    match v
    case Str(text) => Str(nfc(text))
    case Arr(items) => Arr(CanonicalItems(items, order, nfc))
    case Obj(members) => Obj(Sort(CanonicalMembers(members, order, nfc), order))
    case _ => v
  }

  function CanonicalItems(items: seq<Value>, order: Collation, nfc: NormalForm): seq<Value>
    decreases items, 0
  {
    if items == [] then [] else [Canonicalize(items[0], order, nfc)] + CanonicalItems(items[1..], order, nfc)
  }

  function CanonicalMembers(members: seq<Member<Value>>, order: Collation, nfc: NormalForm): seq<Member<Value>>
    decreases members, 0
  {
    if members == [] then []
    else [Member(members[0].key, Canonicalize(members[0].value, order, nfc))] + CanonicalMembers(members[1..], order, nfc)
  }

  // ----- property order -----

  const MAX_ARRAY_INDEX := 4_294_967_294

  predicate IsArrayIndex(key: string) {
    && key != "" && (forall i :: 0 <= i < |key| ==> IsDigit(key[i]))
    && (key[0] == '0' ==> key == "0") && Read(key) <= MAX_ARRAY_INDEX
  }

  /** As a weight: a stable sort by it is the order in which an object lists its keys. */
  function PropertyOrder(key: string): real {
    if IsArrayIndex(key) then Read(key) as real else MAX_ARRAY_INDEX as real + 1.0
  }

  lemma DecimalOfTen(n: nat, digit: nat)
    requires n > 0 && digit < 10
    ensures Decimal(n * 10 + digit) == Decimal(n) + [DIGITS[digit]]
  {
  }

  lemma {:induction false} ReadOfAppend(front: string, last: char)
    requires IsDigit(last)
    ensures Read(front + [last]) == Read(front) * 10 + (last as int - '0' as int)
    ensures DIGITS[last as int - '0' as int] == last
  {
    assert (front + [last])[..|front|] == front;
  }

  lemma OneDigit(last: char)
    requires IsDigit(last)
    ensures Read([last]) == last as int - '0' as int && Decimal(Read([last])) == [last]
  {
    ReadOfAppend("", last);
    assert "" + [last] == [last];
  }

  lemma {:induction false} OneMoreDigit(front: string, last: char)
    requires IsDigit(last) && Read(front) > 0 && Decimal(Read(front)) == front
    ensures var n := Read(front + [last]); n > 0 && Decimal(n) == front + [last]
  {
    ReadOfAppend(front, last);
    DecimalOfTen(Read(front), last as int - '0' as int);
  }

  lemma {:induction false} DecimalUndoesRead(key: string)
    requires key != "" && (forall i :: 0 <= i < |key| ==> IsDigit(key[i])) && (key[0] == '0' ==> |key| == 1)
    ensures Decimal(Read(key)) == key && (key[0] != '0' ==> Read(key) > 0)
    decreases |key|
  {
    var front, last := key[..|key| - 1], key[|key| - 1];
    if |key| == 1 {
      OneDigit(last);
      assert key == [last];
    } else {
      DecimalUndoesRead(front);
      OneMoreDigit(front, last);
      assert key == front + [last];
    }
  }

  /** An array index is the decimal text of a number below 2^32 - 1. */
  lemma {:induction false} ArrayIndicesAreDecimals(key: string)
    ensures IsArrayIndex(key) <==> exists n: nat :: n < 4_294_967_295 && key == Decimal(n)
  {
    if IsArrayIndex(key) {
      DecimalUndoesRead(key);
      assert Read(key) < 4_294_967_295;
    }
    if n: nat :| n < 4_294_967_295 && key == Decimal(n) {
      ReadUndoesDecimal(n);
    }
  }

  /** Indices come by their number and before the other keys, which are tied and so stay as they were added. */
  lemma {:induction false} IndicesComeFirst(m: nat, n: nat, key: string, other: string)
    requires m < 4_294_967_295 && n < 4_294_967_295 && !IsArrayIndex(key) && !IsArrayIndex(other)
    ensures PropertyOrder(Decimal(m)) < PropertyOrder(Decimal(n)) <==> m < n
    ensures PropertyOrder(Decimal(m)) < PropertyOrder(key) == PropertyOrder(other)
  {
    ReadUndoesDecimal(m);
    ReadUndoesDecimal(n);
    ArrayIndicesAreDecimals(Decimal(m));
    ArrayIndicesAreDecimals(Decimal(n));
  }

  function StableStringify(v: Value, order: Collation, nfc: NormalForm): string {
    Plain(Sorted(Canonicalize(v, order, nfc), PropertyOrder))
  }

  /** Every object has its members in the given order. */
  predicate InOrder(v: Value, order: Collation)
    decreases v
  {
    match v
    case Arr(items) => forall i :: 0 <= i < |items| ==> InOrder(items[i], order)
    case Obj(members) =>
      && Ascending(members, order)
      && forall i :: 0 <= i < |members| ==> InOrder(members[i].value, order)
    case _ => true
  }

  lemma {:induction false} SortedKeepsAscending(members: seq<Member<Value>>, order: Collation)
    ensures Ascending(members, order) ==> Sort(SortedMembers(members, order), order) == SortedMembers(members, order)
    ensures Sort(SortedMembers(members, order), order) == members ==> Ascending(members, order)
  {
    var inner := SortedMembers(members, order);
    SortAscends(inner, order);
    if Ascending(members, order) {
      forall i, j | 0 <= i < j < |inner| ensures order(inner[i].key) <= order(inner[j].key) {
        assert inner[i].key == members[i].key && inner[j].key == members[j].key;
      }
      SortOfAscending(inner, order);
    }
  }

  /** Sorting changes exactly the values that have an object out of order. */
  lemma {:induction false} SortedIsItselfExactly(v: Value, order: Collation)
    ensures Sorted(v, order) == v <==> InOrder(v, order)
    decreases v
  {
    match v
    case Arr(items) =>
      forall i | 0 <= i < |items| ensures SortedItems(items, order)[i] == items[i] <==> InOrder(items[i], order) {
        SortedItemsAt(items, order, i);
        SortedIsItselfExactly(items[i], order);
      }
    case Obj(members) =>
      var inner := SortedMembers(members, order);
      SortedKeepsAscending(members, order);
      forall i | 0 <= i < |members| ensures inner[i] == members[i] <==> InOrder(members[i].value, order) {
        SortedMembersAt(members, order, i);
        SortedIsItselfExactly(members[i].value, order);
      }
    case _ =>
  }

  lemma {:induction false} OnePassIsTwo(v: Value, order: Collation, nfc: NormalForm)
    ensures Canonicalize(v, order, nfc) == Sorted(Normalised(v, nfc), order)
    decreases v, 1
  {
    match v
    case Arr(items) => OnePassIsTwoItems(items, order, nfc);
    case Obj(members) => OnePassIsTwoMembers(members, order, nfc);
    case _ =>
  }

  lemma {:induction false} OnePassIsTwoItems(items: seq<Value>, order: Collation, nfc: NormalForm)
    ensures CanonicalItems(items, order, nfc) == SortedItems(NormalisedItems(items, nfc), order)
    decreases items, 0
  {
    if items != [] {
      OnePassIsTwo(items[0], order, nfc);
      OnePassIsTwoItems(items[1..], order, nfc);
      assert NormalisedItems(items, nfc)[1..] == NormalisedItems(items[1..], nfc);
    }
  }

  lemma {:induction false} OnePassIsTwoMembers(members: seq<Member<Value>>, order: Collation, nfc: NormalForm)
    ensures CanonicalMembers(members, order, nfc) == SortedMembers(NormalisedMembers(members, nfc), order)
    decreases members, 0
  {
    if members != [] {
      OnePassIsTwo(members[0].value, order, nfc);
      OnePassIsTwoMembers(members[1..], order, nfc);
      assert NormalisedMembers(members, nfc)[1..] == NormalisedMembers(members[1..], nfc);
    }
  }

  lemma {:induction false} NormalisedIsWellFormed(v: Value, nfc: NormalForm)
    requires WellFormed(v)
    ensures WellFormed(Normalised(v, nfc))
    decreases v, 1
  {
    match v
    case Arr(items) => NormalisedItemsAreWellFormed(items, nfc);
    case Obj(members) => NormalisedMembersAreWellFormed(members, nfc);
    case _ =>
  }

  lemma {:induction false} NormalisedItemsAreWellFormed(items: seq<Value>, nfc: NormalForm)
    requires AllWellFormed(items)
    ensures AllWellFormed(NormalisedItems(items, nfc))
    decreases items, 0
  {
    if items != [] {
      NormalisedIsWellFormed(items[0], nfc);
      NormalisedItemsAreWellFormed(items[1..], nfc);
      assert NormalisedItems(items, nfc)[1..] == NormalisedItems(items[1..], nfc);
    }
  }

  lemma {:induction false} NormalisedMembersAreWellFormed(members: seq<Member<Value>>, nfc: NormalForm)
    requires MembersWellFormed(members)
    ensures MembersWellFormed(NormalisedMembers(members, nfc))
    decreases members, 0
  {
    if members != [] {
      NormalisedIsWellFormed(members[0].value, nfc);
      NormalisedMembersAreWellFormed(members[1..], nfc);
      assert NormalisedMembers(members, nfc)[1..] == NormalisedMembers(members[1..], nfc);
    }
  }

  lemma {:induction false} PlainIsInjective(u: Value, v: Value)
    requires WellFormed(u) && WellFormed(v) && Plain(u) == Plain(v)
    ensures u == v
  {
    PlainParses(u, "");
    PlainParses(v, "");
    assert Plain(u) + "" == Plain(u) && Plain(v) + "" == Plain(v);
  }

  lemma {:induction false} SameAsSorted(v: Value, order: Collation)
    ensures Same(v, Sorted(v, order)) && Same(Sorted(v, order), v)
  {
    SortedTwice(v, order);
    SortedAlikeIsSame(v, Sorted(v, order), order);
    SortedAlikeIsSame(Sorted(v, order), v, order);
  }

  /** Values that are the same once their keys are listed by one order after another are the same. */
  lemma {:induction false} RelistedAlikeIsSame(u: Value, v: Value, order: Collation)
    requires Sorted(Sorted(u, order), PropertyOrder) == Sorted(Sorted(v, order), PropertyOrder)
    ensures Same(u, v)
  {
    var a, b := Sorted(u, order), Sorted(v, order);
    SortedAlikeIsSame(a, b, PropertyOrder);
    SameAsSorted(u, order);
    SameAsSorted(v, order);
    SameIsTransitive(u, a, b);
    SameIsTransitive(u, b, v);
  }

  lemma {:induction false} StableTextIsRelisted(v: Value, order: Collation, nfc: NormalForm)
    requires WellFormed(v)
    ensures var sorted := Sorted(Normalised(v, nfc), order);
      && WellFormed(sorted) && WellFormed(Sorted(sorted, PropertyOrder))
      && StableStringify(v, order, nfc) == Plain(Sorted(sorted, PropertyOrder))
  {
    OnePassIsTwo(v, order, nfc);
    NormalisedIsWellFormed(v, nfc);
    SortedIsWellFormed(Normalised(v, nfc), order);
    SortedIsWellFormed(Sorted(Normalised(v, nfc), order), PropertyOrder);
  }

  /**
   Equal cached prompt prefixes come from values that are the same up to key order and the
   normal form of their strings, whatever the collation; the converse holds when it tells the
   keys of one object apart.
   */
  lemma {:induction false} StableTextIdentifiesValues(u: Value, v: Value, order: Collation, nfc: NormalForm)
    requires WellFormed(u) && WellFormed(v)
    ensures var same := Same(Normalised(u, nfc), Normalised(v, nfc));
      && (StableStringify(u, order, nfc) == StableStringify(v, order, nfc) ==> same)
      && (same && Distinguishes(order, Normalised(u, nfc)) ==>
        StableStringify(u, order, nfc) == StableStringify(v, order, nfc))
  {
    StableTextIsRelisted(u, order, nfc);
    StableTextIsRelisted(v, order, nfc);
    var a, b := Normalised(u, nfc), Normalised(v, nfc);
    if StableStringify(u, order, nfc) == StableStringify(v, order, nfc) {
      PlainIsInjective(Sorted(Sorted(a, order), PropertyOrder), Sorted(Sorted(b, order), PropertyOrder));
      RelistedAlikeIsSame(a, b, order);
    }
    if Same(a, b) && Distinguishes(order, a) {
      NormalisedIsWellFormed(u, nfc);
      NormalisedIsWellFormed(v, nfc);
      SameSortsAlike(a, b, order);
    }
  }

  /**
   The stable text is the canonical text reports print if and only if sorting by the collation
   already leaves every object's array indices first and ascending, as with no such keys.
   */
  lemma {:induction false} StableTextIsCanonicalExactly(v: Value, order: Collation, nfc: NormalForm)
    requires WellFormed(v)
    ensures StableStringify(v, order, nfc) == Print(Normalised(v, nfc), order)
            <==> InOrder(Sorted(Normalised(v, nfc), order), PropertyOrder)
  {
    var sorted := Sorted(Normalised(v, nfc), order);
    StableTextIsRelisted(v, order, nfc);
    PrintSortsFirst(Normalised(v, nfc), order);
    SortedIsItselfExactly(sorted, PropertyOrder);
    if StableStringify(v, order, nfc) == Print(Normalised(v, nfc), order) {
      PlainIsInjective(Sorted(sorted, PropertyOrder), sorted);
    }
  }
}
