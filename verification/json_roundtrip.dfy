/** Parsing undoes printing: whole values. */
module JsonRoundTrip {
  import opened Prelude
  import opened Json
  import opened JsonText

  predicate DistinctKeys<T>(members: seq<Member<T>>) {
    forall i, j :: 0 <= i < j < |members| ==> members[i].key != members[j].key
  }

  /** A value `JSON.stringify` can be given: finite numbers, and objects with one member per key. */
  predicate WellFormed(v: Value)
    decreases v, 1
  {
    match v
    case Number(numeral) => IsNumeral(numeral)
    case Arr(items) => AllWellFormed(items)
    case Obj(members) => DistinctKeys(members) && MembersWellFormed(members)
    case _ => true
  }

  predicate AllWellFormed(items: seq<Value>)
    decreases items, 0
  {
    items != [] ==> WellFormed(items[0]) && AllWellFormed(items[1..])
  }

  predicate MembersWellFormed(members: seq<Member<Value>>)
    decreases members, 0
  {
    members != [] ==> WellFormed(members[0].value) && MembersWellFormed(members[1..])
  }

  // ----- sorting at every depth, and printing without sorting -----

  function Sorted(v: Value, order: Collation): Value
    decreases v, 1
  {
    match v
    case Arr(items) => Arr(SortedItems(items, order))
    case Obj(members) => Obj(Sort(SortedMembers(members, order), order))
    case _ => v
  }

  function SortedItems(items: seq<Value>, order: Collation): (r: seq<Value>)
    ensures |r| == |items|
    decreases items, 0
  {
    if items == [] then [] else [Sorted(items[0], order)] + SortedItems(items[1..], order)
  }

  function SortedMembers(members: seq<Member<Value>>, order: Collation): (r: seq<Member<Value>>)
    ensures |r| == |members| && forall i :: 0 <= i < |members| ==> r[i].key == members[i].key
    decreases members, 0
  {
    if members == [] then []
    else [Member(members[0].key, Sorted(members[0].value, order))] + SortedMembers(members[1..], order)
  }

  function Plain(v: Value): string
    decreases v, 1
  {
    match v
    case Null => "null"
    case Bool(truth) => if truth then "true" else "false"
    case Number(numeral) => numeral
    case Str(text) => Quote(text)
    case Arr(items) => "[" + Join(PlainItems(items)) + "]"
    case Obj(members) => "{" + Join(Labelled(PlainMembers(members))) + "}"
  }

  function PlainItems(items: seq<Value>): seq<string>
    decreases items, 0
  {
    if items == [] then [] else [Plain(items[0])] + PlainItems(items[1..])
  }

  function PlainMembers(members: seq<Member<Value>>): seq<Member<string>>
    decreases members, 0
  {
    if members == [] then []
    else [Member(members[0].key, Plain(members[0].value))] + PlainMembers(members[1..])
  }

  lemma {:induction false} InsertIsNatural(m: Member<Value>, sorted: seq<Member<Value>>, order: Collation)
    ensures PlainMembers(Insert(m, sorted, order))
            == Insert(Member(m.key, Plain(m.value)), PlainMembers(sorted), order)
    decreases |sorted|
  {
    if sorted == [] || order(m.key) <= order(sorted[0].key) {
      assert ([m] + sorted)[1..] == sorted;
    } else {
      InsertIsNatural(m, sorted[1..], order);
      assert ([sorted[0]] + Insert(m, sorted[1..], order))[1..] == Insert(m, sorted[1..], order);
      assert PlainMembers(sorted)[1..] == PlainMembers(sorted[1..]);
    }
  }

  lemma {:induction false} SortIsNatural(members: seq<Member<Value>>, order: Collation)
    ensures PlainMembers(Sort(members, order)) == Sort(PlainMembers(members), order)
    decreases |members|
  {
    if members != [] {
      SortIsNatural(members[1..], order);
      InsertIsNatural(members[0], Sort(members[1..], order), order);
      assert PlainMembers(members)[1..] == PlainMembers(members[1..]);
    }
  }

  /** The canonical printer is sorting at every depth followed by plain printing. */
  lemma {:induction false} PrintSortsFirst(v: Value, order: Collation)
    ensures Print(v, order) == Plain(Sorted(v, order))
    decreases v, 1
  {
    match v
    case Arr(items) => PrintItemsSortsFirst(items, order);
    case Obj(members) =>
      PrintMembersSortsFirst(members, order);
      SortIsNatural(SortedMembers(members, order), order);
    case _ =>
  }

  lemma {:induction false} PrintItemsSortsFirst(items: seq<Value>, order: Collation)
    ensures PrintItems(items, order) == PlainItems(SortedItems(items, order))
    decreases items, 0
  {
    if items != [] {
      PrintSortsFirst(items[0], order);
      PrintItemsSortsFirst(items[1..], order);
      assert SortedItems(items, order)[1..] == SortedItems(items[1..], order);
    }
  }

  lemma {:induction false} PrintMembersSortsFirst(members: seq<Member<Value>>, order: Collation)
    ensures PrintMembers(members, order) == PlainMembers(SortedMembers(members, order))
    decreases members, 0
  {
    if members != [] {
      PrintSortsFirst(members[0].value, order);
      PrintMembersSortsFirst(members[1..], order);
      assert SortedMembers(members, order)[1..] == SortedMembers(members[1..], order);
    }
  }

  // ----- parsing what was printed plainly -----

  /** No printed value starts with space, a closing bracket or nothing. */
  lemma {:induction false} PlainStart(v: Value)
    requires WellFormed(v)
    ensures Plain(v) != "" && !IsSpace(Plain(v)[0]) && Plain(v)[0] != ']' && Plain(v)[0] != '}'
  {
    if v.Number? {
      NumeralChars(v.numeral);
    }
  }

  lemma NotLiteral(t: string, first: char)
    requires t != "" && t[0] == first && first != 'n' && first != 't' && first != 'f'
    ensures !StartsWith(t, "null") && !StartsWith(t, "true") && !StartsWith(t, "false")
  {
    assert |t| >= 4 ==> t[..4][0] == first;
    assert |t| >= 5 ==> t[..5][0] == first;
  }

  lemma {:induction false} LiteralsParse(v: Value, rest: string)
    requires v.Null? || v.Bool?
    ensures ParseValue(Plain(v) + rest) == Done(v, rest)
  {
    var s := Plain(v) + rest;
    assert SkipSpace(s) == s;
    if v.Null? {
      assert s[..4] == "null" && s[4..] == rest;
    } else if v.truth {
      assert s[..4] == "true" && s[4..] == rest;
      assert s[..4][0] == 't';
    } else {
      assert s[..5] == "false" && s[5..] == rest;
      assert s[..4][0] == 'f';
    }
  }

  lemma {:induction false} TextParses(text: string, rest: string)
    ensures ParseValue(Quote(text) + rest) == Done(Str(text), rest)
  {
    var s := Quote(text) + rest;
    NotLiteral(s, '"');
    assert s[1..] == Escape(text) + "\"" + rest;
    assert SkipSpace(s) == s;
    EscapedTextParses(text, rest);
  }

  lemma {:induction false} NumeralParses(numeral: string, rest: string)
    requires IsNumeral(numeral) && Ends(rest)
    ensures ParseValue(numeral + rest) == Done(Number(numeral), rest)
  {
    var s := numeral + rest;
    NumeralChars(numeral);
    NotLiteral(s, s[0]);
    NumeralIsTakenWhole(numeral, rest);
    assert s[0] == numeral[0] && SkipSpace(s) == s;
    assert s[..|numeral|] == numeral && s[|numeral|..] == rest;
  }

  lemma {:induction false} PlainParses(v: Value, rest: string)
    requires WellFormed(v) && Ends(rest)
    ensures ParseValue(Plain(v) + rest) == Done(v, rest)
    decreases v, 1
  {
    match v
    case Null => LiteralsParse(v, rest);
    case Bool(_) => LiteralsParse(v, rest);
    case Number(numeral) => NumeralParses(numeral, rest);
    case Str(text) => TextParses(text, rest);
    case Arr(items) => ArrParses(items, rest);
    case Obj(members) => ObjParses(members, rest);
  }

  /** A bracket opens an array, and a brace an object, unless it is closed at once. */
  lemma {:induction false} BracketOpens(s: string)
    requires |s| >= 2 && s[0] == '[' && !IsSpace(s[1]) && s[1] != ']' && ParseItems(s[1..]).Done?
    ensures ParseValue(s) == Done(Arr(ParseItems(s[1..]).value), ParseItems(s[1..]).rest)
  {
    NotLiteral(s, '[');
    assert SkipSpace(s) == s && SkipSpace(s[1..]) == s[1..];
  }

  lemma {:induction false} BraceOpens(s: string)
    requires |s| >= 2 && s[0] == '{' && !IsSpace(s[1]) && s[1] != '}' && ParseMembers(s[1..], []).Done?
    ensures ParseValue(s) == Done(Obj(ParseMembers(s[1..], []).value), ParseMembers(s[1..], []).rest)
  {
    NotLiteral(s, '{');
    assert SkipSpace(s) == s && SkipSpace(s[1..]) == s[1..];
  }

  lemma {:induction false} EmptyBracketsParse(rest: string)
    ensures ParseValue("[" + "]" + rest) == Done(Arr([]), rest)
  {
    var s := "[" + "]" + rest;
    NotLiteral(s, '[');
    assert SkipSpace(s) == s && s[1..] == "]" + rest && s[1..][1..] == rest;
  }

  lemma {:induction false} ArrText(items: seq<Value>, rest: string)
    requires items != [] && AllWellFormed(items)
    ensures var s := Plain(Arr(items)) + rest;
      |s| >= 2 && s[0] == '[' && !IsSpace(s[1]) && s[1] != ']' && s[1..] == Join(PlainItems(items)) + "]" + rest
  {
    ItemsStart(items);
    var body := Join(PlainItems(items));
    assert (Plain(Arr(items)) + rest)[1..] == body + "]" + rest;
  }

  lemma BraceComesOff(body: string, rest: string)
    requires body != ""
    ensures var s := "{" + body + "}" + rest;
      |s| >= 2 && s[0] == '{' && s[1] == body[0] && s[1..] == body + "}" + rest
  {
  }

  lemma ObjText(members: seq<Member<Value>>, rest: string)
    requires members != []
    ensures var s := Plain(Obj(members)) + rest;
      |s| >= 2 && s[0] == '{' && s[1] == '"' && s[1..] == MembersText(members, rest)
  {
    MembersStart(members);
    BraceComesOff(Join(Labelled(PlainMembers(members))), rest);
  }

  lemma {:induction false} ArrParses(items: seq<Value>, rest: string)
    requires AllWellFormed(items)
    ensures ParseValue(Plain(Arr(items)) + rest) == Done(Arr(items), rest)
    decreases items, 1
  {
    if items == [] {
      EmptyBracketsParse(rest);
    } else {
      PlainItemsParse(items, rest);
      ArrText(items, rest);
      BracketOpens(Plain(Arr(items)) + rest);
    }
  }

  lemma {:induction false} EmptyBracesParse(rest: string)
    ensures ParseValue("{" + "}" + rest) == Done(Obj([]), rest)
  {
    var s := "{" + "}" + rest;
    NotLiteral(s, '{');
    assert SkipSpace(s) == s && s[1..] == "}" + rest && s[1..][1..] == rest;
  }

  lemma {:induction false} ObjParses(members: seq<Member<Value>>, rest: string)
    requires DistinctKeys(members) && MembersWellFormed(members)
    ensures ParseValue(Plain(Obj(members)) + rest) == Done(Obj(members), rest)
    decreases members, 1
  {
    if members == [] {
      EmptyBracesParse(rest);
    } else {
      assert [] + members == members;
      PlainMembersParse([], members, rest);
      ObjText(members, rest);
      BraceOpens(Plain(Obj(members)) + rest);
    }
  }

  lemma {:induction false} ItemsStart(items: seq<Value>)
    requires items != [] && AllWellFormed(items)
    ensures Join(PlainItems(items)) != ""
    ensures !IsSpace(Join(PlainItems(items))[0]) && Join(PlainItems(items))[0] != ']'
  {
    PlainStart(items[0]);
    assert PlainItems(items)[0] == Plain(items[0]);
  }

  lemma {:induction false} MembersStart(members: seq<Member<Value>>)
    requires members != []
    ensures Join(Labelled(PlainMembers(members))) != "" && Join(Labelled(PlainMembers(members)))[0] == '"'
  {
    var head := Quote(members[0].key) + ":" + Plain(members[0].value);
    assert Labelled(PlainMembers(members))[0] == head && head[0] == '"';
  }

  /** Once the first item is parsed, the comma or the closing bracket decides. */
  lemma {:induction false} ItemsContinue(first: Value, s: string, after: string)
    requires ParseValue(s) == Done(first, after) && after != ""
    ensures after[0] == ']' ==> ParseItems(s) == Done([first], after[1..])
    ensures after[0] == ',' && ParseItems(after[1..]).Done? ==>
      var more := ParseItems(after[1..]);
      ParseItems(s) == Done([first] + more.value, more.rest)
  {
    if after[0] == ']' || after[0] == ',' {
      assert SkipSpace(after) == after;
    }
  }

  /** What follows the first item. */
  function AfterFirstItem(items: seq<Value>, rest: string): string
    requires items != []
  {
    if |items| == 1 then "]" + rest else "," + (Join(PlainItems(items[1..])) + "]" + rest)
  }

  lemma {:induction false} JoinedItems(items: seq<Value>)
    requires items != []
    ensures Join(PlainItems(items))
         == if |items| == 1 then Plain(items[0]) else Plain(items[0]) + "," + Join(PlainItems(items[1..]))
  {
    var parts := PlainItems(items);
    assert parts[1..] == PlainItems(items[1..]);
    if |items| == 1 {
      assert items[1..] == [] && |parts| == 1;
    } else {
      assert PlainItems(items[1..]) != [];
    }
  }

  lemma RegroupItems(a: string, b: string, c: string, d: string)
    ensures (a + b + c) + d == a + (b + (c + d))
  {
    assert (a + b + c) + d == a + (b + (c + d));
  }

  lemma {:induction false} FirstItemText(items: seq<Value>, rest: string)
    requires items != []
    ensures Join(PlainItems(items)) + "]" + rest == Plain(items[0]) + AfterFirstItem(items, rest)
  {
    JoinedItems(items);
    if |items| == 1 {
      assert Plain(items[0]) + "]" + rest == Plain(items[0]) + ("]" + rest);
    } else {
      RegroupItems(Plain(items[0]), ",", Join(PlainItems(items[1..])), "]");
      RegroupItems(Plain(items[0]), ",", Join(PlainItems(items[1..])) + "]", rest);
    }
  }

  lemma {:induction false} PlainItemsParse(items: seq<Value>, rest: string)
    requires items != [] && AllWellFormed(items)
    ensures ParseItems(Join(PlainItems(items)) + "]" + rest) == Done(items, rest)
    decreases items, 0
  {
    var s, after := Join(PlainItems(items)) + "]" + rest, AfterFirstItem(items, rest);
    FirstItemText(items, rest);
    PlainParses(items[0], after);
    if |items| == 1 {
      assert after[1..] == rest && items == [items[0]];
    } else {
      PlainItemsParse(items[1..], rest);
      assert after[1..] == Join(PlainItems(items[1..])) + "]" + rest && items == [items[0]] + items[1..];
    }
    ItemsContinue(items[0], s, after);
  }

  lemma {:induction false} PutFresh(members: seq<Member<Value>>, m: Member<Value>)
    requires forall i :: 0 <= i < |members| ==> members[i].key != m.key
    ensures Put(members, m) == members + [m]
    decreases |members|
  {
    if members != [] {
      PutFresh(members[1..], m);
      assert members == [members[0]] + members[1..];
    }
  }

  /** The text of the members from the first one to the closing brace and on. */
  function MembersText(members: seq<Member<Value>>, rest: string): string {
    Join(Labelled(PlainMembers(members))) + "}" + rest
  }

  /** What follows the value of the first member. */
  function AfterFirst(members: seq<Member<Value>>, rest: string): string
    requires members != []
  {
    if |members| == 1 then "}" + rest else "," + MembersText(members[1..], rest)
  }

  lemma {:induction false} JoinedMembers(members: seq<Member<Value>>)
    requires members != []
    ensures var head := Quote(members[0].key) + ":" + Plain(members[0].value);
      Join(Labelled(PlainMembers(members)))
      == if |members| == 1 then head else head + "," + Join(Labelled(PlainMembers(members[1..])))
  {
    var parts := Labelled(PlainMembers(members));
    assert PlainMembers(members)[1..] == PlainMembers(members[1..]);
    assert parts[0] == Quote(members[0].key) + ":" + Plain(members[0].value);
    assert parts[1..] == Labelled(PlainMembers(members[1..]));
    if |members| == 1 {
      assert members[1..] == [] && |parts| == 1;
    } else {
      assert PlainMembers(members[1..]) != [] && parts[1..] != [];
    }
  }

  lemma Regroup(a: string, b: string, c: string, d: string, e: string)
    ensures ((a + b + c) + d) + e == a + b + (c + (d + e))
  {
    assert ((a + b + c) + d) + e == a + b + (c + (d + e));
  }

  lemma FirstMemberText(members: seq<Member<Value>>, rest: string)
    requires members != []
    ensures MembersText(members, rest)
            == Quote(members[0].key) + ":" + (Plain(members[0].value) + AfterFirst(members, rest))
  {
    var a, c := Quote(members[0].key), Plain(members[0].value);
    JoinedMembers(members);
    if |members| == 1 {
      Regroup(a, ":", c, "}", rest);
    } else {
      var more := Join(Labelled(PlainMembers(members[1..])));
      assert ((a + ":" + c) + "," + more) + "}" + rest == ((a + ":" + c) + ",") + (more + "}" + rest);
      Regroup(a, ":", c, ",", more + "}" + rest);
    }
  }

  lemma KeyParses(key: string, tail: string)
    ensures var s := Quote(key) + ":" + tail;
      s[0] == '"' && SkipSpace(s) == s && ParseText(s[1..]) == Done(key, ":" + tail)
  {
    var s := Quote(key) + ":" + tail;
    EscapedTextParses(key, ":" + tail);
    assert s[1..] == Escape(key) + "\"" + (":" + tail);
  }

  lemma {:induction false} MemberParses(m: Member<Value>, after: string)
    requires ParseValue(Plain(m.value) + after) == Done(m.value, after)
    ensures ParseMember(Quote(m.key) + ":" + (Plain(m.value) + after)) == Done(m, after)
  {
    var tail := Plain(m.value) + after;
    KeyParses(m.key, tail);
    var colon := ":" + tail;
    assert SkipSpace(colon) == colon && colon[1..] == tail;
  }

  /** Once the first member is parsed, the comma or the closing brace decides. */
  lemma {:induction false} MembersContinue(before: seq<Member<Value>>, m: Member<Value>, s: string, after: string)
    requires ParseMember(s) == Done(m, after)
    requires forall i :: 0 <= i < |before| ==> before[i].key != m.key
    requires after != "" && (after[0] == '}' || after[0] == ',')
    ensures after[0] == '}' ==> ParseMembers(s, before) == Done(before + [m], after[1..])
    ensures after[0] == ',' ==> ParseMembers(s, before) == ParseMembers(after[1..], before + [m])
  {
    PutFresh(before, m);
    assert SkipSpace(after) == after;
  }

  lemma {:induction false} FirstMemberParses(before: seq<Member<Value>>, members: seq<Member<Value>>, rest: string)
    requires members != [] && forall i :: 0 <= i < |before| ==> before[i].key != members[0].key
    requires
      var after := AfterFirst(members, rest);
      ParseValue(Plain(members[0].value) + after) == Done(members[0].value, after)
    ensures ParseMembers(MembersText(members, rest), before)
         == if |members| == 1 then Done(before + [members[0]], rest)
            else ParseMembers(MembersText(members[1..], rest), before + [members[0]])
  {
    var m, after := members[0], AfterFirst(members, rest);
    FirstMemberText(members, rest);
    MemberParses(m, after);
    MembersContinue(before, m, MembersText(members, rest), after);
    assert after[1..] == if |members| == 1 then rest else MembersText(members[1..], rest);
  }

  lemma HeadMoves(before: seq<Member<Value>>, members: seq<Member<Value>>)
    requires members != [] && DistinctKeys(before + members)
    ensures forall i :: 0 <= i < |before| ==> before[i].key != members[0].key
    ensures (before + [members[0]]) + members[1..] == before + members
    ensures |members| == 1 ==> before + [members[0]] == before + members
  {
    forall i | 0 <= i < |before| ensures before[i].key != members[0].key {
      assert (before + members)[i].key != (before + members)[|before|].key;
    }
  }

  lemma {:induction false} PlainMembersParse(before: seq<Member<Value>>, members: seq<Member<Value>>, rest: string)
    requires members != [] && MembersWellFormed(members) && DistinctKeys(before + members)
    ensures ParseMembers(MembersText(members, rest), before) == Done(before + members, rest)
    decreases members, 0
  {
    HeadMoves(before, members);
    PlainParses(members[0].value, AfterFirst(members, rest));
    FirstMemberParses(before, members, rest);
    if |members| > 1 {
      PlainMembersParse(before + [members[0]], members[1..], rest);
    }
  }

  // ----- sorting keeps values well formed -----

  /** `b` holds exactly the members of `a`. */
  predicate SameMembers(a: seq<Member<Value>>, b: seq<Member<Value>>) {
    |a| == |b| && (forall m :: m in a ==> m in b) && (forall m :: m in b ==> m in a)
  }

  lemma {:induction false} InsertKeepsMembers(m: Member<Value>, sorted: seq<Member<Value>>, order: Collation)
    ensures |Insert(m, sorted, order)| == |sorted| + 1
    ensures forall x :: x in Insert(m, sorted, order) <==> x == m || x in sorted
    decreases |sorted|
  {
    if sorted != [] && order(m.key) > order(sorted[0].key) {
      InsertKeepsMembers(m, sorted[1..], order);
      assert forall x :: x in sorted <==> x == sorted[0] || x in sorted[1..];
    }
  }

  predicate KeyIsNew(key: string, members: seq<Member<Value>>) {
    forall i :: 0 <= i < |members| ==> members[i].key != key
  }

  lemma {:induction false} InsertKeepsKeysDistinct(m: Member<Value>, sorted: seq<Member<Value>>, order: Collation)
    requires DistinctKeys(sorted) && KeyIsNew(m.key, sorted)
    ensures DistinctKeys(Insert(m, sorted, order))
    decreases |sorted|
  {
    if sorted != [] && order(m.key) > order(sorted[0].key) {
      InsertKeepsKeysDistinct(m, sorted[1..], order);
      InsertKeepsMembers(m, sorted[1..], order);
      var tail := Insert(m, sorted[1..], order);
      forall k | 0 <= k < |tail| ensures tail[k].key != sorted[0].key {
        assert tail[k] in tail;
        assert tail[k] == m || tail[k] in sorted[1..];
      }
    }
  }

  lemma {:induction false} SortKeepsMembers(members: seq<Member<Value>>, order: Collation)
    ensures SameMembers(members, Sort(members, order))
    ensures DistinctKeys(members) ==> DistinctKeys(Sort(members, order))
    decreases |members|
  {
    if members != [] {
      var tail := Sort(members[1..], order);
      SortKeepsMembers(members[1..], order);
      InsertKeepsMembers(members[0], tail, order);
      assert forall x :: x in members <==> x == members[0] || x in members[1..];
      forall x | x in Sort(members, order) ensures x in members {
        assert x == members[0] || x in tail;
      }
      forall x | x in members ensures x in Sort(members, order) {
        assert x == members[0] || x in tail;
      }
      if DistinctKeys(members) {
        forall i | 0 <= i < |tail| ensures tail[i].key != members[0].key {
          assert tail[i] in members[1..];
        }
        InsertKeepsKeysDistinct(members[0], tail, order);
      }
    }
  }

  lemma {:induction false} MembersWellFormedAt(members: seq<Member<Value>>)
    ensures MembersWellFormed(members) <==> forall i :: 0 <= i < |members| ==> WellFormed(members[i].value)
    decreases |members|
  {
    if members != [] {
      MembersWellFormedAt(members[1..]);
      assert forall i :: 1 <= i < |members| ==> members[i] == members[1..][i - 1];
    }
  }

  lemma {:induction false} SortedIsWellFormed(v: Value, order: Collation)
    requires WellFormed(v)
    ensures WellFormed(Sorted(v, order))
    decreases v, 1
  {
    match v
    case Arr(items) => SortedItemsAreWellFormed(items, order);
    case Obj(members) =>
      var inner := SortedMembers(members, order);
      SortedMembersAreWellFormed(members, order);
      SortKeepsMembers(inner, order);
      MembersWellFormedAt(inner);
      MembersWellFormedAt(Sort(inner, order));
      forall i | 0 <= i < |inner| ensures WellFormed(Sort(inner, order)[i].value) {
        assert Sort(inner, order)[i] in inner;
      }
    case _ =>
  }

  lemma {:induction false} SortedItemsAreWellFormed(items: seq<Value>, order: Collation)
    requires AllWellFormed(items)
    ensures AllWellFormed(SortedItems(items, order))
    decreases items, 0
  {
    if items != [] {
      SortedIsWellFormed(items[0], order);
      SortedItemsAreWellFormed(items[1..], order);
      assert SortedItems(items, order)[1..] == SortedItems(items[1..], order);
    }
  }

  lemma {:induction false} SortedMembersAreWellFormed(members: seq<Member<Value>>, order: Collation)
    requires MembersWellFormed(members)
    ensures MembersWellFormed(SortedMembers(members, order))
    decreases members, 0
  {
    if members != [] {
      SortedIsWellFormed(members[0].value, order);
      SortedMembersAreWellFormed(members[1..], order);
      assert SortedMembers(members, order)[1..] == SortedMembers(members[1..], order);
    }
  }

  /** Parsing the canonical text gives the value back with the keys of every object sorted. */
  lemma {:induction false} ParseUndoesPrint(v: Value, order: Collation)
    requires WellFormed(v)
    ensures Parse(Print(v, order)) == Some(Sorted(v, order))
  {
    PrintSortsFirst(v, order);
    SortedIsWellFormed(v, order);
    PlainParses(Sorted(v, order), "");
    assert Plain(Sorted(v, order)) + "" == Plain(Sorted(v, order));
  }
}
