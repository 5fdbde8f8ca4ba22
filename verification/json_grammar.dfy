/**
 The grammar of RFC 8259, sections 2 to 7, as texts that are written out of their parts:
 spaces wherever they may stand, and every way to spell a character of a string. The parser
 accepts exactly these texts, and gives each the value it means.
 */
module JsonGrammar {
  import opened Prelude
  import opened Json
  import opened JsonText
  import JsonRoundTrip

  // ----- characters and strings -----

  /** A character as itself, by a letter behind a backslash, or by four hexadecimal digits. */
  datatype CharText = Raw(c: char) | Escaped(letter: char) | Coded(digits: string)

  predicate IsHex(digits: string) {
    |digits| == 4 && forall i :: 0 <= i < 4 ==> HexValue(digits[i]).Some?
  }

  function Code(digits: string): int
    requires IsHex(digits)
  {
    ((HexValue(digits[0]).value * 16 + HexValue(digits[1]).value) * 16 + HexValue(digits[2]).value) * 16
    + HexValue(digits[3]).value
  }

  /** Control characters, quotes and backslashes do not stand for themselves; halves of surrogate pairs are left out. */
  predicate IsCharText(t: CharText) {
    match t
    case Raw(c) => (c as int) >= 32 && c != '"' && c != '\\'
    case Escaped(letter) => letter in {'"', '\\', '/', 'b', 'f', 'n', 'r', 't'}
    case Coded(digits) => IsHex(digits) && !(0xD800 <= Code(digits) < 0xE000)
  }

  lemma CodeIsSmall(digits: string)
    requires IsHex(digits)
    ensures 0 <= Code(digits) < 0x10000
  {
    assert forall i :: 0 <= i < 4 ==> 0 <= HexValue(digits[i]).value < 16;
  }

  function CharMeant(t: CharText): char
    requires IsCharText(t)
  {
    match t
    case Raw(c) => c
    case Escaped(letter) =>
      if letter == 'b' then 8 as char
      else if letter == 't' then 9 as char
      else if letter == 'n' then 10 as char
      else if letter == 'f' then 12 as char
      else if letter == 'r' then 13 as char
      else letter
    case Coded(digits) => CodeIsSmall(digits); Code(digits) as char
  }

  function CharWritten(t: CharText): string {
    match t
    case Raw(c) => [c]
    case Escaped(letter) => ['\\', letter]
    case Coded(digits) => ['\\', 'u'] + digits
  }

  predicate AreCharTexts(ts: seq<CharText>) {
    forall i :: 0 <= i < |ts| ==> IsCharText(ts[i])
  }

  function TextWritten(ts: seq<CharText>): string {
    if ts == [] then "" else CharWritten(ts[0]) + TextWritten(ts[1..])
  }

  function TextMeant(ts: seq<CharText>): string
    requires AreCharTexts(ts)
  {
    if ts == [] then "" else [CharMeant(ts[0])] + TextMeant(ts[1..])
  }

  // ----- values -----

  /** A value behind its spaces. */
  datatype Written = Written(space: string, core: Core)

  datatype Core =
    | Literal(name: string)
    | Numeral(numeral: string)
    | Quoted(chars: seq<CharText>)
    | NoItems(space: string)
    | Items(items: seq<Item>)
    | NoMembers(space: string)
    | Members(members: seq<MemberText>)

  /** An item or member with the spaces before the comma or bracket that follows. */
  datatype Item = Item(value: Written, after: string)

  datatype MemberText = MemberText(space: string, key: seq<CharText>, beforeColon: string, value: Written, after: string)

  predicate AreSpaces(s: string) {
    forall i :: 0 <= i < |s| ==> s[i] in {' ', '\t', '\n', '\r'}
  }

  predicate IsValue(w: Written)
    decreases w, 1
  {
    && AreSpaces(w.space)
    && match w.core
       case Literal(name) => name == "null" || name == "true" || name == "false"
       case Numeral(numeral) => IsNumeral(numeral)
       case Quoted(chars) => AreCharTexts(chars)
       case NoItems(space) => AreSpaces(space)
       case Items(items) => items != [] && AreItems(items)
       case NoMembers(space) => AreSpaces(space)
       case Members(members) => members != [] && AreMembers(members)
  }

  predicate AreItems(items: seq<Item>)
    decreases items, 0
  {
    items != [] ==> IsValue(items[0].value) && AreSpaces(items[0].after) && AreItems(items[1..])
  }

  predicate AreMembers(members: seq<MemberText>)
    decreases members, 0
  {
    members != [] ==>
      && AreSpaces(members[0].space) && AreCharTexts(members[0].key) && AreSpaces(members[0].beforeColon)
      && IsValue(members[0].value) && AreSpaces(members[0].after) && AreMembers(members[1..])
  }

  /** The text of a value, and what follows it. */
  function ValueText(w: Written, rest: string): string
    decreases w, 1
  {
    w.space + CoreText(w.core, rest)
  }

  function CoreText(core: Core, rest: string): string
    decreases core, 0
  {
    match core
    case Literal(name) => name + rest
    case Numeral(numeral) => numeral + rest
    case Quoted(chars) => "\"" + QuotedText(chars, rest)
    case NoItems(space) => "[" + (space + ("]" + rest))
    case Items(items) => "[" + ItemsText(items, rest)
    case NoMembers(space) => "{" + (space + ("}" + rest))
    case Members(members) => "{" + MembersText(members, rest)
  }

  /** Behind the opening quote. */
  function QuotedText(chars: seq<CharText>, rest: string): string {
    TextWritten(chars) + "\"" + rest
  }

  /** Behind the opening bracket. */
  function ItemsText(items: seq<Item>, rest: string): string
    decreases items, 0
  {
    if items == [] then "]" + rest
    else ValueText(items[0].value,
                   items[0].after + (if |items| == 1 then "]" + rest else "," + ItemsText(items[1..], rest)))
  }

  /** Behind the opening brace. */
  function MembersText(members: seq<MemberText>, rest: string): string
    decreases members, 0
  {
    if members == [] then "}" + rest
    else
      var m := members[0];
      var more := m.after + (if |members| == 1 then "}" + rest else "," + MembersText(members[1..], rest));
      m.space + ("\"" + QuotedText(m.key, m.beforeColon + (":" + ValueText(m.value, more))))
  }

  function Meant(w: Written): Value
    requires IsValue(w)
    decreases w, 1
  {
    match w.core
    case Literal(name) => if name == "null" then Null else Bool(name == "true")
    case Numeral(numeral) => Number(numeral)
    case Quoted(chars) => Str(TextMeant(chars))
    case NoItems(_) => Arr([])
    case Items(items) => Arr(ItemsMeant(items))
    case NoMembers(_) => Obj([])
    case Members(members) => Obj(MembersMeant(members, []))
  }

  function ItemsMeant(items: seq<Item>): seq<Value>
    requires AreItems(items)
    decreases items, 0
  {
    if items == [] then [] else [Meant(items[0].value)] + ItemsMeant(items[1..])
  }

  /** The last value of a repeated key stays, in the place of the first. */
  function MembersMeant(members: seq<MemberText>, before: seq<Member<Value>>): seq<Member<Value>>
    requires AreMembers(members)
    decreases members, 0
  {
    if members == [] then before
    else MembersMeant(members[1..], Put(before, Member(TextMeant(members[0].key), Meant(members[0].value))))
  }

  // ----- what is written is read -----

  lemma {:induction false} SpacesAreSkipped(space: string, rest: string)
    requires AreSpaces(space) && (rest == "" || !IsSpace(rest[0]))
    ensures SkipSpace(space + rest) == rest
    decreases |space|
  {
    if space == "" {
      assert space + rest == rest;
    } else {
      assert (space + rest)[1..] == space[1..] + rest;
      SpacesAreSkipped(space[1..], rest);
    }
  }

  lemma CodeIsRead(digits: string)
    requires IsHex(digits) && !(0xD800 <= Code(digits) < 0xE000)
    ensures FromHex(digits) == Some(CharMeant(Coded(digits)))
  {
    CodeIsSmall(digits);
  }

  lemma CharIsRead(t: CharText, rest: string)
    requires IsCharText(t)
    ensures CharWritten(t) != "" && CharWritten(t)[0] != '"'
    ensures ParseChar(CharWritten(t) + rest) == Done(CharMeant(t), rest)
  {
    var s := CharWritten(t) + rest;
    match t
    case Raw(c) =>
      assert s[1..] == rest;
    case Escaped(letter) =>
      assert s[2..] == rest;
    case Coded(digits) =>
      assert s[2..6] == digits && s[6..] == rest;
      CodeIsRead(digits);
  }

  lemma {:induction false} TextIsRead(ts: seq<CharText>, rest: string)
    requires AreCharTexts(ts)
    ensures ParseText(QuotedText(ts, rest)) == Done(TextMeant(ts), rest)
    decreases |ts|
  {
    var s := QuotedText(ts, rest);
    if ts == [] {
      assert s == "\"" + rest && s[1..] == rest;
    } else {
      var more := QuotedText(ts[1..], rest);
      assert s == CharWritten(ts[0]) + more;
      CharIsRead(ts[0], more);
      TextIsRead(ts[1..], rest);
      assert s[0] == CharWritten(ts[0])[0];
    }
  }

  /** Where a value may begin, after its spaces. */
  predicate Begins(s: string) {
    s != "" && !IsSpace(s[0]) && s[0] != ']' && s[0] != '}' && s[0] != ','
  }

  predicate IsCore(core: Core) {
    IsValue(Written("", core))
  }

  lemma {:induction false} CoreBegins(core: Core, rest: string)
    requires IsCore(core)
    ensures Begins(CoreText(core, rest))
  {
    if core.Numeral? {
      NumeralChars(core.numeral);
    }
  }

  lemma {:induction false} SpaceBeforeValue(space: string, t: string)
    requires AreSpaces(space) && t != "" && !IsSpace(t[0])
    ensures ParseValue(space + t) == ParseValue(t) && SkipSpace(t) == t
  {
    SpacesAreSkipped(space, t);
  }

  lemma {:induction false} AfterValue(space: string, more: string)
    requires AreSpaces(space) && more != "" && more[0] in {']', '}', ','}
    ensures Ends(space + more) && SkipSpace(space + more) == more
  {
    SpacesAreSkipped(space, more);
    if space != "" {
      assert (space + more)[0] == space[0];
    }
  }

  lemma {:induction false} LiteralIsRead(name: string, rest: string)
    requires name == "null" || name == "true" || name == "false"
    ensures ParseValue(name + rest) == Done(if name == "null" then Null else Bool(name == "true"), rest)
  {
    JsonRoundTrip.LiteralsParse(if name == "null" then Null else Bool(name == "true"), rest);
  }

  lemma {:induction false} QuotedIsRead(chars: seq<CharText>, rest: string)
    requires AreCharTexts(chars)
    ensures ParseValue("\"" + QuotedText(chars, rest)) == Done(Str(TextMeant(chars)), rest)
  {
    var s := "\"" + QuotedText(chars, rest);
    JsonRoundTrip.NotLiteral(s, '"');
    assert SkipSpace(s) == s && s[1..] == QuotedText(chars, rest);
    TextIsRead(chars, rest);
  }

  lemma {:induction false} NothingInside(open: char, space: string, close: char, rest: string)
    requires AreSpaces(space) && ((open == '[' && close == ']') || (open == '{' && close == '}'))
    ensures ParseValue([open] + (space + ([close] + rest))) == Done(if open == '[' then Arr([]) else Obj([]), rest)
  {
    var body := space + ([close] + rest);
    var s := [open] + body;
    JsonRoundTrip.NotLiteral(s, open);
    SpacesAreSkipped(space, [close] + rest);
    assert SkipSpace(s) == s && s[1..] == body && ([close] + rest)[1..] == rest;
  }

  lemma {:induction false} BracketOpens(body: string)
    requires SkipSpace(body) == "" || SkipSpace(body)[0] != ']'
    ensures ParseValue("[" + body)
         == match ParseItems(body) case Failed => Failed case Done(items, rest) => Done(Arr(items), rest)
  {
    var s := "[" + body;
    JsonRoundTrip.NotLiteral(s, '[');
    assert SkipSpace(s) == s && s[1..] == body;
  }

  lemma {:induction false} BraceOpens(body: string)
    requires SkipSpace(body) == "" || SkipSpace(body)[0] != '}'
    ensures ParseValue("{" + body)
         == match ParseMembers(body, []) case Failed => Failed case Done(members, rest) => Done(Obj(members), rest)
  {
    var s := "{" + body;
    JsonRoundTrip.NotLiteral(s, '{');
    assert SkipSpace(s) == s && s[1..] == body;
  }

  lemma {:induction false} FirstItemBegins(items: seq<Item>, rest: string)
    requires items != [] && AreItems(items)
    ensures SkipSpace(ItemsText(items, rest)) != "" && SkipSpace(ItemsText(items, rest))[0] != ']'
  {
    var more := items[0].after + (if |items| == 1 then "]" + rest else "," + ItemsText(items[1..], rest));
    CoreBegins(items[0].value.core, more);
    SpacesAreSkipped(items[0].value.space, CoreText(items[0].value.core, more));
  }

  lemma {:induction false} FirstMemberBegins(members: seq<MemberText>, rest: string)
    requires members != [] && AreMembers(members)
    ensures SkipSpace(MembersText(members, rest)) != "" && SkipSpace(MembersText(members, rest))[0] == '"'
  {
    var m := members[0];
    var more := m.after + (if |members| == 1 then "}" + rest else "," + MembersText(members[1..], rest));
    SpacesAreSkipped(m.space, "\"" + QuotedText(m.key, m.beforeColon + (":" + ValueText(m.value, more))));
  }

  lemma {:induction false} ValueIsRead(w: Written, rest: string)
    requires IsValue(w) && Ends(rest)
    ensures ParseValue(ValueText(w, rest)) == Done(Meant(w), rest)
    decreases w, 1
  {
    CoreBegins(w.core, rest);
    SpaceBeforeValue(w.space, CoreText(w.core, rest));
    match w.core
    case Literal(name) => LiteralIsRead(name, rest);
    case Numeral(numeral) => JsonRoundTrip.NumeralParses(numeral, rest);
    case Quoted(chars) => QuotedIsRead(chars, rest);
    case NoItems(space) => NothingInside('[', space, ']', rest);
    case Items(items) =>
      FirstItemBegins(items, rest);
      BracketOpens(ItemsText(items, rest));
      ItemsAreRead(items, rest);
    case NoMembers(space) => NothingInside('{', space, '}', rest);
    case Members(members) =>
      FirstMemberBegins(members, rest);
      BraceOpens(MembersText(members, rest));
      MembersAreRead(members, [], rest);
  }

  lemma {:induction false} ItemsGoOn(first: Value, s: string, after: string, more: string)
    requires ParseValue(s) == Done(first, after) && SkipSpace(after) == more && more != ""
    ensures more[0] == ']' ==> ParseItems(s) == Done([first], more[1..])
    ensures more[0] == ',' && ParseItems(more[1..]).Done? ==>
      ParseItems(s) == Done([first] + ParseItems(more[1..]).value, ParseItems(more[1..]).rest)
  {
  }

  lemma {:induction false} ItemsAreRead(items: seq<Item>, rest: string)
    requires items != [] && AreItems(items)
    ensures ParseItems(ItemsText(items, rest)) == Done(ItemsMeant(items), rest)
    decreases items, 0
  {
    var more := if |items| == 1 then "]" + rest else "," + ItemsText(items[1..], rest);
    AfterValue(items[0].after, more);
    ValueIsRead(items[0].value, items[0].after + more);
    if |items| > 1 {
      ItemsAreRead(items[1..], rest);
      assert more[1..] == ItemsText(items[1..], rest);
    } else {
      assert more[1..] == rest && items[1..] == [];
    }
    ItemsGoOn(Meant(items[0].value), ItemsText(items, rest), items[0].after + more, more);
    assert ItemsMeant(items) == [Meant(items[0].value)] + ItemsMeant(items[1..]);
    assert |items| == 1 ==> ItemsMeant(items) == [Meant(items[0].value)];
  }

  lemma {:induction false} MemberIsRead(m: MemberText, after: string)
    requires AreSpaces(m.space) && AreCharTexts(m.key) && AreSpaces(m.beforeColon) && IsValue(m.value)
    requires ParseValue(ValueText(m.value, after)) == Done(Meant(m.value), after)
    ensures ParseMember(m.space + ("\"" + QuotedText(m.key, m.beforeColon + (":" + ValueText(m.value, after)))))
         == Done(Member(TextMeant(m.key), Meant(m.value)), after)
  {
    var value := ValueText(m.value, after);
    var colon := m.beforeColon + (":" + value);
    var quoted := "\"" + QuotedText(m.key, colon);
    SpacesAreSkipped(m.space, quoted);
    assert quoted[1..] == QuotedText(m.key, colon);
    TextIsRead(m.key, colon);
    SpacesAreSkipped(m.beforeColon, ":" + value);
    assert (":" + value)[1..] == value;
  }

  lemma {:induction false} MembersGoOn(before: seq<Member<Value>>, m: Member<Value>, s: string, after: string, more: string)
    requires ParseMember(s) == Done(m, after) && SkipSpace(after) == more && more != ""
    ensures more[0] == '}' ==> ParseMembers(s, before) == Done(Put(before, m), more[1..])
    ensures more[0] == ',' ==> ParseMembers(s, before) == ParseMembers(more[1..], Put(before, m))
  {
  }

  lemma {:induction false} MembersAreRead(members: seq<MemberText>, before: seq<Member<Value>>, rest: string)
    requires members != [] && AreMembers(members)
    ensures ParseMembers(MembersText(members, rest), before) == Done(MembersMeant(members, before), rest)
    decreases members, 0
  {
    var m := members[0];
    var more := if |members| == 1 then "}" + rest else "," + MembersText(members[1..], rest);
    var first := Member(TextMeant(m.key), Meant(m.value));
    AfterValue(m.after, more);
    ValueIsRead(m.value, m.after + more);
    MemberIsRead(m, m.after + more);
    if |members| > 1 {
      MembersAreRead(members[1..], Put(before, first), rest);
      assert more[1..] == MembersText(members[1..], rest);
    } else {
      assert more[1..] == rest && members[1..] == [];
    }
    MembersGoOn(before, first, MembersText(members, rest), m.after + more, more);
  }

  // ----- what is read was so written -----

  lemma {:induction false} OneSpaceMore(c: char, rest: string, more: string)
    requires IsSpace(c) && AreSpaces(more)
    ensures SkipSpace([c] + rest) == SkipSpace(rest) && AreSpaces([c] + more)
  {
    assert ([c] + rest)[1..] == rest;
  }

  lemma {:induction false} SpacesFound(s: string) returns (space: string)
    ensures AreSpaces(space) && s == space + SkipSpace(s)
    ensures SkipSpace(s) == "" || !IsSpace(SkipSpace(s)[0])
    decreases |s|
  {
    if s != "" && IsSpace(s[0]) {
      var more := SpacesFound(s[1..]);
      space := [s[0]] + more;
      assert s == [s[0]] + s[1..];
      OneSpaceMore(s[0], s[1..], more);
    } else {
      space := "";
    }
  }

  lemma CharFound(s: string) returns (t: CharText)
    requires ParseChar(s).Done? && s[0] != '"'
    ensures IsCharText(t) && CharMeant(t) == ParseChar(s).value && s == CharWritten(t) + ParseChar(s).rest
  {
    if s[0] != '\\' {
      t := Raw(s[0]);
    } else if s[1] == 'u' {
      t := Coded(s[2..6]);
      CodeFound(s[2..6]);
      assert s == s[..2] + s[2..6] + s[6..];
    } else {
      t := Escaped(s[1]);
    }
  }

  lemma CodeFound(digits: string)
    requires |digits| == 4 && FromHex(digits).Some?
    ensures IsHex(digits) && !(0xD800 <= Code(digits) < 0xE000) && CharMeant(Coded(digits)) == FromHex(digits).value
  {
    assert IsHex(digits);
    CodeIsSmall(digits);
  }

  lemma {:induction false} OneCharMore(t: CharText, more: seq<CharText>, rest: string)
    requires IsCharText(t) && AreCharTexts(more)
    ensures AreCharTexts([t] + more) && TextMeant([t] + more) == [CharMeant(t)] + TextMeant(more)
    ensures QuotedText([t] + more, rest) == CharWritten(t) + QuotedText(more, rest)
  {
    assert ([t] + more)[1..] == more;
  }

  lemma {:induction false} TextFound(s: string) returns (ts: seq<CharText>)
    requires ParseText(s).Done?
    ensures AreCharTexts(ts) && TextMeant(ts) == ParseText(s).value && s == QuotedText(ts, ParseText(s).rest)
    decreases |s|
  {
    if s[0] == '"' {
      ts := [];
      assert s == "\"" + s[1..];
    } else {
      var t := CharFound(s);
      var first := ParseChar(s);
      var more := TextFound(first.rest);
      ts := [t] + more;
      OneCharMore(t, more, ParseText(s).rest);
    }
  }

  lemma {:induction false} ValueFound(s: string) returns (w: Written)
    requires ParseValue(s).Done?
    ensures IsValue(w) && Meant(w) == ParseValue(s).value && s == ValueText(w, ParseValue(s).rest)
    decreases |s|, 3
  {
    var space := SpacesFound(s);
    var t := SkipSpace(s);
    SpaceBeforeValue(space, t);
    var core: Core;
    if t[0] == '[' {
      core := ArrayFound(t);
    } else if t[0] == '{' {
      core := ObjectFound(t);
    } else {
      core := ScalarFound(t);
    }
    w := Written(space, core);
  }

  lemma LiteralFound(t: string, name: string)
    requires StartsWith(t, name)
    ensures t == name + t[|name|..]
  {
  }

  lemma ScalarFound(t: string) returns (core: Core)
    requires t != "" && t[0] != '[' && t[0] != '{' && SkipSpace(t) == t && ParseValue(t).Done?
    ensures IsCore(core) && Meant(Written("", core)) == ParseValue(t).value && t == CoreText(core, ParseValue(t).rest)
  {
    if StartsWith(t, "null") {
      LiteralFound(t, "null");
      core := Literal("null");
    } else if StartsWith(t, "true") {
      LiteralFound(t, "true");
      core := Literal("true");
    } else if StartsWith(t, "false") {
      LiteralFound(t, "false");
      core := Literal("false");
    } else if t[0] == '"' {
      var chars := TextFound(t[1..]);
      core := Quoted(chars);
      assert t == "\"" + t[1..];
    } else {
      core := NumeralFound(t);
    }
  }

  lemma NumeralFound(t: string) returns (core: Core)
    requires t != "" && t[0] != '"' && t[0] != '[' && t[0] != '{' && SkipSpace(t) == t && ParseValue(t).Done?
    requires !StartsWith(t, "null") && !StartsWith(t, "true") && !StartsWith(t, "false")
    ensures IsCore(core) && Meant(Written("", core)) == ParseValue(t).value && t == CoreText(core, ParseValue(t).rest)
  {
    var n := NumeralLength(t);
    core := Numeral(t[..n]);
    assert t == t[..n] + t[n..];
  }

  lemma {:induction false} EmptyFound(t: string, closing: char) returns (space: string)
    requires t != "" && SkipSpace(t[1..]) != "" && SkipSpace(t[1..])[0] == closing
    ensures AreSpaces(space) && t == [t[0]] + (space + ([closing] + SkipSpace(t[1..])[1..]))
  {
    space := SpacesFound(t[1..]);
    var u := SkipSpace(t[1..]);
    assert u == [closing] + u[1..] && t == [t[0]] + t[1..];
  }

  lemma {:induction false} ArrayFound(t: string) returns (core: Core)
    requires t != "" && t[0] == '[' && SkipSpace(t) == t && ParseValue(t).Done?
    ensures IsCore(core) && Meant(Written("", core)) == ParseValue(t).value && t == CoreText(core, ParseValue(t).rest)
    decreases |t|, 2
  {
    JsonRoundTrip.NotLiteral(t, '[');
    var u := SkipSpace(t[1..]);
    if u != "" && u[0] == ']' {
      var space := EmptyFound(t, ']');
      core := NoItems(space);
    } else {
      var items := ItemsFound(t[1..]);
      core := Items(items);
      assert t == "[" + t[1..];
    }
  }

  lemma {:induction false} ObjectFound(t: string) returns (core: Core)
    requires t != "" && t[0] == '{' && SkipSpace(t) == t && ParseValue(t).Done?
    ensures IsCore(core) && Meant(Written("", core)) == ParseValue(t).value && t == CoreText(core, ParseValue(t).rest)
    decreases |t|, 2
  {
    JsonRoundTrip.NotLiteral(t, '{');
    var u := SkipSpace(t[1..]);
    if u != "" && u[0] == '}' {
      var space := EmptyFound(t, '}');
      core := NoMembers(space);
    } else {
      var members := MembersFound(t[1..], []);
      core := Members(members);
      assert t == "{" + t[1..];
    }
  }

  lemma {:induction false} LastItem(w: Written, after: string, rest: string)
    requires IsValue(w) && AreSpaces(after)
    ensures var items := [Item(w, after)];
      AreItems(items) && ItemsMeant(items) == [Meant(w)] && ItemsText(items, rest) == ValueText(w, after + ("]" + rest))
  {
    assert [Item(w, after)][1..] == [];
  }

  lemma {:induction false} OneItemMore(w: Written, after: string, more: seq<Item>, rest: string)
    requires IsValue(w) && AreSpaces(after) && AreItems(more) && more != []
    ensures var items := [Item(w, after)] + more;
      && AreItems(items) && ItemsMeant(items) == [Meant(w)] + ItemsMeant(more)
      && ItemsText(items, rest) == ValueText(w, after + ("," + ItemsText(more, rest)))
  {
    assert ([Item(w, after)] + more)[1..] == more;
  }

  lemma {:induction false} ItemsFound(s: string) returns (items: seq<Item>)
    requires ParseItems(s).Done?
    ensures items != [] && AreItems(items) && ItemsMeant(items) == ParseItems(s).value
    ensures s == ItemsText(items, ParseItems(s).rest)
    decreases |s|, 4
  {
    var w := ValueFound(s);
    var first := ParseValue(s);
    var after := SpacesFound(first.rest);
    var t := SkipSpace(first.rest);
    assert s == ValueText(w, first.rest) && first.rest == after + t && t == [t[0]] + t[1..];
    if t[0] == ']' {
      items := [Item(w, after)];
      LastItem(w, after, t[1..]);
    } else {
      var more := ItemsFound(t[1..]);
      items := [Item(w, after)] + more;
      OneItemMore(w, after, more, ParseItems(s).rest);
    }
  }

  lemma OneMember(m: MemberText)
    requires AreSpaces(m.space) && AreCharTexts(m.key) && AreSpaces(m.beforeColon) && IsValue(m.value) && AreSpaces(m.after)
    ensures AreMembers([m])
  {
    assert [m][1..] == [];
  }

  lemma KeyFound(s: string) returns (space: string, key: seq<CharText>, beforeColon: string, after: string)
    requires ParseMember(s).Done?
    ensures AreSpaces(space) && AreCharTexts(key) && AreSpaces(beforeColon)
    ensures s == space + ("\"" + QuotedText(key, beforeColon + (":" + after)))
    ensures |after| < |s| && ParseValue(after).Done?
    ensures ParseMember(s) == Done(Member(TextMeant(key), ParseValue(after).value), ParseValue(after).rest)
  {
    space := SpacesFound(s);
    var t := SkipSpace(s);
    assert t == "\"" + t[1..];
    key := TextFound(t[1..]);
    var afterKey := ParseText(t[1..]).rest;
    beforeColon := SpacesFound(afterKey);
    var u := SkipSpace(afterKey);
    assert u == ":" + u[1..];
    after := u[1..];
  }

  lemma {:induction false} MemberFound(s: string) returns (m: MemberText)
    requires ParseMember(s).Done?
    ensures m.after == "" && AreMembers([m])
    ensures ParseMember(s).value == Member(TextMeant(m.key), Meant(m.value))
    ensures s == m.space + ("\"" + QuotedText(m.key, m.beforeColon + (":" + ValueText(m.value, ParseMember(s).rest))))
    decreases |s|, 0
  {
    var space, key, beforeColon, after := KeyFound(s);
    var w := ValueFound(after);
    m := MemberText(space, key, beforeColon, w, "");
    OneMember(m);
  }

  lemma {:induction false} MembersFound(s: string, before: seq<Member<Value>>) returns (members: seq<MemberText>)
    requires ParseMembers(s, before).Done?
    ensures members != [] && AreMembers(members) && MembersMeant(members, before) == ParseMembers(s, before).value
    ensures s == MembersText(members, ParseMembers(s, before).rest)
    decreases |s|, 4
  {
    var m := MemberFound(s);
    var first := ParseMember(s);
    var after := SpacesFound(first.rest);
    var t := SkipSpace(first.rest);
    assert t == [t[0]] + t[1..];
    var head := m.(after := after);
    if t[0] == '}' {
      members := [head];
      assert members[1..] == [];
    } else {
      var more := MembersFound(t[1..], Put(before, first.value));
      members := [head] + more;
      assert members[1..] == more;
    }
  }

  // ----- the theorem -----

  /** A value written out, with nothing but spaces after it. */
  ghost predicate IsJsonText(s: string, v: Value) {
    exists w, space :: IsJsonTextOf(s, v, w, space)
  }

  predicate IsJsonTextOf(s: string, v: Value, w: Written, space: string) {
    IsValue(w) && AreSpaces(space) && s == ValueText(w, space) && Meant(w) == v
  }

  /** The parser reads exactly the texts of the grammar, as what they mean. */
  lemma ParsesExactlyTheGrammar(s: string, v: Value)
    ensures Parse(s) == Some(v) <==> IsJsonText(s, v)
  {
    if Parse(s) == Some(v) {
      var w := ValueFound(s);
      var space := SpacesFound(ParseValue(s).rest);
      assert space + "" == space;
      assert IsJsonTextOf(s, v, w, space);
    }
    if w, space :| IsJsonTextOf(s, v, w, space) {
      ValueIsRead(w, space);
      SpacesAreSkipped(space, "");
      assert space + "" == space;
    }
  }
}
