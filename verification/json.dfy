/**
 JSON values, the recursive canonical printer shared by reports and audit, and a parser
 for the grammar of RFC 8259 sections 2 to 7. Parsing what was printed gives the value
 back with its keys sorted; so the printed text is stable under a parse, does not depend
 on key order, and differs whenever the values differ beyond key order.

 A number is the numeral ECMAScript prints for it. Strings are sequences of Unicode
 scalar values. `localeCompare` is an arbitrary total preorder, given by a weight.
 */
module Json {
  import opened Prelude

  datatype Value =
    | Null
    | Bool(truth: bool)
    | Number(numeral: string)
    | Str(text: string)
    | Arr(items: seq<Value>)
    | Obj(members: seq<Member<Value>>)

  datatype Member<T> = Member(key: string, value: T)

  type Collation = string -> real

  // ----- printing -----

  const HEX := "0123456789abcdef"

  /** One character as `JSON.stringify` writes it inside a string. */
  function EscapeChar(c: char): string {
    if c == '"' then "\\\""
    else if c == '\\' then "\\\\"
    else if c == '\n' then "\\n"
    else if c == '\r' then "\\r"
    else if c == '\t' then "\\t"
    else if c as int == 8 then "\\b"
    else if c as int == 12 then "\\f"
    else if (c as int) < 32 then "\\u00" + [HEX[c as int / 16], HEX[c as int % 16]]
    else [c]
  }

  function Escape(s: string): string {
    if s == "" then "" else EscapeChar(s[0]) + Escape(s[1..])
  }

  function Quote(s: string): string {
    "\"" + Escape(s) + "\""
  }

  /** Stable insertion: before the first member that is not smaller. */
  function Insert<T>(m: Member<T>, sorted: seq<Member<T>>, order: Collation): seq<Member<T>> {
    if sorted == [] || order(m.key) <= order(sorted[0].key) then [m] + sorted
    else [sorted[0]] + Insert(m, sorted[1..], order)
  }

  function Sort<T>(members: seq<Member<T>>, order: Collation): seq<Member<T>> {
    if members == [] then [] else Insert(members[0], Sort(members[1..], order), order)
  }

  /** `Array.prototype.join` with a comma. */
  function Join(parts: seq<string>): string {
    if parts == [] then ""
    else if |parts| == 1 then parts[0]
    else parts[0] + "," + Join(parts[1..])
  }

  function Labelled(members: seq<Member<string>>): seq<string> {
    if members == [] then [] else [Quote(members[0].key) + ":" + members[0].value] + Labelled(members[1..])
  }

  /**
   `canonicalReportValue`, and the audit package's `canonicalize`. The members are sorted
   by key; their values are printed on the way in, which `SortIsNatural` shows to be the
   same as printing them afterwards.
   */
  function Print(v: Value, order: Collation): string
    decreases v, 1
  {
    match v
    case Null => "null"
    case Bool(truth) => if truth then "true" else "false"
    case Number(numeral) => numeral
    case Str(text) => Quote(text)
    case Arr(items) => "[" + Join(PrintItems(items, order)) + "]"
    case Obj(members) => "{" + Join(Labelled(Sort(PrintMembers(members, order), order))) + "}"
  }

  function PrintItems(items: seq<Value>, order: Collation): seq<string>
    decreases items, 0
  {
    if items == [] then [] else [Print(items[0], order)] + PrintItems(items[1..], order)
  }

  function PrintMembers(members: seq<Member<Value>>, order: Collation): seq<Member<string>>
    decreases members, 0
  {
    if members == [] then []
    else [Member(members[0].key, Print(members[0].value, order))] + PrintMembers(members[1..], order)
  }

  // ----- parsing -----

  datatype Parsed<T> = Failed | Done(value: T, rest: string)

  predicate IsSpace(c: char) {
    c == ' ' || c == '\t' || c == '\n' || c == '\r'
  }

  function SkipSpace(s: string): (r: string)
    ensures |r| <= |s|
  {
    if s != "" && IsSpace(s[0]) then SkipSpace(s[1..]) else s
  }

  function HexValue(c: char): Option<int> {
    if '0' <= c <= '9' then Some(c as int - '0' as int)
    else if 'a' <= c <= 'f' then Some(c as int - 'a' as int + 10)
    else if 'A' <= c <= 'F' then Some(c as int - 'A' as int + 10)
    else None
  }

  /** The character a `\u` escape stands for; halves of a surrogate pair are not represented. */
  function FromHex(s: string): Option<char>
    requires |s| >= 4
  {
    var a, b, c, d := HexValue(s[0]), HexValue(s[1]), HexValue(s[2]), HexValue(s[3]);
    if a.None? || b.None? || c.None? || d.None? then None
    else
      var code := a.value * 4096 + b.value * 256 + c.value * 16 + d.value;
      if 0 <= code < 0xD800 || 0xE000 <= code < 0x10000 then Some(code as char) else None
  }

  /** One character of a string body, which does not stand at the closing quote. */
  function ParseChar(s: string): (r: Parsed<char>)
    ensures r.Done? ==> |r.rest| < |s|
  {
    if s == "" || (s[0] as int) < 32 then Failed
    else if s[0] != '\\' then Done(s[0], s[1..])
    else if |s| < 2 then Failed
    else match s[1]
      case '"' => Done('"', s[2..])
      case '\\' => Done('\\', s[2..])
      case '/' => Done('/', s[2..])
      case 'b' => Done(8 as char, s[2..])
      case 'f' => Done(12 as char, s[2..])
      case 'n' => Done('\n', s[2..])
      case 'r' => Done('\r', s[2..])
      case 't' => Done('\t', s[2..])
      case 'u' =>
        if |s| < 6 || FromHex(s[2..6]).None? then Failed else Done(FromHex(s[2..6]).value, s[6..])
      case _ => Failed
  }

  /** The rest of a string after its opening quote. */
  function ParseText(s: string): (r: Parsed<string>)
    ensures r.Done? ==> |r.rest| < |s|
    decreases |s|
  {
    if s == "" then Failed
    else if s[0] == '"' then Done("", s[1..])
    else
      var first := ParseChar(s);
      if first.Failed? then Failed
      else
        var more := ParseText(first.rest);
        if more.Failed? then Failed else Done([first.value] + more.value, more.rest)
  }

  predicate IsDigit(c: char) {
    '0' <= c <= '9'
  }

  predicate IsNumeralChar(c: char) {
    IsDigit(c) || c == '-' || c == '+' || c == '.' || c == 'e' || c == 'E'
  }

  function Digits(s: string): (n: nat)
    ensures n <= |s|
  {
    if s != "" && IsDigit(s[0]) then 1 + Digits(s[1..]) else 0
  }

  predicate IsExponent(s: string) {
    || s == ""
    || (&& (s[0] == 'e' || s[0] == 'E')
        && var t := if |s| >= 2 && (s[1] == '+' || s[1] == '-') then s[2..] else s[1..];
           t != "" && Digits(t) == |t|)
  }

  predicate IsFraction(s: string) {
    if s != "" && s[0] == '.'
    then Digits(s[1..]) > 0 && IsExponent(s[1 + Digits(s[1..])..])
    else IsExponent(s)
  }

  /** The grammar of section 6: sign, integer part without leading zeros, fraction, exponent. */
  predicate IsNumeral(s: string) {
    var t := if s != "" && s[0] == '-' then s[1..] else s;
    var n := Digits(t);
    n > 0 && (n == 1 || t[0] != '0') && IsFraction(t[n..])
  }

  function NumeralLength(s: string): (n: nat)
    ensures n <= |s|
  {
    if s != "" && IsNumeralChar(s[0]) then 1 + NumeralLength(s[1..]) else 0
  }

  predicate StartsWith(s: string, prefix: string) {
    |prefix| <= |s| && s[..|prefix|] == prefix
  }

  /** A repeated key overwrites the earlier value in place. */
  function Put(members: seq<Member<Value>>, m: Member<Value>): seq<Member<Value>> {
    if members == [] then [m]
    else if members[0].key == m.key then [m] + members[1..]
    else [members[0]] + Put(members[1..], m)
  }

  function ParseValue(s: string): (r: Parsed<Value>)
    ensures r.Done? ==> |r.rest| < |s|
    decreases |s|, 1
  {
    var t := SkipSpace(s);
    if t == "" then Failed
    else if StartsWith(t, "null") then Done(Null, t[4..])
    else if StartsWith(t, "true") then Done(Bool(true), t[4..])
    else if StartsWith(t, "false") then Done(Bool(false), t[5..])
    else if t[0] == '"' then
      var text := ParseText(t[1..]);
      if text.Failed? then Failed else Done(Str(text.value), text.rest)
    else if t[0] == '[' then
      var u := SkipSpace(t[1..]);
      if u != "" && u[0] == ']' then Done(Arr([]), u[1..])
      else
        var items := ParseItems(t[1..]);
        if items.Failed? then Failed else Done(Arr(items.value), items.rest)
    else if t[0] == '{' then
      var u := SkipSpace(t[1..]);
      if u != "" && u[0] == '}' then Done(Obj([]), u[1..])
      else
        var members := ParseMembers(t[1..], []);
        if members.Failed? then Failed else Done(Obj(members.value), members.rest)
    else
      var n := NumeralLength(t);
      if IsNumeral(t[..n]) && n > 0 then Done(Number(t[..n]), t[n..]) else Failed
  }

  /** At least one item, up to and including the closing bracket. */
  function ParseItems(s: string): (r: Parsed<seq<Value>>)
    ensures r.Done? ==> |r.rest| < |s|
    decreases |s|, 2
  {
    var first := ParseValue(s);
    if first.Failed? then Failed
    else
      var t := SkipSpace(first.rest);
      if t == "" then Failed
      else if t[0] == ']' then Done([first.value], t[1..])
      else if t[0] != ',' then Failed
      else
        var more := ParseItems(t[1..]);
        if more.Failed? then Failed else Done([first.value] + more.value, more.rest)
  }

  /** A quoted key, a colon and a value. */
  function ParseMember(s: string): (r: Parsed<Member<Value>>)
    ensures r.Done? ==> |r.rest| < |s|
    decreases |s|, 0
  {
    var t := SkipSpace(s);
    if t == "" || t[0] != '"' then Failed
    else
      var key := ParseText(t[1..]);
      if key.Failed? then Failed
      else
        var u := SkipSpace(key.rest);
        if u == "" || u[0] != ':' then Failed
        else
          var value := ParseValue(u[1..]);
          if value.Failed? then Failed else Done(Member(key.value, value.value), value.rest)
  }

  /** At least one member, up to and including the closing brace. */
  function ParseMembers(s: string, before: seq<Member<Value>>): (r: Parsed<seq<Member<Value>>>)
    ensures r.Done? ==> |r.rest| < |s|
    decreases |s|, 1
  {
    var first := ParseMember(s);
    if first.Failed? then Failed
    else
      var members := Put(before, first.value);
      var t := SkipSpace(first.rest);
      if t == "" then Failed
      else if t[0] == '}' then Done(members, t[1..])
      else if t[0] != ',' then Failed
      else ParseMembers(t[1..], members)
  }

  /** `JSON.parse`: one value with nothing but space after it. */
  function Parse(s: string): Option<Value> {
    var r := ParseValue(s);
    if r.Done? && SkipSpace(r.rest) == "" then Some(r.value) else None
  }
}
