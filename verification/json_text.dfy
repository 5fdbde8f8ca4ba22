/** Parsing undoes printing: strings and numerals. */
module JsonText {
  import opened Prelude
  import opened Json

  lemma ControlCharParses(c: char, rest: string)
    requires (c as int) < 32
    ensures var s := "\\u00" + [HEX[c as int / 16], HEX[c as int % 16]] + rest;
      ParseChar(s) == Done(c, rest)
  {
    var high, low := c as int / 16, c as int % 16;
    var s := "\\u00" + [HEX[high], HEX[low]] + rest;
    assert s[2..6] == ['0', '0', HEX[high], HEX[low]] && s[6..] == rest;
    assert HexValue(HEX[high]) == Some(high) && HexValue(HEX[low]) == Some(low);
    assert FromHex(s[2..6]) == Some(c);
  }

  lemma EscapedCharParses(c: char, rest: string)
    ensures EscapeChar(c) != "" && EscapeChar(c)[0] != '"'
    ensures ParseChar(EscapeChar(c) + rest) == Done(c, rest)
  {
    var s := EscapeChar(c) + rest;
    if c == '"' || c == '\\' || c == '\n' || c == '\r' || c == '\t' || c as int == 8 || c as int == 12 {
      assert s[2..] == rest;
    } else if (c as int) < 32 {
      ControlCharParses(c, rest);
    } else {
      assert s[1..] == rest;
    }
  }

  lemma {:induction false} EscapedTextParses(text: string, rest: string)
    ensures ParseText(Escape(text) + "\"" + rest) == Done(text, rest)
    decreases |text|
  {
    var s := Escape(text) + "\"" + rest;
    if text == "" {
      assert s == "\"" + rest && s[1..] == rest;
    } else {
      var more := Escape(text[1..]) + "\"" + rest;
      assert s == EscapeChar(text[0]) + more;
      EscapedCharParses(text[0], more);
      EscapedTextParses(text[1..], rest);
      assert s[0] == EscapeChar(text[0])[0];
      assert [text[0]] + text[1..] == text;
    }
  }

  lemma {:induction false} DigitsAreDigits(s: string)
    ensures forall i :: 0 <= i < Digits(s) ==> IsDigit(s[i])
    decreases |s|
  {
    if s != "" && IsDigit(s[0]) {
      DigitsAreDigits(s[1..]);
      assert forall i :: 1 <= i < Digits(s) ==> s[i] == s[1..][i - 1];
    }
  }

  lemma ExponentChars(s: string)
    requires IsExponent(s)
    ensures forall i :: 0 <= i < |s| ==> IsNumeralChar(s[i])
  {
    if s != "" {
      var sign := if |s| >= 2 && (s[1] == '+' || s[1] == '-') then 2 else 1;
      DigitsAreDigits(s[sign..]);
      forall i | 0 <= i < |s| ensures IsNumeralChar(s[i]) {
        if i >= sign { assert s[i] == s[sign..][i - sign]; }
      }
    }
  }

  lemma FractionChars(s: string)
    requires IsFraction(s)
    ensures forall i :: 0 <= i < |s| ==> IsNumeralChar(s[i])
  {
    if s != "" && s[0] == '.' {
      var n := Digits(s[1..]);
      DigitsAreDigits(s[1..]);
      ExponentChars(s[1 + n..]);
      forall i | 0 <= i < |s| ensures IsNumeralChar(s[i]) {
        if 1 <= i < 1 + n { assert s[i] == s[1..][i - 1]; }
        else if i >= 1 + n { assert s[i] == s[1 + n..][i - 1 - n]; }
      }
    } else {
      ExponentChars(s);
    }
  }

  lemma NumeralChars(s: string)
    requires IsNumeral(s)
    ensures s != "" && (IsDigit(s[0]) || s[0] == '-')
    ensures forall i :: 0 <= i < |s| ==> IsNumeralChar(s[i])
  {
    var sign := if s[0] == '-' then 1 else 0;
    var t := s[sign..];
    var n := Digits(t);
    DigitsAreDigits(t);
    FractionChars(t[n..]);
    forall i | 0 <= i < |s| ensures IsNumeralChar(s[i]) {
      if sign <= i < sign + n { assert s[i] == t[i - sign]; }
      else if i >= sign + n { assert s[i] == t[n..][i - sign - n]; }
    }
  }

  /** The text may follow a numeral without being taken for a part of it. */
  predicate Ends(rest: string) {
    rest == "" || !IsNumeralChar(rest[0])
  }

  lemma {:induction false} NumeralIsTakenWhole(s: string, rest: string)
    requires Ends(rest) && forall i :: 0 <= i < |s| ==> IsNumeralChar(s[i])
    ensures NumeralLength(s + rest) == |s|
    decreases |s|
  {
    if s == "" {
      assert s + rest == rest;
    } else {
      assert (s + rest)[1..] == s[1..] + rest;
      NumeralIsTakenWhole(s[1..], rest);
    }
  }
}
