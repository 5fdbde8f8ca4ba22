/**
 `Buffer.from(text, "utf8")` and `toString("utf8")`, the encoding of RFC 3629 section 3.
 A byte that starts no well-formed sequence decodes to the replacement character.
 */
module Utf8 {
  import opened Prelude

  function Tail(n: int): Byte {
    (0x80 + n % 64) as Byte
  }

  function EncodeChar(c: char): seq<Byte> {
    var n := c as int;
    if n < 0x80 then [n as Byte]
    else if n < 0x800 then [(0xC0 + n / 64) as Byte, Tail(n)]
    else if n < 0x1_0000 then [(0xE0 + n / 4096) as Byte, Tail(n / 64), Tail(n)]
    else [(0xF0 + n / 262144) as Byte, Tail(n / 4096), Tail(n / 64), Tail(n)]
  }

  function Encode(s: string): seq<Byte> {
    if s == "" then [] else EncodeChar(s[0]) + Encode(s[1..])
  }

  datatype First = First(c: char, length: nat)

  const REPLACEMENT := First(0xFFFD as char, 1)

  predicate IsTail(b: Byte) {
    0x80 <= b < 0xC0
  }

  function Scalar(n: int, least: int, length: nat): First {
    if least <= n < 0xD800 || (least <= n < 0x11_0000 && 0xE000 <= n) then
      (if 0 <= n then First(n as char, length) else REPLACEMENT)
    else REPLACEMENT
  }

  /** The first character and the number of bytes it takes. */
  function DecodeFirst(b: seq<Byte>): First
    requires b != []
  {
    var b0 := b[0] as int;
    if b0 < 0x80 then First(b0 as char, 1)
    else if 0xC0 <= b0 < 0xE0 && |b| >= 2 && IsTail(b[1]) then
      Scalar((b0 - 0xC0) * 64 + (b[1] as int - 0x80), 0x80, 2)
    else if 0xE0 <= b0 < 0xF0 && |b| >= 3 && IsTail(b[1]) && IsTail(b[2]) then
      Scalar((b0 - 0xE0) * 4096 + (b[1] as int - 0x80) * 64 + (b[2] as int - 0x80), 0x800, 3)
    else if 0xF0 <= b0 < 0xF8 && |b| >= 4 && IsTail(b[1]) && IsTail(b[2]) && IsTail(b[3]) then
      Scalar((b0 - 0xF0) * 262144 + (b[1] as int - 0x80) * 4096 + (b[2] as int - 0x80) * 64 + (b[3] as int - 0x80),
             0x1_0000, 4)
    else REPLACEMENT
  }

  lemma FirstIsShort(b: seq<Byte>)
    requires b != []
    ensures 1 <= DecodeFirst(b).length <= |b|
  {
  }

  function Decode(b: seq<Byte>): string
    decreases |b|
  {
    if b == [] then ""
    else
      FirstIsShort(b);
      [DecodeFirst(b).c] + Decode(b[DecodeFirst(b).length..])
  }

  lemma InBase64(n: int)
    requires 0 <= n < 0x11_0000
    ensures n == n / 64 * 64 + n % 64
    ensures n == n / 4096 * 4096 + (n / 64) % 64 * 64 + n % 64
    ensures n == n / 262144 * 262144 + (n / 4096) % 64 * 4096 + (n / 64) % 64 * 64 + n % 64
  {
    assert n / 4096 == (n / 64) / 64;
    assert n / 262144 == (n / 4096) / 64;
  }

  lemma TailReads(n: int)
    requires 0 <= n
    ensures IsTail(Tail(n)) && Tail(n) as int - 0x80 == n % 64
  {
  }

  lemma CharDecodes(c: char, rest: seq<Byte>)
    ensures DecodeFirst(EncodeChar(c) + rest) == First(c, |EncodeChar(c)|)
  {
    var n, b := c as int, EncodeChar(c) + rest;
    InBase64(n);
    TailReads(n);
    TailReads(n / 64);
    TailReads(n / 4096);
    if n < 0x80 {
    } else if n < 0x800 {
      assert DecodeFirst(b) == Scalar(n, 0x80, 2);
    } else if n < 0x1_0000 {
      assert DecodeFirst(b) == Scalar(n, 0x800, 3);
    } else {
      assert DecodeFirst(b) == Scalar(n, 0x1_0000, 4);
    }
  }

  lemma {:induction false} CharThenRest(c: char, rest: seq<Byte>)
    ensures Decode(EncodeChar(c) + rest) == [c] + Decode(rest)
  {
    var b := EncodeChar(c) + rest;
    CharDecodes(c, rest);
    assert b != [] && b[|EncodeChar(c)|..] == rest;
  }

  /** Decoding undoes encoding, for every text. */
  lemma {:induction false} DecodeUndoesEncode(s: string)
    ensures Decode(Encode(s)) == s
    decreases |s|
  {
    if s != "" {
      CharThenRest(s[0], Encode(s[1..]));
      DecodeUndoesEncode(s[1..]);
      assert s == [s[0]] + s[1..];
    }
  }

  lemma {:induction false} EncodeIsInjective(s: string, t: string)
    requires Encode(s) == Encode(t)
    ensures s == t
  {
    DecodeUndoesEncode(s);
    DecodeUndoesEncode(t);
  }

  // ----- the form of the bytes -----

  /** The form of the table in section 3 of RFC 3629, and the number its bits spell. */
  predicate HasTheStandardForm(b: seq<Byte>, n: nat) {
    && (forall i :: 1 <= i < |b| ==> b[i] as int / 64 == 2)
    && match |b|
       case 1 => n < 0x80 && b[0] as int == n
       case 2 => 0x80 <= n < 0x800 && b[0] as int / 32 == 6 && n == b[0] as int % 32 * 64 + b[1] as int % 64
       case 3 =>
         0x800 <= n < 0x1_0000 && b[0] as int / 16 == 14
         && n == (b[0] as int % 16 * 64 + b[1] as int % 64) * 64 + b[2] as int % 64
       case 4 =>
         0x1_0000 <= n && b[0] as int / 8 == 30
         && n == ((b[0] as int % 8 * 64 + b[1] as int % 64) * 64 + b[2] as int % 64) * 64 + b[3] as int % 64
       case _ => false
  }

  lemma TailHasItsForm(n: nat)
    ensures Tail(n) as int / 64 == 2 && Tail(n) as int % 64 == n % 64
  {
  }

  lemma LeadHasItsForm(n: nat)
    ensures n < 32 ==> (0xC0 + n) / 32 == 6 && (0xC0 + n) % 32 == n
    ensures n < 16 ==> (0xE0 + n) / 16 == 14 && (0xE0 + n) % 16 == n
    ensures n < 8 ==> (0xF0 + n) / 8 == 30 && (0xF0 + n) % 8 == n
  {
  }

  lemma CharHasTheStandardForm(c: char)
    ensures HasTheStandardForm(EncodeChar(c), c as nat)
  {
    var n := c as int;
    InBase64(n);
    TailHasItsForm(n);
    TailHasItsForm(n / 64);
    TailHasItsForm(n / 4096);
    if n < 0x80 {
    } else if n < 0x800 {
      LeadHasItsForm(n / 64);
    } else if n < 0x1_0000 {
      LeadHasItsForm(n / 4096);
    } else {
      LeadHasItsForm(n / 262144);
    }
  }

  lemma DigitsInBase64(q: nat, r: nat)
    requires r < 64
    ensures (q * 64 + r) / 64 == q && (q * 64 + r) % 64 == r
  {
  }

  lemma TailBack(b: Byte, q: nat)
    requires IsTail(b)
    ensures Tail(q * 64 + (b as int - 0x80)) == b && (q * 64 + (b as int - 0x80)) / 64 == q
  {
    DigitsInBase64(q, b as int - 0x80);
  }

  /**
   Only encodings are read: what takes more than one byte is the encoding of its character,
   so no overlong form and no surrogate is; a byte that is read alone is its own character or
   the replacement.
   */
  lemma OnlyEncodingsAreRead(b: seq<Byte>)
    requires b != []
    ensures var first := DecodeFirst(b);
      || (first.length > 1 && first.length <= |b| && b[..first.length] == EncodeChar(first.c))
      || (first.length == 1 && b[0] < 0x80 && b[..1] == EncodeChar(first.c))
      || (first.length == 1 && b[0] >= 0x80 && first.c as int == 0xFFFD)
  {
    var b0, first := b[0] as int, DecodeFirst(b);
    if first.length == 2 {
      TailBack(b[1], b0 - 0xC0);
    } else if first.length == 3 {
      TailBack(b[1], b0 - 0xE0);
      TailBack(b[2], (b0 - 0xE0) * 64 + (b[1] as int - 0x80));
      ThreeBytesBack(b, first.c);
    } else if first.length == 4 {
      FourBytesBack(b, first.c);
    }
  }

  lemma ThreeBytesBack(b: seq<Byte>, c: char)
    requires |b| >= 3 && 0xE0 <= b[0] < 0xF0 && IsTail(b[1]) && IsTail(b[2])
    requires c as int == (b[0] as int - 0xE0) * 4096 + (b[1] as int - 0x80) * 64 + (b[2] as int - 0x80) >= 0x800
    ensures b[..3] == EncodeChar(c)
  {
    var n := c as int;
    var q := (b[0] as int - 0xE0) * 64 + (b[1] as int - 0x80);
    assert n == q * 64 + (b[2] as int - 0x80);
    TailBack(b[2], q);
    TailBack(b[1], b[0] as int - 0xE0);
    assert n / 4096 == n / 64 / 64;
  }

  lemma FourBytesBack(b: seq<Byte>, c: char)
    requires |b| >= 4 && 0xF0 <= b[0] < 0xF8 && IsTail(b[1]) && IsTail(b[2]) && IsTail(b[3])
    requires c as int == (b[0] as int - 0xF0) * 262144 + (b[1] as int - 0x80) * 4096 + (b[2] as int - 0x80) * 64
                         + (b[3] as int - 0x80) >= 0x1_0000
    ensures b[..4] == EncodeChar(c)
  {
    var n := c as int;
    var p := (b[0] as int - 0xF0) * 64 + (b[1] as int - 0x80);
    var q := p * 64 + (b[2] as int - 0x80);
    assert n == q * 64 + (b[3] as int - 0x80);
    TailBack(b[3], q);
    TailBack(b[2], p);
    TailBack(b[1], b[0] as int - 0xF0);
    assert n / 4096 == n / 64 / 64 && n / 262144 == n / 64 / 64 / 64;
  }
}
