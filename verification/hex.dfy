/** `digest("hex")` and `Buffer.from(text, "hex")`, which stops at the first pair that is not hexadecimal. */
module Hex {
  import opened Prelude
  import opened Json

  function Pair(b: Byte): string {
    [HEX[b as int / 16], HEX[b as int % 16]]
  }

  function Encode(bytes: seq<Byte>): string {
    if bytes == [] then ""
    else Pair(bytes[0]) + Encode(bytes[1..])
  }

  function Decode(text: string): seq<Byte> {
    if |text| < 2 || HexValue(text[0]).None? || HexValue(text[1]).None? then []
    else [(HexValue(text[0]).value * 16 + HexValue(text[1]).value) as Byte] + Decode(text[2..])
  }

  lemma HexDigitsRead(d: nat)
    requires d < 16
    ensures HexValue(HEX[d]) == Some(d)
  {
  }

  lemma {:induction false} PairDecodes(b: Byte, rest: string)
    ensures Decode(Pair(b) + rest) == [b] + Decode(rest)
  {
    var high, low := b as int / 16, b as int % 16;
    HexDigitsRead(high);
    HexDigitsRead(low);
    assert (Pair(b) + rest)[2..] == rest;
    assert high * 16 + low == b as int;
  }

  lemma {:induction false} DecodeUndoesEncode(bytes: seq<Byte>)
    ensures Decode(Encode(bytes)) == bytes
    decreases |bytes|
  {
    if bytes != [] {
      DecodeUndoesEncode(bytes[1..]);
      PairDecodes(bytes[0], Encode(bytes[1..]));
      assert bytes == [bytes[0]] + bytes[1..];
    }
  }

  // ----- when two texts decode alike -----

  function LowerChar(c: char): char {
    if 'A' <= c <= 'F' then (c as int - 'A' as int + 'a' as int) as char else c
  }

  function Lower(text: string): string {
    if text == "" then "" else [LowerChar(text[0])] + Lower(text[1..])
  }

  predicate StartsWithPair(text: string) {
    |text| >= 2 && HexValue(text[0]).Some? && HexValue(text[1]).Some?
  }

  /** The part of a text that is read: its hexadecimal pairs up to the first thing that is not one. */
  function HexPart(text: string): string {
    if StartsWithPair(text) then text[..2] + HexPart(text[2..]) else ""
  }

  lemma DigitIsLower(c: char)
    requires HexValue(c).Some?
    ensures 0 <= HexValue(c).value < 16 && HEX[HexValue(c).value] == LowerChar(c)
  {
  }

  lemma {:induction false} PairIsLower(text: string)
    requires StartsWithPair(text)
    ensures Pair(Decode(text)[0]) == [LowerChar(text[0]), LowerChar(text[1])]
  {
    DigitIsLower(text[0]);
    DigitIsLower(text[1]);
    var high, low := HexValue(text[0]).value, HexValue(text[1]).value;
    assert (high * 16 + low) / 16 == high && (high * 16 + low) % 16 == low;
  }

  lemma {:induction false} LowerOfPair(pair: string, rest: string)
    requires |pair| == 2
    ensures Lower(pair + rest) == [LowerChar(pair[0]), LowerChar(pair[1])] + Lower(rest)
  {
    assert (pair + rest)[1..] == [pair[1]] + rest && ([pair[1]] + rest)[1..] == rest;
  }

  /** Writing out what was read gives the part that was read, in lower case. */
  lemma {:induction false} EncodeOfDecode(text: string)
    ensures Encode(Decode(text)) == Lower(HexPart(text))
    decreases |text|
  {
    if StartsWithPair(text) {
      EncodeOfDecode(text[2..]);
      PairIsLower(text);
      LowerOfPair(text[..2], HexPart(text[2..]));
      assert Decode(text)[1..] == Decode(text[2..]);
    }
  }

  /** Two texts are read as the same bytes exactly when the parts that are read agree up to case. */
  lemma {:induction false} DecodesAlikeExactly(a: string, b: string)
    ensures Decode(a) == Decode(b) <==> Lower(HexPart(a)) == Lower(HexPart(b))
  {
    EncodeOfDecode(a);
    EncodeOfDecode(b);
    DecodeUndoesEncode(Decode(a));
    DecodeUndoesEncode(Decode(b));
  }

  // ----- the number a text spells -----

  function Base16(text: string): int {
    if text == "" then 0
    else Base16(text[..|text| - 1]) * 16
         + (if HexValue(text[|text| - 1]).Some? then HexValue(text[|text| - 1]).value else 0)
  }

  function Base256(bytes: seq<Byte>): int {
    if bytes == [] then 0 else Base256(bytes[..|bytes| - 1]) * 256 + bytes[|bytes| - 1] as int
  }

  lemma {:induction false} EncodeFirst(b: Byte, rest: seq<Byte>)
    ensures Encode([b] + rest) == Pair(b) + Encode(rest)
  {
    assert ([b] + rest)[1..] == rest;
  }

  lemma {:induction false} EncodeAppends(a: seq<Byte>, b: Byte)
    ensures Encode(a + [b]) == Encode(a) + Pair(b)
    decreases |a|
  {
    if a == [] {
      EncodeFirst(b, []);
      assert a + [b] == [b] + [];
    } else {
      var first, rest := a[0], a[1..];
      assert a == [first] + rest && a + [b] == [first] + (rest + [b]);
      EncodeFirst(first, rest);
      EncodeFirst(first, rest + [b]);
      EncodeAppends(rest, b);
    }
  }

  lemma {:induction false} PairAddsItsByte(text: string, b: Byte)
    ensures Base16(text + Pair(b)) == Base16(text) * 256 + b as int
  {
    var high, low := b as int / 16, b as int % 16;
    HexDigitsRead(high);
    HexDigitsRead(low);
    var longer := text + Pair(b);
    assert longer[..|longer| - 1] == text + [HEX[high]] && (text + [HEX[high]])[..|text|] == text;
  }

  /** The digest in hexadecimal spells the number of its bytes, most significant first, two digits a byte. */
  lemma {:induction false} EncodingSpellsTheBytes(bytes: seq<Byte>)
    ensures |Encode(bytes)| == 2 * |bytes| && Base16(Encode(bytes)) == Base256(bytes)
    decreases |bytes|
  {
    if bytes != [] {
      var n := |bytes| - 1;
      EncodingSpellsTheBytes(bytes[..n]);
      EncodeAppends(bytes[..n], bytes[n]);
      assert bytes == bytes[..n] + [bytes[n]];
      PairAddsItsByte(Encode(bytes[..n]), bytes[n]);
    }
  }
}
