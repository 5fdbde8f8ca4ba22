/**
 `toString("base64")`, section 4 of RFC 4648, and `Buffer.from(text, "base64")`, which
 stops at padding, skips characters outside the alphabet and also reads the URL alphabet.
 */
module Base64 {
  import opened Prelude

  newtype Sextet = x: int | 0 <= x < 64 witness 0

  function Letter(n: Sextet): char {
    if n < 26 then ('A' as int + n as int) as char
    else if n < 52 then ('a' as int + n as int - 26) as char
    else if n < 62 then ('0' as int + n as int - 52) as char
    else if n == 62 then '+' else '/'
  }

  function SextetOf(c: char): Option<Sextet> {
    if 'A' <= c <= 'Z' then Some((c as int - 'A' as int) as Sextet)
    else if 'a' <= c <= 'z' then Some((c as int - 'a' as int + 26) as Sextet)
    else if '0' <= c <= '9' then Some((c as int - '0' as int + 52) as Sextet)
    else if c == '+' || c == '-' then Some(62)
    else if c == '/' || c == '_' then Some(63)
    else None
  }

  // The four sextets of three bytes.
  function S0(a: Byte): Sextet { (a as int / 4) as Sextet }
  function S1(a: Byte, b: Byte): Sextet { (a as int % 4 * 16 + b as int / 16) as Sextet }
  function S2(b: Byte, c: Byte): Sextet { (b as int % 16 * 4 + c as int / 64) as Sextet }
  function S3(c: Byte): Sextet { (c as int % 64) as Sextet }

  // The three bytes of four sextets.
  function B0(p: Sextet, q: Sextet): Byte { (p as int * 4 + q as int / 16) as Byte }
  function B1(q: Sextet, r: Sextet): Byte { (q as int % 16 * 16 + r as int / 4) as Byte }
  function B2(r: Sextet, s: Sextet): Byte { (r as int % 4 * 64 + s as int) as Byte }

  /** Three bytes become four sextets; a rest of one or two bytes is filled up with zero bits. */
  function Split(bytes: seq<Byte>): seq<Sextet> {
    if |bytes| == 0 then []
    else if |bytes| == 1 then [S0(bytes[0]), S1(bytes[0], 0)]
    else if |bytes| == 2 then [S0(bytes[0]), S1(bytes[0], bytes[1]), S2(bytes[1], 0)]
    else [S0(bytes[0]), S1(bytes[0], bytes[1]), S2(bytes[1], bytes[2]), S3(bytes[2])] + Split(bytes[3..])
  }

  function Letters(v: seq<Sextet>): string {
    if v == [] then "" else [Letter(v[0])] + Letters(v[1..])
  }

  function Padding(size: nat): string {
    if size % 3 == 1 then "==" else if size % 3 == 2 then "=" else ""
  }

  function Encode(bytes: seq<Byte>): string {
    Letters(Split(bytes)) + Padding(|bytes|)
  }

  function Sextets(text: string): seq<Sextet> {
    if text == "" || text[0] == '=' then []
    else if SextetOf(text[0]).None? then Sextets(text[1..])
    else [SextetOf(text[0]).value] + Sextets(text[1..])
  }

  function Pack(v: seq<Sextet>): seq<Byte> {
    if |v| < 2 then []
    else if |v| == 2 then [B0(v[0], v[1])]
    else if |v| == 3 then [B0(v[0], v[1]), B1(v[1], v[2])]
    else [B0(v[0], v[1]), B1(v[1], v[2]), B2(v[2], v[3])] + Pack(v[4..])
  }

  function Decode(text: string): seq<Byte> {
    Pack(Sextets(text))
  }

  lemma LetterReads(n: Sextet)
    ensures SextetOf(Letter(n)) == Some(n) && Letter(n) != '='
  {
  }

  lemma BytesComeBack(a: Byte, b: Byte, c: Byte)
    ensures B0(S0(a), S1(a, b)) == a && B1(S1(a, b), S2(b, c)) == b && B2(S2(b, c), S3(c)) == c
  {
  }

  lemma {:induction false} SextetsUndoLetters(v: seq<Sextet>, size: nat)
    ensures Sextets(Letters(v) + Padding(size)) == v
    decreases |v|
  {
    var text := Letters(v) + Padding(size);
    if v == [] {
      assert text == Padding(size);
    } else {
      LetterReads(v[0]);
      assert text[1..] == Letters(v[1..]) + Padding(size);
      SextetsUndoLetters(v[1..], size);
      assert v == [v[0]] + v[1..];
    }
  }

  lemma ShortPacks(p: Sextet, q: Sextet, r: Sextet)
    ensures Pack([p, q]) == [B0(p, q)] && Pack([p, q, r]) == [B0(p, q), B1(q, r)]
  {
  }

  lemma ShortGroups(a: Byte, b: Byte)
    ensures Pack([S0(a), S1(a, 0)]) == [a]
    ensures Pack([S0(a), S1(a, b), S2(b, 0)]) == [a, b]
  {
    var p, q0, q, r := S0(a), S1(a, 0), S1(a, b), S2(b, 0);
    assert B0(p, q0) == a by { BytesComeBack(a, 0, 0); }
    assert B0(p, q) == a && B1(q, r) == b by { BytesComeBack(a, b, 0); }
    ShortPacks(p, q0, r);
    ShortPacks(p, q, r);
  }

  lemma {:induction false} WholeGroup(a: Byte, b: Byte, c: Byte, rest: seq<Sextet>)
    ensures Pack([S0(a), S1(a, b), S2(b, c), S3(c)] + rest) == [a, b, c] + Pack(rest)
  {
    BytesComeBack(a, b, c);
    var v := [S0(a), S1(a, b), S2(b, c), S3(c)] + rest;
    assert v[4..] == rest;
  }

  lemma {:induction false} PackUndoesSplit(bytes: seq<Byte>)
    ensures Pack(Split(bytes)) == bytes
    decreases |bytes|
  {
    if |bytes| == 1 {
      ShortGroups(bytes[0], 0);
      assert bytes == [bytes[0]];
    } else if |bytes| == 2 {
      ShortGroups(bytes[0], bytes[1]);
      assert bytes == [bytes[0], bytes[1]];
    } else if |bytes| >= 3 {
      WholeGroup(bytes[0], bytes[1], bytes[2], Split(bytes[3..]));
      PackUndoesSplit(bytes[3..]);
      assert bytes == [bytes[0], bytes[1], bytes[2]] + bytes[3..];
    }
  }

  /** Decoding undoes encoding, padding included. */
  lemma DecodeUndoesEncode(bytes: seq<Byte>)
    ensures Decode(Encode(bytes)) == bytes
  {
    SextetsUndoLetters(Split(bytes), |bytes|);
    PackUndoesSplit(bytes);
  }

  // ----- the standard alphabet, and texts that are encodings -----

  const UPPER := "ABCDEFGHIJKLMNOPQRSTUVWXYZ"
  const LOWER := "abcdefghijklmnopqrstuvwxyz"
  const DIGITS := "0123456789"
  const ALPHABET := UPPER + LOWER + DIGITS + "+/"

  lemma UpperAt(n: nat)
    requires n < 26
    ensures UPPER[n] == ('A' as int + n) as char
  {
  }

  lemma LowerAt(n: nat)
    requires n < 26
    ensures LOWER[n] == ('a' as int + n) as char
  {
  }

  lemma DigitAt(n: nat)
    requires n < 10
    ensures DIGITS[n] == ('0' as int + n) as char
  {
  }

  lemma UpperExactly(c: char)
    ensures c in UPPER <==> 'A' <= c <= 'Z'
  {
    if 'A' <= c <= 'Z' {
      UpperAt(c as int - 'A' as int);
    }
  }

  lemma LowerExactly(c: char)
    ensures c in LOWER <==> 'a' <= c <= 'z'
  {
    if 'a' <= c <= 'z' {
      LowerAt(c as int - 'a' as int);
    }
  }

  lemma DigitExactly(c: char)
    ensures c in DIGITS <==> '0' <= c <= '9'
  {
    if '0' <= c <= '9' {
      DigitAt(c as int - '0' as int);
    }
  }

  lemma LetterIsStandard(n: Sextet)
    ensures |ALPHABET| == 64 && Letter(n) == ALPHABET[n]
  {
    if n < 26 {
      UpperAt(n as nat);
    } else if n < 52 {
      LowerAt(n as nat - 26);
    } else if n < 62 {
      DigitAt(n as nat - 52);
    }
  }

  /** Three bytes and their four sextets spell the same number. */
  lemma GroupsSpellTheSame(a: Byte, b: Byte, c: Byte)
    ensures ((S0(a) as int * 64 + S1(a, b) as int) * 64 + S2(b, c) as int) * 64 + S3(c) as int
         == (a as int * 256 + b as int) * 256 + c as int
  {
  }

  lemma SextetsComeBack(p: Sextet, q: Sextet, r: Sextet, s: Sextet)
    ensures S0(B0(p, q)) == p && S1(B0(p, q), B1(q, r)) == q && S2(B1(q, r), B2(r, s)) == r && S3(B2(r, s)) == s
    ensures q as int % 16 == 0 ==> S1(B0(p, q), 0) == q
    ensures r as int % 4 == 0 ==> S2(B1(q, r), 0) == r
  {
  }

  /** The sextets of an encoding: groups of four, or a last two or three whose unused bits are zero. */
  predicate AreCanonical(v: seq<Sextet>) {
    if |v| == 0 then true
    else if |v| == 1 then false
    else if |v| == 2 then v[1] as int % 16 == 0
    else if |v| == 3 then v[2] as int % 4 == 0
    else AreCanonical(v[4..])
  }

  function PaddingAfter(sextets: nat): string {
    if sextets % 4 == 2 then "==" else if sextets % 4 == 3 then "=" else ""
  }

  lemma {:induction false} WholeGroupBack(p: Sextet, q: Sextet, r: Sextet, s: Sextet, rest: seq<Sextet>)
    ensures var bytes := Pack([p, q, r, s] + rest);
      && |bytes| == 3 + |Pack(rest)| && Split(bytes) == [p, q, r, s] + Split(Pack(rest))
  {
    var v := [p, q, r, s] + rest;
    assert v[4..] == rest;
    SextetsComeBack(p, q, r, s);
    assert Pack(v) == [B0(p, q), B1(q, r), B2(r, s)] + Pack(rest);
    assert Pack(v)[3..] == Pack(rest);
  }

  lemma ShortGroupsBack(p: Sextet, q: Sextet, r: Sextet)
    ensures q as int % 16 == 0 ==> Split(Pack([p, q])) == [p, q] && |Pack([p, q])| == 1
    ensures r as int % 4 == 0 ==> Split(Pack([p, q, r])) == [p, q, r] && |Pack([p, q, r])| == 2
  {
    ShortPacks(p, q, r);
    SextetsComeBack(p, q, r, 0);
  }

  lemma PaddingOfGroups(bytes: nat, sextets: nat)
    ensures Padding(bytes) == PaddingAfter(sextets) ==> Padding(3 + bytes) == PaddingAfter(4 + sextets)
  {
    assert (3 + bytes) % 3 == bytes % 3 && (4 + sextets) % 4 == sextets % 4;
  }

  lemma {:induction false} SplitUndoesPack(v: seq<Sextet>)
    requires AreCanonical(v)
    ensures Split(Pack(v)) == v && Padding(|Pack(v)|) == PaddingAfter(|v|)
    decreases |v|
  {
    if |v| == 2 {
      assert v == [v[0], v[1]];
      ShortGroupsBack(v[0], v[1], 0);
    } else if |v| == 3 {
      assert v == [v[0], v[1], v[2]];
      ShortGroupsBack(v[0], v[1], v[2]);
    } else if |v| >= 4 {
      var rest := v[4..];
      SplitUndoesPack(rest);
      assert v == [v[0], v[1], v[2], v[3]] + rest;
      WholeGroupBack(v[0], v[1], v[2], v[3], rest);
      PaddingOfGroups(|Pack(rest)|, |rest|);
    }
  }

  /** A text of the standard alphabet with its padding, and with nothing in the unused bits. */
  ghost predicate IsEncoding(text: string, v: seq<Sextet>) {
    && AreCanonical(v) && |text| % 4 == 0 && |v| <= |text|
    && (forall i :: 0 <= i < |v| ==> text[i] == ALPHABET[v[i]])
    && text[|v|..] == PaddingAfter(|v|)
  }

  lemma {:induction false} LettersAt(v: seq<Sextet>)
    ensures |Letters(v)| == |v| && forall i :: 0 <= i < |v| ==> Letters(v)[i] == ALPHABET[v[i]]
    decreases |v|
  {
    if v != [] {
      var more := Letters(v[1..]);
      LettersAt(v[1..]);
      LetterIsStandard(v[0]);
      assert Letters(v) == [Letter(v[0])] + more;
      forall i | 1 <= i < |v| ensures Letters(v)[i] == ALPHABET[v[i]] {
        assert Letters(v)[i] == more[i - 1] && v[1..][i - 1] == v[i];
      }
    }
  }

  /** Every such text is the encoding of what it decodes to: no two canonical texts stand for the same bytes. */
  lemma EncodeUndoesDecode(text: string, v: seq<Sextet>)
    requires IsEncoding(text, v)
    ensures Encode(Decode(text)) == text
  {
    LettersAt(v);
    SplitUndoesPack(v);
    assert text == Letters(v) + text[|v|..] by {
      assert text == text[..|v|] + text[|v|..];
      assert text[..|v|] == Letters(v);
    }
    SextetsUndoLetters(v, |Pack(v)|);
  }

  lemma {:induction false} GroupIsCanonical(group: seq<Sextet>, more: seq<Sextet>)
    requires |group| == 4
    ensures AreCanonical(group + more) <==> AreCanonical(more)
    ensures |group + more| % 4 == |more| % 4 && PaddingAfter(|group + more|) == PaddingAfter(|more|)
  {
    assert (group + more)[4..] == more;
  }

  lemma {:induction false} SplitIsCanonical(bytes: seq<Byte>)
    ensures AreCanonical(Split(bytes)) && PaddingAfter(|Split(bytes)|) == Padding(|bytes|)
    ensures |Split(bytes)| % 4 != 1
    decreases |bytes|
  {
    if |bytes| >= 3 {
      SplitIsCanonical(bytes[3..]);
      var group := [S0(bytes[0]), S1(bytes[0], bytes[1]), S2(bytes[1], bytes[2]), S3(bytes[2])];
      GroupIsCanonical(group, Split(bytes[3..]));
    }
  }

  lemma PaddedLength(n: nat)
    requires n % 4 != 1
    ensures (n + |PaddingAfter(n)|) % 4 == 0
  {
  }

  /** And every encoding is such a text. */
  lemma {:induction false} EncodingsAreCanonical(bytes: seq<Byte>)
    ensures IsEncoding(Encode(bytes), Split(bytes))
  {
    var v, text := Split(bytes), Encode(bytes);
    LettersAt(v);
    SplitIsCanonical(bytes);
    PaddedLength(|v|);
    assert text[|v|..] == Padding(|bytes|);
    forall i | 0 <= i < |v| ensures text[i] == ALPHABET[v[i]] {
      assert text[i] == Letters(v)[i];
    }
  }
}
