/** The payment card check of the data loss scan, ISO/IEC 7812-1 Annex B. */
module Luhn {

  newtype Digit = x: int | 0 <= x < 10 witness 0

  predicate IsDigitChar(c: char) {
    '0' <= c <= '9'
  }

  function ToDigit(c: char): Digit
    requires IsDigitChar(c)
  {
    (c as int - '0' as int) as Digit
  }

  /** `value.replace(/\D/gu, "")`: spaces and hyphens are dropped. */
  function DigitsOf(value: string): (digits: seq<Digit>)
    ensures |digits| <= |value|
  {
    if value == "" then []
    else (if IsDigitChar(value[0]) then [ToDigit(value[0])] else []) + DigitsOf(value[1..])
  }

  /** What a digit adds to the sum: its double with the digits of the double added up, or itself. */
  function Contribution(d: Digit, doubled: bool): int {
    if !doubled then d as int
    else if d < 5 then 2 * d as int
    else 2 * d as int - 9
  }

  /** Every second digit is doubled, counted from the right and starting left of the check digit. */
  function Checksum(digits: seq<Digit>): int {
    if digits == [] then 0
    else Contribution(digits[0], |digits| % 2 == 0) + Checksum(digits[1..])
  }

  predicate IsValidNumber(digits: seq<Digit>) {
    13 <= |digits| <= 19 && Checksum(digits) % 10 == 0
  }

  lemma ChecksumFrom(digits: seq<Digit>, index: nat)
    requires index < |digits|
    ensures Checksum(digits[index..])
            == Contribution(digits[index], (|digits| - index) % 2 == 0) + Checksum(digits[index + 1..])
  {
    assert digits[index..][1..] == digits[index + 1..];
  }

  /** The loop from the right, which flips its flag at each digit, computes the sum of the standard. */
  method PassesLuhn(value: string) returns (passes: bool)
    ensures passes <==> IsValidNumber(DigitsOf(value))
  {
    var digits := DigitsOf(value);
    if |digits| < 13 || |digits| > 19 {
      return false;
    }
    var total, double := 0, false;
    var index := |digits| - 1;
    while index >= 0
      invariant -1 <= index < |digits|
      invariant double <==> (|digits| - 1 - index) % 2 == 1
      invariant total == Checksum(digits[index + 1..])
    {
      var digit := digits[index] as int;
      if double {
        digit := digit * 2;
        if digit > 9 {
          digit := digit - 9;
        }
      }
      ChecksumFrom(digits, index);
      assert digit == Contribution(digits[index], double);
      total := total + digit;
      double := !double;
      index := index - 1;
    }
    assert digits[index + 1..] == digits;
    passes := total % 10 == 0;
  }

  // ----- the sum by position -----

  /**
   The standard's sum over the last `n` digits, place by place from the right: at every second
   place the tens and the units of the doubled digit, elsewhere the digit itself.
   */
  function SumFromRight(digits: seq<Digit>, n: nat): int
    requires n <= |digits|
  {
    if n == 0 then 0
    else
      var d := digits[|digits| - n] as int;
      SumFromRight(digits, n - 1) + (if n % 2 == 0 then 2 * d / 10 + 2 * d % 10 else d)
  }

  lemma ContributionIsDigitSum(d: Digit)
    ensures Contribution(d, true) == 2 * d as int / 10 + 2 * d as int % 10
  {
  }

  lemma {:induction false} ChecksumOfSuffix(digits: seq<Digit>, n: nat)
    requires n <= |digits|
    ensures Checksum(digits[|digits| - n..]) == SumFromRight(digits, n)
    decreases n
  {
    if n > 0 {
      var index := |digits| - n;
      ChecksumOfSuffix(digits, n - 1);
      ChecksumFrom(digits, index);
      ContributionIsDigitSum(digits[index]);
    }
  }

  /** The sum the loop computes is the standard's, so a number passes exactly when that is a multiple of ten. */
  lemma {:induction false} ChecksumIsTheStandardsSum(digits: seq<Digit>)
    ensures Checksum(digits) == SumFromRight(digits, |digits|)
    ensures IsValidNumber(digits) <==> 13 <= |digits| <= 19 && SumFromRight(digits, |digits|) % 10 == 0
  {
    ChecksumOfSuffix(digits, |digits|);
    assert digits[0..] == digits;
  }

  /** 4242 and so on. */
  function FourTwos(n: nat): (digits: seq<Digit>)
    ensures |digits| == 2 * n
  {
    if n == 0 then [] else [4, 2] + FourTwos(n - 1)
  }

  lemma {:induction false} SumOfFourTwos(n: nat)
    ensures Checksum(FourTwos(n)) == 10 * n
    decreases n
  {
    if n > 0 {
      SumOfFourTwos(n - 1);
      var digits, rest := FourTwos(n), FourTwos(n - 1);
      assert digits[1..] == [2] + rest && ([2] + rest)[1..] == rest;
    }
  }

  lemma {:induction false} AllZeros(digits: seq<Digit>)
    requires forall k :: 0 <= k < |digits| ==> digits[k] == 0
    ensures Checksum(digits) == 0
    decreases |digits|
  {
    if digits != [] {
      AllZeros(digits[1..]);
    }
  }

  /** From thirteen zeros to nineteen the number passes; so does the card number 4242 4242 4242 4242. */
  lemma KnownNumbersPass(zeros: seq<Digit>)
    requires 13 <= |zeros| <= 19 && forall k :: 0 <= k < |zeros| ==> zeros[k] == 0
    ensures IsValidNumber(zeros)
    ensures IsValidNumber(FourTwos(8)) && |FourTwos(8)| == 16
    ensures forall k :: 0 <= k < 16 ==> FourTwos(8)[k] == if k % 2 == 0 then 4 else 2
  {
    AllZeros(zeros);
    SumOfFourTwos(8);
    FourTwosAlternate(8);
  }

  lemma {:induction false} FourTwosAlternate(n: nat)
    ensures forall k :: 0 <= k < 2 * n ==> FourTwos(n)[k] == if k % 2 == 0 then 4 else 2
    decreases n
  {
    if n > 0 {
      FourTwosAlternate(n - 1);
      assert forall k :: 2 <= k < 2 * n ==> FourTwos(n)[k] == FourTwos(n - 1)[k - 2];
    }
  }

  // ----- the digits of a text -----

  const DIGITS := "0123456789"

  lemma {:induction false} DigitsOfFirst(c: char, rest: string)
    ensures DigitsOf([c] + rest) == (if IsDigitChar(c) then [ToDigit(c)] else []) + DigitsOf(rest)
  {
    assert ([c] + rest)[1..] == rest;
  }

  lemma {:induction false} DigitsOfAppends(a: string, b: string)
    ensures DigitsOf(a + b) == DigitsOf(a) + DigitsOf(b)
    decreases |a|
  {
    if a == "" {
      assert a + b == b;
    } else {
      var c, rest := a[0], a[1..];
      assert a == [c] + rest && a + b == [c] + (rest + b);
      DigitsOfFirst(c, rest);
      DigitsOfFirst(c, rest + b);
      DigitsOfAppends(rest, b);
    }
  }

  /** A text of digits alone, or of anything but digits, as the digits it shows. */
  lemma {:induction false} DigitsAreRead(digits: seq<Digit>, other: string)
    requires forall i :: 0 <= i < |other| ==> other[i] !in DIGITS
    ensures DigitsOf(seq(|digits|, i requires 0 <= i < |digits| => DIGITS[digits[i]])) == digits
    ensures DigitsOf(other) == []
    decreases |digits| + |other|
  {
    assert forall d: Digit :: DIGITS[d] == ('0' as int + d as int) as char;
    var text := seq(|digits|, i requires 0 <= i < |digits| => DIGITS[digits[i]]);
    if digits != [] {
      DigitsAreRead(digits[1..], "");
      assert text[1..] == seq(|digits[1..]|, i requires 0 <= i < |digits[1..]| => DIGITS[digits[1..][i]]);
      assert ToDigit(text[0]) == digits[0] && digits == [digits[0]] + digits[1..];
    }
    if other != "" {
      DigitsAreRead([], other[1..]);
      NoOtherDigits(other[0]);
    }
  }

  lemma NoOtherDigits(c: char)
    ensures IsDigitChar(c) <==> c in DIGITS
  {
    if IsDigitChar(c) {
      assert DIGITS[c as int - '0' as int] == c;
    }
  }

  // ----- what the sum detects -----

  lemma ContributionsDiffer(c: Digit, d: Digit, doubled: bool)
    ensures (Contribution(c, doubled) - Contribution(d, doubled)) % 10 == 0 <==> c == d
  {
  }

  predicate IsDoubled(digits: seq<Digit>, k: nat) {
    (|digits| - k) % 2 == 0
  }

  lemma {:induction false} ChangeMovesChecksum(digits: seq<Digit>, k: nat, d: Digit)
    requires k < |digits|
    ensures Checksum(digits[k := d]) - Checksum(digits)
         == Contribution(d, IsDoubled(digits, k)) - Contribution(digits[k], IsDoubled(digits, k))
    decreases |digits|
  {
    if k == 0 {
      assert digits[0 := d][1..] == digits[1..];
    } else {
      assert digits[k := d][1..] == digits[1..][k - 1 := d];
      ChangeMovesChecksum(digits[1..], k - 1, d);
    }
  }

  lemma Modulo10(sum: int, shift: int)
    requires sum % 10 == 0
    ensures (sum + shift) % 10 == 0 <==> shift % 10 == 0
  {
  }

  /** One changed digit is always noticed. */
  lemma ChangedDigitIsRejected(digits: seq<Digit>, k: nat, d: Digit)
    requires IsValidNumber(digits) && k < |digits| && d != digits[k]
    ensures !IsValidNumber(digits[k := d])
  {
    ChangeMovesChecksum(digits, k, d);
    ContributionsDiffer(d, digits[k], IsDoubled(digits, k));
    var shift := Contribution(d, IsDoubled(digits, k)) - Contribution(digits[k], IsDoubled(digits, k));
    Modulo10(Checksum(digits), shift);
    assert Checksum(digits[k := d]) == Checksum(digits) + shift;
  }

  function Swapped(digits: seq<Digit>, k: nat): seq<Digit>
    requires k + 1 < |digits|
  {
    digits[k := digits[k + 1]][k + 1 := digits[k]]
  }

  /** What swapping `a` with the `b` to its right adds to the sum, when `a` stands at a doubled place or not. */
  function SwapShift(a: Digit, b: Digit, doubled: bool): int {
    Contribution(b, doubled) - Contribution(a, doubled) + Contribution(a, !doubled) - Contribution(b, !doubled)
  }

  lemma SwapShiftIsSeen(a: Digit, b: Digit, doubled: bool)
    ensures SwapShift(a, b, doubled) % 10 == 0 <==> a == b || (a == 0 && b == 9) || (a == 9 && b == 0)
  {
  }

  lemma {:induction false} SwapMovesChecksum(digits: seq<Digit>, k: nat)
    requires k + 1 < |digits|
    ensures Checksum(Swapped(digits, k))
         == Checksum(digits) + SwapShift(digits[k], digits[k + 1], IsDoubled(digits, k))
    decreases |digits|
  {
    var swapped := Swapped(digits, k);
    if k == 0 {
      assert swapped[1..][1..] == digits[1..][1..];
      assert swapped[1..][0] == digits[0] && swapped[0] == digits[1];
    } else {
      assert swapped[1..] == Swapped(digits[1..], k - 1);
      SwapMovesChecksum(digits[1..], k - 1);
    }
  }

  /** Two swapped neighbours are noticed, except 0 with 9. */
  lemma SwappedDigitsAreRejectedExceptZeroNine(digits: seq<Digit>, k: nat)
    requires IsValidNumber(digits) && k + 1 < |digits|
    ensures var a, b := digits[k], digits[k + 1];
      IsValidNumber(Swapped(digits, k)) <==> a == b || (a == 0 && b == 9) || (a == 9 && b == 0)
  {
    SwapMovesChecksum(digits, k);
    SwapShiftIsSeen(digits[k], digits[k + 1], IsDoubled(digits, k));
    Modulo10(Checksum(digits), SwapShift(digits[k], digits[k + 1], IsDoubled(digits, k)));
  }

  function CheckDigit(prefix: seq<Digit>): Digit {
    ((10 - Checksum(prefix + [0]) % 10) % 10) as Digit
  }

  /** Each prefix of a legal length has exactly one check digit. */
  lemma CheckDigitIsUnique(prefix: seq<Digit>, d: Digit)
    requires 12 <= |prefix| <= 18
    ensures IsValidNumber(prefix + [d]) <==> d == CheckDigit(prefix)
  {
    var zero := prefix + [0];
    ChangeMovesChecksum(zero, |prefix|, d);
    assert zero[|prefix| := d] == prefix + [d];
  }

  // ----- the same, in a text with separators -----

  lemma {:induction false} ChangedCharChangesDigit(value: string, k: nat, c: char)
    requires k < |value| && IsDigitChar(value[k]) && IsDigitChar(c)
    ensures var at := |DigitsOf(value[..k])|;
      && at < |DigitsOf(value)| && DigitsOf(value)[at] == ToDigit(value[k])
      && DigitsOf(value[k := c]) == DigitsOf(value)[at := ToDigit(c)]
  {
    var before, after := value[..k], value[k + 1..];
    assert value == before + ([value[k]] + after) && value[k := c] == before + ([c] + after);
    DigitsOfAppends(before, [value[k]] + after);
    DigitsOfAppends(before, [c] + after);
    DigitsOfFirst(value[k], after);
    DigitsOfFirst(c, after);
  }

  /** A mistyped digit makes an accepted text fail, wherever its spaces and hyphens are. */
  lemma MistypedTextFails(value: string, k: nat, c: char)
    requires k < |value| && IsDigitChar(value[k]) && IsDigitChar(c) && c != value[k]
    requires IsValidNumber(DigitsOf(value))
    ensures !IsValidNumber(DigitsOf(value[k := c]))
  {
    ChangedCharChangesDigit(value, k, c);
    ChangedDigitIsRejected(DigitsOf(value), |DigitsOf(value[..k])|, ToDigit(c));
  }
}
