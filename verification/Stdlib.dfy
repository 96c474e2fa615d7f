/** src/lib/stdlib.c: reverse, itoa and itoa64. */
module Stdlib {
  import opened Digits
  import opened Wrappers

  const INT_MIN := -0x8000_0000
  const INT_LIMIT := 0x8000_0000
  const LONG_LIMIT := 0x1_0000_0000_0000_0000

  // ---------------------------------------------------------------------------------------------
  // C strings in arrays

  // The text before the first zero.
  predicate IsText(s: seq<char>, text: string) {
    |text| < |s| && s[..|text|] == text && s[|text|] == '\0' && '\0' !in text
  }

  lemma TextIsNotZero(s: seq<char>, text: string)
    requires IsText(s, text)
    ensures forall k :: 0 <= k < |text| ==> s[k] == text[k] && s[k] != '\0'
  {
    forall k | 0 <= k < |text|
      ensures s[k] == text[k] && s[k] != '\0'
    {
      assert s[..|text|][k] == text[k] && text[k] in text;
    }
  }

  method StrLen(str: array<char>, ghost text: string) returns (i: nat)
    requires IsText(str[..], text)
    ensures i == |text|
  {
    TextIsNotZero(str[..], text);
    i := 0;
    while str[i] != '\0'
      invariant i <= |text|
      decreases |text| - i
    {
      i := i + 1;
    }
  }

  method Reverse(s: array<char>, ghost text: string)
    requires IsText(s[..], text)
    modifies s
    ensures s[..] == Reversed(text) + old(s[|text|..]) && IsText(s[..], Reversed(text))
  {
    ghost var was := s[..];
    var length := StrLen(s, text);
    var i, j := 0, length - 1;
    while i < j
      invariant 0 <= i && i + j == length - 1 && i <= j + 2
      invariant forall k :: 0 <= k < i ==> s[k] == was[length - 1 - k] && s[length - 1 - k] == was[k]
      invariant forall k :: i <= k <= j ==> s[k] == was[k]
      invariant forall k :: length <= k < s.Length ==> s[k] == was[k]
      decreases j - i
    {
      var c := s[i];
      s[i] := s[j];
      s[j] := c;
      i, j := i + 1, j - 1;
    }
    forall k | 0 <= k < length
      ensures s[k] == Reversed(text)[k]
    {
      assert text[length - 1 - k] == was[..length][length - 1 - k];
    }
    assert s[..] == Reversed(text) + was[length..];
    NoZeroReversed(text);
  }

  lemma NoZeroReversed(text: string)
    requires '\0' !in text
    ensures '\0' !in Reversed(text)
  {
    var r := Reversed(text);
    forall i | 0 <= i < |r|
      ensures r[i] != '\0'
    {
      assert text[|text| - 1 - i] in text;
    }
  }

  // ---------------------------------------------------------------------------------------------
  // itoa64

  // What is left to be found of the digits; nothing for zero.
  function Rest(v: nat, base: nat, ten: char): string
    requires IsBase(base) && (ten == 'a' || ten == 'A')
  {
    if v == 0 then [] else Reversed(Numeral(v, base, ten))
  }

  lemma RestStep(v: nat, base: nat, ten: char)
    requires IsBase(base) && (ten == 'a' || ten == 'A') && 0 < v
    ensures Rest(v, base, ten) == [Digit(v % base, ten)] + Rest(Quotient(v, base), base, ten)
  {
    hide Quotient;
    if v >= base {
      ReversedAppend(Numeral(Quotient(v, base), base, ten), [Digit(v % base, ten)]);
    }
  }

  // The digits that itoa64 looks up.
  lemma DigitTable(d: nat)
    requires d < 16
    ensures "0123456789ABCDEF"[d] == Digit(d, 'A')
  {
  }

  // The last digit, and what is left without it.
  function LastDigit(v: nat, base: int): char
    requires IsBase(base)
  {
    Digit(v % base, 'A')
  }

  function WithoutLast(v: nat, base: int): nat
    requires IsBase(base)
  {
    Quotient(v, base)
  }

  // One turn of the first loop of itoa64.
  method NextDigit(v: nat, base: int) returns (c: char, next: nat)
    requires IsBase(base) && 0 < v
    ensures c == LastDigit(v, base) && next == WithoutLast(v, base) && next < v
  {
    var digits := "0123456789ABCDEF";
    DigitTable(v % base);
    c := digits[v % base];
    next := Quotient(v, base);
  }

  // The digits of v are still missing behind those found so far.
  ghost predicate Found(value: nat, base: nat, done: string, v: nat)
    requires IsBase(base)
  {
    Rest(value, base, 'A') == done + Rest(v, base, 'A')
  }

  lemma FoundNone(value: nat, base: nat)
    requires IsBase(base)
    ensures Found(value, base, "", value)
  {
  }

  lemma FoundOne(value: nat, base: nat, done: string, v: nat)
    requires IsBase(base) && Found(value, base, done, v) && 0 < v
    ensures Found(value, base, done + [LastDigit(v, base)], WithoutLast(v, base)) && |done| < |Rest(value, base, 'A')|
  {
    hide Rest, Digit, Quotient;
    RestStep(v, base, 'A');
    OneMoveOver(Rest(value, base, 'A'), done, Digit(v % base, 'A'), Rest(Quotient(v, base), base, 'A'));
  }

  lemma OneMoveOver(all: string, done: string, c: char, left: string)
    requires all == done + ([c] + left)
    ensures all == done + [c] + left && |done| < |all|
  {
  }

  lemma FoundAll(value: nat, base: nat, done: string)
    requires IsBase(base) && Found(value, base, done, 0)
    ensures done == Rest(value, base, 'A')
  {
  }

  // The first loop: `done` are the digits found so far.
  method FindDigits(value: nat, temp: array<char>, base: int) returns (i: nat)
    requires IsBase(base) && |Rest(value, base, 'A')| <= temp.Length
    modifies temp
    ensures i == |Rest(value, base, 'A')| && temp[..i] == Rest(value, base, 'A')
  {
    hide Rest, LastDigit, WithoutLast, Found;
    i := 0;
    var v: nat := value;
    ghost var done := "";
    FoundNone(value, base);
    while v != 0
      invariant Found(value, base, done, v) && i == |done| <= temp.Length && temp[..i] == done
      decreases v
    {
      FoundOne(value, base, done, v);
      var c, next := NextDigit(v, base);
      temp[i] := c;
      i, v, done := i + 1, next, done + [c];
    }
    FoundAll(value, base, done);
  }

  // The second loop: the digits go to the buffer in reverse.
  method CopyBack(temp: array<char>, count: nat, buffer: array<char>) returns (j: nat)
    requires count <= temp.Length && count <= buffer.Length && temp != buffer
    modifies buffer
    ensures j == count && buffer[..] == Reversed(temp[..count]) + old(buffer[..])[count..]
  {
    var i := count;
    ghost var was := buffer[..];
    j := 0;
    while i > 0
      invariant 0 <= i && i + j == count
      invariant forall k :: 0 <= k < j ==> buffer[k] == temp[count - 1 - k]
      invariant forall k :: j <= k < buffer.Length ==> buffer[k] == was[k]
    {
      i := i - 1;
      buffer[j] := temp[i];
      j := j + 1;
    }
    assert buffer[..] == Reversed(temp[..count]) + was[count..];
  }

  method Itoa64(value: nat, buffer: array<char>, base: int)
    requires value < LONG_LIMIT && IsBase(base) && |Numeral(value, base, 'A')| < buffer.Length
    modifies buffer
    ensures buffer[..] == Numeral(value, base, 'A') + ['\0'] + old(buffer[..])[|Numeral(value, base, 'A')| + 1..]
  {
    var temp := new char[65];
    if value == 0 {
      buffer[0] := '0';
      buffer[1] := '\0';
      return;
    }
    hide Numeral, Reversed;
    Power64();
    NumeralLength(value, base, 'A', 64);
    SameLength(Numeral(value, base, 'A'));
    ReversedTwice(Numeral(value, base, 'A'));
    var i := FindDigits(value, temp, base);
    var j := CopyBack(temp, i, buffer);
    buffer[j] := '\0';
  }

  lemma SameLength(s: string)
    ensures |Reversed(s)| == |s|
  {
  }

  // What a caller gets: a terminated string that parses back to the value, of at most 64 digits and
  // without leading zeros.
  lemma Itoa64RoundTrip(value: nat, base: int)
    requires value < LONG_LIMIT && IsBase(base)
    ensures var text := Numeral(value, base, 'A');
            Parse(text, base) == Some(value) && NoLeadingZero(text) && |text| <= 64
  {
    Power64();
    ParseNumeral(value, base, 'A');
    NumeralStart(value, base, 'A');
    NumeralLength(value, base, 'A', 64);
  }

  // ---------------------------------------------------------------------------------------------
  // itoa

  // Division and remainder of signed integers, towards zero.
  function TruncatedQuotient(a: int, b: nat): (q: int)
    requires 2 <= b
    ensures a < 0 ==> a < q <= 0
    ensures 0 < a ==> 0 <= q < a
    ensures a == 0 ==> q == 0
  {
    var q: int := Quotient(if a >= 0 then a else -a, b);
    if a >= 0 then q else -q
  }

  function TruncatedRemainder(a: int, b: nat): (r: int)
    requires 2 <= b
    ensures a < 0 ==> -r < b && r <= 0
    ensures 0 <= a ==> 0 <= r < b
  {
    if a >= 0 then a % b else -((-a) % b)
  }

  lemma DivisionIsExact(a: int, b: nat)
    requires 2 <= b
    ensures a == TruncatedQuotient(a, b) * b + TruncatedRemainder(a, b)
    ensures TruncatedQuotient(-a, b) == -TruncatedQuotient(a, b)
    ensures TruncatedRemainder(-a, b) == -TruncatedRemainder(a, b)
  {
    var q := Quotient(if a >= 0 then a else -a, b);
    assert -q * b == -(q * b);
  }

  // -value in 32 bits
  function Negated(value: int): int {
    if value == INT_MIN then INT_MIN else -value
  }

  function RemainderChar(rem: int): char
    requires -16 < rem < 16
  {
    if rem > 9 then (rem - 10 + 'a' as int) as char else (rem + '0' as int) as char
  }

  // The characters that the loop of itoa stores, in that order.
  function Stored(v: int, base: int): (s: string)
    requires IsBase(base)
    ensures s != [] && '\0' !in s
    decreases if v < 0 then -v else v
  {
    var c, q := RemainderChar(TruncatedRemainder(v, base)), TruncatedQuotient(v, base);
    if q == 0 then [c] else [c] + Stored(q, base)
  }

  predicate Signed(value: int, base: int) {
    value < 0 && base == 10
  }

  function ItoaText(value: int, base: int): string
    requires IsBase(base)
  {
    if Signed(value, base) then "-" + Reversed(Stored(Negated(value), base)) else Reversed(Stored(value, base))
  }

  lemma {:induction false} StoredIsNumeral(v: nat, base: int)
    requires IsBase(base)
    ensures Reversed(Stored(v, base)) == Numeral(v, base, 'a')
    decreases v
  {
    if v >= base {
      StoredIsNumeral(Quotient(v, base), base);
      ReversedAppend([Digit(v % base, 'a')], Stored(Quotient(v, base), base));
    }
  }

  // The digits of a negative number that was not negated are zeros and characters that are no digits.
  lemma {:induction false} StoredOfNegative(v: int, base: int)
    requires IsBase(base) && v < 0
    ensures forall i :: 0 <= i < |Stored(v, base)| ==> Stored(v, base)[i] <= '0'
    decreases -v
  {
    if TruncatedQuotient(v, base) != 0 {
      StoredOfNegative(TruncatedQuotient(v, base), base);
    }
  }

  // Where a negative number is printed without its sign, each digit d gives the character d places below '0'.
  lemma {:induction false} NegativeIsMirrored(v: int, base: int, i: nat)
    requires IsBase(base) && v < 0 && i < |Stored(-v, base)|
    ensures |Stored(v, base)| == |Stored(-v, base)| && DigitValue(Stored(-v, base)[i]).Some?
    ensures Stored(v, base)[i] as int == '0' as int - DigitValue(Stored(-v, base)[i]).value
    decreases -v
  {
    var q := TruncatedQuotient(v, base);
    DivisionIsExact(v, base);
    if q != 0 {
      assert Stored(v, base)[1..] == Stored(q, base) && Stored(-v, base)[1..] == Stored(-q, base);
      NegativeIsMirrored(q, base, if i > 0 then i - 1 else 0);
    }
  }

  // So what itoa prints for a negative number in another base than 10, or behind a minus sign for the smallest int.
  lemma MirroredText(value: int, base: int, i: nat)
    requires IsBase(base) && value < 0 && (base != 10 || value == INT_MIN) && i < |Numeral(-value, base, 'a')|
    ensures var numeral, text, sign := Numeral(-value, base, 'a'), ItoaText(value, base), if base == 10 then 1 else 0;
            && |text| == sign + |numeral| && (base == 10 ==> text[0] == '-') && DigitValue(numeral[i]).Some?
            && text[sign + i] as int == '0' as int - DigitValue(numeral[i]).value
  {
    hide Stored, Numeral, DigitValue;
    StoredIsNumeral(-value, base);
    NegativeIsMirrored(value, base, |Stored(-value, base)| - 1 - i);
  }

  lemma {:induction false} OnlyZeros(s: string, base: int)
    requires IsBase(base) && (forall i :: 0 <= i < |s| ==> s[i] <= '0') && Parse(s, base).Some?
    ensures Parse(s, base).value == 0
    decreases |s|
  {
    if s != [] {
      OnlyZeros(s[..|s| - 1], base);
    }
  }

  // itoa prints what parses back to its argument exactly for the numbers that are not negative and, in
  // base 10, for every number but the smallest.
  lemma ItoaRoundTripIff(value: int, base: int)
    requires INT_MIN <= value < INT_LIMIT && IsBase(base)
    ensures ParseSigned(ItoaText(value, base), base) == Some(value) <==> 0 <= value || (base == 10 && INT_MIN < value)
  {
    hide Stored, Parse;
    var v := if Signed(value, base) then Negated(value) else value;
    var text := Reversed(Stored(v, base));
    assert Signed(value, base) ==> ItoaText(value, base)[1..] == text;
    assert !Signed(value, base) ==> ItoaText(value, base) == text;
    if 0 <= v {
      StoredIsNumeral(v, base);
      ParseNumeral(v, base, 'a');
      NumeralStart(v, base, 'a');
    } else {
      StoredOfNegative(v, base);
      if Parse(text, base).Some? {
        OnlyZeros(text, base);
      }
      if Parse(text[1..], base).Some? {
        OnlyZeros(text[1..], base);
      }
    }
  }

  // On the numbers that both take, the two printers differ in the case of letters only.
  lemma PrintersAgree(value: int, base: int)
    requires 0 <= value < INT_LIMIT && IsBase(base)
    ensures ItoaText(value, base) == Lowered(Numeral(value, base, 'A'))
  {
    StoredIsNumeral(value, base);
    NumeralInLowerCase(value, base);
  }

  // The character that the loop of itoa stores for v, and the value of its next turn.
  function StoredChar(v: int, base: int): char
    requires IsBase(base)
  {
    RemainderChar(TruncatedRemainder(v, base))
  }

  function NextValue(v: int, base: int): int
    requires IsBase(base)
  {
    TruncatedQuotient(v, base)
  }

  // One turn of that loop.
  method NextChar(v: int, base: int) returns (c: char, next: int)
    requires IsBase(base)
    ensures c == StoredChar(v, base) && next == NextValue(v, base)
    ensures v < 0 ==> v < next <= 0
    ensures 0 <= v && next != 0 ==> 0 < next < v
  {
    var rem := TruncatedRemainder(v, base);
    c := RemainderChar(rem);
    next := TruncatedQuotient(v, base);
  }

  // The characters for v are still missing behind those stored so far.
  ghost predicate Storing(value: int, base: int, done: string, v: int)
    requires IsBase(base)
  {
    Stored(value, base) == done + Stored(v, base)
  }

  lemma StoringNone(value: int, base: int)
    requires IsBase(base)
    ensures Storing(value, base, "", value)
  {
  }

  lemma StoringOne(value: int, base: int, done: string, v: int)
    requires IsBase(base) && Storing(value, base, done, v)
    ensures |done| < |Stored(value, base)|
    ensures var more, next := done + [StoredChar(v, base)], NextValue(v, base);
            if next == 0 then Stored(value, base) == more else Storing(value, base, more, next)
  {
    hide StoredChar, NextValue;
    StoredFrom(v, base);
    if NextValue(v, base) != 0 {
      OneMoveOver(Stored(value, base), done, StoredChar(v, base), Stored(NextValue(v, base), base));
    }
  }

  lemma StoredFrom(v: int, base: int)
    requires IsBase(base)
    ensures var c, next := StoredChar(v, base), NextValue(v, base);
            Stored(v, base) == if next == 0 then [c] else [c] + Stored(next, base)
  {
  }

  // The array holds `done`, and behind it what it held before.
  ghost predicate HoldsText(str: array<char>, done: string, was: string)
    reads str
  {
    |done| <= |was| == str.Length && str[..] == done + was[|done|..]
  }

  method StoreBehind(str: array<char>, i: nat, c: char, ghost done: string, ghost was: string)
    requires HoldsText(str, done, was) && i == |done| < str.Length
    modifies str
    ensures HoldsText(str, done + [c], was)
  {
    Replaced(done, was[i..], c);
    str[i] := c;
  }

  // The loop of itoa: `done` are the characters stored so far.
  method StoreDigits(value: int, str: array<char>, base: int) returns (i: nat)
    requires IsBase(base) && |Stored(value, base)| < str.Length
    modifies str
    ensures i == |Stored(value, base)| && HoldsText(str, Stored(value, base), old(str[..]))
  {
    hide Stored, StoredChar, NextValue, Storing;
    i := 0;
    var v := value;
    ghost var done, was := "", str[..];
    StoringNone(value, base);
    assert HoldsText(str, done, was);
    hide HoldsText;
    while true
      invariant Storing(value, base, done, v) && i == |done| && HoldsText(str, done, was)
      decreases if v < 0 then -v else v
    {
      StoringOne(value, base, done, v);
      var c, next := NextChar(v, base);
      StoreBehind(str, i, c, done, was);
      i, v, done := i + 1, next, done + [c];
      if v == 0 {
        break;
      }
    }
  }

  method Itoa(value: int, str: array<char>, base: int)
    requires INT_MIN <= value < INT_LIMIT && IsBase(base) && |ItoaText(value, base)| < str.Length
    modifies str
    ensures str[..] == ItoaText(value, base) + ['\0'] + old(str[..])[|ItoaText(value, base)| + 1..]
  {
    hide Stored, Reversed, ItoaText;
    ItoaTextIs(value, base);
    var isNegative := false;
    var v := value;
    if v < 0 && base == 10 {
      isNegative := true;
      v := Negated(v);
    }
    ghost var stored, was := Stored(v, base), str[..];
    NoZeroIn(stored, isNegative);
    var i := StoreDigits(v, str, base);
    i := StoreSign(str, i, isNegative, stored, was);
    Finish(str, i, stored + if isNegative then "-" else "", was);
  }

  method StoreSign(str: array<char>, count: nat, isNegative: bool, ghost stored: string, ghost was: string)
    returns (i: nat)
    requires HoldsText(str, stored, was) && count == |stored| && (isNegative ==> count < str.Length)
    modifies str
    ensures var text := stored + if isNegative then "-" else ""; i == |text| && HoldsText(str, text, was)
  {
    i := count;
    if isNegative {
      StoreBehind(str, i, '-', stored, was);
      i := i + 1;
    } else {
      assert stored + "" == stored;
    }
  }

  // The zero behind the text, then the text turned round.
  method Finish(str: array<char>, i: nat, ghost text: string, ghost was: string)
    requires HoldsText(str, text, was) && i == |text| < str.Length && '\0' !in text
    modifies str
    ensures str[..] == Reversed(text) + ['\0'] + was[i + 1..]
  {
    hide Reversed;
    Replaced(text, was[i..], '\0');
    str[i] := '\0';
    Reverse(str, text);
  }

  // Storing one more character after some text.
  lemma Replaced(text: string, tail: string, c: char)
    requires tail != []
    ensures (text + tail)[|text| := c] == text + [c] + tail[1..]
    ensures var after := text + [c] + tail[1..];
            c == '\0' && '\0' !in text ==> IsText(after, text) && after[|text|..] == [c] + tail[1..]
  {
  }

  lemma NoZeroIn(stored: string, isNegative: bool)
    requires '\0' !in stored
    ensures '\0' !in stored + if isNegative then "-" else ""
  {
  }

  lemma ItoaTextIs(value: int, base: int)
    requires IsBase(base)
    ensures var stored := Stored(if Signed(value, base) then Negated(value) else value, base);
            var text := stored + if Signed(value, base) then "-" else "";
            ItoaText(value, base) == Reversed(text) && |ItoaText(value, base)| == |text|
  {
    hide Stored;
    if Signed(value, base) {
      ReversedAppend(Stored(Negated(value), base), "-");
    } else {
      assert Stored(value, base) + "" == Stored(value, base);
    }
  }
}
