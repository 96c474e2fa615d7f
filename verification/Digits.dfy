/** Numerals: what the digit printers of src/lib/stdlib.c should produce, and a parser to read it back. */
module Digits {
  import opened Wrappers

  predicate IsBase(base: int) {
    2 <= base <= 16
  }

  function Digit(d: nat, ten: char): char
    requires d < 16 && (ten == 'a' || ten == 'A')
  {
    if d > 9 then (ten as int + d - 10) as char else ('0' as int + d) as char
  }

  // Most significant digit first; zero is one digit. `ten` is the digit for ten.
  function Numeral(v: nat, base: nat, ten: char): (s: string)
    requires IsBase(base) && (ten == 'a' || ten == 'A')
    ensures s != []
    decreases v
  {
    if v < base then [Digit(v, ten)] else Numeral(Quotient(v, base), base, ten) + [Digit(v % base, ten)]
  }

  function Quotient(v: nat, base: nat): (q: nat)
    requires 2 <= base
    ensures 0 < v ==> q < v
    ensures v == q * base + v % base
    ensures q <= v / 2
    ensures q == 0 <==> v < base
  {
    Divided(v, base);
    v / base
  }

  lemma Divided(v: nat, base: nat)
    requires 2 <= base
    ensures 0 <= v / base && v == (v / base) * base + v % base
    ensures v / base <= v / 2 && (v / base == 0 <==> v < base)
  {
    Times(v / base, base);
  }

  // How a product with the base compares to the base.
  lemma Times(q: int, base: nat)
    requires 2 <= base
    ensures 0 <= q ==> 2 * q <= q * base
    ensures 1 <= q ==> base <= q * base
    ensures q < 0 ==> q * base + base <= 0
  {
  }

  // ---------------------------------------------------------------------------------------------
  // The parser

  function DigitValue(c: char): Option<nat> {
    if '0' <= c <= '9' then Some(c as int - '0' as int)
    else if 'a' <= c <= 'f' then Some(c as int - 'a' as int + 10)
    else if 'A' <= c <= 'F' then Some(c as int - 'A' as int + 10)
    else None
  }

  function Parse(s: string, base: nat): (r: Option<int>)
    ensures r.Some? ==> 0 <= r.value
  {
    if s == [] then Some(0)
    else
      var high, low := Parse(s[..|s| - 1], base), DigitValue(s[|s| - 1]);
      if high.Some? && low.Some? && low.value < base then Some(high.value * base + low.value) else None
  }

  // An optional minus sign and at least one digit.
  function ParseSigned(s: string, base: nat): Option<int> {
    if s == [] then None
    else if s[0] != '-' then
      Parse(s, base)
    else if |s| == 1 then None
    else
      var v := Parse(s[1..], base);
      if v.Some? then Some(-v.value) else None
  }

  lemma {:induction false} ParseNumeral(v: nat, base: nat, ten: char)
    requires IsBase(base) && (ten == 'a' || ten == 'A')
    ensures Parse(Numeral(v, base, ten), base) == Some(v)
    decreases v
  {
    hide Parse, DigitValue, Digit, Quotient;
    if v < base {
      ParseMore([], v, base, ten);
      assert [] + [Digit(v, ten)] == [Digit(v, ten)];
    } else {
      ParseNumeral(Quotient(v, base), base, ten);
      ParseMore(Numeral(Quotient(v, base), base, ten), v % base, base, ten);
    }
  }

  // One more digit at the end.
  lemma ParseMore(s: string, d: nat, base: nat, ten: char)
    requires IsBase(base) && (ten == 'a' || ten == 'A') && d < base
    ensures Parse([], base) == Some(0)
    ensures Parse(s + [Digit(d, ten)], base)
            == match Parse(s, base) case None => None case Some(high) => Some(high * base + d)
  {
    assert (s + [Digit(d, ten)])[..|s|] == s;
    assert DigitValue(Digit(d, ten)) == Some(d);
  }

  predicate NoLeadingZero(s: string) {
    s != [] && (s[0] == '0' ==> |s| == 1)
  }

  lemma {:induction false} NumeralStart(v: nat, base: nat, ten: char)
    requires IsBase(base) && (ten == 'a' || ten == 'A')
    ensures NoLeadingZero(Numeral(v, base, ten)) && (Numeral(v, base, ten)[0] == '0' <==> v == 0)
    ensures Numeral(v, base, ten)[0] != '-'
    decreases v
  {
    if v >= base {
      NumeralStart(Quotient(v, base), base, ten);
    }
  }

  function Power2(k: nat): nat {
    if k == 0 then 1 else 2 * Power2(k - 1)
  }

  lemma {:induction false} NumeralLength(v: nat, base: nat, ten: char, k: nat)
    requires IsBase(base) && (ten == 'a' || ten == 'A') && 0 < k && v < Power2(k)
    ensures |Numeral(v, base, ten)| <= k
    decreases k
  {
    if v >= base {
      NumeralLength(Quotient(v, base), base, ten, k - 1);
    }
  }

  lemma Power64()
    ensures Power2(64) == 0x1_0000_0000_0000_0000
  {
    assert Power2(8) == 0x100;
    assert Power2(16) == 0x1_0000;
    assert Power2(24) == 0x100_0000;
    assert Power2(32) == 0x1_0000_0000;
    assert Power2(40) == 0x100_0000_0000;
    assert Power2(48) == 0x1_0000_0000_0000;
    assert Power2(56) == 0x100_0000_0000_0000;
  }

  predicate DigitsOf(s: string, ten: char) {
    forall i :: 0 <= i < |s| ==> '0' <= s[i] <= '9' || 0 <= s[i] as int - ten as int <= 5
  }

  // There is one numeral without leading zeros for each number, so the printed text is the only right one.
  lemma {:induction false} NumeralIsUnique(s: string, base: nat, ten: char)
    requires IsBase(base) && (ten == 'a' || ten == 'A')
    requires NoLeadingZero(s) && DigitsOf(s, ten) && Parse(s, base).Some?
    ensures s == Numeral(Parse(s, base).value, base, ten)
    decreases |s|
  {
    var v := Parse(s, base).value;
    var front, last := s[..|s| - 1], s[|s| - 1];
    var low := DigitValue(last).value;
    assert last == Digit(low, ten);
    if |s| == 1 {
      assert front == [];
    } else {
      var high := Parse(front, base).value;
      NumeralIsUnique(front, base, ten);
      NumeralStart(high, base, ten);
      QuotientOf(high, low, base);
      assert s == front + [last];
    }
  }

  lemma QuotientOf(high: nat, low: nat, base: nat)
    requires 2 <= base && low < base
    ensures Quotient(high * base + low, base) == high && (high * base + low) % base == low
    ensures 0 < high ==> base <= high * base + low
  {
    var v := high * base + low;
    var q, r := Quotient(v, base), v % base;
    Factored(high, q, base);
    if q < high {
      AtLeastOnce(high - q, base);
    } else if q > high {
      AtLeastOnce(q - high, base);
    }
    if 0 < high {
      AtLeastOnce(high, base);
    }
  }

  lemma Factored(a: int, b: int, c: int)
    ensures (a - b) * c == a * c - b * c && (b - a) * c == b * c - a * c
  {
  }

  lemma AtLeastOnce(a: int, b: nat)
    requires 1 <= a
    ensures b <= a * b
  {
  }

  function Lowered(s: string): (r: string)
    ensures |r| == |s|
  {
    seq(|s|, i requires 0 <= i < |s| => if 'A' <= s[i] <= 'F' then (s[i] as int + 32) as char else s[i])
  }

  lemma {:induction false} NumeralInLowerCase(v: nat, base: nat)
    requires IsBase(base)
    ensures Numeral(v, base, 'a') == Lowered(Numeral(v, base, 'A'))
    decreases v
  {
    if v >= base {
      NumeralInLowerCase(Quotient(v, base), base);
    }
  }

  // ---------------------------------------------------------------------------------------------
  // Strings

  function Reversed(s: string): (r: string)
    ensures |r| == |s| && forall i :: 0 <= i < |s| ==> r[i] == s[|s| - 1 - i]
  {
    seq(|s|, i requires 0 <= i < |s| => s[|s| - 1 - i])
  }

  lemma ReversedAppend(s: string, t: string)
    ensures Reversed(s + t) == Reversed(t) + Reversed(s)
  {
  }

  lemma ReversedTwice(s: string)
    ensures Reversed(Reversed(s)) == s
  {
  }
}
