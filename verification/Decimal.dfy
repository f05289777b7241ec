/** Decimal notation: the number a string of digits denotes, and the numeral of a number. */
module Decimal {
  import opened Sequences

  predicate IsDigit(c: char)
  {
    '0' <= c <= '9'
  }

  /** isspace in the C locale. */
  predicate IsSpace(c: char)
  {
    c == ' ' || 9 <= c as int <= 13
  }

  predicate AllDigits(s: string)
  {
    forall k :: 0 <= k < |s| ==> IsDigit(s[k])
  }

  function DigitValue(c: char): (d: nat)
    requires IsDigit(c)
    ensures d < 10
  {
    c as int - '0' as int
  }

  /** The number that digits denote in positional notation; no digits denote zero. */
  function Value(s: string): nat
    requires AllDigits(s)
  {
    if s == [] then 0 else 10 * Value(s[..|s| - 1]) + DigitValue(s[|s| - 1])
  }

  function StripZeros(s: string): (r: string)
    ensures AllDigits(s) ==> AllDigits(r)
    ensures r != [] ==> r[0] != '0'
  {
    if s != [] && s[0] == '0' then StripZeros(s[1..]) else s
  }

  /** The numeral of `n`, without leading zeros. */
  function Numeral(n: nat): (s: string)
    ensures s != [] && AllDigits(s)
  {
    if n < 10 then ['0' + n as char] else Numeral(n / 10) + ['0' + (n % 10) as char]
  }

  /** Digit strings of the same length denote the same number only if they are the same. */
  lemma {:induction false} SameLengthUnique(a: string, b: string)
    requires AllDigits(a) && AllDigits(b) && |a| == |b|
    requires Value(a) == Value(b)
    ensures a == b
  {
    if a == [] {
    } else {
      var n := |a| - 1;
      SameLengthUnique(a[..n], b[..n]);
      assert a == a[..n] + [a[n]] && b == b[..n] + [b[n]];
    }
  }

  lemma {:induction false} LeadingZero(s: string)
    requires AllDigits(s)
    ensures Value(['0'] + s) == Value(s)
  {
    var z := ['0'] + s;
    if s == [] {
      assert z[..0] == [] && z[0] == '0';
    } else {
      assert z[..|s|] == ['0'] + s[..|s| - 1];
      LeadingZero(s[..|s| - 1]);
    }
  }

  /** Leading zeros do not change the number. */
  lemma {:induction false} StripKeepsValue(s: string)
    requires AllDigits(s)
    ensures Value(StripZeros(s)) == Value(s)
  {
    if s == [] || s[0] != '0' {
    } else {
      StripKeepsValue(s[1..]);
      LeadingZero(s[1..]);
      assert s == ['0'] + s[1..];
    }
  }

  lemma {:induction false} PositiveValue(s: string)
    requires AllDigits(s) && s != [] && s[0] != '0'
    ensures Value(s) > 0
  {
    if |s| == 1 {
    } else {
      PositiveValue(s[..|s| - 1]);
    }
  }

  lemma {:induction false} NumeralValue(n: nat)
    ensures Value(Numeral(n)) == n
  {
    var s := Numeral(n);
    if n < 10 {
      assert s[..0] == [];
    } else {
      NumeralValue(n / 10);
      assert s[..|s| - 1] == Numeral(n / 10);
    }
  }

  lemma NumeralOfValue(v: nat, d: nat, c: char)
    requires d < 10 && c == '0' + d as char
    ensures Numeral(10 * v + d) == if v == 0 then [c] else Numeral(v) + [c]
  {
    assert (10 * v + d) / 10 == v && (10 * v + d) % 10 == d;
  }

  /** A digit string without a leading zero is the numeral of the number it denotes. */
  lemma {:induction false} NumeralUnique(s: string)
    requires AllDigits(s) && s != [] && s[0] != '0'
    ensures Numeral(Value(s)) == s
  {
    var n := |s| - 1;
    NumeralOfValue(Value(s[..n]), DigitValue(s[n]), s[n]);
    assert s == s[..n] + [s[n]];
    if n == 0 {
    } else {
      PositiveValue(s[..n]);
      NumeralUnique(s[..n]);
    }
  }

  /** The number whose digits are those of `n` in reverse order, by repeated division: `acc` collects
      the digits already taken off. */
  function Mirror(n: nat, acc: nat): nat
  {
    if n == 0 then acc else Mirror(n / 10, 10 * acc + n % 10)
  }

  /** Reading `s` from the left after the number `acc`. */
  function Continue(acc: nat, s: string): nat
    requires AllDigits(s)
    decreases |s|
  {
    if s == [] then acc else Continue(10 * acc + DigitValue(s[0]), s[1..])
  }

  lemma {:induction false} ContinueSplit(acc: nat, s: string)
    requires AllDigits(s) && s != []
    ensures Continue(acc, s) == 10 * Continue(acc, s[..|s| - 1]) + DigitValue(s[|s| - 1])
    decreases |s|
  {
    if |s| == 1 {
      assert Continue(acc, s[..0]) == acc && s[1..] == [];
    } else {
      ContinueSplit(10 * acc + DigitValue(s[0]), s[1..]);
      assert s[..|s| - 1][1..] == s[1..][..|s| - 2];
    }
  }

  lemma {:induction false} ContinueIsValue(s: string)
    requires AllDigits(s)
    ensures Continue(0, s) == Value(s)
  {
    if s == [] {
    } else {
      ContinueSplit(0, s);
      ContinueIsValue(s[..|s| - 1]);
    }
  }

  lemma ReverseDigits(s: string)
    requires AllDigits(s)
    ensures AllDigits(Reverse(s))
  {
    forall k | 0 <= k < |s|
      ensures IsDigit(Reverse(s)[k])
    {
      ReverseAt(s, k);
    }
  }

  lemma {:induction false} MirrorReads(s: string, acc: nat)
    requires AllDigits(s) && (s != [] ==> s[0] != '0')
    ensures AllDigits(Reverse(s)) && Mirror(Value(s), acc) == Continue(acc, Reverse(s))
    decreases |s|
  {
    ReverseDigits(s);
    if s == [] {
    } else {
      var n := |s| - 1;
      PositiveValue(s);
      ReverseLast(s);
      MirrorReads(s[..n], 10 * acc + DigitValue(s[n]));
      assert Reverse(s)[1..] == Reverse(s[..n]);
    }
  }

  /** The reversed numeral denotes the mirrored number. */
  lemma MirrorIsReverse(s: string)
    requires AllDigits(s) && (s != [] ==> s[0] != '0')
    ensures AllDigits(Reverse(s)) && Mirror(Value(s), 0) == Value(Reverse(s))
  {
    MirrorReads(s, 0);
    ContinueIsValue(Reverse(s));
  }

  /** A digit string without leading zeros is a palindrome exactly when its number is its own mirror. */
  lemma PalindromeIff(s: string)
    requires AllDigits(s) && (s != [] ==> s[0] != '0')
    ensures s == Reverse(s) <==> Mirror(Value(s), 0) == Value(s)
  {
    MirrorIsReverse(s);
    if Value(s) == Value(Reverse(s)) {
      SameLengthUnique(s, Reverse(s));
    }
  }
}
