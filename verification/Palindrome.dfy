/** The numeric palindrome test: other characters are skipped, letters are refused, and leading zeros do
    not count. */
module Palindrome {
  import opened Decimal
  import opened Sequences

  /** isalpha in the C locale. */
  predicate IsAlpha(c: char)
  {
    'a' <= c <= 'z' || 'A' <= c <= 'Z'
  }

  predicate HasLetter(s: string)
  {
    exists k :: 0 <= k < |s| && IsAlpha(s[k])
  }

  /** The digits of a text in their order. */
  function Digits(s: string): (d: string)
    ensures AllDigits(d) && |d| <= |s|
  {
    if s == [] then []
    else
      var c := s[|s| - 1];
      Digits(s[..|s| - 1]) + if IsDigit(c) then [c] else []
  }

  /** The digits that are compared. */
  function Significant(s: string): (d: string)
    ensures AllDigits(d) && (d != [] ==> d[0] != '0')
  {
    StripZeros(Digits(s))
  }

  /** Without a letter, the comparison starts inside the data only if some digit is not zero. */
  predicate Defined(s: string)
  {
    HasLetter(s) || exists k :: 0 <= k < |s| && IsDigit(s[k]) && s[k] != '0'
  }

  /** The number that the text denotes. */
  function Number(s: string): nat
  {
    Value(Digits(s))
  }

  /** What the function returns: -1 for a text with a letter, otherwise whether the denoted number is its own
      mirror. */
  function Result(s: string): int
  {
    if HasLetter(s) then -1 else if Mirror(Number(s), 0) == Number(s) then 1 else 0
  }

  /** The three results: -1 for a letter of either case, and without one 1 exactly if the digits left after
      the leading zeros read the same both ways. */
  lemma ResultIff(s: string)
    ensures Result(s) == -1 <==> exists k :: 0 <= k < |s| && ('a' <= s[k] <= 'z' || 'A' <= s[k] <= 'Z')
    ensures Result(s) == 1 <==> Result(s) != -1 && Significant(s) == Reverse(Significant(s))
    ensures Result(s) == 0 <==> Result(s) != -1 && Significant(s) != Reverse(Significant(s))
  {
    StripKeepsValue(Digits(s));
    PalindromeIff(Significant(s));
  }

  /** -1: the text holds a letter of either case; otherwise 1 or 0: the digits from the first that is not zero
      on read the same both ways, or not. */
  method IsPalindrome(buff: array<char>, buffLen: nat) returns (r: int)
    requires buffLen <= buff.Length
    requires Defined(buff[..buffLen])
    ensures r == Result(buff[..buffLen])
    ensures var text := buff[..buffLen];
            r == -1 <==> exists k :: 0 <= k < |text| && ('a' <= text[k] <= 'z' || 'A' <= text[k] <= 'Z')
    ensures var d := Significant(buff[..buffLen]);
            r != -1 ==> r == if d == Reverse(d) then 1 else 0
  {
    ghost var text := buff[..buffLen];
    ResultIff(text);
    var tmp := new char[buffLen];
    var j := 0;
    for i := 0 to buffLen
      invariant 0 <= j <= i
      invariant tmp[..j] == Digits(text[..i])
      invariant !HasLetter(text[..i])
    {
      assert text[..i + 1][..i] == text[..i];
      if IsDigit(buff[i]) {
        tmp[j] := buff[i];
        j := j + 1;
      } else if IsAlpha(buff[i]) {
        assert text[i] == buff[i];
        return -1;
      }
    }
    assert text[..buffLen] == text;
    DefinedIff(text);
    var i := SkipZeros(tmp, j);
    r := Compare(tmp, i, j);
  }

  /** The index of the first digit that is not zero. */
  method SkipZeros(tmp: array<char>, j: nat) returns (i: nat)
    requires j <= tmp.Length && AllDigits(tmp[..j])
    ensures i <= j && tmp[i..j] == StripZeros(tmp[..j])
  {
    ghost var digits := tmp[..j];
    i := 0;
    while i < j
      invariant 0 <= i <= j
      invariant StripZeros(digits[i..]) == StripZeros(digits)
    {
      if tmp[i] != '0' {
        break;
      }
      assert digits[i..][1..] == digits[i + 1..];
      i := i + 1;
    }
    assert tmp[i..j] == digits[i..];
  }

  /** The two pointers move towards each other; the first pair is compared before the loop is tested. */
  method Compare(tmp: array<char>, first: nat, end: nat) returns (r: int)
    requires first < end <= tmp.Length
    ensures r == if tmp[first..end] == Reverse(tmp[first..end]) then 1 else 0
  {
    ghost var d := tmp[first..end];
    var head, tail := first, end - 1;
    while true
      invariant first <= head <= tail && head + tail == first + end - 1
      invariant forall k :: first <= k < head ==> tmp[k] == tmp[first + end - 1 - k]
      decreases tail - head
    {
      if tmp[head] != tmp[tail] {
        ReverseAt(d, head - first);
        assert d[head - first] == tmp[head] && d[|d| - 1 - (head - first)] == tmp[tail];
        return 0;
      }
      head, tail := head + 1, tail - 1;
      if head > tail {
        break;
      }
    }
    assert forall k :: first <= k < end ==> tmp[k] == tmp[first + end - 1 - k];
    forall k | 0 <= k < |d|
      ensures d[k] == d[|d| - 1 - k]
    {
      assert d[k] == tmp[first + k] && d[|d| - 1 - k] == tmp[end - 1 - k];
    }
    IsReverse(d, d);
    r := 1;
  }

  /** Without a letter, the data is left with a digit to compare exactly when some digit is not zero;
      otherwise head starts past the data. */
  lemma DefinedIff(s: string)
    requires !HasLetter(s)
    ensures Significant(s) != [] <==> Defined(s)
  {
    if Significant(s) == [] {
      AllZeroDigits(Digits(s));
      forall k | 0 <= k < |s| && IsDigit(s[k])
        ensures s[k] == '0'
      {
        DigitKept(s, k);
      }
    }
    if !Defined(s) {
      OnlyZeros(s);
      ZeroRun(Digits(s), []);
      assert Digits(s) + [] == Digits(s);
    }
  }

  lemma {:induction false} AllZeroDigits(d: string)
    requires StripZeros(d) == []
    ensures forall k :: 0 <= k < |d| ==> d[k] == '0'
  {
    if d == [] {
    } else {
      AllZeroDigits(d[1..]);
    }
  }

  lemma {:induction false} DigitKept(s: string, k: nat)
    requires k < |s| && IsDigit(s[k])
    ensures s[k] in Digits(s)
  {
    if k == |s| - 1 {
    } else {
      DigitKept(s[..|s| - 1], k);
    }
  }

  lemma {:induction false} DigitsAppend(a: string, b: string)
    ensures Digits(a + b) == Digits(a) + Digits(b)
  {
    if b == [] {
      assert a + b == a;
    } else {
      assert (a + b)[..|a + b| - 1] == a + b[..|b| - 1];
      DigitsAppend(a, b[..|b| - 1]);
    }
  }

  lemma DigitsOne(c: char)
    ensures Digits([c]) == if IsDigit(c) then [c] else []
  {
  }

  /** A character that is neither a digit nor a letter may be inserted anywhere. */
  lemma IgnoredAnywhere(a: string, c: char, b: string)
    requires !IsDigit(c) && !IsAlpha(c)
    ensures HasLetter(a + [c] + b) <==> HasLetter(a + b)
    ensures Significant(a + [c] + b) == Significant(a + b)
    ensures Number(a + [c] + b) == Number(a + b)
  {
    LettersAround(a, c, b);
    DigitsAppend(a + [c], b);
    DigitsAppend(a, [c]);
    DigitsAppend(a, b);
    DigitsOne(c);
    assert Digits(a + [c]) == Digits(a);
  }

  /** A zero may be inserted anywhere before the first digit that is not zero. */
  lemma LeadingZeroIgnored(a: string, b: string)
    requires forall k :: 0 <= k < |a| && IsDigit(a[k]) ==> a[k] == '0'
    ensures HasLetter(a + ['0'] + b) <==> HasLetter(a + b)
    ensures Significant(a + ['0'] + b) == Significant(a + b)
    ensures Number(a + ['0'] + b) == Number(a + b)
  {
    LettersAround(a, '0', b);
    DigitsAppend(a + ['0'], b);
    DigitsAppend(a, ['0']);
    DigitsAppend(a, b);
    DigitsOne('0');
    OnlyZeros(a);
    ZeroRun(Digits(a), Digits(b));
    ZeroRun(Digits(a) + ['0'], Digits(b));
    StripKeepsValue(Digits(a + ['0'] + b));
    StripKeepsValue(Digits(a + b));
  }

  lemma LettersAround(a: string, c: char, b: string)
    requires !IsAlpha(c)
    ensures HasLetter(a + [c] + b) <==> HasLetter(a + b)
  {
    var x, y := a + [c] + b, a + b;
    if HasLetter(x) {
      var k :| 0 <= k < |x| && IsAlpha(x[k]);
      assert k < |a| || y[k - 1] == x[k];
      assert k >= |a| || y[k] == x[k];
    }
    if HasLetter(y) {
      var k :| 0 <= k < |y| && IsAlpha(y[k]);
      assert x[if k < |a| then k else k + 1] == y[k];
    }
  }

  lemma {:induction false} OnlyZeros(a: string)
    requires forall k :: 0 <= k < |a| && IsDigit(a[k]) ==> a[k] == '0'
    ensures forall k :: 0 <= k < |Digits(a)| ==> Digits(a)[k] == '0'
  {
    if a == [] {
    } else {
      OnlyZeros(a[..|a| - 1]);
    }
  }

  lemma {:induction false} ZeroRun(z: string, d: string)
    requires forall k :: 0 <= k < |z| ==> z[k] == '0'
    ensures StripZeros(z + d) == StripZeros(d)
  {
    if z == [] {
      assert z + d == d;
    } else {
      assert (z + d)[1..] == z[1..] + d;
      ZeroRun(z[1..], d);
    }
  }

  /** The digits that are compared are the numeral of the number. */
  lemma SignificantIsNumeral(s: string)
    ensures Significant(s) == if Number(s) == 0 then "" else Numeral(Number(s))
  {
    StripKeepsValue(Digits(s));
    if Significant(s) != [] {
      PositiveValue(Significant(s));
      NumeralUnique(Significant(s));
    }
  }

  // ----- where the code departs from its comment

  /** What the comment above the function takes for an error. */
  predicate Foreign(s: string)
  {
    exists k :: 0 <= k < |s| && !IsDigit(s[k]) && !IsSpace(s[k])
  }

  /** The text without the characters that are neither digits nor letters nor white space. */
  function Cleaned(s: string): string
  {
    if s == [] then []
    else
      var c := s[|s| - 1];
      Cleaned(s[..|s| - 1]) + if IsDigit(c) || IsAlpha(c) || IsSpace(c) then [c] else []
  }

  /** Removing them from the front part of a text changes nothing the result depends on. */
  lemma {:induction false} CleanedAlike(s: string, tail: string)
    ensures HasLetter(Cleaned(s) + tail) <==> HasLetter(s + tail)
    ensures Significant(Cleaned(s) + tail) == Significant(s + tail)
    ensures Number(Cleaned(s) + tail) == Number(s + tail)
    decreases |s|
  {
    if s == [] {
    } else {
      var init, c := s[..|s| - 1], s[|s| - 1];
      assert s + tail == init + [c] + tail == init + ([c] + tail);
      if IsDigit(c) || IsAlpha(c) || IsSpace(c) {
        CleanedAlike(init, [c] + tail);
        assert Cleaned(s) + tail == Cleaned(init) + ([c] + tail);
      } else {
        CleanedAlike(init, tail);
        IgnoredAnywhere(init, c, tail);
        assert Cleaned(s) == Cleaned(init);
      }
    }
  }

  lemma {:induction false} CleanedIsKnown(s: string)
    ensures forall k :: 0 <= k < |Cleaned(s)| ==>
              IsDigit(Cleaned(s)[k]) || IsAlpha(Cleaned(s)[k]) || IsSpace(Cleaned(s)[k])
  {
    if s == [] {
    } else {
      CleanedIsKnown(s[..|s| - 1]);
    }
  }

  /** The comment promises -1 for every text with a foreign character. Where no letter is among them, the code
      returns what it returns for the text without them, which is never -1. */
  lemma ForeignIsSkipped(s: string)
    requires Foreign(s) && !HasLetter(s)
    ensures !Foreign(Cleaned(s)) && (Defined(Cleaned(s)) <==> Defined(s))
    ensures Result(s) == Result(Cleaned(s)) >= 0
  {
    CleanedAlike(s, []);
    assert Cleaned(s) + [] == Cleaned(s) && s + [] == s;
    CleanedIsKnown(s);
    DefinedIff(s);
    DefinedIff(Cleaned(s));
  }

  lemma OneDigit(d: char)
    requires IsDigit(d) && d != '0'
    ensures Mirror(Value([d]), 0) == Value([d])
  {
    ReverseAt([d], 0);
    assert Reverse([d]) == [d];
    PalindromeIff([d]);
  }

  /** It departs from its comment on a digit followed by a punctuation mark, which it takes for a
      palindrome. */
  lemma PunctuationIsSkipped(d: char, c: char)
    requires IsDigit(d) && d != '0'
    requires !IsDigit(c) && !IsAlpha(c) && !IsSpace(c)
    ensures Foreign([d, c]) && !HasLetter([d, c]) && Defined([d, c])
    ensures Result([d, c]) == 1
  {
    var s := [d, c];
    assert s[0] == d && s[1] == c;
    DigitsAppend([d], [c]);
    DigitsOne(d);
    DigitsOne(c);
    assert s == [d] + [c] && Digits(s) == [d];
    OneDigit(d);
  }
}
