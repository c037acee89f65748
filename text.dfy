/** Decimal text: Python's `str(n)` and `f"{n:02d}"` for integers, fixed-width zero
    filled fields, and the parsers that read them back. */
module Text {
  import opened Schedule
  import opened Arith

  predicate IsDigit(ch: char) {
    '0' <= ch <= '9'
  }

  predicate AllDigits(s: string) {
    forall i :: 0 <= i < |s| ==> IsDigit(s[i])
  }

  function DigitChar(d: int): (ch: char)
    requires 0 <= d < 10
    ensures IsDigit(ch)
  {
    ['0', '1', '2', '3', '4', '5', '6', '7', '8', '9'][d]
  }

  function DigitValue(ch: char): (d: int)
    requires IsDigit(ch)
    ensures 0 <= d < 10
  {
    ch as int - '0' as int
  }

  lemma DigitRoundTrip(d: int)
    requires 0 <= d < 10
    ensures DigitValue(DigitChar(d)) == d
  {
  }

  /** The value of a string of decimal digits, most significant first. */
  function DigitsValue(s: string): (v: nat)
    requires AllDigits(s)
  {
    if |s| == 0 then 0 else DigitsValue(s[..|s| - 1]) * 10 + DigitValue(s[|s| - 1])
  }

  /** `str(n)` for n ≥ 0: no leading zero except for 0 itself. */
  function NatToString(n: nat): (s: string)
    ensures |s| >= 1 && AllDigits(s)
    ensures |s| > 1 ==> s[0] != '0'
    ensures n < 10 ==> |s| == 1
    ensures 10 <= n < 100 ==> |s| == 2
    decreases n
  {
    if n < 10 then [DigitChar(n)] else NatToString(n / 10) + [DigitChar(n % 10)]
  }

  /** The characters `str(n)` uses. */
  predicate NumberText(s: string) {
    forall i :: 0 <= i < |s| ==> IsDigit(s[i]) || s[i] == '-'
  }

  /** `str(n)`: a minus sign before the digits of |n| when n is negative. */
  function IntToString(n: int): (s: string)
    ensures |s| >= 1 && NumberText(s)
    ensures n < 0 <==> s[0] == '-'
  {
    if n < 0 then "-" + NatToString(-n) else NatToString(n)
  }

  /** `f"{n:02d}"`: zero filled to two characters; a value that already takes two or
      more characters, a negative one included, is printed as `str(n)`. */
  function Pad2(n: int): (s: string)
    ensures 0 <= n < 100 ==> |s| == 2 && AllDigits(s)
  {
    if 0 <= n < 10 then "0" + IntToString(n) else IntToString(n)
  }

  /** n as exactly `width` digits, zero filled (n is reduced modulo 10^width). */
  function Fixed(n: nat, width: nat): (s: string)
    ensures |s| == width && AllDigits(s)
  {
    if width == 0 then "" else Fixed(n / 10, width - 1) + [DigitChar(n % 10)]
  }

  function Pow10(k: nat): (p: nat)
    ensures p >= 1
  {
    if k == 0 then 1 else 10 * Pow10(k - 1)
  }

  /** Reading a decimal string: digits with an optional leading minus sign. */
  function ParseInt(s: string): (r: Option<int>)
    ensures r.Some? ==> |s| >= 1
  {
    if |s| >= 2 && s[0] == '-' && AllDigits(s[1..]) then Some(0 - DigitsValue(s[1..]) as int)
    else if |s| >= 1 && AllDigits(s) then Some(DigitsValue(s))
    else None
  }

  lemma {:induction false} NatToStringValue(n: nat)
    ensures DigitsValue(NatToString(n)) == n
    decreases n
  {
    if n >= 10 {
      NatToStringValue(n / 10);
      var s := NatToString(n);
      assert s[..|s| - 1] == NatToString(n / 10);
      DigitRoundTrip(n % 10);
    } else {
      DigitRoundTrip(n);
    }
  }

  /** Digits that do not start with a minus sign read back as their value. */
  lemma DigitsRead(s: string)
    requires |s| >= 1 && AllDigits(s)
    ensures ParseInt(s) == Some(DigitsValue(s) as int)
  {
    assert IsDigit(s[0]);
  }

  /** A minus sign before digits reads back as the negated value. */
  lemma MinusDigitsRead(digits: string)
    requires |digits| >= 1 && AllDigits(digits)
    ensures ParseInt("-" + digits) == Some(0 - DigitsValue(digits) as int)
  {
    assert ("-" + digits)[1..] == digits;
  }

  /** Python's `int(str(n)) == n`. */
  lemma IntToStringRoundTrip(n: int)
    ensures ParseInt(IntToString(n)) == Some(n)
  {
    if n < 0 {
      NatToStringValue(-n);
      MinusDigitsRead(NatToString(-n));
    } else {
      NatToStringValue(n);
      DigitsRead(NatToString(n));
    }
  }

  lemma {:induction false} FixedValue(n: nat, width: nat)
    ensures DigitsValue(Fixed(n, width)) == n % Pow10(width)
    decreases width
  {
    if width > 0 {
      FixedValue(n / 10, width - 1);
      var s := Fixed(n, width);
      assert s[..|s| - 1] == Fixed(n / 10, width - 1);
      DigitRoundTrip(n % 10);
      ModPow10Step(n, width);
    }
  }

  /** The last `width` digits of n are the last `width - 1` digits of n / 10 followed by
      its units digit. */
  lemma ModPow10Step(n: nat, width: nat)
    requires width > 0
    ensures n % Pow10(width) == (n / 10) % Pow10(width - 1) * 10 + n % 10
  {
    var p := Pow10(width - 1);
    var q, r := n / 10, n % 10;
    var a, b := q / p, q % p;
    assert n == (a * (10 * p)) + (b * 10 + r) by {
      assert n == q * 10 + r;
      assert q == a * p + b;
      assert q * 10 == a * (10 * p) + b * 10;
    }
    assert 0 <= b * 10 + r < 10 * p;
    DivModOf(n, 10 * p, a, b * 10 + r);
  }

  /** The digits of a two-digit field have its value. */
  lemma Pad2Value(n: int)
    requires 0 <= n < 100
    ensures AllDigits(Pad2(n)) && DigitsValue(Pad2(n)) == n
  {
    var t := Pad2(n);
    if n < 10 {
      assert t == ['0', DigitChar(n)];
      assert t[..1] == ['0'] && t[..1][..0] == [];
      DigitRoundTrip(n);
      assert DigitsValue(t[..1]) == 0;
    } else {
      NatToStringValue(n);
    }
  }

  /** A two-digit field reads back as its value. */
  lemma Pad2RoundTrip(n: int)
    requires 0 <= n < 100
    ensures ParseInt(Pad2(n)) == Some(n)
  {
    Pad2Value(n);
    var t := Pad2(n);
    assert t[0] != '-' by {
      assert IsDigit(t[0]);
    }
  }

  /** A fixed-width field of a value below 10^width reads back as that value. */
  lemma FixedRoundTrip(n: nat, width: nat)
    requires width >= 1 && n < Pow10(width)
    ensures ParseInt(Fixed(n, width)) == Some(n)
  {
    FixedValue(n, width);
    DivModOf(n, Pow10(width), 0, n);
    DigitsRead(Fixed(n, width));
  }

  /** `str` tells integers apart. */
  lemma IntToStringInjective(a: int, b: int)
    requires IntToString(a) == IntToString(b)
    ensures a == b
  {
    IntToStringRoundTrip(a);
    IntToStringRoundTrip(b);
  }

  // ----- taking text apart -----

  /** No character of s is one of `stops`. */
  predicate Free(s: string, stops: set<char>) {
    forall i :: 0 <= i < |s| ==> s[i] !in stops
  }

  lemma NumberTextFree(s: string, stops: set<char>)
    requires NumberText(s) && forall ch :: ch in stops ==> !IsDigit(ch) && ch != '-'
    ensures Free(s, stops)
  {
  }

  /** Where the first stop character of s is, or |s| when there is none. */
  function StopIndex(s: string, stops: set<char>): (i: nat)
    ensures i <= |s|
  {
    if |s| == 0 || s[0] in stops then 0 else 1 + StopIndex(s[1..], stops)
  }

  lemma {:induction false} StopAfterToken(x: string, b: string, stops: set<char>)
    requires Free(x, stops) && |b| >= 1 && b[0] in stops
    ensures StopIndex(x + b, stops) == |x|
    decreases |x|
  {
    if |x| > 0 {
      assert (x + b)[1..] == x[1..] + b;
      StopAfterToken(x[1..], b, stops);
    } else {
      assert x + b == b;
    }
  }

  /** A token free of the stop characters, followed by text that starts with one, can be
      split off again: the first stop character marks where it ends. */
  lemma TokenSplit(x1: string, b1: string, x2: string, b2: string, stops: set<char>)
    requires Free(x1, stops) && Free(x2, stops)
    requires |b1| >= 1 && b1[0] in stops && |b2| >= 1 && b2[0] in stops
    requires x1 + b1 == x2 + b2
    ensures x1 == x2 && b1 == b2
  {
    StopAfterToken(x1, b1, stops);
    StopAfterToken(x2, b2, stops);
    SameLengthSplit(x1, b1, x2, b2);
  }

  /** Equal texts with equal beginnings have equal remainders. */
  lemma PrefixCancel(a: string, x: string, y: string)
    requires a + x == a + y
    ensures x == y
  {
    assert x == (a + x)[|a|..];
    assert y == (a + y)[|a|..];
  }

  /** Equal texts split at the same length have equal halves. */
  lemma SameLengthSplit(x1: string, b1: string, x2: string, b2: string)
    requires |x1| == |x2| && x1 + b1 == x2 + b2
    ensures x1 == x2 && b1 == b2
  {
    var s := x1 + b1;
    assert x1 == s[..|x1|] && x2 == s[..|x2|];
    assert b1 == s[|x1|..] && b2 == s[|x2|..];
  }

  /** Equal texts with endings of the same length have equal beginnings and endings. */
  lemma SuffixSplit(x1: string, b1: string, x2: string, b2: string)
    requires |b1| == |b2| && x1 + b1 == x2 + b2
    ensures x1 == x2 && b1 == b2
  {
    SameLengthSplit(x1, b1, x2, b2);
  }
}
