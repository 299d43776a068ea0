/** Decimal digit strings: their values, fixed-width and shortest renderings, and byte order. */
module Digits {
  predicate IsDigit(c: char) {
    '0' <= c <= '9'
  }

  predicate AllDigits(s: string) {
    forall i :: 0 <= i < |s| ==> IsDigit(s[i])
  }

  function DigitChar(n: nat): (c: char)
    requires n < 10
    ensures IsDigit(c) && c as int == '0' as int + n
  {
    '0' + n as char
  }

  function Pow10(n: nat): (p: nat)
    ensures p >= 1
  {
    if n == 0 then 1 else 10 * Pow10(n - 1)
  }

  /** The number a digit string denotes; the last digit is the least significant. */
  function ValueOf(s: string): nat
    requires AllDigits(s)
  {
    if s == "" then 0 else 10 * ValueOf(s[..|s| - 1]) + (s[|s| - 1] as int - '0' as int)
  }

  /** The shortest rendering: no leading zero except for zero itself. */
  function NatText(n: nat): (s: string)
    ensures s != "" && AllDigits(s)
  {
    if n < 10 then [DigitChar(n)] else NatText(n / 10) + [DigitChar(n % 10)]
  }

  /** Exactly `width` digits, padded with zeros on the left. */
  function Padded(n: nat, width: nat): (s: string)
    ensures |s| == width && AllDigits(s)
  {
    if width == 0 then "" else Padded(n / 10, width - 1) + [DigitChar(n % 10)]
  }

  lemma {:induction false} ValueOfNatText(n: nat)
    ensures ValueOf(NatText(n)) == n
  {
    var s := NatText(n);
    if n >= 10 {
      ValueOfNatText(n / 10);
      assert s[..|s| - 1] == NatText(n / 10);
    }
  }

  lemma {:induction false} ValueOfPadded(n: nat, width: nat)
    requires n < Pow10(width)
    ensures ValueOf(Padded(n, width)) == n
  {
    if width > 0 {
      var s := Padded(n, width);
      assert s[..width - 1] == Padded(n / 10, width - 1);
      ValueOfPadded(n / 10, width - 1);
    }
  }

  lemma {:induction false} ValueOfConcat(s: string, t: string)
    requires AllDigits(s) && AllDigits(t)
    ensures AllDigits(s + t)
    ensures ValueOf(s + t) == ValueOf(s) * Pow10(|t|) + ValueOf(t)
  {
    if t == "" {
      assert s + t == s;
    } else {
      var front := t[..|t| - 1];
      ValueOfConcat(s, front);
      assert (s + t)[..|s + t| - 1] == s + front;
      TenTimes(ValueOf(s), Pow10(|front|), ValueOf(front));
    }
  }

  lemma TenTimes(x: nat, p: nat, y: nat)
    ensures 10 * (x * p + y) == x * (10 * p) + 10 * y
  {
  }

  /** Trailing zeros scale a value by a power of ten. */
  function Zeros(n: nat): (s: string)
    ensures |s| == n && AllDigits(s)
  {
    if n == 0 then "" else Zeros(n - 1) + "0"
  }

  lemma {:induction false} ValueOfZeros(n: nat)
    ensures ValueOf(Zeros(n)) == 0
  {
    if n > 0 {
      assert Zeros(n)[..n - 1] == Zeros(n - 1);
      ValueOfZeros(n - 1);
    }
  }

  lemma {:induction false} ValueOfBound(s: string)
    requires AllDigits(s)
    ensures ValueOf(s) < Pow10(|s|)
  {
    if s != "" {
      ValueOfBound(s[..|s| - 1]);
    }
  }

  /** Digit strings of one length with one value are one string. */
  lemma {:induction false} ValueDeterminesDigits(s: string, t: string)
    requires AllDigits(s) && AllDigits(t) && |s| == |t| && ValueOf(s) == ValueOf(t)
    ensures s == t
  {
    if s != "" {
      var i := |s| - 1;
      ValueDeterminesDigits(s[..i], t[..i]);
      assert s == s[..i] + [s[i]] && t == t[..i] + [t[i]];
    }
  }

  /** Byte-wise string order, as Go's `<` on strings. */
  predicate TextLess(s: string, t: string) {
    if t == "" then false
    else if s == "" then true
    else if s[0] != t[0] then s[0] < t[0]
    else TextLess(s[1..], t[1..])
  }

  lemma {:induction false} TextLessIrreflexive(s: string)
    ensures !TextLess(s, s)
  {
    if s != "" { TextLessIrreflexive(s[1..]); }
  }

  lemma {:induction false} TextLessSkip(p: string, s: string, t: string)
    ensures TextLess(p + s, p + t) == TextLess(s, t)
  {
    if p == "" {
      assert p + s == s && p + t == t;
    } else {
      assert (p + s)[1..] == p[1..] + s && (p + t)[1..] == p[1..] + t;
      TextLessSkip(p[1..], s, t);
    }
  }

  /** On equally long digit strings, text order is numeric order. */
  lemma {:induction false} PaddedOrder(s: string, t: string, u: string, v: string)
    requires AllDigits(s) && AllDigits(t) && |s| == |t|
    ensures TextLess(s + u, t + v) <==> ValueOf(s) < ValueOf(t) || (s == t && TextLess(u, v))
  {
    if s == "" {
      assert s + u == u && t + v == v;
    } else if s[0] == t[0] {
      assert s == [s[0]] + s[1..] && t == [t[0]] + t[1..];
      ValueOfConcat([s[0]], s[1..]);
      ValueOfConcat([t[0]], t[1..]);
      assert (s + u)[1..] == s[1..] + u && (t + v)[1..] == t[1..] + v;
      PaddedOrder(s[1..], t[1..], u, v);
    } else {
      assert s == [s[0]] + s[1..] && t == [t[0]] + t[1..];
      LeadingDigit(s[0], s[1..], t[0], t[1..]);
    }
  }

  lemma LeadingDigit(c: char, s: string, d: char, t: string)
    requires IsDigit(c) && IsDigit(d) && AllDigits(s) && AllDigits(t) && |s| == |t| && c != d
    ensures ValueOf([c] + s) < ValueOf([d] + t) <==> c < d
  {
    ValueOfConcat([c], s);
    ValueOfConcat([d], t);
    ValueOfBound(s);
    ValueOfBound(t);
    assert ValueOf([c]) == c as int - '0' as int && ValueOf([d]) == d as int - '0' as int;
    LeadingPart(ValueOf([c]), ValueOf([d]), Pow10(|s|), ValueOf(s), ValueOf(t));
  }

  lemma LeadingPart(x: nat, y: nat, p: nat, a: nat, b: nat)
    requires x != y && a < p && b < p
    ensures x * p + a < y * p + b <==> x < y
  {
    if x < y {
      Ahead(x, y, p);
    } else {
      Ahead(y, x, p);
    }
  }

  lemma {:induction false} Ahead(x: nat, y: nat, p: nat)
    requires x < y
    ensures x * p + p <= y * p
  {
    if x + 1 < y {
      Ahead(x, y - 1, p);
      assert y * p == (y - 1) * p + p;
    } else {
      assert y * p == x * p + p;
    }
  }
}
