/** Reading and printing six-place decimals (decimal.go, `ParseDecimal` and `String`). */
module DecimalText {
  import opened Basics
  import opened Digits

  predicate IsSpace(c: char) {
    c in {'\t', '\n', '\U{0B}', '\U{0C}', '\r', ' ', '\U{85}', '\U{A0}', '\U{1680}',
          '\U{2028}', '\U{2029}', '\U{202F}', '\U{205F}', '\U{3000}'}
    || '\U{2000}' <= c <= '\U{200A}'
  }

  function TrimLeft(s: string): string {
    if s != "" && IsSpace(s[0]) then TrimLeft(s[1..]) else s
  }

  function TrimRight(s: string): string {
    if s != "" && IsSpace(s[|s| - 1]) then TrimRight(s[..|s| - 1]) else s
  }

  function TrimSpace(s: string): string {
    TrimRight(TrimLeft(s))
  }

  ghost predicate AllSpaces(s: string) {
    forall i :: 0 <= i < |s| ==> IsSpace(s[i])
  }

  lemma {:induction false} TrimLeftIs(s: string) returns (left: string)
    ensures s == left + TrimLeft(s) && AllSpaces(left)
    ensures TrimLeft(s) != "" ==> !IsSpace(TrimLeft(s)[0])
  {
    hide IsSpace;
    left := "";
    if s != "" && IsSpace(s[0]) {
      var rest := TrimLeftIs(s[1..]);
      left := [s[0]] + rest;
      assert s == [s[0]] + s[1..];
    }
  }

  lemma {:induction false} TrimRightIs(s: string) returns (right: string)
    ensures s == TrimRight(s) + right && AllSpaces(right)
    ensures TrimRight(s) != "" ==> !IsSpace(TrimRight(s)[|TrimRight(s)| - 1])
    decreases |s|
  {
    hide IsSpace;
    right := "";
    if s != "" && IsSpace(s[|s| - 1]) {
      var rest := TrimRightIs(s[..|s| - 1]);
      right := rest + [s[|s| - 1]];
      assert s == s[..|s| - 1] + [s[|s| - 1]];
    }
  }

  /** What is trimmed away is the space at both ends, all of it and nothing else. */
  lemma TrimSpaceIs(s: string) returns (left: string, right: string)
    ensures s == left + TrimSpace(s) + right && AllSpaces(left) && AllSpaces(right)
    ensures TrimSpace(s) != "" ==> !IsSpace(TrimSpace(s)[0]) && !IsSpace(TrimSpace(s)[|TrimSpace(s)| - 1])
  {
    hide IsSpace, TrimLeft, TrimRight;
    left := TrimLeftIs(s);
    right := TrimRightIs(TrimLeft(s));
    assert TrimSpace(s) != "" ==> TrimSpace(s)[0] == TrimLeft(s)[0];
    assert s == left + (TrimSpace(s) + right);
  }

  function CommasToDots(s: string): (t: string)
    ensures |t| == |s| && forall i :: 0 <= i < |s| ==> t[i] == (if s[i] == ',' then '.' else s[i])
  {
    if s == "" then "" else [if s[0] == ',' then '.' else s[0]] + CommasToDots(s[1..])
  }

  /** The position of the first dot, or the length when there is none. */
  function FirstDot(s: string): (i: nat)
    ensures i <= |s| && '.' !in s[..i] && (i < |s| ==> s[i] == '.')
  {
    if s == "" || s[0] == '.' then 0 else
      var i := FirstDot(s[1..]) + 1;
      assert s[..i] == [s[0]] + s[1..][..i - 1];
      i
  }

  function ParseDecimal(s: string): Option<int64> {
    var text := CommasToDots(TrimSpace(s));
    var negative := text != "" && text[0] == '-';
    ParseUnsigned(negative, if negative then text[1..] else text)
  }

  function ParseUnsigned(negative: bool, s: string): Option<int64> {
    var dot := FirstDot(s);
    var whole := s[..dot];
    var fraction := if dot < |s| then s[dot + 1..] else "";
    if whole == "" || (dot < |s| && fraction == "") || |fraction| > 6 then None
    else
      var digits := whole + fraction + Zeros(6 - |fraction|);
      if !AllDigits(digits) then None else ParseInt(negative, digits)
  }

  function Signed(negative: bool, n: int): int {
    if negative then -n else n
  }

  /** `strconv.ParseInt` of a digit string with an optional sign. */
  function ParseInt(negative: bool, digits: string): Option<int64>
    requires AllDigits(digits)
  {
    var n := Signed(negative, ValueOf(digits));
    if FitsInt64(n) then Some(n as int64) else None
  }

  /** The digit loop of `ParseDecimal`. */
  method OnlyDigits(s: string) returns (ok: bool)
    ensures ok <==> AllDigits(s)
  {
    for i := 0 to |s|
      invariant AllDigits(s[..i])
    {
      if s[i] < '0' || s[i] > '9' { return false; }
    }
    assert s[..|s|] == s;
    ok := true;
  }

  /** The number is built up digit by digit, most significant first. */
  method ReadDigits(s: string) returns (n: nat)
    requires AllDigits(s)
    ensures n == ValueOf(s)
  {
    n := 0;
    for i := 0 to |s|
      invariant n == ValueOf(s[..i])
    {
      assert s[..i + 1][..i] == s[..i];
      n := 10 * n + (s[i] as int - '0' as int);
    }
    assert s[..|s|] == s;
  }

  method ReadDecimal(s: string) returns (r: Option<int64>)
    ensures r == ParseDecimal(s)
  {
    var text := CommasToDots(TrimSpace(s));
    var negative := text != "" && text[0] == '-';
    var rest := if negative then text[1..] else text;
    var dot := FirstDot(rest);
    var whole := rest[..dot];
    var fraction := if dot < |rest| then rest[dot + 1..] else "";
    if whole == "" || (dot < |rest| && fraction == "") || |fraction| > 6 { return None; }
    var digits := whole + fraction + Zeros(6 - |fraction|);
    var ok := OnlyDigits(digits);
    if !ok { return None; }
    var n := ReadDigits(digits);
    r := if FitsInt64(Signed(negative, n)) then Some(Signed(negative, n) as int64) else None;
  }

  function DropZeros(s: string): (t: string)
    ensures |t| <= |s| && s == t + Zeros(|s| - |t|)
  {
    if s != "" && s[|s| - 1] == '0' then
      var t := DropZeros(s[..|s| - 1]);
      assert s == s[..|s| - 1] + "0";
      assert s == t + (Zeros(|s| - 1 - |t|) + "0");
      t
    else
      assert s == s + Zeros(0);
      s
  }

  function DecimalString(d: int64): string {
    var n := AbsInt(d as int);
    var fraction := DropZeros(Padded(n % 1_000_000, 6));
    (if d < 0 then "-" else "") + NatText(n / 1_000_000) + "." + (if fraction == "" then "0" else fraction)
  }

  // ----- What a decimal text means

  /** A text with an optional sign, whole digits and, after a dot or a comma, fraction digits. */
  function Written(negative: bool, whole: string, separator: char, fraction: string): string {
    (if negative then "-" else "") + whole + (if fraction == "" then "" else [separator] + fraction)
  }

  ghost predicate IsDecimalText(whole: string, separator: char, fraction: string) {
    whole != "" && AllDigits(whole) && AllDigits(fraction) && |fraction| <= 6 && separator in {'.', ','}
  }

  /** The millionths such a text denotes. */
  ghost function Millionths(negative: bool, whole: string, fraction: string): int
    requires AllDigits(whole) && AllDigits(fraction) && |fraction| <= 6
  {
    Signed(negative, ValueOf(whole) * 1_000_000 + ValueOf(fraction) * Pow10(6 - |fraction|))
  }

  lemma DigitsAreNoSpace(s: string)
    requires s != "" && !IsSpace(s[0]) && !IsSpace(s[|s| - 1])
    ensures TrimSpace(s) == s
  {
  }

  /** The padded digits scale whole and fraction to millionths. */
  lemma PaddedDigits(whole: string, fraction: string)
    requires AllDigits(whole) && AllDigits(fraction) && |fraction| <= 6
    ensures AllDigits(whole + fraction + Zeros(6 - |fraction|))
    ensures ValueOf(whole + fraction + Zeros(6 - |fraction|)) == Millionths(false, whole, fraction)
  {
    hide ValueOf, Zeros, Pow10;
    var zeros := Zeros(6 - |fraction|);
    ValueOfZeros(6 - |fraction|);
    SixPlaces();
    ValueOfConcat(fraction, zeros);
    ValueOfConcat(whole, fraction + zeros);
    assert whole + fraction + zeros == whole + (fraction + zeros);
    assert |fraction + zeros| == 6;
  }

  lemma SixPlaces()
    ensures Pow10(6) == 1_000_000
  {
  }

  lemma FirstDotAt(s: string, i: nat)
    requires i <= |s| && '.' !in s[..i] && (i < |s| ==> s[i] == '.')
    ensures FirstDot(s) == i
  {
    var j := FirstDot(s);
    assert forall k :: 0 <= k < i ==> s[k] in s[..i];
    assert forall k :: 0 <= k < j ==> s[k] in s[..j];
  }

  lemma DigitsHaveNoDot(s: string)
    requires AllDigits(s)
    ensures '.' !in s
  {
  }

  /** A text after its sign and with its separator normalised. */
  lemma UnsignedIsComplete(negative: bool, whole: string, fraction: string)
    requires IsDecimalText(whole, '.', fraction)
    ensures var n := Millionths(negative, whole, fraction);
            ParseUnsigned(negative, whole + (if fraction == "" then "" else "." + fraction))
            == if FitsInt64(n) then Some(n as int64) else None
  {
    hide ValueOf, Zeros, Pow10;
    var rest := whole + (if fraction == "" then "" else "." + fraction);
    assert rest[..|whole|] == whole;
    DigitsHaveNoDot(whole);
    FirstDotAt(rest, |whole|);
    assert fraction != "" ==> rest[|whole| + 1..] == fraction;
    PaddedDigits(whole, fraction);
  }

  lemma NothingToTrim(negative: bool, whole: string, separator: char, fraction: string)
    requires IsDecimalText(whole, separator, fraction)
    ensures TrimSpace(Written(negative, whole, separator, fraction)) == Written(negative, whole, separator, fraction)
  {
    var text := Written(negative, whole, separator, fraction);
    assert text[|text| - 1] == if fraction == "" then whole[|whole| - 1] else fraction[|fraction| - 1];
    assert text[0] == if negative then '-' else whole[0];
    DigitsAreNoSpace(text);
  }

  lemma SignedText(negative: bool, whole: string, separator: char, fraction: string)
    requires IsDecimalText(whole, separator, fraction)
    ensures var text := Written(negative, whole, separator, fraction);
            && TrimSpace(text) == text
            && CommasToDots(text)
               == (if negative then "-" else "") + (whole + (if fraction == "" then "" else "." + fraction))
  {
    hide TrimSpace, IsSpace;
    NothingToTrim(negative, whole, separator, fraction);
    var text := Written(negative, whole, separator, fraction);
    var dotted := (if negative then "-" else "") + (whole + (if fraction == "" then "" else "." + fraction));
    assert |dotted| == |text|;
    assert forall i :: 0 <= i < |text| ==> dotted[i] == (if text[i] == ',' then '.' else text[i]);
    assert CommasToDots(text) == dotted;
  }

  /** Every text of the accepted shape parses to exactly the millionths it denotes, or is refused
      because they do not fit. */
  lemma ParseIsComplete(negative: bool, whole: string, separator: char, fraction: string)
    requires IsDecimalText(whole, separator, fraction)
    ensures var n := Millionths(negative, whole, fraction);
            ParseDecimal(Written(negative, whole, separator, fraction))
            == if FitsInt64(n) then Some(n as int64) else None
  {
    hide Written, TrimSpace, CommasToDots, Millionths, ParseUnsigned;
    SignedText(negative, whole, separator, fraction);
    UnsignedIsComplete(negative, whole, fraction);
    var rest := whole + (if fraction == "" then "" else "." + fraction);
    if negative {
      assert ("-" + rest)[1..] == rest;
    } else {
      assert "" + rest == rest && rest[0] == whole[0];
    }
  }

  lemma {:induction false} SpaceOnTheLeft(left: string, text: string)
    requires AllSpaces(left) && (text != "" ==> !IsSpace(text[0]))
    ensures TrimLeft(left + text) == text
  {
    hide IsSpace;
    if left == "" {
      assert left + text == text;
    } else {
      assert (left + text)[1..] == left[1..] + text;
      SpaceOnTheLeft(left[1..], text);
    }
  }

  lemma {:induction false} SpaceOnTheRight(text: string, right: string)
    requires AllSpaces(right) && (text != "" ==> !IsSpace(text[|text| - 1]))
    ensures TrimRight(text + right) == text
    decreases |right|
  {
    hide IsSpace;
    if right == "" {
      assert text + right == text;
    } else {
      assert (text + right)[..|text + right| - 1] == text + right[..|right| - 1];
      SpaceOnTheRight(text, right[..|right| - 1]);
    }
  }

  /** Space around an accepted text makes no difference. */
  lemma SurroundingSpaceIgnored(left: string, right: string, negative: bool, whole: string, separator: char,
                                fraction: string)
    requires AllSpaces(left) && AllSpaces(right) && IsDecimalText(whole, separator, fraction)
    ensures var text := Written(negative, whole, separator, fraction);
            ParseDecimal(left + text + right) == ParseDecimal(text)
  {
    var text := Written(negative, whole, separator, fraction);
    NothingToTrim(negative, whole, separator, fraction);
    NoSpaceAtTheEnds(negative, whole, separator, fraction);
    hide IsSpace, TrimLeft, TrimRight, Written, ParseUnsigned, CommasToDots;
    SpaceOnTheLeft(left, text + right) by { assert (text + right)[0] == text[0]; }
    SpaceOnTheRight(text, right);
    assert left + text + right == left + (text + right);
  }

  lemma NoSpaceAtTheEnds(negative: bool, whole: string, separator: char, fraction: string)
    requires IsDecimalText(whole, separator, fraction)
    ensures var text := Written(negative, whole, separator, fraction);
            text != "" && !IsSpace(text[0]) && !IsSpace(text[|text| - 1])
  {
    var text := Written(negative, whole, separator, fraction);
    assert text[|text| - 1] == if fraction == "" then whole[|whole| - 1] else fraction[|fraction| - 1];
    assert text[0] == if negative then '-' else whole[0];
  }

  /** Nothing else is accepted: up to surrounding space, an accepted text has that shape. */
  lemma ParseIsSound(s: string)
    requires ParseDecimal(s).Some?
    ensures exists negative, whole, separator, fraction ::
              IsDecimalText(whole, separator, fraction) && TrimSpace(s) == Written(negative, whole, separator, fraction)
  {
    hide TrimSpace, ParseUnsigned, IsDecimalText;
    var text := TrimSpace(s);
    var dotted := CommasToDots(text);
    var negative := dotted != "" && dotted[0] == '-';
    var rest := if negative then dotted[1..] else dotted;
    var whole, fraction := UnsignedIsSound(negative, rest);
    assert dotted == (if negative then "-" else "") + rest;
    var separator := UndoCommas(text, negative, whole, fraction);
  }

  lemma UndoCommas(text: string, negative: bool, whole: string, fraction: string) returns (separator: char)
    requires IsDecimalText(whole, '.', fraction)
    requires CommasToDots(text)
             == (if negative then "-" else "") + (whole + (if fraction == "" then "" else "." + fraction))
    ensures IsDecimalText(whole, separator, fraction) && text == Written(negative, whole, separator, fraction)
  {
    hide CommasToDots;
    var dotted := CommasToDots(text);
    var start := |whole| + if negative then 1 else 0;
    separator := if fraction == "" then '.' else text[start];
    assert fraction != "" ==> dotted[start] == '.';
    assert forall i :: 0 <= i < |dotted| && i != start ==> dotted[i] != '.';
    assert forall i :: 0 <= i < |dotted| && i != start ==> text[i] == dotted[i];
    var written := Written(negative, whole, separator, fraction);
    assert |text| == |written|;
    assert forall i :: 0 <= i < |text| ==> text[i] == written[i];
  }

  lemma UnsignedIsSound(negative: bool, rest: string) returns (whole: string, fraction: string)
    requires ParseUnsigned(negative, rest).Some?
    ensures IsDecimalText(whole, '.', fraction)
    ensures rest == whole + (if fraction == "" then "" else "." + fraction)
  {
    hide ValueOf, ParseInt;
    var dot := FirstDot(rest);
    whole := rest[..dot];
    fraction := if dot < |rest| then rest[dot + 1..] else "";
    DigitParts(whole, fraction, Zeros(6 - |fraction|));
    assert rest == whole + rest[dot..];
    assert dot < |rest| ==> rest[dot..] == ['.'] + fraction;
  }

  lemma DigitParts(s: string, t: string, u: string)
    requires AllDigits(s + t + u)
    ensures AllDigits(s) && AllDigits(t)
  {
    var all := s + t + u;
    assert forall i :: 0 <= i < |s| ==> s[i] == all[i];
    assert forall i :: 0 <= i < |t| ==> t[i] == all[|s| + i];
  }

  /** Printing and reading back is the identity on every int64, the minimum included. */
  lemma DecimalRoundTrip(d: int64)
    ensures ParseDecimal(DecimalString(d)) == Some(d)
  {
    hide ParseDecimal, ValueOf, Millionths, IsDecimalText, Padded, NatText, DropZeros;
    var n: int := AbsInt(d as int);
    var fraction := PrintedFraction(n % 1_000_000);
    Joined(if d < 0 then "-" else "", NatText(n / 1_000_000), fraction);
    FractionMillionths(d < 0, n, fraction);
    DecimalTextParts(n, fraction);
    ParseIsComplete(d < 0, NatText(n / 1_000_000), '.', fraction);
  }

  lemma Joined(sign: string, whole: string, fraction: string)
    ensures sign + whole + "." + fraction == sign + whole + (['.'] + fraction)
  {
  }

  lemma DecimalTextParts(n: nat, fraction: string)
    requires AllDigits(fraction) && |fraction| <= 6
    ensures IsDecimalText(NatText(n / 1_000_000), '.', fraction)
  {
  }

  /** The printed fraction: at least one digit, no trailing zeros beyond it. */
  lemma PrintedFraction(n: nat) returns (fraction: string)
    ensures fraction == if DropZeros(Padded(n, 6)) == "" then "0" else DropZeros(Padded(n, 6))
    ensures fraction != "" && AllDigits(fraction) && |fraction| <= 6
    ensures fraction + Zeros(6 - |fraction|) == Padded(n, 6)
  {
    hide Padded, ValueOf;
    var padded := Padded(n, 6);
    var trimmed := DropZeros(padded);
    hide DropZeros, Zeros;
    fraction := if trimmed == "" then "0" else trimmed;
    assert forall i :: 0 <= i < |trimmed| ==> trimmed[i] == padded[i];
    ZerosShift(trimmed, padded);
  }

  lemma FractionMillionths(negative: bool, n: nat, fraction: string)
    requires AllDigits(fraction) && |fraction| <= 6
    requires fraction + Zeros(6 - |fraction|) == Padded(n % 1_000_000, 6)
    ensures Millionths(negative, NatText(n / 1_000_000), fraction) == Signed(negative, n)
  {
    hide ValueOf, Padded, Zeros, NatText, Pow10;
    ValueOfNatText(n / 1_000_000);
    FractionValue(n % 1_000_000, fraction);
    assert n / 1_000_000 * 1_000_000 + n % 1_000_000 == n;
  }

  lemma FractionValue(part: nat, fraction: string)
    requires part < 1_000_000 && AllDigits(fraction) && |fraction| <= 6
    requires fraction + Zeros(6 - |fraction|) == Padded(part, 6)
    ensures ValueOf(fraction) * Pow10(6 - |fraction|) == part
  {
    hide ValueOf, Padded, Zeros, Pow10;
    SixPlaces();
    ValueOfPadded(part, 6);
    ValueOfConcat(fraction, Zeros(6 - |fraction|));
    ValueOfZeros(6 - |fraction|);
  }

  lemma ZerosShift(trimmed: string, padded: string)
    requires |padded| == 6 && |trimmed| <= 6 && padded == trimmed + Zeros(6 - |trimmed|)
    ensures trimmed == "" ==> padded == "0" + Zeros(5)
  {
    if trimmed == "" { ZerosAreZeros(6); ZerosAreZeros(5); }
  }

  lemma {:induction false} ZerosAreZeros(n: nat)
    ensures forall i :: 0 <= i < n ==> Zeros(n)[i] == '0'
  {
    if n > 0 { ZerosAreZeros(n - 1); }
  }
}
