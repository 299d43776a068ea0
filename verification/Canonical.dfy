/** Database values, the converters between the engines, and the canonical text that is hashed
    (dbmove.go). A string holds bytes, one per character. */
module Canonical {
  import opened Basics
  import opened Digits

  predicate IsBytes(s: string) {
    forall i :: 0 <= i < |s| ==> s[i] as int < 256
  }

  type Bytes = s: string | IsBytes(s) witness ""

  /** A float64 is known by the shortest decimal text that reads back as it. */
  type FloatText = s: string | '\0' !in s witness "0"

  datatype Value = Null | Text(text: Bytes) | Bool(b: bool) | Int(n: int64) | Float(shortest: FloatText)
    | Blob(bytes: Bytes)

  datatype Kind = TextKind | BoolKind | IntKind | FloatKind | BlobKind

  datatype Column = Column(name: string, kind: Kind)

  type Row = seq<Value>

  /** What the model takes from Go's libraries: the text of `float64(x)`, and SHA-256 in hexadecimal. */
  datatype Library = Library(floatOf: int64 -> FloatText, sha: string -> string)

  // ----- The converters

  function Convert(lib: Library, kind: Kind, v: Value): Option<Value> {
    match (kind, v)
    case (_, Null) => Some(Null)
    case (TextKind, Text(_)) => Some(v)
    case (TextKind, Blob(b)) => Some(Text(b))
    case (BoolKind, Bool(_)) => Some(v)
    case (BoolKind, Int(n)) => if n == 0 then Some(Bool(false)) else if n == 1 then Some(Bool(true)) else None
    case (IntKind, Int(_)) => Some(v)
    case (FloatKind, Float(_)) => Some(v)
    case (FloatKind, Int(n)) => Some(Float(lib.floatOf(n)))
    case (BlobKind, Blob(_)) => Some(v)
    case (BlobKind, Text(s)) => Some(Blob(s))
    case _ => None
  }

  /** What a target column of this kind can hold. */
  predicate Fits(kind: Kind, v: Value) {
    match v
    case Null => true
    case Text(_) => kind.TextKind?
    case Bool(_) => kind.BoolKind?
    case Int(_) => kind.IntKind?
    case Float(_) => kind.FloatKind?
    case Blob(_) => kind.BlobKind?
  }

  /** Exactly the values of the target column's own kind pass unchanged, and whatever passes is one. */
  lemma ConvertFits(lib: Library, kind: Kind, v: Value)
    ensures Convert(lib, kind, v) == Some(v) <==> Fits(kind, v)
    ensures Convert(lib, kind, v).Some? ==> Fits(kind, Convert(lib, kind, v).value)
  {
  }

  /** What a value of the source becomes in the target, told without the converters: a truth value from the
      integer that stands for it, a float from the integer it equals, the same bytes as text or as a blob, and
      otherwise the value itself, NULL only for NULL. */
  ghost predicate Stands(lib: Library, v: Value, w: Value) {
    match (v, w)
    case (Int(n), Bool(b)) => n == if b then 1 else 0
    case (Int(n), Float(t)) => t == lib.floatOf(n)
    case (Text(s), Blob(b)) => s == b
    case (Blob(b), Text(s)) => s == b
    case _ => v == w
  }

  /** The converters return the one value of the column's kind that stands for the source's, and refuse exactly
      where there is none. */
  lemma ConvertStands(lib: Library, kind: Kind, v: Value)
    ensures forall w :: Convert(lib, kind, v) == Some(w) <==> Fits(kind, w) && Stands(lib, v, w)
    ensures Convert(lib, kind, v).None? <==> forall w :: Fits(kind, w) ==> !Stands(lib, v, w)
  {
    forall w ensures Convert(lib, kind, v) == Some(w) <==> Fits(kind, w) && Stands(lib, v, w) {
      ConvertsTo(lib, kind, v, w);
    }
    if Convert(lib, kind, v).Some? { ConvertsTo(lib, kind, v, Convert(lib, kind, v).value); }
  }

  lemma ConvertsTo(lib: Library, kind: Kind, v: Value, w: Value)
    ensures Convert(lib, kind, v) == Some(w) <==> Fits(kind, w) && Stands(lib, v, w)
  {
  }

  // ----- The canonical text

  function IntText(n: int): string {
    if n < 0 then "-" + NatText(-n) else NatText(n)
  }

  function HexDigit(n: nat): char
    requires n < 16
  {
    "0123456789abcdef"[n]
  }

  function HexText(s: Bytes): string {
    if s == "" then "" else [HexDigit(s[0] as int / 16), HexDigit(s[0] as int % 16)] + HexText(s[1..])
  }

  function CanonicalText(v: Value): string {
    match v
    case Null => "N"
    case Text(s) => "S" + NatText(|s|) + ":" + s
    case Bool(b) => if b then "B1" else "B0"
    case Int(n) => "I" + IntText(n as int)
    case Float(t) => "F" + t
    case Blob(s) => "X" + HexText(s)
  }

  /** What `hashTable` writes into a row's digest. */
  function RowText(columns: seq<Column>, row: Row): string
    requires |row| == |columns|
  {
    if columns == [] then ""
    else columns[0].name + "\0" + (CanonicalText(row[0]) + "\0" + RowText(columns[1..], row[1..]))
  }

  // ----- It can be read back

  lemma Parts(a: string, sep: char, r: string)
    ensures var x := a + [sep] + r;
            && |x| == |a| + 1 + |r| && x[..|a|] == a && x[|a|] == sep && x[|a| + 1..] == r
            && forall k :: 0 <= k < |a| ==> x[k] == a[k]
  {
  }

  /** Two texts without the separator are told apart by where it comes first. */
  lemma SplitAtFirst(a: string, b: string, sep: char, r: string, s: string)
    requires sep !in a && sep !in b && a + [sep] + r == b + [sep] + s
    ensures a == b && r == s
  {
    Parts(a, sep, r);
    Parts(b, sep, s);
  }

  lemma SignTells(n: int)
    ensures IntText(n) != "" && (IntText(n)[0] == '-' <==> n < 0)
  {
    assert IsDigit(NatText(AbsInt(n))[0]);
  }

  lemma IntTextInjective(m: int, n: int)
    requires IntText(m) == IntText(n)
    ensures m == n
  {
    SignTells(m);
    SignTells(n);
    if m >= 0 && n >= 0 {
      ValueOfNatText(m);
      ValueOfNatText(n);
    } else if m < 0 && n < 0 {
      assert IntText(m)[1..] == NatText(-m) && IntText(n)[1..] == NatText(-n);
      ValueOfNatText(-m);
      ValueOfNatText(-n);
    }
  }

  lemma {:induction false} HexTextInjective(s: Bytes, t: Bytes)
    requires HexText(s) == HexText(t)
    ensures s == t
  {
    if s != "" && t != "" {
      HexPair(s[0], t[0], HexText(s), HexText(t));
      assert HexText(s)[2..] == HexText(s[1..]) && HexText(t)[2..] == HexText(t[1..]);
      HexTextInjective(s[1..], t[1..]);
      assert s == [s[0]] + s[1..] && t == [t[0]] + t[1..];
    }
  }

  lemma HexPair(c: char, d: char, x: string, y: string)
    requires c as int < 256 && d as int < 256 && |x| >= 2 && |y| >= 2 && x == y
    requires x[0] == HexDigit(c as int / 16) && x[1] == HexDigit(c as int % 16)
    requires y[0] == HexDigit(d as int / 16) && y[1] == HexDigit(d as int % 16)
    ensures c == d
  {
    HexDigitInjective(c as int / 16, d as int / 16);
    HexDigitInjective(c as int % 16, d as int % 16);
  }

  lemma HexDigitInjective(m: nat, n: nat)
    requires m < 16 && n < 16
    ensures HexDigit(m) == HexDigit(n) ==> m == n
  {
    var digits := "0123456789abcdef";
    assert forall i, j :: 0 <= i < j < 16 ==> digits[i] != digits[j];
  }

  lemma {:induction false} HexTextIsClean(s: Bytes)
    ensures '\0' !in HexText(s)
  {
    if s != "" {
      HexTextIsClean(s[1..]);
      assert forall n: nat :: n < 16 ==> HexDigit(n) != '\0';
    }
  }

  /** Everything but text is free of the terminator. */
  lemma CanonicalIsClean(v: Value)
    requires !v.Text?
    ensures '\0' !in CanonicalText(v)
  {
    match v
    case Int(n) => assert n >= 0 ==> AllDigits(NatText(n as int)); assert n < 0 ==> AllDigits(NatText(-(n as int)));
    case Blob(s) => HexTextIsClean(s);
    case _ =>
  }

  lemma CanonicalInjective(v: Value, w: Value)
    requires !v.Text? && !w.Text? && CanonicalText(v) == CanonicalText(w)
    ensures v == w
  {
    assert CanonicalText(v)[0] == CanonicalText(w)[0];
    assert CanonicalText(v)[1..] == CanonicalText(w)[1..];
    match v
    case Int(n) =>
      assert CanonicalText(v)[1..] == IntText(n as int) && CanonicalText(w)[1..] == IntText(w.n as int);
      IntTextInjective(n as int, w.n as int);
    case Float(t) => assert CanonicalText(v)[1..] == t && CanonicalText(w)[1..] == w.shortest;
    case Blob(s) =>
      assert CanonicalText(v)[1..] == HexText(s) && CanonicalText(w)[1..] == HexText(w.bytes);
      HexTextInjective(s, w.bytes);
    case _ =>
  }

  lemma Associate(a: string, b: string, c: string)
    ensures a + b + c == a + (b + c)
  {
  }

  lemma TextShape(s: Bytes, rest: string)
    ensures CanonicalText(Text(s)) + "\0" + rest == "S" + (NatText(|s|) + ":" + (s + "\0" + rest))
  {
    var p := NatText(|s|);
    hide NatText;
    var start := "S" + p + ":";
    assert CanonicalText(Text(s)) == start + s;
    Associate(start, s, "\0");
    Associate(start, s + "\0", rest);
    Associate("S", p, ":");
    Associate("S", p + ":", s + "\0" + rest);
  }

  /** Length-prefixed text is read back whatever bytes it holds, terminators included. */
  lemma TextPrefixFree(s: Bytes, t: Bytes, rest: string, other: string)
    requires CanonicalText(Text(s)) + "\0" + rest == CanonicalText(Text(t)) + "\0" + other
    ensures s == t && rest == other
  {
    hide CanonicalText, NatText;
    TextShape(s, rest);
    TextShape(t, other);
    var p, q := NatText(|s|), NatText(|t|);
    var x, y := s + "\0" + rest, t + "\0" + other;
    Parts("", 'S', p + ":" + x);
    Parts("", 'S', q + ":" + y);
    assert "S" + (p + ":" + x) == "" + "S" + (p + ":" + x) && "S" + (q + ":" + y) == "" + "S" + (q + ":" + y);
    SplitAtFirst(p, q, ':', x, y);
    ValueOfNatText(|s|);
    ValueOfNatText(|t|);
    Parts(s, '\0', rest);
    Parts(t, '\0', other);
  }

  /** A value is read back from the front of any text that starts with its canonical form. */
  lemma ValuePrefixFree(v: Value, w: Value, rest: string, other: string)
    requires CanonicalText(v) + "\0" + rest == CanonicalText(w) + "\0" + other
    ensures v == w && rest == other
  {
    assert (CanonicalText(v) + "\0" + rest)[0] == CanonicalText(v)[0];
    assert (CanonicalText(w) + "\0" + other)[0] == CanonicalText(w)[0];
    if v.Text? && w.Text? {
      TextPrefixFree(v.text, w.text, rest, other);
    } else {
      assert !v.Text? && !w.Text?;
      CanonicalIsClean(v);
      CanonicalIsClean(w);
      SplitAtFirst(CanonicalText(v), CanonicalText(w), '\0', rest, other);
      CanonicalInjective(v, w);
    }
  }

  /** Rows with the same text are the same row. */
  lemma {:induction false} RowTextInjective(columns: seq<Column>, row: Row, other: Row)
    requires |row| == |other| == |columns| && RowText(columns, row) == RowText(columns, other)
    ensures row == other
  {
    if columns != [] {
      var name := columns[0].name + "\0";
      var x := CanonicalText(row[0]) + "\0" + RowText(columns[1..], row[1..]);
      var y := CanonicalText(other[0]) + "\0" + RowText(columns[1..], other[1..]);
      assert RowText(columns, row)[|name|..] == x && RowText(columns, other)[|name|..] == y;
      ValuePrefixFree(row[0], other[0], RowText(columns[1..], row[1..]), RowText(columns[1..], other[1..]));
      RowTextInjective(columns[1..], row[1..], other[1..]);
      assert row == [row[0]] + row[1..] && other == [other[0]] + other[1..];
    }
  }
}
