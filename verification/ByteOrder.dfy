/** Sorting strings byte by byte, as Go's sort.Strings does. */
module ByteOrder {
  import opened Digits

  predicate AtMost(s: string, t: string) {
    s == t || TextLess(s, t)
  }

  lemma {:induction false} AtMostTotal(s: string, t: string)
    ensures AtMost(s, t) || AtMost(t, s)
  {
    if s != "" && t != "" && s[0] == t[0] {
      AtMostTotal(s[1..], t[1..]);
      assert s == [s[0]] + s[1..] && t == [t[0]] + t[1..];
    }
  }

  lemma {:induction false} TextLessTransitive(s: string, t: string, u: string)
    requires TextLess(s, t) && TextLess(t, u)
    ensures TextLess(s, u)
  {
    if s != "" && s[0] == t[0] && t[0] == u[0] { TextLessTransitive(s[1..], t[1..], u[1..]); }
  }

  lemma AtMostAntisymmetric(s: string, t: string)
    requires AtMost(s, t) && AtMost(t, s)
    ensures s == t
  {
    if s != t {
      TextLessTransitive(s, t, s);
      TextLessIrreflexive(s);
    }
  }

  predicate IsSorted(s: seq<string>) {
    forall i, j :: 0 <= i < j < |s| ==> AtMost(s[i], s[j])
  }

  function Insert(x: string, s: seq<string>): (r: seq<string>)
    ensures multiset(r) == multiset(s) + multiset{x}
  {
    if s == [] then [x]
    else if AtMost(x, s[0]) then [x] + s
    else
      assert s == [s[0]] + s[1..];
      [s[0]] + Insert(x, s[1..])
  }

  lemma PrependSorted(x: string, s: seq<string>)
    requires IsSorted(s) && (s != [] ==> AtMost(x, s[0]))
    ensures IsSorted([x] + s)
  {
    forall j | 0 <= j < |s| ensures AtMost(x, s[j]) {
      if j > 0 && x != s[0] && s[0] != s[j] { TextLessTransitive(x, s[0], s[j]); }
    }
  }

  lemma {:induction false} InsertSorted(x: string, s: seq<string>)
    requires IsSorted(s)
    ensures IsSorted(Insert(x, s))
  {
    if s == [] {
    } else if AtMost(x, s[0]) {
      PrependSorted(x, s);
    } else {
      InsertSorted(x, s[1..]);
      var rest := Insert(x, s[1..]);
      assert rest[0] in multiset(rest);
      assert rest[0] == x || rest[0] in s[1..];
      AtMostTotal(x, s[0]);
      hide Insert, TextLess;
      PrependSorted(s[0], rest);
    }
  }

  /** What sort.Strings returns: the sorted arrangement of the same strings, which is unique. */
  function Sorted(s: seq<string>): (r: seq<string>)
    ensures IsSorted(r) && multiset(r) == multiset(s)
  {
    if s == [] then []
    else
      assert s == [s[0]] + s[1..];
      InsertSorted(s[0], Sorted(s[1..]));
      Insert(s[0], Sorted(s[1..]))
  }

  lemma SortedParts(s: seq<string>, y: string)
    requires IsSorted(s) && y in multiset(s)
    ensures s != [] && AtMost(s[0], y) && IsSorted(s[1..])
    ensures multiset(s[1..]) == multiset(s) - multiset{s[0]} && s[0] in multiset(s)
  {
    assert s == [s[0]] + s[1..];
  }

  lemma {:induction false} SortedUnique(a: seq<string>, b: seq<string>)
    requires IsSorted(a) && IsSorted(b) && multiset(a) == multiset(b)
    ensures a == b
  {
    if a != [] {
      hide IsSorted, AtMost;
      assert a[0] in multiset(a);
      SortedParts(b, a[0]);
      SortedParts(a, b[0]);
      AtMostAntisymmetric(a[0], b[0]);
      SortedUnique(a[1..], b[1..]);
      assert a == [a[0]] + a[1..] && b == [b[0]] + b[1..];
    } else {
      assert |multiset(b)| == |b|;
    }
  }
}
