/** Timestamped readings, time in whole nanoseconds, and the aggregators' sorting of a copy. */
module Samples {
  /** A float64 reading; the model computes with exact reals. */
  datatype Reading = Finite(value: real) | NotFinite

  datatype Sample = Sample(at: int, reading: Reading)

  /** A reading that is a number and not negative. */
  predicate Valid(r: Reading) {
    r.Finite? && r.value >= 0.0
  }

  ghost predicate InTimeOrder(s: seq<Sample>) {
    forall i, j :: 0 <= i < j < |s| ==> s[i].at <= s[j].at
  }

  ghost predicate Rearranged(s: seq<Sample>, t: seq<Sample>) {
    multiset(s) == multiset(t)
  }

  method InsertInOrder(ordered: seq<Sample>, x: Sample) returns (r: seq<Sample>)
    requires InTimeOrder(ordered)
    ensures InTimeOrder(r) && multiset(r) == multiset(ordered) + multiset{x}
  {
    var k := |ordered|;
    while k > 0 && ordered[k - 1].at > x.at
      invariant 0 <= k <= |ordered|
      invariant forall j :: k <= j < |ordered| ==> ordered[j].at > x.at
    {
      k := k - 1;
    }
    r := ordered[..k] + [x] + ordered[k..];
    InsertedAt(ordered, k, x);
  }

  lemma InsertedAt(ordered: seq<Sample>, k: nat, x: Sample)
    requires k <= |ordered|
    ensures multiset(ordered[..k] + [x] + ordered[k..]) == multiset(ordered) + multiset{x}
  {
    assert ordered == ordered[..k] + ordered[k..];
  }

  /** sort.Slice on a copy. It is not stable: of samples with equal times any may come first, and no caller
      may know more than this. */
  method SortedCopy(samples: seq<Sample>) returns (ordered: seq<Sample>)
    ensures InTimeOrder(ordered) && Rearranged(samples, ordered)
  {
    ordered := [];
    for i := 0 to |samples|
      invariant InTimeOrder(ordered) && Rearranged(samples[..i], ordered)
    {
      assert samples[..i + 1] == samples[..i] + [samples[i]];
      ordered := InsertInOrder(ordered, samples[i]);
    }
    assert samples[..|samples|] == samples;
  }

  lemma RearrangedMembers(s: seq<Sample>, t: seq<Sample>)
    requires Rearranged(s, t)
    ensures |s| == |t| && forall x :: x in s <==> x in t
  {
    assert |multiset(s)| == |s| && |multiset(t)| == |t|;
    forall x ensures x in s <==> x in t {
      assert x in s <==> x in multiset(s);
    }
  }

  /** Samples of one instant agree; samples with distinct instants always do. */
  ghost predicate Unambiguous(s: seq<Sample>) {
    forall x, y :: x in s && y in s && x.at == y.at ==> x == y
  }

  /** Then there is only one way to sort them. */
  lemma {:induction false} SortedOnce(s: seq<Sample>, t: seq<Sample>)
    requires InTimeOrder(s) && InTimeOrder(t) && Rearranged(s, t) && Unambiguous(s)
    ensures s == t
    decreases |s|
  {
    if s == [] {
      assert |multiset(t)| == |t|;
    } else {
      HeadsKnown(s, t);
      SameFirst(s, t);
      TailsRearranged(s, t);
      assert Unambiguous(s[1..]) by { assert forall x :: x in s[1..] ==> x in s; }
      hide Unambiguous, Rearranged;
      SortedOnce(s[1..], t[1..]);
      assert s == [s[0]] + s[1..] && t == [t[0]] + t[1..];
    }
  }

  lemma HeadsKnown(s: seq<Sample>, t: seq<Sample>)
    requires Rearranged(s, t) && s != []
    ensures t != [] && s[0] in t && t[0] in s
  {
    RearrangedMembers(s, t);
    hide Rearranged;
    assert s[0] in s && t[0] in t;
  }

  lemma TailsRearranged(s: seq<Sample>, t: seq<Sample>)
    requires Rearranged(s, t) && s != [] && t != [] && s[0] == t[0]
    ensures Rearranged(s[1..], t[1..])
  {
    assert s == [s[0]] + s[1..] && t == [t[0]] + t[1..];
    assert multiset(s[1..]) == multiset(s) - multiset{s[0]};
    assert multiset(t[1..]) == multiset(t) - multiset{t[0]};
  }

  lemma SameFirst(s: seq<Sample>, t: seq<Sample>)
    requires InTimeOrder(s) && InTimeOrder(t) && Unambiguous(s) && s != [] && t != []
    requires s[0] in t && t[0] in s
    ensures s[0] == t[0]
  {
    var i :| 0 <= i < |t| && t[i] == s[0];
    var j :| 0 <= j < |s| && s[j] == t[0];
  }
}
