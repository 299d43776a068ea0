/** The order-independent content hash of a table, and what its equality proves (dbmove.go). */
module TableHash {
  import opened Basics
  import opened Canonical
  import opened ByteOrder

  // ----- Rows as they are read

  /** A row the driver can scan into the columns; the source's values must also convert. */
  predicate Readable(lib: Library, columns: seq<Column>, isSource: bool, row: Row) {
    |row| == |columns| && (isSource ==> forall i :: 0 <= i < |row| ==> Convert(lib, columns[i].kind, row[i]).Some?)
  }

  function ReadRow(lib: Library, columns: seq<Column>, isSource: bool, row: Row): (r: Row)
    requires Readable(lib, columns, isSource, row)
    ensures |r| == |columns|
  {
    if isSource then seq(|row|, i requires 0 <= i < |row| => Convert(lib, columns[i].kind, row[i]).value) else row
  }

  /** A row that a table with these columns can hold. */
  ghost predicate RowFits(columns: seq<Column>, row: Row) {
    |row| == |columns| && forall i :: 0 <= i < |row| ==> Fits(columns[i].kind, row[i])
  }

  /** A converted row fits its table, and a row that fits already is left as it is. */
  lemma ReadRowFits(lib: Library, columns: seq<Column>, row: Row)
    requires Readable(lib, columns, true, row)
    ensures RowFits(columns, ReadRow(lib, columns, true, row))
    ensures RowFits(columns, row) ==> ReadRow(lib, columns, true, row) == row
  {
    forall i | 0 <= i < |row|
      ensures Fits(columns[i].kind, ReadRow(lib, columns, true, row)[i])
      ensures Fits(columns[i].kind, row[i]) ==> ReadRow(lib, columns, true, row)[i] == row[i]
    {
      ConvertFits(lib, columns[i].kind, row[i]);
      ConvertFits(lib, columns[i].kind, Convert(lib, columns[i].kind, row[i]).value);
    }
    hide Convert, Fits;
  }

  /** A target row holds, column by column, what stands for the source row's values. */
  ghost predicate RowStands(lib: Library, columns: seq<Column>, row: Row, other: Row) {
    && |row| == |other| == |columns|
    && forall i :: 0 <= i < |row| ==> Fits(columns[i].kind, other[i]) && Stands(lib, row[i], other[i])
  }

  /** A source row is read as the one target row that stands for it, and cannot be read exactly when none
      does. */
  lemma ReadRowStands(lib: Library, columns: seq<Column>, row: Row)
    ensures Readable(lib, columns, true, row) <==> exists other :: RowStands(lib, columns, row, other)
    ensures Readable(lib, columns, true, row) ==> RowStands(lib, columns, row, ReadRow(lib, columns, true, row))
    ensures forall other :: RowStands(lib, columns, row, other) ==> other == ReadRow(lib, columns, true, row)
  {
    if Readable(lib, columns, true, row) {
      forall i | 0 <= i < |row|
        ensures Fits(columns[i].kind, ReadRow(lib, columns, true, row)[i])
        ensures Stands(lib, row[i], ReadRow(lib, columns, true, row)[i])
      {
        ConvertStands(lib, columns[i].kind, row[i]);
      }
      assert RowStands(lib, columns, row, ReadRow(lib, columns, true, row));
    }
    forall other | RowStands(lib, columns, row, other)
      ensures Readable(lib, columns, true, row) && other == ReadRow(lib, columns, true, row)
    {
      forall i | 0 <= i < |row| ensures Convert(lib, columns[i].kind, row[i]) == Some(other[i]) {
        ConvertStands(lib, columns[i].kind, row[i]);
      }
    }
    hide Convert, Fits, Stands;
  }

  predicate AllReadable(lib: Library, columns: seq<Column>, isSource: bool, rows: seq<Row>) {
    forall i :: 0 <= i < |rows| ==> Readable(lib, columns, isSource, rows[i])
  }

  function ReadRows(lib: Library, columns: seq<Column>, isSource: bool, rows: seq<Row>): (r: seq<Row>)
    requires AllReadable(lib, columns, isSource, rows)
    ensures |r| == |rows| && AllShaped(columns, r)
  {
    seq(|rows|, i requires 0 <= i < |rows| => ReadRow(lib, columns, isSource, rows[i]))
  }

  lemma ReadRowsGrow(lib: Library, columns: seq<Column>, isSource: bool, rows: seq<Row>, n: nat)
    requires n < |rows| && AllReadable(lib, columns, isSource, rows[..n]) && Readable(lib, columns, isSource, rows[n])
    ensures AllReadable(lib, columns, isSource, rows[..n + 1])
    ensures ReadRows(lib, columns, isSource, rows[..n + 1]) ==
            ReadRows(lib, columns, isSource, rows[..n]) + [ReadRow(lib, columns, isSource, rows[n])]
  {
    hide Readable, ReadRow;
    assert rows[..n + 1] == rows[..n] + [rows[n]];
  }

  /** The target's rows are taken as they are. */
  lemma TargetRowsAsTheyAre(lib: Library, columns: seq<Column>, rows: seq<Row>)
    ensures AllReadable(lib, columns, false, rows) <==> AllShaped(columns, rows)
    ensures AllShaped(columns, rows) ==> ReadRows(lib, columns, false, rows) == rows
  {
  }

  predicate AllShaped(columns: seq<Column>, rows: seq<Row>) {
    forall i :: 0 <= i < |rows| ==> |rows[i]| == |columns|
  }

  // ----- The hash

  function Digests(lib: Library, columns: seq<Column>, rows: seq<Row>): (d: seq<string>)
    requires AllShaped(columns, rows)
    ensures |d| == |rows|
  {
    seq(|rows|, i requires 0 <= i < |rows| => lib.sha(RowText(columns, rows[i])))
  }

  function Joined(digests: seq<string>): string {
    if digests == [] then "" else digests[0] + Joined(digests[1..])
  }

  function RowsHash(lib: Library, columns: seq<Column>, rows: seq<Row>): string
    requires AllShaped(columns, rows)
  {
    lib.sha(Joined(Sorted(Digests(lib, columns, rows))))
  }

  /** Every text that goes into SHA-256 for a table. */
  ghost function Hashed(lib: Library, columns: seq<Column>, rows: seq<Row>): set<string>
    requires AllShaped(columns, rows)
  {
    (set i | 0 <= i < |rows| :: RowText(columns, rows[i])) + {Joined(Sorted(Digests(lib, columns, rows)))}
  }

  /** No two different texts among these have the same digest. */
  ghost predicate CollisionFree(lib: Library, texts: set<string>) {
    forall x, y :: x in texts && y in texts && lib.sha(x) == lib.sha(y) ==> x == y
  }

  /** Digests have a fixed width. */
  ghost predicate FixedWidth(lib: Library) {
    forall x :: |lib.sha(x)| == 64
  }

  // ----- The hash is exact

  lemma {:induction false} JoinedInjective(a: seq<string>, b: seq<string>)
    requires forall i :: 0 <= i < |a| ==> |a[i]| == 64
    requires forall i :: 0 <= i < |b| ==> |b[i]| == 64
    requires Joined(a) == Joined(b)
    ensures a == b
  {
    if a != [] && b != [] {
      assert a[0] == Joined(a)[..64] && b[0] == Joined(b)[..64];
      assert Joined(a[1..]) == Joined(a)[64..] && Joined(b[1..]) == Joined(b)[64..];
      JoinedInjective(a[1..], b[1..]);
      assert a == [a[0]] + a[1..] && b == [b[0]] + b[1..];
    } else {
      assert a == [] ==> |Joined(b)| == 0;
    }
  }

  /** Equal hashes mean equal contents, duplicates counted; equal contents have equal hashes in whatever
      order the engines return the rows. */
  lemma HashIsExact(lib: Library, columns: seq<Column>, rows: seq<Row>, others: seq<Row>)
    requires AllShaped(columns, rows) && AllShaped(columns, others) && FixedWidth(lib)
    requires CollisionFree(lib, Hashed(lib, columns, rows) + Hashed(lib, columns, others))
    ensures RowsHash(lib, columns, rows) == RowsHash(lib, columns, others) <==> multiset(rows) == multiset(others)
  {
    var d, e := Digests(lib, columns, rows), Digests(lib, columns, others);
    if RowsHash(lib, columns, rows) == RowsHash(lib, columns, others) {
      assert Joined(Sorted(d)) == Joined(Sorted(e));
      SortedKeepsWidth(d);
      SortedKeepsWidth(e);
      JoinedInjective(Sorted(d), Sorted(e));
      assert multiset(d) == multiset(e);
      TextsKnown(lib, columns, rows, others);
      DigestsDetermineRows(lib, columns, rows, others);
    }
    if multiset(rows) == multiset(others) {
      HashIgnoresOrder(lib, columns, rows, others);
    }
  }

  /** Where row texts do collide the hash is fooled: one row can be exchanged for the other in any table. */
  lemma CollisionFools(lib: Library, columns: seq<Column>, rows: seq<Row>, i: nat, other: Row)
    requires AllShaped(columns, rows) && i < |rows| && |other| == |columns| && other != rows[i]
    requires lib.sha(RowText(columns, rows[i])) == lib.sha(RowText(columns, other))
    ensures AllShaped(columns, rows[i := other])
    ensures RowsHash(lib, columns, rows) == RowsHash(lib, columns, rows[i := other])
    ensures multiset(rows) != multiset(rows[i := other])
  {
    hide RowText, Sorted, Joined;
    assert Digests(lib, columns, rows) == Digests(lib, columns, rows[i := other]);
    assert multiset(rows[i := other])[other] == multiset(rows)[other] + 1;
  }

  lemma TextsKnown(lib: Library, columns: seq<Column>, rows: seq<Row>, others: seq<Row>)
    requires AllShaped(columns, rows) && AllShaped(columns, others)
    requires CollisionFree(lib, Hashed(lib, columns, rows) + Hashed(lib, columns, others))
    ensures Distinguishes(lib, columns, rows, others)
  {
  }

  lemma SortedKeepsWidth(d: seq<string>)
    requires forall i :: 0 <= i < |d| ==> |d[i]| == 64
    ensures forall i :: 0 <= i < |Sorted(d)| ==> |Sorted(d)[i]| == 64
  {
    forall i | 0 <= i < |Sorted(d)| ensures |Sorted(d)[i]| == 64 {
      assert Sorted(d)[i] in multiset(d);
    }
  }

  function Without<T>(s: seq<T>, j: nat): (r: seq<T>)
    requires j < |s|
    ensures |r| == |s| - 1
  {
    s[..j] + s[j + 1..]
  }

  lemma WithoutOne<T>(s: seq<T>, j: nat)
    requires j < |s|
    ensures multiset(s) == multiset(Without(s, j)) + multiset{s[j]}
    ensures forall x :: x in Without(s, j) ==> x in s
  {
    assert s == s[..j] + [s[j]] + s[j + 1..];
  }

  lemma WithoutAt<T>(s: seq<T>, j: nat, k: nat)
    requires j < |s| && k < |s| - 1
    ensures Without(s, j)[k] == s[if k < j then k else k + 1]
  {
  }

  lemma DigestsOfWithout(lib: Library, columns: seq<Column>, rows: seq<Row>, j: nat)
    requires AllShaped(columns, rows) && j < |rows|
    ensures AllShaped(columns, Without(rows, j)) && |rows[j]| == |columns|
    ensures Digests(lib, columns, rows)[j] == lib.sha(RowText(columns, rows[j]))
    ensures Digests(lib, columns, Without(rows, j)) == Without(Digests(lib, columns, rows), j)
  {
    hide RowText, Without;
    var fewer := Without(rows, j);
    forall k | 0 <= k < |fewer| ensures fewer[k] == rows[if k < j then k else k + 1] {
      WithoutAt(rows, j, k);
    }
    var d := Digests(lib, columns, rows);
    forall k | 0 <= k < |fewer| ensures Digests(lib, columns, fewer)[k] == Without(d, j)[k] {
      WithoutAt(d, j, k);
    }
  }

  /** The digests of all rows but one. */
  lemma DigestsWithout(lib: Library, columns: seq<Column>, rows: seq<Row>, j: nat)
    requires AllShaped(columns, rows) && j < |rows|
    ensures |rows[j]| == |columns| && AllShaped(columns, Without(rows, j))
    ensures lib.sha(RowText(columns, rows[j])) in multiset(Digests(lib, columns, rows))
    ensures multiset(Digests(lib, columns, rows)) ==
            multiset(Digests(lib, columns, Without(rows, j))) + multiset{lib.sha(RowText(columns, rows[j]))}
    ensures multiset(rows) == multiset(Without(rows, j)) + multiset{rows[j]}
  {
    DigestsOfWithout(lib, columns, rows, j);
    hide Without, RowText, Digests, AllShaped;
    WithoutOne(rows, j);
    WithoutOne(Digests(lib, columns, rows), j);
  }

  lemma Cancel<T>(a: multiset<T>, b: multiset<T>, x: T)
    requires a + multiset{x} == b + multiset{x}
    ensures a == b
  {
    assert a == (a + multiset{x}) - multiset{x} && b == (b + multiset{x}) - multiset{x};
  }

  /** Rows that share a digest share their text. */
  ghost predicate Distinguishes(lib: Library, columns: seq<Column>, rows: seq<Row>, others: seq<Row>)
    requires AllShaped(columns, rows) && AllShaped(columns, others)
  {
    forall x, y :: x in rows && y in others && lib.sha(RowText(columns, x)) == lib.sha(RowText(columns, y)) ==>
      RowText(columns, x) == RowText(columns, y)
  }

  lemma FindDigest(lib: Library, columns: seq<Column>, rows: seq<Row>, digest: string) returns (j: nat)
    requires AllShaped(columns, rows) && digest in multiset(Digests(lib, columns, rows))
    ensures j < |rows| && lib.sha(RowText(columns, rows[j])) == digest
  {
    j :| 0 <= j < |rows| && Digests(lib, columns, rows)[j] == digest;
  }

  lemma DistinguishesFewer(lib: Library, columns: seq<Column>, rows: seq<Row>, others: seq<Row>, i: nat, j: nat)
    requires AllShaped(columns, rows) && AllShaped(columns, others) && i < |rows| && j < |others|
    requires Distinguishes(lib, columns, rows, others)
    ensures AllShaped(columns, Without(rows, i)) && AllShaped(columns, Without(others, j))
    ensures Distinguishes(lib, columns, Without(rows, i), Without(others, j))
  {
    WithoutOne(rows, i);
    WithoutOne(others, j);
    hide Without;
  }

  lemma SameCount(lib: Library, columns: seq<Column>, rows: seq<Row>, others: seq<Row>)
    requires AllShaped(columns, rows) && AllShaped(columns, others)
    ensures multiset(Digests(lib, columns, rows)) == multiset(Digests(lib, columns, others)) ==> |rows| == |others|
    ensures multiset(rows) == multiset(others) ==> |rows| == |others|
  {
    assert |Digests(lib, columns, rows)| == |multiset(Digests(lib, columns, rows))|;
    assert |Digests(lib, columns, others)| == |multiset(Digests(lib, columns, others))|;
    assert |rows| == |multiset(rows)| && |others| == |multiset(others)|;
  }

  /** Row texts are injective, so the multiset of digests determines the multiset of rows. */
  lemma {:induction false} DigestsDetermineRows(lib: Library, columns: seq<Column>, rows: seq<Row>, others: seq<Row>)
    requires AllShaped(columns, rows) && AllShaped(columns, others)
    requires Distinguishes(lib, columns, rows, others)
    requires multiset(Digests(lib, columns, rows)) == multiset(Digests(lib, columns, others))
    ensures multiset(rows) == multiset(others)
    decreases |rows|
  {
    hide Digests, RowText, AllShaped, Without, Distinguishes;
    SameCount(lib, columns, rows, others);
    if rows != [] {
      DigestsWithout(lib, columns, rows, 0);
      var j := FindDigest(lib, columns, others, lib.sha(RowText(columns, rows[0])));
      SameRow(lib, columns, rows, others, 0, j);
      DigestsWithout(lib, columns, others, j);
      DistinguishesFewer(lib, columns, rows, others, 0, j);
      Cancel(multiset(Digests(lib, columns, Without(rows, 0))), multiset(Digests(lib, columns, Without(others, j))),
             lib.sha(RowText(columns, rows[0])));
      DigestsDetermineRows(lib, columns, Without(rows, 0), Without(others, j));
    }
  }

  lemma SameRow(lib: Library, columns: seq<Column>, rows: seq<Row>, others: seq<Row>, i: nat, j: nat)
    requires AllShaped(columns, rows) && AllShaped(columns, others) && i < |rows| && j < |others|
    requires Distinguishes(lib, columns, rows, others)
    requires lib.sha(RowText(columns, rows[i])) == lib.sha(RowText(columns, others[j]))
    ensures rows[i] == others[j]
  {
    RowTextInjective(columns, rows[i], others[j]);
  }

  lemma {:induction false} RowsDetermineDigests(lib: Library, columns: seq<Column>, rows: seq<Row>, others: seq<Row>)
    requires AllShaped(columns, rows) && AllShaped(columns, others) && multiset(rows) == multiset(others)
    ensures multiset(Digests(lib, columns, rows)) == multiset(Digests(lib, columns, others))
    decreases |rows|
  {
    hide Digests, RowText, AllShaped, Without;
    SameCount(lib, columns, rows, others);
    if rows != [] {
      DigestsWithout(lib, columns, rows, 0);
      assert rows[0] in multiset(others);
      var j :| 0 <= j < |others| && others[j] == rows[0];
      DigestsWithout(lib, columns, others, j);
      Cancel(multiset(Without(rows, 0)), multiset(Without(others, j)), rows[0]);
      RowsDetermineDigests(lib, columns, Without(rows, 0), Without(others, j));
    }
  }

  lemma HashIgnoresOrder(lib: Library, columns: seq<Column>, rows: seq<Row>, others: seq<Row>)
    requires AllShaped(columns, rows) && AllShaped(columns, others) && multiset(rows) == multiset(others)
    ensures RowsHash(lib, columns, rows) == RowsHash(lib, columns, others)
  {
    RowsDetermineDigests(lib, columns, rows, others);
    SortedUnique(Sorted(Digests(lib, columns, rows)), Sorted(Digests(lib, columns, others)));
  }

  // ----- The loop

  datatype ScanError = BadRow(row: nat)

  /** `hashTable`: converts the source's rows, takes the target's as they are, and stops at the first row
      that does not scan or convert. */
  method HashTable(lib: Library, columns: seq<Column>, rows: seq<Row>, isSource: bool)
    returns (r: Result<(nat, string), ScanError>)
    ensures r.Ok? <==> AllReadable(lib, columns, isSource, rows)
    ensures r.Ok? ==> r.value == (|rows|, RowsHash(lib, columns, ReadRows(lib, columns, isSource, rows)))
    ensures r.Err? ==>
              && 1 <= r.error.row <= |rows| && !Readable(lib, columns, isSource, rows[r.error.row - 1])
              && AllReadable(lib, columns, isSource, rows[..r.error.row - 1])
  {
    hide Readable, ReadRow, RowText;
    var hashes: seq<string> := [];
    var count: nat := 0;
    while count < |rows|
      invariant count <= |rows| && AllReadable(lib, columns, isSource, rows[..count])
      invariant hashes == Digests(lib, columns, ReadRows(lib, columns, isSource, rows[..count]))
    {
      if !Readable(lib, columns, isSource, rows[count]) { return Err(BadRow(count + 1)); }
      ReadRowsGrow(lib, columns, isSource, rows, count);
      var row := ReadRow(lib, columns, isSource, rows[count]);
      var text := WriteRow(columns, row);
      DigestsGrow(lib, columns, ReadRows(lib, columns, isSource, rows[..count]), row);
      hashes := hashes + [lib.sha(text)];
      count := count + 1;
    }
    assert rows[..count] == rows;
    r := Ok((count, lib.sha(Joined(Sorted(hashes)))));
  }

  lemma DigestsGrow(lib: Library, columns: seq<Column>, rows: seq<Row>, row: Row)
    requires AllShaped(columns, rows) && |row| == |columns|
    ensures Digests(lib, columns, rows + [row]) == Digests(lib, columns, rows) + [lib.sha(RowText(columns, row))]
  {
  }

  /** The inner loop writes name, terminator, value and terminator of every column in turn. */
  method WriteRow(columns: seq<Column>, row: Row) returns (text: string)
    requires |row| == |columns|
    ensures text == RowText(columns, row)
  {
    text := "";
    for i := 0 to |columns|
      invariant text + RowText(columns[i..], row[i..]) == RowText(columns, row)
    {
      text := text + (columns[i].name + "\0" + (CanonicalText(row[i]) + "\0"));
      assert columns[i..][1..] == columns[i + 1..] && row[i..][1..] == row[i + 1..];
    }
  }
}
