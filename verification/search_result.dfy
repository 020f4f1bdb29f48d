/**
 * One document matching a query (SearchResult.java): its path, how many times the
 * matched words occur in it, and the earliest position of a match. Results are
 * ordered by frequency (descending), then position (ascending), then path.
 */
module SearchResults {
  import opened Options
  import opened Strings
  import opened TextFormat

  datatype SearchResult = SearchResult(frequency: int, position: int, path: string)

  /** Folds one more matching word into the accumulator: its occurrences add to the
      frequency, and the position keeps the smaller of the two. */
  function Update(r: SearchResult, frequency: int, position: int): (u: SearchResult)
    ensures u.path == r.path
    ensures u.frequency == r.frequency + frequency
    ensures u.position <= r.position && u.position <= position
    ensures u.position == r.position || u.position == position
  {
    SearchResult(r.frequency + frequency, if r.position > position then position else r.position, r.path)
  }

  /** Accumulation does not depend on the order the matches arrive in. */
  lemma UpdateCommutes(r: SearchResult, f1: int, p1: int, f2: int, p2: int)
    ensures Update(Update(r, f1, p1), f2, p2) == Update(Update(r, f2, p2), f1, p1)
  {
  }

  /** Integer.compare */
  function IntCompare(x: int, y: int): int
  {
    if x < y then -1 else if x == y then 0 else 1
  }

  /** SearchResult.compareTo: negative when a sorts before b. */
  function CompareTo(a: SearchResult, b: SearchResult): (c: int)
    ensures a.frequency != b.frequency ==> (c < 0 <==> a.frequency > b.frequency)
    ensures a.frequency != b.frequency ==> c != 0
    ensures a.frequency == b.frequency && a.position != b.position ==>
              c != 0 && (c < 0 <==> a.position < b.position)
    ensures a.frequency == b.frequency && a.position == b.position ==> c == Compare(a.path, b.path)
    ensures c == 0 <==> a == b
  {
    CompareZeroIffEqual(a.path, b.path);
    if IntCompare(a.frequency, b.frequency) == 0 then
      if IntCompare(a.position, b.position) == 0 then
        if Compare(a.path, b.path) == 0 then 0 else Compare(a.path, b.path)
      else IntCompare(a.position, b.position)
    else IntCompare(b.frequency, a.frequency)
  }

  /** The sign flips when the arguments are swapped. */
  lemma CompareToAntisymmetric(a: SearchResult, b: SearchResult)
    ensures CompareTo(a, b) < 0 <==> CompareTo(b, a) > 0
    ensures CompareTo(a, b) == 0 <==> CompareTo(b, a) == 0
  {
    CompareAntisymmetric(a.path, b.path);
  }

  lemma CompareToTransitive(a: SearchResult, b: SearchResult, c: SearchResult)
    requires CompareTo(a, b) <= 0 && CompareTo(b, c) <= 0
    ensures CompareTo(a, c) <= 0
    ensures CompareTo(a, b) < 0 || CompareTo(b, c) < 0 ==> CompareTo(a, c) < 0
  {
    if a.frequency == b.frequency == c.frequency && a.position == b.position == c.position {
      CompareTransitive(a.path, b.path, c.path);
    }
  }

  /** toString: `"<path>", <frequency>, <position>` */
  function ToString(r: SearchResult): string
  {
    "\"" + r.path + "\"" + ", " + IntToString(r.frequency) + ", " + IntToString(r.position)
  }

  /** A result line is a record line whose two numbers are the frequency and the
      position, so it reads back to the same three fields. */
  lemma ToStringReadsBack(r: SearchResult)
    ensures ToString(r) == RenderRecord(Record(r.path, [r.frequency, r.position]))
    ensures ParseRecord(ToString(r)) == Some(Record(r.path, [r.frequency, r.position]))
  {
    var ns := [r.frequency, r.position];
    var f := IntToString(r.frequency);
    var p := IntToString(r.position);
    assert ns[1..][1..] == [];
    assert RenderNumbers(ns[1..]) == ", " + p + "";
    assert RenderNumbers(ns) == ", " + f + (", " + p + "");
    assert ToString(r) == "\"" + r.path + "\"" + (", " + f + (", " + p + ""));
    RecordRoundTrip(Record(r.path, ns));
  }

  // ---------------------------------------------------------------------------
  // Collections.sort

  ghost predicate Sorted(s: seq<SearchResult>)
  {
    forall i, j :: 0 <= i < j < |s| ==> CompareTo(s[i], s[j]) <= 0
  }

  /** No two results share a path. */
  ghost predicate DistinctPaths(s: seq<SearchResult>)
  {
    forall i, j :: 0 <= i < |s| && 0 <= j < |s| && i != j ==> s[i].path != s[j].path
  }

  lemma SortedCons(x: SearchResult, s: seq<SearchResult>)
    requires Sorted(s)
    requires forall y :: y in s ==> CompareTo(x, y) <= 0
    ensures Sorted([x] + s)
  {
    forall i, j | 0 <= i < j < |[x] + s|
      ensures CompareTo(([x] + s)[i], ([x] + s)[j]) <= 0
    {
      if i > 0 {
        assert ([x] + s)[i] == s[i - 1] && ([x] + s)[j] == s[j - 1];
      } else {
        assert ([x] + s)[j] == s[j - 1];
      }
    }
  }

  lemma DistinctCons(x: SearchResult, s: seq<SearchResult>)
    requires DistinctPaths(s)
    requires forall y :: y in s ==> y.path != x.path
    ensures DistinctPaths([x] + s)
  {
    forall i, j | 0 <= i < |[x] + s| && 0 <= j < |[x] + s| && i != j
      ensures ([x] + s)[i].path != ([x] + s)[j].path
    {
      if i > 0 && j > 0 {
        assert ([x] + s)[i] == s[i - 1] && ([x] + s)[j] == s[j - 1];
      } else if i > 0 {
        assert ([x] + s)[i] == s[i - 1];
      } else {
        assert ([x] + s)[j] == s[j - 1];
      }
    }
  }

  lemma SortedTail(s: seq<SearchResult>)
    requires Sorted(s) && |s| > 0
    ensures Sorted(s[1..])
    ensures forall y :: y in s[1..] ==> CompareTo(s[0], y) <= 0
  {
    forall y | y in s[1..]
      ensures CompareTo(s[0], y) <= 0
    {
      var k :| 0 <= k < |s[1..]| && s[1..][k] == y;
      assert s[k + 1] == y;
    }
  }

  lemma DistinctTail(s: seq<SearchResult>)
    requires DistinctPaths(s) && |s| > 0
    ensures DistinctPaths(s[1..])
    ensures forall y :: y in s[1..] ==> y.path != s[0].path
  {
    forall y | y in s[1..]
      ensures y.path != s[0].path
    {
      var k :| 0 <= k < |s[1..]| && s[1..][k] == y;
      assert s[k + 1] == y;
    }
  }

  /** x goes in front of a sorted list whose head does not sort before it. */
  lemma InsertFront(x: SearchResult, s: seq<SearchResult>)
    requires Sorted(s) && |s| > 0 && CompareTo(x, s[0]) <= 0
    ensures Sorted([x] + s)
    ensures multiset([x] + s) == multiset(s) + multiset{x}
    ensures forall y :: y in [x] + s <==> y == x || y in s
    ensures DistinctPaths(s) && (forall y :: y in s ==> y.path != x.path) ==> DistinctPaths([x] + s)
  {
    SortedTail(s);
    forall y | y in s
      ensures CompareTo(x, y) <= 0
    {
      if y != s[0] {
        assert y in s[1..];
        CompareToTransitive(x, s[0], y);
      }
    }
    SortedCons(x, s);
    if DistinctPaths(s) && (forall y :: y in s ==> y.path != x.path) {
      DistinctCons(x, s);
    }
  }

  /** The head of a sorted list stays in front of x inserted into its tail. */
  lemma InsertBehind(x: SearchResult, s: seq<SearchResult>, rest: seq<SearchResult>)
    requires Sorted(s) && |s| > 0 && CompareTo(x, s[0]) > 0
    requires Sorted(rest) && forall y :: y in rest <==> y == x || y in s[1..]
    ensures Sorted([s[0]] + rest)
  {
    SortedTail(s);
    CompareToAntisymmetric(x, s[0]);
    SortedCons(s[0], rest);
  }

  lemma InsertBehindContents(x: SearchResult, s: seq<SearchResult>, rest: seq<SearchResult>)
    requires |s| > 0
    requires multiset(rest) == multiset(s[1..]) + multiset{x}
    ensures multiset([s[0]] + rest) == multiset(s) + multiset{x}
    ensures forall y :: y in [s[0]] + rest <==> y == x || y in s
  {
    assert s == [s[0]] + s[1..];
    forall y
      ensures y in [s[0]] + rest <==> y == x || y in s
    {
      assert y in [s[0]] + rest <==> y in multiset([s[0]] + rest);
      assert y in s <==> y in multiset(s);
    }
  }

  lemma InsertBehindDistinct(x: SearchResult, s: seq<SearchResult>, rest: seq<SearchResult>)
    requires |s| > 0
    requires forall y :: y in rest <==> y == x || y in s[1..]
    requires DistinctPaths(s[1..]) && (forall y :: y in s[1..] ==> y.path != x.path) ==> DistinctPaths(rest)
    ensures DistinctPaths(s) && (forall y :: y in s ==> y.path != x.path) ==> DistinctPaths([s[0]] + rest)
  {
    if DistinctPaths(s) && (forall y :: y in s ==> y.path != x.path) {
      DistinctTail(s);
      DistinctCons(s[0], rest);
    }
  }

  function Insert(x: SearchResult, s: seq<SearchResult>): (r: seq<SearchResult>)
    requires Sorted(s)
    ensures Sorted(r)
    ensures multiset(r) == multiset(s) + multiset{x}
    ensures forall y :: y in r <==> y == x || y in s
    ensures DistinctPaths(s) && (forall y :: y in s ==> y.path != x.path) ==> DistinctPaths(r)
  {
    if |s| == 0 then [x]
    else if CompareTo(x, s[0]) <= 0 then
      InsertFront(x, s);
      [x] + s
    else
      SortedTail(s);
      var rest := Insert(x, s[1..]);
      InsertBehind(x, s, rest);
      InsertBehindContents(x, s, rest);
      InsertBehindDistinct(x, s, rest);
      [s[0]] + rest
  }

  /** Orders a list of results the way Collections.sort orders it with compareTo. */
  function Sort(s: seq<SearchResult>): (r: seq<SearchResult>)
    ensures Sorted(r)
    ensures multiset(r) == multiset(s)
    ensures forall y :: y in r <==> y in s
    ensures DistinctPaths(s) ==> DistinctPaths(r)
  {
    if |s| == 0 then []
    else
      var rest := Sort(s[1..]);
      assert s == [s[0]] + s[1..];
      assert multiset(s) == multiset(s[1..]) + multiset{s[0]};
      assert DistinctPaths(s) ==> DistinctPaths(rest) && forall y :: y in rest ==> y.path != s[0].path by {
        if DistinctPaths(s) {
          DistinctTail(s);
        }
      }
      Insert(s[0], rest)
  }

  /** Two sorted arrangements of the same results start with the same result. */
  lemma SortedSameHead(a: seq<SearchResult>, b: seq<SearchResult>)
    requires Sorted(a) && Sorted(b)
    requires multiset(a) == multiset(b)
    requires |a| > 0 && |b| > 0
    ensures a[0] == b[0]
  {
    SortedTail(a);
    SortedTail(b);
    assert a == [a[0]] + a[1..] && b == [b[0]] + b[1..];
    assert a[0] in b && b[0] in a by {
      assert a[0] in multiset(b) && b[0] in multiset(a);
    }
    assert CompareTo(a[0], b[0]) <= 0 by {
      if b[0] != a[0] {
        assert b[0] in a[1..];
      }
    }
    assert CompareTo(b[0], a[0]) <= 0 by {
      if b[0] != a[0] {
        assert a[0] in b[1..];
      }
    }
    CompareToAntisymmetric(a[0], b[0]);
  }

  /** Two sorted arrangements of the same results start with the same result, and
      what follows it in each is again a sorted arrangement of the same results. */
  lemma SortedUniqueStep(a: seq<SearchResult>, b: seq<SearchResult>)
    requires Sorted(a) && Sorted(b)
    requires multiset(a) == multiset(b)
    requires |a| > 0
    ensures |b| > 0 && a[0] == b[0]
    ensures Sorted(a[1..]) && Sorted(b[1..])
    ensures multiset(a[1..]) == multiset(b[1..])
  {
    assert |b| > 0 by {
      assert |multiset(b)| == |multiset(a)| == |a|;
    }
    SortedSameHead(a, b);
    assert a == [a[0]] + a[1..] && b == [b[0]] + b[1..];
    assert multiset(a) == multiset{a[0]} + multiset(a[1..]);
    assert multiset(b) == multiset{b[0]} + multiset(b[1..]);
    assert multiset(a[1..]) == multiset(a) - multiset{a[0]};
    assert multiset(b[1..]) == multiset(b) - multiset{b[0]};
    SortedTail(a);
    SortedTail(b);
  }

  /** compareTo is a total order on results, so there is exactly one sorted
      arrangement of a given collection: whatever order the results come in, the
      sorted list is the same. */
  lemma {:induction false} SortedUnique(a: seq<SearchResult>, b: seq<SearchResult>)
    requires Sorted(a) && Sorted(b)
    requires multiset(a) == multiset(b)
    ensures a == b
  {
    if |a| > 0 {
      SortedUniqueStep(a, b);
      SortedUnique(a[1..], b[1..]);
      assert a == [a[0]] + a[1..] && b == [b[0]] + b[1..];
    } else {
      assert |multiset(b)| == 0;
    }
  }
}
