/**
 * The pieces of java.lang.String and java.lang.Integer the search engine relies on,
 * written out: lexicographic comparison (String.compareTo, which is also the key order
 * of every TreeMap in the index), startsWith, trim, Integer.toString, and splitting on
 * the regular expression \s. Also the key sequence a TreeMap iterates over.
 */
module Strings {
  import opened Options

  // ---------------------------------------------------------------------------
  // String.compareTo

  /** Java's String.compareTo: the difference of the first pair of differing
      characters, or else the difference of the lengths. */
  function Compare(a: string, b: string): int
  {
    if |a| == 0 || |b| == 0 then |a| - |b|
    else if a[0] != b[0] then a[0] as int - b[0] as int
    else Compare(a[1..], b[1..])
  }

  lemma {:induction false} CompareZeroIffEqual(a: string, b: string)
    ensures Compare(a, b) == 0 <==> a == b
  {
    if |a| == 0 || |b| == 0 {
    } else if a[0] != b[0] {
    } else {
      CompareZeroIffEqual(a[1..], b[1..]);
      if a[1..] == b[1..] {
        assert a == [a[0]] + a[1..] && b == [b[0]] + b[1..];
      }
    }
  }

  lemma {:induction false} CompareAntisymmetric(a: string, b: string)
    ensures Compare(a, b) == -Compare(b, a)
  {
    if |a| == 0 || |b| == 0 {
    } else if a[0] != b[0] {
    } else {
      CompareAntisymmetric(a[1..], b[1..]);
    }
  }

  lemma {:induction false} CompareTransitive(a: string, b: string, c: string)
    requires Compare(a, b) <= 0 && Compare(b, c) <= 0
    ensures Compare(a, c) <= 0
    ensures Compare(a, b) < 0 || Compare(b, c) < 0 ==> Compare(a, c) < 0
  {
    if |a| == 0 || |b| == 0 || |c| == 0 {
    } else if a[0] != b[0] || b[0] != c[0] {
    } else {
      CompareTransitive(a[1..], b[1..], c[1..]);
    }
  }

  /** Strictly ascending in String.compareTo order: the order of a TreeMap's keys. */
  ghost predicate StrictlySorted(s: seq<string>)
  {
    forall i, j :: 0 <= i < j < |s| ==> Compare(s[i], s[j]) < 0
  }

  /** What follows a point of a sorted sequence is sorted. */
  lemma SortedSuffix(s: seq<string>, d: int)
    requires StrictlySorted(s) && 0 <= d <= |s|
    ensures StrictlySorted(s[d..])
  {
    forall i, j | 0 <= i < j < |s| - d
      ensures Compare(s[d..][i], s[d..][j]) < 0
    {
      assert s[d..][i] == s[d + i] && s[d..][j] == s[d + j];
    }
  }

  // ---------------------------------------------------------------------------
  // startsWith

  /** `w.startsWith(q)` */
  predicate IsPrefix(q: string, w: string)
  {
    |q| <= |w| && w[..|q|] == q
  }

  /** A string never sorts after a string it is a prefix of. */
  lemma {:induction false} PrefixNotAfter(q: string, w: string)
    requires IsPrefix(q, w)
    ensures Compare(q, w) <= 0
  {
    if |q| == 0 || |w| == 0 {
    } else {
      assert q[0] == w[0];
      assert IsPrefix(q[1..], w[1..]) by {
        assert w[1..][..|q[1..]|] == w[..|q|][1..];
      }
      PrefixNotAfter(q[1..], w[1..]);
    }
  }

  /** The keys that start with q form a contiguous range in sorted order: anything
      sorting between q and a word starting with q starts with q too. */
  lemma {:induction false} PrefixContiguous(q: string, k: string, w: string)
    requires Compare(q, k) <= 0 && Compare(k, w) <= 0
    requires IsPrefix(q, w)
    ensures IsPrefix(q, k)
  {
    if |q| == 0 {
    } else {
      assert w[0] == q[0];
      assert |k| > 0;
      assert k[0] == q[0];
      assert IsPrefix(q[1..], w[1..]) by {
        assert w[1..][..|q[1..]|] == w[..|q|][1..];
      }
      PrefixContiguous(q[1..], k[1..], w[1..]);
      assert k[..|q|] == [k[0]] + k[1..][..|q[1..]|];
      assert q == [q[0]] + q[1..];
    }
  }

  // ---------------------------------------------------------------------------
  // trim

  /** Characters String.trim removes: code points up to and including the space. */
  predicate IsTrimmable(c: char)
  {
    c <= ' '
  }

  function TrimStart(s: string): (r: string)
    ensures |r| <= |s| && r == s[|s| - |r|..]
    ensures forall i :: 0 <= i < |s| - |r| ==> IsTrimmable(s[i])
    ensures |r| > 0 ==> !IsTrimmable(r[0])
  {
    if |s| > 0 && IsTrimmable(s[0]) then TrimStart(s[1..]) else s
  }

  function TrimEnd(s: string): (r: string)
    ensures |r| <= |s| && r == s[..|r|]
    ensures forall i :: |r| <= i < |s| ==> IsTrimmable(s[i])
    ensures |r| > 0 ==> !IsTrimmable(r[|r| - 1])
  {
    if |s| > 0 && IsTrimmable(s[|s| - 1]) then TrimEnd(s[..|s| - 1]) else s
  }

  /** String.trim */
  function Trim(s: string): (r: string)
    ensures |r| > 0 ==> !IsTrimmable(r[0]) && !IsTrimmable(r[|r| - 1])
    ensures |r| == 0 <==> forall i :: 0 <= i < |s| ==> IsTrimmable(s[i])
  {
    var t := TrimStart(s);
    assert forall i :: |s| - |t| <= i < |s| ==> s[i] == t[i - (|s| - |t|)];
    TrimEnd(t)
  }

  /** Trimming only removes characters: a property every character has survives it. */
  lemma TrimKeeps(s: string, p: char -> bool)
    requires forall i :: 0 <= i < |s| ==> p(s[i])
    ensures forall i :: 0 <= i < |Trim(s)| ==> p(Trim(s)[i])
  {
    var t := TrimStart(s);
    assert forall i :: 0 <= i < |t| ==> t[i] == s[|s| - |t| + i];
  }

  /** A string that starts and ends with characters trim keeps is its own trim. */
  lemma TrimNothing(s: string)
    requires |s| > 0 ==> !IsTrimmable(s[0]) && !IsTrimmable(s[|s| - 1])
    ensures Trim(s) == s
  {
  }

  // ---------------------------------------------------------------------------
  // Integer.toString and a reader for it

  predicate IsDigit(c: char)
  {
    '0' <= c <= '9'
  }

  function DigitChar(d: nat): (c: char)
    requires d < 10
    ensures IsDigit(c)
  {
    ('0' as int + d) as char
  }

  function DigitValue(c: char): nat
    requires IsDigit(c)
  {
    c as int - '0' as int
  }

  /** Decimal digits of n, no leading zero. */
  function NatToString(n: nat): (s: string)
    ensures |s| > 0 && forall i :: 0 <= i < |s| ==> IsDigit(s[i])
    decreases n
  {
    if n < 10 then [DigitChar(n)] else NatToString(n / 10) + [DigitChar(n % 10)]
  }

  /** Integer.toString: a minus sign for negative numbers, then the digits. */
  function IntToString(n: int): (s: string)
    ensures |s| > 0
    ensures forall i :: 0 <= i < |s| ==> IsDigit(s[i]) || s[i] == '-'
  {
    if n < 0 then "-" + NatToString(-n) else NatToString(n)
  }

  predicate AllDigits(s: string)
  {
    forall i :: 0 <= i < |s| ==> IsDigit(s[i])
  }

  function DigitsValue(s: string): nat
    requires AllDigits(s)
  {
    if |s| == 0 then 0 else DigitsValue(s[..|s| - 1]) * 10 + DigitValue(s[|s| - 1])
  }

  /** Reads back what IntToString writes. */
  function ParseInt(s: string): Option<int>
  {
    if |s| > 1 && s[0] == '-' && AllDigits(s[1..]) then Some(0 - DigitsValue(s[1..]) as int)
    else if |s| > 0 && AllDigits(s) then Some(DigitsValue(s))
    else None
  }

  lemma {:induction false} NatToStringRoundTrip(n: nat)
    ensures DigitsValue(NatToString(n)) == n
    decreases n
  {
    if n >= 10 {
      NatToStringRoundTrip(n / 10);
      var s := NatToString(n);
      assert s[..|s| - 1] == NatToString(n / 10);
    }
  }

  lemma IntToStringRoundTrip(n: int)
    ensures ParseInt(IntToString(n)) == Some(n)
  {
    var s := IntToString(n);
    if n < 0 {
      assert s[1..] == NatToString(-n);
      NatToStringRoundTrip(-n);
    } else {
      NatToStringRoundTrip(n);
      assert s[0] != '-';
    }
  }

  // ---------------------------------------------------------------------------
  // split("\\s")

  /** The characters of the regular-expression class \s. */
  predicate IsSpace(c: char)
  {
    c == ' ' || c == '\t' || c == '\n' || c == '\U{B}' || c == '\U{C}' || c == '\r'
  }

  /** Every fragment between \s characters, empty fragments included. Java's split
      also drops trailing empty fragments; every caller here discards empty
      fragments anyway, so keeping them changes nothing. */
  function Split(s: string): (parts: seq<string>)
    ensures |parts| >= 1
    ensures forall k, i :: 0 <= k < |parts| && 0 <= i < |parts[k]| ==> !IsSpace(parts[k][i])
  {
    if |s| == 0 then [""]
    else
      var rest := Split(s[1..]);
      if IsSpace(s[0]) then [""] + rest
      else [[s[0]] + rest[0]] + rest[1..]
  }

  /** The fragments that are not empty, in order. */
  function NonEmpty(parts: seq<string>): seq<string>
  {
    if |parts| == 0 then []
    else if |parts[0]| == 0 then NonEmpty(parts[1..])
    else [parts[0]] + NonEmpty(parts[1..])
  }

  /** NonEmpty keeps exactly the fragments that are not empty. */
  lemma {:induction false} NonEmptyMembers(parts: seq<string>)
    ensures forall k :: 0 <= k < |NonEmpty(parts)| ==> |NonEmpty(parts)[k]| > 0
    ensures forall x :: x in NonEmpty(parts) <==> x in parts && |x| > 0
  {
    if |parts| > 0 {
      NonEmptyMembers(parts[1..]);
      assert forall x :: x in parts <==> x == parts[0] || x in parts[1..];
    }
  }

  /** Fragments joined back with single spaces. */
  function Join(parts: seq<string>): string
  {
    if |parts| == 0 then ""
    else if |parts| == 1 then parts[0]
    else parts[0] + " " + Join(parts[1..])
  }

  /** Pieces run together with no separator. */
  function Concat(parts: seq<string>): string
  {
    if |parts| == 0 then "" else parts[0] + Concat(parts[1..])
  }

  lemma {:induction false} ConcatAppend(a: seq<string>, b: seq<string>)
    ensures Concat(a + b) == Concat(a) + Concat(b)
    decreases |a|
  {
    if |a| > 0 {
      assert (a + b)[0] == a[0] && (a + b)[1..] == a[1..] + b;
      ConcatAppend(a[1..], b);
      assert a[0] + (Concat(a[1..]) + Concat(b)) == (a[0] + Concat(a[1..])) + Concat(b);
    } else {
      assert a + b == b;
    }
  }

  /** Splitting on a space separator: the fragments of each side, side by side. */
  lemma {:induction false} SplitAtSpace(x: string, y: string)
    ensures Split(x + " " + y) == Split(x) + Split(y)
  {
    if |x| == 0 {
      assert x + " " + y == [' '] + y;
      assert (x + " " + y)[1..] == y;
    } else {
      assert (x + " " + y)[1..] == x[1..] + " " + y;
      SplitAtSpace(x[1..], y);
    }
  }

  /** Splitting a string whose only \s characters are spaces, and joining the pieces
      with spaces, gives the string back. */
  lemma {:induction false} JoinSplit(s: string)
    requires forall i :: 0 <= i < |s| && IsSpace(s[i]) ==> s[i] == ' '
    ensures Join(Split(s)) == s
  {
    if |s| > 0 {
      var rest := Split(s[1..]);
      JoinSplit(s[1..]);
      if IsSpace(s[0]) {
        assert s == " " + s[1..];
        if |rest| == 1 {
          assert Join([""] + rest) == "" + " " + rest[0];
        } else {
          assert Join([""] + rest) == "" + " " + Join(rest);
        }
      } else {
        assert s == [s[0]] + s[1..];
        var parts := [[s[0]] + rest[0]] + rest[1..];
        if |rest| == 1 {
          assert Join(parts) == [s[0]] + rest[0];
        } else {
          assert Join(parts) == [s[0]] + rest[0] + " " + Join(rest[1..]);
          assert Join(rest) == rest[0] + " " + Join(rest[1..]);
        }
      }
    }
  }

  /** The first fragment is empty exactly when the text is empty or starts with \s. */
  lemma FirstFragment(s: string)
    ensures |Split(s)[0]| == 0 <==> |s| == 0 || IsSpace(s[0])
  {
  }

  // ---------------------------------------------------------------------------
  // TreeMap key order

  ghost predicate IsLeast(m: string, s: set<string>)
  {
    m in s && forall y :: y in s ==> Compare(m, y) <= 0
  }

  lemma {:induction false} HasLeast(s: set<string>)
    requires s != {}
    ensures exists m :: IsLeast(m, s)
    decreases |s|
  {
    var x :| x in s;
    if s == {x} {
      CompareZeroIffEqual(x, x);
      assert IsLeast(x, s);
    } else {
      HasLeast(s - {x});
      var m :| IsLeast(m, s - {x});
      if Compare(m, x) <= 0 {
        assert IsLeast(m, s);
      } else {
        CompareAntisymmetric(m, x);
        forall y | y in s
          ensures Compare(x, y) <= 0
        {
          if y == x {
            CompareZeroIffEqual(x, x);
          } else {
            CompareTransitive(x, m, y);
          }
        }
        assert IsLeast(x, s);
      }
    }
  }

  /** The keys of a TreeMap as it iterates them: every key once, ascending. */
  ghost function SortedKeys(s: set<string>): (r: seq<string>)
    ensures StrictlySorted(r)
    ensures forall k :: k in r <==> k in s
    ensures |r| == |s|
    decreases |s|
  {
    if s == {} then []
    else
      HasLeast(s);
      var m :| IsLeast(m, s);
      var rest := SortedKeys(s - {m});
      assert forall y :: y in rest ==> Compare(m, y) < 0 by {
        forall y | y in rest
          ensures Compare(m, y) < 0
        {
          CompareZeroIffEqual(m, y);
        }
      }
      [m] + rest
  }

  /** No key occurs twice in a strictly sorted sequence. */
  lemma SortedDistinct(s: seq<string>)
    requires StrictlySorted(s)
    ensures forall i, j :: 0 <= i < |s| && 0 <= j < |s| && i != j ==> s[i] != s[j]
  {
    forall i, j | 0 <= i < |s| && 0 <= j < |s| && i != j
      ensures s[i] != s[j]
    {
      if i < j {
        CompareZeroIffEqual(s[i], s[j]);
      } else {
        CompareZeroIffEqual(s[j], s[i]);
      }
    }
  }
}
