/**
 * InvertedIndex.partialSearch: for every query, walk the keys from the query on and
 * stop at the first one that does not start with it; every (word, path) met updates
 * the path's SearchResult (frequency summed, position the least first position); the
 * results are then sorted with SearchResult.compareTo.
 */
module IndexSearch {
  import opened Options
  import opened Strings
  import opened InvertedIndex
  import opened SearchResults

  // ---------------------------------------------------------------------------
  // The scan over the keys

  /** tailMap(q).keySet() of a TreeMap whose ascending keys are ks: the keys from the
      first one not below q on. */
  function TailFrom(ks: seq<string>, q: string): (t: seq<string>)
    ensures |t| <= |ks| && t == ks[|ks| - |t|..]
  {
    if |ks| == 0 || Compare(ks[0], q) >= 0 then ks else TailFrom(ks[1..], q)
  }

  /** The loop over that tail: keep each key that starts with q, break at the first
      one that does not. */
  function TakePrefixed(ks: seq<string>, q: string): seq<string>
  {
    if |ks| == 0 || !IsPrefix(q, ks[0]) then [] else [ks[0]] + TakePrefixed(ks[1..], q)
  }

  /** The words the scan for one query visits, in the order it visits them. */
  ghost function Matches(idx: Index, q: string): seq<string>
  {
    TakePrefixed(TailFrom(SortedKeys(idx.Keys), q), q)
  }

  /** Reference for the scan: every key that starts with q, in key order, with no
      early exit. */
  function PrefixFilter(ks: seq<string>, q: string): seq<string>
  {
    if |ks| == 0 then []
    else (if IsPrefix(q, ks[0]) then [ks[0]] else []) + PrefixFilter(ks[1..], q)
  }

  lemma {:induction false} PrefixFilterMembers(ks: seq<string>, q: string)
    ensures forall w :: w in PrefixFilter(ks, q) <==> w in ks && IsPrefix(q, w)
    decreases |ks|
  {
    if |ks| > 0 {
      PrefixFilterMembers(ks[1..], q);
      assert forall w :: w in ks <==> w == ks[0] || w in ks[1..];
    }
  }

  /** A key that sorts before q does not start with q. */
  lemma BeforeNotPrefixed(q: string, k: string)
    requires Compare(k, q) < 0
    ensures !IsPrefix(q, k)
  {
    if IsPrefix(q, k) {
      PrefixNotAfter(q, k);
      CompareAntisymmetric(q, k);
    }
  }

  /** Starting at tailMap(q) skips no key that starts with q. */
  lemma {:induction false} TailFromFilter(ks: seq<string>, q: string)
    ensures PrefixFilter(TailFrom(ks, q), q) == PrefixFilter(ks, q)
    decreases |ks|
  {
    if |ks| > 0 && Compare(ks[0], q) < 0 {
      BeforeNotPrefixed(q, ks[0]);
      TailFromFilter(ks[1..], q);
    }
  }

  /** Past a key k at or after q that does not start with q, no key of a sorted
      sequence starts with q: such keys are contiguous. */
  lemma {:induction false} NothingPrefixedBeyond(t: seq<string>, q: string, k: string)
    requires StrictlySorted(t)
    requires Compare(q, k) <= 0 && !IsPrefix(q, k)
    requires forall i :: 0 <= i < |t| ==> Compare(k, t[i]) <= 0
    ensures PrefixFilter(t, q) == []
    decreases |t|
  {
    if |t| > 0 {
      if IsPrefix(q, t[0]) {
        PrefixContiguous(q, k, t[0]);
      }
      NothingPrefixedBeyond(t[1..], q, k);
    }
  }

  /** On a sorted tail that starts at or after q, breaking at the first key without
      the prefix loses nothing. */
  lemma {:induction false} TakePrefixedFilter(t: seq<string>, q: string)
    requires StrictlySorted(t)
    requires |t| > 0 ==> Compare(q, t[0]) <= 0
    ensures TakePrefixed(t, q) == PrefixFilter(t, q)
    decreases |t|
  {
    if |t| > 0 {
      if IsPrefix(q, t[0]) {
        if |t| > 1 {
          CompareTransitive(q, t[0], t[1]);
        }
        TakePrefixedFilter(t[1..], q);
      } else {
        NothingPrefixedBeyond(t[1..], q, t[0]);
      }
    }
  }

  lemma TailFromSorted(ks: seq<string>, q: string)
    requires StrictlySorted(ks)
    ensures StrictlySorted(TailFrom(ks, q))
  {
    var t := TailFrom(ks, q);
    SortedSuffix(ks, |ks| - |t|);
    assert t == ks[|ks| - |t|..];
  }

  /** The tail starts at a key no earlier than q. */
  lemma TailFromAfter(ks: seq<string>, q: string)
    ensures |TailFrom(ks, q)| > 0 ==> Compare(q, TailFrom(ks, q)[0]) <= 0
  {
    var t := TailFrom(ks, q);
    if |t| > 0 {
      TailFromStops(ks, q);
      CompareAntisymmetric(t[0], q);
    }
  }

  lemma {:induction false} TailFromStops(ks: seq<string>, q: string)
    ensures |TailFrom(ks, q)| > 0 ==> Compare(TailFrom(ks, q)[0], q) >= 0
    decreases |ks|
  {
    if |ks| > 0 && Compare(ks[0], q) < 0 {
      TailFromStops(ks[1..], q);
    }
  }

  /** The scan with its early exit visits exactly the keys that start with q, in key
      order: the break is safe because those keys are contiguous. */
  lemma ScanFindsAllMatches(idx: Index, q: string)
    ensures Matches(idx, q) == PrefixFilter(SortedKeys(idx.Keys), q)
  {
    var ks := SortedKeys(idx.Keys);
    TailFromSorted(ks, q);
    TailFromAfter(ks, q);
    TakePrefixedFilter(TailFrom(ks, q), q);
    TailFromFilter(ks, q);
  }

  /** The scan for q visits a word exactly when the index has it and q is a prefix of it. */
  lemma MatchesMembers(idx: Index, q: string)
    ensures forall w :: w in Matches(idx, q) <==> w in idx && IsPrefix(q, w)
  {
    ScanFindsAllMatches(idx, q);
    PrefixFilterMembers(SortedKeys(idx.Keys), q);
  }

  lemma MatchesInIndex(idx: Index, q: string)
    ensures forall i :: 0 <= i < |Matches(idx, q)| ==> Matches(idx, q)[i] in idx
  {
    MatchesMembers(idx, q);
  }

  lemma {:induction false} PrefixFilterAll(ks: seq<string>, q: string)
    requires forall i :: 0 <= i < |ks| ==> IsPrefix(q, ks[i])
    ensures PrefixFilter(ks, q) == ks
    decreases |ks|
  {
    if |ks| > 0 {
      PrefixFilterAll(ks[1..], q);
    }
  }

  /** The empty query is a prefix of every word: its scan visits every key, in order. */
  lemma EmptyQueryMatchesAll(idx: Index)
    ensures Matches(idx, "") == SortedKeys(idx.Keys)
  {
    ScanFindsAllMatches(idx, "");
    PrefixFilterAll(SortedKeys(idx.Keys), "");
  }

  // ---------------------------------------------------------------------------
  // Accumulating the results of one search

  /** The HashMap from path to SearchResult that partialSearch fills. */
  type Results = map<string, SearchResult>

  function Lookup(acc: Results, p: string): Option<SearchResult>
  {
    if p in acc then Some(acc[p]) else None
  }

  /** What one position list l met for path p does to p's entry: a new result with
      l's size and first position, or an update of the one already there. */
  function Touch(o: Option<SearchResult>, p: string, l: seq<int>): (t: Option<SearchResult>)
    requires |l| > 0
    ensures t.Some?
  {
    match o
    case None => Some(SearchResult(|l|, l[0], p))
    case Some(r) => Some(Update(r, |l|, l[0]))
  }

  ghost predicate AllNonEmpty(ls: seq<seq<int>>)
  {
    forall i :: 0 <= i < |ls| ==> |ls[i]| > 0
  }

  /** The entry of path p after the lists ls were met for it, in order. */
  function TouchAll(o: Option<SearchResult>, p: string, ls: seq<seq<int>>): Option<SearchResult>
    requires AllNonEmpty(ls)
    decreases |ls|
  {
    if |ls| == 0 then o else TouchAll(Touch(o, p, ls[0]), p, ls[1..])
  }

  lemma {:induction false} TouchAllAppend(o: Option<SearchResult>, p: string, a: seq<seq<int>>, b: seq<seq<int>>)
    requires AllNonEmpty(a) && AllNonEmpty(b)
    ensures AllNonEmpty(a + b)
    ensures TouchAll(o, p, a + b) == TouchAll(TouchAll(o, p, a), p, b)
    decreases |a|
  {
    if |a| > 0 {
      assert (a + b)[0] == a[0] && (a + b)[1..] == a[1..] + b;
      TouchAllAppend(Touch(o, p, a[0]), p, a[1..], b);
    } else {
      assert a + b == b;
    }
  }

  /** The body of the innermost loop, for one (word, path) pair. */
  function Accumulate(acc: Results, path: string, l: seq<int>): (r: Results)
    requires |l| > 0
    ensures r.Keys == acc.Keys + {path}
  {
    if path in acc then acc[path := Update(acc[path], |l|, l[0])]
    else acc[path := SearchResult(|l|, l[0], path)]
  }

  lemma AccumulateAt(acc: Results, path: string, l: seq<int>, p: string)
    requires |l| > 0
    ensures Lookup(Accumulate(acc, path, l), p) == if p == path then Touch(Lookup(acc, p), p, l) else Lookup(acc, p)
  {
  }

  /** The loop over the paths of one word, visiting them in the order given. */
  function VisitPaths(acc: Results, inner: map<string, seq<int>>, paths: seq<string>): Results
    requires forall i :: 0 <= i < |paths| ==> paths[i] in inner && |inner[paths[i]]| > 0
    decreases |paths|
  {
    if |paths| == 0 then acc
    else VisitPaths(Accumulate(acc, paths[0], inner[paths[0]]), inner, paths[1..])
  }

  /** The lists a visit of paths meets for path p. */
  function PathHits(inner: map<string, seq<int>>, paths: seq<string>, p: string): (h: seq<seq<int>>)
    requires forall i :: 0 <= i < |paths| ==> paths[i] in inner && |inner[paths[i]]| > 0
    ensures AllNonEmpty(h)
    decreases |paths|
  {
    if |paths| == 0 then []
    else (if paths[0] == p then [inner[paths[0]]] else []) + PathHits(inner, paths[1..], p)
  }

  lemma {:induction false} VisitPathsAt(acc: Results, inner: map<string, seq<int>>, paths: seq<string>, p: string)
    requires forall i :: 0 <= i < |paths| ==> paths[i] in inner && |inner[paths[i]]| > 0
    ensures Lookup(VisitPaths(acc, inner, paths), p) == TouchAll(Lookup(acc, p), p, PathHits(inner, paths, p))
    decreases |paths|
  {
    if |paths| > 0 {
      var l := inner[paths[0]];
      var acc1 := Accumulate(acc, paths[0], l);
      var rest := PathHits(inner, paths[1..], p);
      VisitPathsAt(acc1, inner, paths[1..], p);
      AccumulateAt(acc, paths[0], l, p);
      if paths[0] == p {
        assert ([l] + rest)[1..] == rest;
      } else {
        assert PathHits(inner, paths, p) == rest;
      }
    }
  }

  /** A word's paths are distinct, so each path is met at most once per word. */
  lemma {:induction false} PathHitsOfDistinct(inner: map<string, seq<int>>, paths: seq<string>, p: string)
    requires forall i :: 0 <= i < |paths| ==> paths[i] in inner && |inner[paths[i]]| > 0
    requires forall i, j :: 0 <= i < |paths| && 0 <= j < |paths| && i != j ==> paths[i] != paths[j]
    ensures PathHits(inner, paths, p) == if p in paths then [inner[p]] else []
    decreases |paths|
  {
    if |paths| > 0 {
      PathHitsOfDistinct(inner, paths[1..], p);
      assert paths[0] !in paths[1..] by {
        forall j | 0 <= j < |paths| - 1
          ensures paths[1..][j] != paths[0]
        {
          assert paths[1..][j] == paths[j + 1];
        }
      }
      assert forall k :: k in paths <==> k == paths[0] || k in paths[1..] by {
        assert paths == [paths[0]] + paths[1..];
      }
    }
  }

  /** The list met for path p when the scan reaches word w: its positions, if any. */
  function WordHit(idx: Index, w: string, p: string): (h: seq<seq<int>>)
    ensures AllNonEmpty(h)
  {
    if |Positions(idx, w, p)| > 0 then [Positions(idx, w, p)] else []
  }

  /** The loop over idx[w].keySet() for one word the scan accepted. */
  ghost function VisitWord(acc: Results, idx: Index, w: string): Results
    requires WellFormed(idx) && w in idx
  {
    var paths := SortedKeys(idx[w].Keys);
    assert forall i :: 0 <= i < |paths| ==> paths[i] in idx[w] by {
      assert forall i :: 0 <= i < |paths| ==> paths[i] in paths;
    }
    VisitPaths(acc, idx[w], paths)
  }

  lemma VisitWordAt(acc: Results, idx: Index, w: string, p: string)
    requires WellFormed(idx) && w in idx
    ensures Lookup(VisitWord(acc, idx, w), p) == TouchAll(Lookup(acc, p), p, WordHit(idx, w, p))
  {
    var paths := SortedKeys(idx[w].Keys);
    assert forall i :: 0 <= i < |paths| ==> paths[i] in idx[w] by {
      assert forall i :: 0 <= i < |paths| ==> paths[i] in paths;
    }
    VisitPathsAt(acc, idx[w], paths, p);
    SortedDistinct(paths);
    PathHitsOfDistinct(idx[w], paths, p);
  }

  /** The scan's visit of the words ws, in order. */
  ghost function VisitWords(acc: Results, idx: Index, ws: seq<string>): Results
    requires WellFormed(idx)
    requires forall i :: 0 <= i < |ws| ==> ws[i] in idx
    decreases |ws|
  {
    if |ws| == 0 then acc
    else
      var next := VisitWord(acc, idx, ws[0]);
      TailInIndex(idx, ws);
      VisitWords(next, idx, ws[1..])
  }

  lemma TailInIndex(idx: Index, ws: seq<string>)
    requires |ws| > 0 && forall i :: 0 <= i < |ws| ==> ws[i] in idx
    ensures forall i :: 0 <= i < |ws| - 1 ==> ws[1..][i] in idx
  {
    forall i | 0 <= i < |ws| - 1
      ensures ws[1..][i] in idx
    {
      assert ws[1..][i] == ws[i + 1];
    }
  }

  lemma VisitWordsUnfold(acc: Results, idx: Index, ws: seq<string>)
    requires WellFormed(idx) && |ws| > 0
    requires forall i :: 0 <= i < |ws| ==> ws[i] in idx
    ensures forall i :: 0 <= i < |ws| - 1 ==> ws[1..][i] in idx
    ensures VisitWords(acc, idx, ws) == VisitWords(VisitWord(acc, idx, ws[0]), idx, ws[1..])
  {
    TailInIndex(idx, ws);
  }

  /** The lists met for path p over the words ws, in order. */
  function WordsHits(idx: Index, ws: seq<string>, p: string): (h: seq<seq<int>>)
    ensures AllNonEmpty(h)
    decreases |ws|
  {
    if |ws| == 0 then [] else WordHit(idx, ws[0], p) + WordsHits(idx, ws[1..], p)
  }

  lemma {:induction false} VisitWordsAt(acc: Results, idx: Index, ws: seq<string>, p: string)
    requires WellFormed(idx)
    requires forall i :: 0 <= i < |ws| ==> ws[i] in idx
    ensures Lookup(VisitWords(acc, idx, ws), p) == TouchAll(Lookup(acc, p), p, WordsHits(idx, ws, p))
    decreases |ws|
  {
    if |ws| > 0 {
      VisitWordsUnfold(acc, idx, ws);
      var acc1 := VisitWord(acc, idx, ws[0]);
      VisitWordAt(acc, idx, ws[0], p);
      VisitWordsAt(acc1, idx, ws[1..], p);
      TouchAllChain(Lookup(acc, p), Lookup(acc1, p), p, WordHit(idx, ws[0], p), WordsHits(idx, ws[1..], p), WordsHits(idx, ws, p));
    }
  }

  /** The outer loop over the queries, in order, each scanning its own words. */
  ghost function VisitQueries(acc: Results, idx: Index, qs: seq<string>): Results
    requires WellFormed(idx)
    decreases |qs|
  {
    if |qs| == 0 then acc
    else
      MatchesInIndex(idx, qs[0]);
      VisitQueries(VisitWords(acc, idx, Matches(idx, qs[0])), idx, qs[1..])
  }

  /** Reference: the lists met for path p, query after query, each query taking every
      key it prefixes in key order. */
  ghost function QueryHits(idx: Index, qs: seq<string>, p: string): (h: seq<seq<int>>)
    ensures AllNonEmpty(h)
    decreases |qs|
  {
    if |qs| == 0 then []
    else WordsHits(idx, PrefixFilter(SortedKeys(idx.Keys), qs[0]), p) + QueryHits(idx, qs[1..], p)
  }

  lemma VisitQueriesUnfold(acc: Results, idx: Index, qs: seq<string>)
    requires WellFormed(idx) && |qs| > 0
    ensures forall i :: 0 <= i < |Matches(idx, qs[0])| ==> Matches(idx, qs[0])[i] in idx
    ensures VisitQueries(acc, idx, qs) == VisitQueries(VisitWords(acc, idx, Matches(idx, qs[0])), idx, qs[1..])
  {
    MatchesInIndex(idx, qs[0]);
  }

  lemma QueryHitsUnfold(idx: Index, qs: seq<string>, p: string)
    requires |qs| > 0
    ensures QueryHits(idx, qs, p) == WordsHits(idx, Matches(idx, qs[0]), p) + QueryHits(idx, qs[1..], p)
  {
    ScanFindsAllMatches(idx, qs[0]);
  }

  /** Two consecutive stretches of lists met for one path compose. */
  lemma TouchAllChain(x0: Option<SearchResult>, x1: Option<SearchResult>, p: string, a: seq<seq<int>>, b: seq<seq<int>>, total: seq<seq<int>>)
    requires AllNonEmpty(a) && AllNonEmpty(b) && AllNonEmpty(total)
    requires x1 == TouchAll(x0, p, a) && total == a + b
    ensures TouchAll(x1, p, b) == TouchAll(x0, p, total)
  {
    TouchAllAppend(x0, p, a, b);
  }

  lemma {:induction false} VisitQueriesAt(acc: Results, idx: Index, qs: seq<string>, p: string)
    requires WellFormed(idx)
    ensures Lookup(VisitQueries(acc, idx, qs), p) == TouchAll(Lookup(acc, p), p, QueryHits(idx, qs, p))
    decreases |qs|
  {
    if |qs| > 0 {
      VisitQueriesUnfold(acc, idx, qs);
      QueryHitsUnfold(idx, qs, p);
      var ms := Matches(idx, qs[0]);
      var acc1 := VisitWords(acc, idx, ms);
      VisitWordsAt(acc, idx, ms, p);
      VisitQueriesAt(acc1, idx, qs[1..], p);
      TouchAllChain(Lookup(acc, p), Lookup(acc1, p), p, WordsHits(idx, ms, p), QueryHits(idx, qs[1..], p), QueryHits(idx, qs, p));
    }
  }

  // ---------------------------------------------------------------------------
  // What one path's result holds

  /** The total number of positions in ls: the frequency the updates add up to. */
  function SumLengths(ls: seq<seq<int>>): (n: nat)
    ensures |ls| > 0 ==> n >= |ls[0]|
    decreases |ls|
  {
    if |ls| == 0 then 0 else |ls[0]| + SumLengths(ls[1..])
  }

  /** The least first position among the lists. */
  function MinHead(ls: seq<seq<int>>): (m: int)
    requires |ls| > 0 && AllNonEmpty(ls)
    ensures forall i :: 0 <= i < |ls| ==> m <= ls[i][0]
    ensures exists i :: 0 <= i < |ls| && m == ls[i][0]
    decreases |ls|
  {
    if |ls| == 1 then ls[0][0]
    else
      var m := MinHead(ls[1..]);
      assert forall i :: 1 <= i < |ls| ==> ls[i] == ls[1..][i - 1];
      if ls[0][0] <= m then ls[0][0] else m
  }

  /** Meeting the lists ls for an existing result adds their sizes to its frequency
      and lowers its position to the least first position. */
  lemma {:induction false} TouchAllSome(r: SearchResult, p: string, ls: seq<seq<int>>)
    requires AllNonEmpty(ls)
    ensures TouchAll(Some(r), p, ls) == Some(SearchResult(
      r.frequency + SumLengths(ls),
      if |ls| == 0 || r.position <= MinHead(ls) then r.position else MinHead(ls),
      r.path))
    decreases |ls|
  {
    if |ls| > 0 {
      var u := Update(r, |ls[0]|, ls[0][0]);
      TouchAllSome(u, p, ls[1..]);
      if |ls| > 1 {
        assert forall i :: 1 <= i < |ls| ==> ls[i] == ls[1..][i - 1];
      }
    }
  }

  /** The entry a path ends with when it first meets ls: none when ls is empty,
      otherwise the sum of the sizes and the least first position. */
  lemma TouchAllNone(p: string, ls: seq<seq<int>>)
    requires AllNonEmpty(ls)
    ensures TouchAll(None, p, ls) == if |ls| == 0 then None else Some(SearchResult(SumLengths(ls), MinHead(ls), p))
  {
    if |ls| > 0 {
      var first := SearchResult(|ls[0]|, ls[0][0], p);
      TouchAllSome(first, p, ls[1..]);
      if |ls| > 1 {
        assert forall i :: 1 <= i < |ls| ==> ls[i] == ls[1..][i - 1];
      }
    }
  }

  /** Reference result for path p: present exactly when some query prefixes some word
      the path holds, with the positions summed and the least first position. */
  ghost function Expected(idx: Index, qs: seq<string>, p: string): Option<SearchResult>
  {
    var h := QueryHits(idx, qs, p);
    if |h| == 0 then None else Some(SearchResult(SumLengths(h), MinHead(h), p))
  }

  /** One (query, word) pair that contributes to path p. */
  ghost predicate IsHit(idx: Index, qs: seq<string>, p: string, i: int, w: string)
  {
    0 <= i < |qs| && w in idx && IsPrefix(qs[i], w) && p in idx[w]
  }

  lemma {:induction false} WordsHitsMembers(idx: Index, ws: seq<string>, p: string)
    requires WellFormed(idx)
    ensures forall l :: l in WordsHits(idx, ws, p) <==> exists w :: w in ws && w in idx && p in idx[w] && l == idx[w][p]
    decreases |ws|
  {
    if |ws| > 0 {
      WordsHitsMembers(idx, ws[1..], p);
      assert forall w :: w in ws <==> w == ws[0] || w in ws[1..];
    }
  }

  lemma IsHitShift(idx: Index, qs: seq<string>, p: string, i: int, w: string)
    requires |qs| > 0
    ensures IsHit(idx, qs[1..], p, i, w) <==> 0 <= i && IsHit(idx, qs, p, i + 1, w)
  {
  }

  /** A list of the first query's words is met exactly for a hit of the first query. */
  lemma FirstQueryMember(idx: Index, qs: seq<string>, p: string, l: seq<int>)
    requires WellFormed(idx) && |qs| > 0
    ensures l in WordsHits(idx, PrefixFilter(SortedKeys(idx.Keys), qs[0]), p) <==> exists w :: IsHit(idx, qs, p, 0, w) && l == idx[w][p]
  {
    var ks := SortedKeys(idx.Keys);
    WordsHitsMembers(idx, PrefixFilter(ks, qs[0]), p);
    PrefixFilterMembers(ks, qs[0]);
    if exists w :: IsHit(idx, qs, p, 0, w) && l == idx[w][p] {
      var w :| IsHit(idx, qs, p, 0, w) && l == idx[w][p];
      assert w in PrefixFilter(ks, qs[0]);
    }
  }

  /** A list met by the queries comes from a hit of the first query or of a later one. */
  lemma QueryHitsSound(idx: Index, qs: seq<string>, p: string, l: seq<int>)
    requires WellFormed(idx) && |qs| > 0
    requires l in QueryHits(idx, qs[1..], p) ==> exists i, w :: IsHit(idx, qs[1..], p, i, w) && l == idx[w][p]
    requires l in QueryHits(idx, qs, p)
    ensures exists i, w :: IsHit(idx, qs, p, i, w) && l == idx[w][p]
  {
    var first := WordsHits(idx, PrefixFilter(SortedKeys(idx.Keys), qs[0]), p);
    var rest := QueryHits(idx, qs[1..], p);
    assert QueryHits(idx, qs, p) == first + rest;
    FirstQueryMember(idx, qs, p, l);
    if l in first {
      var w :| IsHit(idx, qs, p, 0, w) && l == idx[w][p];
      assert IsHit(idx, qs, p, 0, w);
    } else {
      assert l in rest;
      var i, w :| IsHit(idx, qs[1..], p, i, w) && l == idx[w][p];
      IsHitShift(idx, qs, p, i, w);
      assert IsHit(idx, qs, p, i + 1, w);
    }
  }

  /** The list of a hit, of the first query or of a later one, is met. */
  lemma QueryHitsComplete(idx: Index, qs: seq<string>, p: string, l: seq<int>, i: int, w: string)
    requires WellFormed(idx) && |qs| > 0
    requires (exists i, w :: IsHit(idx, qs[1..], p, i, w) && l == idx[w][p]) ==> l in QueryHits(idx, qs[1..], p)
    requires IsHit(idx, qs, p, i, w) && l == idx[w][p]
    ensures l in QueryHits(idx, qs, p)
  {
    var first := WordsHits(idx, PrefixFilter(SortedKeys(idx.Keys), qs[0]), p);
    var rest := QueryHits(idx, qs[1..], p);
    assert QueryHits(idx, qs, p) == first + rest;
    if i == 0 {
      FirstQueryMember(idx, qs, p, l);
      assert l in first;
    } else {
      IsHitShift(idx, qs, p, i - 1, w);
      assert IsHit(idx, qs[1..], p, i - 1, w);
      assert l in rest;
    }
  }

  lemma QueryHitsMemberStep(idx: Index, qs: seq<string>, p: string, l: seq<int>)
    requires WellFormed(idx) && |qs| > 0
    requires l in QueryHits(idx, qs[1..], p) <==> exists i, w :: IsHit(idx, qs[1..], p, i, w) && l == idx[w][p]
    ensures l in QueryHits(idx, qs, p) <==> exists i, w :: IsHit(idx, qs, p, i, w) && l == idx[w][p]
  {
    if l in QueryHits(idx, qs, p) {
      QueryHitsSound(idx, qs, p, l);
    }
    if exists i, w :: IsHit(idx, qs, p, i, w) && l == idx[w][p] {
      var i, w :| IsHit(idx, qs, p, i, w) && l == idx[w][p];
      QueryHitsComplete(idx, qs, p, l, i, w);
    }
  }

  lemma {:induction false} QueryHitsMember(idx: Index, qs: seq<string>, p: string, l: seq<int>)
    requires WellFormed(idx)
    ensures l in QueryHits(idx, qs, p) <==> exists i, w :: IsHit(idx, qs, p, i, w) && l == idx[w][p]
    decreases |qs|
  {
    if |qs| > 0 {
      QueryHitsMember(idx, qs[1..], p, l);
      QueryHitsMemberStep(idx, qs, p, l);
    }
  }

  /** The reference result, stated without any loop: path p has a result exactly when
      some query is a prefix of some word whose entry holds p; its frequency counts the
      positions of every such pair (once per query that reaches it) and its position is
      the least first position among them. */
  lemma ExpectedSpec(idx: Index, qs: seq<string>, p: string)
    requires WellFormed(idx)
    ensures Expected(idx, qs, p).Some? <==> exists i, w :: IsHit(idx, qs, p, i, w)
    ensures Expected(idx, qs, p).Some? ==>
      && Expected(idx, qs, p).value.path == p
      && Expected(idx, qs, p).value.frequency == SumLengths(QueryHits(idx, qs, p))
      && (forall i, w :: IsHit(idx, qs, p, i, w) ==> Expected(idx, qs, p).value.position <= idx[w][p][0])
      && (exists i, w :: IsHit(idx, qs, p, i, w) && Expected(idx, qs, p).value.position == idx[w][p][0])
  {
    var h := QueryHits(idx, qs, p);
    forall i, w | IsHit(idx, qs, p, i, w)
      ensures idx[w][p] in h
    {
      QueryHitsMember(idx, qs, p, idx[w][p]);
    }
    if |h| > 0 {
      QueryHitsMember(idx, qs, p, h[0]);
      var m := MinHead(h);
      var k :| 0 <= k < |h| && m == h[k][0];
      QueryHitsMember(idx, qs, p, h[k]);
    }
  }

  // ---------------------------------------------------------------------------
  // The sorted result list

  /** The entries of acc under the keys ks, in that order. */
  function ValuesIn(acc: Results, ks: seq<string>): (vs: seq<SearchResult>)
    requires forall i :: 0 <= i < |ks| ==> ks[i] in acc
    ensures |vs| == |ks|
    decreases |ks|
  {
    if |ks| == 0 then [] else [acc[ks[0]]] + ValuesIn(acc, ks[1..])
  }

  lemma {:induction false} ValuesInAt(acc: Results, ks: seq<string>)
    requires forall i :: 0 <= i < |ks| ==> ks[i] in acc
    ensures forall i :: 0 <= i < |ks| ==> ValuesIn(acc, ks)[i] == acc[ks[i]]
    decreases |ks|
  {
    if |ks| > 0 {
      ValuesInAt(acc, ks[1..]);
    }
  }

  lemma SortedKeysIn(acc: Results)
    ensures forall i :: 0 <= i < |SortedKeys(acc.Keys)| ==> SortedKeys(acc.Keys)[i] in acc
  {
    var ks := SortedKeys(acc.Keys);
    assert forall i :: 0 <= i < |ks| ==> ks[i] in ks;
  }

  /** map.values() listed in key order. HashMap promises no order; PartialSearchAnyOrder
      shows that the order the values come in does not reach the result. */
  ghost function Values(acc: Results): seq<SearchResult>
  {
    SortedKeysIn(acc);
    ValuesIn(acc, SortedKeys(acc.Keys))
  }

  /** Every entry of the map is filed under its own path. */
  ghost predicate FiledByPath(acc: Results)
  {
    forall k :: k in acc ==> acc[k].path == k
  }

  lemma ValuesDistinct(acc: Results)
    requires FiledByPath(acc)
    ensures DistinctPaths(Values(acc))
  {
    var ks := SortedKeys(acc.Keys);
    SortedKeysIn(acc);
    ValuesInAt(acc, ks);
    SortedDistinct(ks);
  }

  lemma ValuesComplete(acc: Results, y: SearchResult)
    requires y.path in acc && acc[y.path] == y
    ensures y in Values(acc)
  {
    var ks := SortedKeys(acc.Keys);
    SortedKeysIn(acc);
    ValuesInAt(acc, ks);
    var i :| 0 <= i < |ks| && ks[i] == y.path;
    assert Values(acc)[i] == y;
  }

  lemma ValuesSound(acc: Results, y: SearchResult)
    requires FiledByPath(acc)
    requires y in Values(acc)
    ensures y.path in acc && acc[y.path] == y
  {
    var ks := SortedKeys(acc.Keys);
    SortedKeysIn(acc);
    ValuesInAt(acc, ks);
    var i :| 0 <= i < |ks| && Values(acc)[i] == y;
  }

  /** The listed values are the map's entries, each path once. */
  lemma ValuesMembers(acc: Results)
    requires FiledByPath(acc)
    ensures forall y :: y in Values(acc) <==> y.path in acc && acc[y.path] == y
    ensures DistinctPaths(Values(acc))
  {
    ValuesDistinct(acc);
    forall y: SearchResult
      ensures y in Values(acc) <==> y.path in acc && acc[y.path] == y
    {
      if y in Values(acc) {
        ValuesSound(acc, y);
      }
      if y.path in acc && acc[y.path] == y {
        ValuesComplete(acc, y);
      }
    }
  }

  /** partialSearch(queries): the values of the filled map, sorted by compareTo. */
  ghost function PartialSearch(idx: Index, qs: seq<string>): seq<SearchResult>
    requires WellFormed(idx)
  {
    Sort(Values(VisitQueries(map[], idx, qs)))
  }

  /** The filled map holds, for every path, exactly the reference result. */
  lemma SearchMapAt(idx: Index, qs: seq<string>, p: string)
    requires WellFormed(idx)
    ensures Lookup(VisitQueries(map[], idx, qs), p) == Expected(idx, qs, p)
  {
    VisitQueriesAt(map[], idx, qs, p);
    TouchAllNone(p, QueryHits(idx, qs, p));
  }

  /** partialSearch returns one result per path that some query reaches, that path's
      reference result (frequency and first position as ExpectedSpec describes), and
      nothing else, sorted by compareTo. */
  lemma PartialSearchSpec(idx: Index, qs: seq<string>)
    requires WellFormed(idx)
    ensures Sorted(PartialSearch(idx, qs))
    ensures DistinctPaths(PartialSearch(idx, qs))
    ensures forall y :: y in PartialSearch(idx, qs) <==> Expected(idx, qs, y.path) == Some(y)
    ensures forall p :: Expected(idx, qs, p).Some? ==> Expected(idx, qs, p).value in PartialSearch(idx, qs)
  {
    SearchFiledByPath(idx, qs);
    ValuesMembers(VisitQueries(map[], idx, qs));
    PartialSearchMembers(idx, qs);
    PartialSearchComplete(idx, qs);
  }

  /** The map partialSearch fills holds each path's result under that path. */
  lemma SearchFiledByPath(idx: Index, qs: seq<string>)
    requires WellFormed(idx)
    ensures FiledByPath(VisitQueries(map[], idx, qs))
  {
    var acc := VisitQueries(map[], idx, qs);
    forall k | k in acc
      ensures acc[k].path == k
    {
      SearchMapAt(idx, qs, k);
    }
  }

  lemma PartialSearchMembers(idx: Index, qs: seq<string>)
    requires WellFormed(idx)
    ensures forall y :: y in PartialSearch(idx, qs) <==> Expected(idx, qs, y.path) == Some(y)
  {
    var acc := VisitQueries(map[], idx, qs);
    SearchFiledByPath(idx, qs);
    ValuesMembers(acc);
    forall y: SearchResult
      ensures y in PartialSearch(idx, qs) <==> Expected(idx, qs, y.path) == Some(y)
    {
      assert y in PartialSearch(idx, qs) <==> y in Values(acc);
      SearchMapAt(idx, qs, y.path);
    }
  }

  lemma PartialSearchComplete(idx: Index, qs: seq<string>)
    requires WellFormed(idx)
    ensures forall p :: Expected(idx, qs, p).Some? ==> Expected(idx, qs, p).value in PartialSearch(idx, qs)
  {
    PartialSearchMembers(idx, qs);
    forall p | Expected(idx, qs, p).Some?
      ensures Expected(idx, qs, p).value in PartialSearch(idx, qs)
    {
      SearchMapAt(idx, qs, p);
      assert Expected(idx, qs, p).value.path == p;
    }
  }

  /** Whatever order HashMap.values() yields, Collections.sort brings it to the same
      list, because compareTo is a total order. */
  lemma PartialSearchAnyOrder(idx: Index, qs: seq<string>, vs: seq<SearchResult>)
    requires WellFormed(idx)
    requires multiset(vs) == multiset(Values(VisitQueries(map[], idx, qs)))
    ensures Sort(vs) == PartialSearch(idx, qs)
  {
    SortedUnique(Sort(vs), PartialSearch(idx, qs));
  }

  /** No query reaches anything: the result is empty. */
  lemma PartialSearchNoQueries(idx: Index)
    requires WellFormed(idx)
    ensures PartialSearch(idx, []) == []
  {
    var none: Results := map[];
    assert SortedKeys(none.Keys) == [];
  }
}
