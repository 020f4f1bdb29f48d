/**
 * The inverted index (InvertedIndex.java): word -> path -> the positions at which the
 * word occurs in that document, in the order they were added. The TreeMaps become a
 * map; their iteration order is SortedKeys. Every operation is one atomic step (the
 * read/write lock around it is not modelled).
 */
module InvertedIndex {
  import opened Options
  import opened Strings
  import opened TextFormat

  type Index = map<string, map<string, seq<int>>>

  /** The position list of (w, p), or the empty list when there is none. */
  function Positions(idx: Index, w: string, p: string): seq<int>
  {
    if w in idx && p in idx[w] then idx[w][p] else []
  }

  /** The index invariant: a word is present only with at least one path, and a
      (word, path) pair only with at least one position. */
  ghost predicate WellFormed(idx: Index)
  {
    forall w :: w in idx ==> idx[w].Keys != {} && forall p :: p in idx[w] ==> |idx[w][p]| > 0
  }

  /** A well-formed index is determined by its position lists. */
  lemma Extensionality(a: Index, b: Index)
    requires WellFormed(a) && WellFormed(b)
    requires forall w, p :: Positions(a, w, p) == Positions(b, w, p)
    ensures a == b
  {
    forall w | w in a
      ensures w in b
    {
      var p :| p in a[w].Keys;
      assert Positions(a, w, p) != [];
      assert Positions(b, w, p) != [];
    }
    forall w | w in b
      ensures w in a
    {
      var p :| p in b[w].Keys;
      assert Positions(b, w, p) != [];
      assert Positions(a, w, p) != [];
    }
    forall w | w in a
      ensures a[w] == b[w]
    {
      forall p | p in a[w]
        ensures p in b[w] && a[w][p] == b[w][p]
      {
        assert Positions(a, w, p) == Positions(b, w, p);
      }
      forall p | p in b[w]
        ensures p in a[w]
      {
        assert Positions(a, w, p) == Positions(b, w, p);
      }
    }
  }

  // ---------------------------------------------------------------------------
  // add

  /** add(word, path, position): creates the word and path entries if they are
      missing and appends the position to the end of the list. */
  function Add(idx: Index, word: string, path: string, position: int): (r: Index)
    ensures Positions(r, word, path) == Positions(idx, word, path) + [position]
    ensures r.Keys == idx.Keys + {word}
    ensures word in idx ==> r[word].Keys == idx[word].Keys + {path}
    ensures word !in idx ==> r[word].Keys == {path}
  {
    var inner := if word in idx then idx[word] else map[];
    var list := if path in inner then inner[path] else [];
    idx[word := inner[path := list + [position]]]
  }

  /** add touches no other (word, path) list. */
  lemma AddPositionsAt(idx: Index, word: string, path: string, position: int, w: string, p: string)
    ensures Positions(Add(idx, word, path, position), w, p)
         == Positions(idx, w, p) + (if w == word && p == path then [position] else [])
  {
  }

  lemma AddWellFormed(idx: Index, word: string, path: string, position: int)
    requires WellFormed(idx)
    ensures WellFormed(Add(idx, word, path, position))
  {
  }

  // ---------------------------------------------------------------------------
  // addAll

  function MergePaths(mine: map<string, seq<int>>, theirs: map<string, seq<int>>): map<string, seq<int>>
  {
    map p | p in mine.Keys + theirs.Keys ::
      if p !in theirs then mine[p]
      else if p !in mine then theirs[p]
      else mine[p] + theirs[p]
  }

  /** addAll(mini): a word missing here takes mini's whole entry, a path missing
      under a present word takes mini's list, and a list present on both sides gets
      mini's positions appended after its own. */
  function AddAll(idx: Index, mini: Index): (r: Index)
    ensures r.Keys == idx.Keys + mini.Keys
  {
    map w | w in idx.Keys + mini.Keys ::
      if w !in mini then idx[w]
      else if w !in idx then mini[w]
      else MergePaths(idx[w], mini[w])
  }

  /** After addAll every list is this index's list followed by mini's. */
  lemma AddAllPositionsAt(idx: Index, mini: Index, w: string, p: string)
    ensures Positions(AddAll(idx, mini), w, p) == Positions(idx, w, p) + Positions(mini, w, p)
  {
  }

  lemma AddAllWellFormed(idx: Index, mini: Index)
    requires WellFormed(idx) && WellFormed(mini)
    ensures WellFormed(AddAll(idx, mini))
  {
  }

  /** Merging an empty index changes nothing. */
  lemma AddAllEmpty(idx: Index)
    ensures AddAll(idx, map[]) == idx
  {
  }

  /** Merging into an empty index yields exactly the merged index. */
  lemma AddAllIntoEmpty(mini: Index)
    ensures AddAll(map[], mini) == mini
  {
  }

  /** (i + e) + y regrouped as i + (e + y). */
  lemma Regroup(r: seq<int>, m: seq<int>, i: seq<int>, e: seq<int>, y: seq<int>)
    requires r == m + y && m == i + e
    ensures r == i + (e + y)
  {
  }

  lemma AddAllAssociativeAt(a: Index, b: Index, c: Index, w: string, p: string)
    ensures Positions(AddAll(AddAll(a, b), c), w, p) == Positions(AddAll(a, AddAll(b, c)), w, p)
  {
    AddAllPositionsAt(a, b, w, p);
    AddAllPositionsAt(b, c, w, p);
    AddAllPositionsAt(AddAll(a, b), c, w, p);
    AddAllPositionsAt(a, AddAll(b, c), w, p);
    Regroup(Positions(AddAll(AddAll(a, b), c), w, p), Positions(AddAll(a, b), w, p),
            Positions(a, w, p), Positions(b, w, p), Positions(c, w, p));
  }

  /** Merging is associative: merging b and then c equals merging the merge of b
      and c, so the order in which worker indexes are combined only matters through
      the order of the position lists, never through grouping. */
  lemma AddAllAssociative(a: Index, b: Index, c: Index)
    requires WellFormed(a) && WellFormed(b) && WellFormed(c)
    ensures AddAll(AddAll(a, b), c) == AddAll(a, AddAll(b, c))
  {
    AddAllWellFormed(a, b);
    AddAllWellFormed(b, c);
    AddAllWellFormed(AddAll(a, b), c);
    AddAllWellFormed(a, AddAll(b, c));
    forall w, p
      ensures Positions(AddAll(AddAll(a, b), c), w, p) == Positions(AddAll(a, AddAll(b, c)), w, p)
    {
      AddAllAssociativeAt(a, b, c, w, p);
    }
    Extensionality(AddAll(AddAll(a, b), c), AddAll(a, AddAll(b, c)));
  }

  // ---------------------------------------------------------------------------
  // storeInfo

  /** The 1-based positions (shifted by offset) at which w occurs in ws: a reference
      for what storing ws records under one path. */
  function Occurrences(ws: seq<string>, w: string, offset: int): seq<int>
  {
    if |ws| == 0 then []
    else (if ws[0] == w then [offset + 1] else []) + Occurrences(ws[1..], w, offset + 1)
  }

  /** Occurrences lists exactly the positions of w, each once, ascending. */
  lemma {:induction false} OccurrencesSpec(ws: seq<string>, w: string, offset: int)
    ensures forall x :: x in Occurrences(ws, w, offset) <==> offset < x <= offset + |ws| && ws[x - offset - 1] == w
    ensures forall k, l :: 0 <= k < l < |Occurrences(ws, w, offset)| ==>
              Occurrences(ws, w, offset)[k] < Occurrences(ws, w, offset)[l]
  {
    if |ws| > 0 {
      OccurrencesSpec(ws[1..], w, offset + 1);
      var rest := Occurrences(ws[1..], w, offset + 1);
      var head: seq<int> := if ws[0] == w then [offset + 1] else [];
      assert Occurrences(ws, w, offset) == head + rest;
      forall x
        ensures x in Occurrences(ws, w, offset) <==> offset < x <= offset + |ws| && ws[x - offset - 1] == w
      {
        if offset + 1 < x <= offset + |ws| {
          assert ws[x - offset - 1] == ws[1..][x - (offset + 1) - 1];
        }
      }
      forall k, l | 0 <= k < l < |head + rest|
        ensures (head + rest)[k] < (head + rest)[l]
      {
        if |head| == 1 && k == 0 {
          assert (head + rest)[l] == rest[l - 1];
          assert rest[l - 1] in rest;
        } else {
          assert (head + rest)[k] == rest[k - |head|];
          assert (head + rest)[l] == rest[l - |head|];
        }
      }
    }
  }

  lemma {:induction false} OccurrencesAppend(a: seq<string>, b: seq<string>, w: string, offset: int)
    ensures Occurrences(a + b, w, offset) == Occurrences(a, w, offset) + Occurrences(b, w, offset + |a|)
  {
    if |a| == 0 {
      assert a + b == b;
    } else {
      assert (a + b)[1..] == a[1..] + b;
      OccurrencesAppend(a[1..], b, w, offset + 1);
    }
  }

  /** Adds ws[k] at position offset + k + 1 under path, for k in order. */
  function AddTokens(idx: Index, ws: seq<string>, path: string, offset: int): Index
    decreases |ws|
  {
    if |ws| == 0 then idx
    else AddTokens(Add(idx, ws[0], path, offset + 1), ws[1..], path, offset + 1)
  }

  /** What one step of AddTokens does to one list. */
  lemma AddTokensStepAt(idx: Index, ws: seq<string>, path: string, offset: int, w: string, p: string)
    requires |ws| > 0
    ensures AddTokens(idx, ws, path, offset) == AddTokens(Add(idx, ws[0], path, offset + 1), ws[1..], path, offset + 1)
    ensures Positions(Add(idx, ws[0], path, offset + 1), w, p)
         == Positions(idx, w, p) + (if w == ws[0] && p == path then [offset + 1] else [])
    ensures (if p == path then Occurrences(ws, w, offset) else [])
         == (if w == ws[0] && p == path then [offset + 1] else []) + (if p == path then Occurrences(ws[1..], w, offset + 1) else [])
  {
    AddPositionsAt(idx, ws[0], path, offset + 1, w, p);
  }

  /** Adding a word list appends, under path only, the positions of each word. */
  lemma {:induction false} AddTokensPositionsAt(idx: Index, ws: seq<string>, path: string, offset: int, w: string, p: string)
    ensures Positions(AddTokens(idx, ws, path, offset), w, p)
         == Positions(idx, w, p) + (if p == path then Occurrences(ws, w, offset) else [])
    decreases |ws|
  {
    if |ws| > 0 {
      var next := Add(idx, ws[0], path, offset + 1);
      AddTokensStepAt(idx, ws, path, offset, w, p);
      AddTokensPositionsAt(next, ws[1..], path, offset + 1, w, p);
      Regroup(Positions(AddTokens(next, ws[1..], path, offset + 1), w, p), Positions(next, w, p), Positions(idx, w, p),
              if w == ws[0] && p == path then [offset + 1] else [], if p == path then Occurrences(ws[1..], w, offset + 1) else []);
    }
  }

  lemma {:induction false} AddTokensWellFormed(idx: Index, ws: seq<string>, path: string, offset: int)
    requires WellFormed(idx)
    ensures WellFormed(AddTokens(idx, ws, path, offset))
    decreases |ws|
  {
    if |ws| > 0 {
      AddWellFormed(idx, ws[0], path, offset + 1);
      AddTokensWellFormed(Add(idx, ws[0], path, offset + 1), ws[1..], path, offset + 1);
    }
  }

  /** storeInfo(words, f): words[i] is added at position i + 1 under f. */
  function StoreInfo(idx: Index, words: seq<string>, file: string): Index
  {
    AddTokens(idx, words, file, 0)
  }

  /** What storeInfo records: under file, each word's list gains the positions of
      that word in the list, ascending; lists under other paths are untouched. */
  lemma StoreInfoPositions(idx: Index, words: seq<string>, file: string, w: string, p: string)
    ensures p != file ==> Positions(StoreInfo(idx, words, file), w, p) == Positions(idx, w, p)
    ensures p == file ==> Positions(StoreInfo(idx, words, file), w, p) == Positions(idx, w, p) + Occurrences(words, w, 0)
    ensures forall x :: x in Positions(StoreInfo(idx, words, file), w, file) <==>
              x in Positions(idx, w, file) || (0 < x <= |words| && words[x - 1] == w)
  {
    AddTokensPositionsAt(idx, words, file, 0, w, p);
    StoreInfoMembers(idx, words, file, w);
  }

  lemma StoreInfoMembers(idx: Index, words: seq<string>, file: string, w: string)
    ensures forall x :: x in Positions(StoreInfo(idx, words, file), w, file) <==>
              x in Positions(idx, w, file) || (0 < x <= |words| && words[x - 1] == w)
  {
    AddTokensPositionsAt(idx, words, file, 0, w, file);
    var before := Positions(idx, w, file);
    var occ := Occurrences(words, w, 0);
    assert Positions(StoreInfo(idx, words, file), w, file) == before + occ;
    OccurrencesSpec(words, w, 0);
    forall x
      ensures x in before + occ <==> x in before || (0 < x <= |words| && words[x - 1] == w)
    {
      assert x in before + occ <==> x in before || x in occ;
      assert x - 0 - 1 == x - 1;
    }
  }

  /** Every word is found at its own 1-based position. */
  lemma StoreInfoRecordsEveryWord(idx: Index, words: seq<string>, file: string, i: int)
    requires 0 <= i < |words|
    ensures i + 1 in Positions(StoreInfo(idx, words, file), words[i], file)
  {
    StoreInfoPositions(idx, words, file, words[i], file);
  }

  lemma StoreInfoWellFormed(idx: Index, words: seq<string>, file: string)
    requires WellFormed(idx)
    ensures WellFormed(StoreInfo(idx, words, file))
  {
    AddTokensWellFormed(idx, words, file, 0);
  }

  /** After storing a word list under a path the index had no entries for, every
      list under that path is strictly increasing. */
  lemma StoreInfoIncreasing(idx: Index, words: seq<string>, file: string, w: string)
    requires forall v :: Positions(idx, v, file) == []
    ensures forall k, l :: 0 <= k < l < |Positions(StoreInfo(idx, words, file), w, file)| ==>
              Positions(StoreInfo(idx, words, file), w, file)[k] < Positions(StoreInfo(idx, words, file), w, file)[l]
  {
    StoreInfoPositions(idx, words, file, w, file);
    assert Positions(idx, w, file) + Occurrences(words, w, 0) == Occurrences(words, w, 0);
    OccurrencesSpec(words, w, 0);
  }

  lemma MergePrivateIndexAt(idx: Index, words: seq<string>, file: string, offset: int, w: string, p: string)
    ensures Positions(AddAll(idx, AddTokens(map[], words, file, offset)), w, p)
         == Positions(AddTokens(idx, words, file, offset), w, p)
  {
    var empty: Index := map[];
    var mini := AddTokens(empty, words, file, offset);
    var added := if p == file then Occurrences(words, w, offset) else [];
    AddAllPositionsAt(idx, mini, w, p);
    AddTokensPositionsAt(empty, words, file, offset, w, p);
    assert Positions(empty, w, p) == [];
    assert Positions(mini, w, p) == added;
    AddTokensPositionsAt(idx, words, file, offset, w, p);
  }

  /** Building a private index and merging it is the same as adding every word
      straight into the shared index: the reason the multithreaded builder and the
      crawler may batch their additions. */
  lemma MergePrivateIndex(idx: Index, words: seq<string>, file: string, offset: int)
    requires WellFormed(idx)
    ensures AddAll(idx, AddTokens(map[], words, file, offset)) == AddTokens(idx, words, file, offset)
  {
    var empty: Index := map[];
    assert WellFormed(empty);
    AddTokensWellFormed(empty, words, file, offset);
    AddTokensWellFormed(idx, words, file, offset);
    AddAllWellFormed(idx, AddTokens(empty, words, file, offset));
    forall w, p
      ensures Positions(AddAll(idx, AddTokens(empty, words, file, offset)), w, p)
           == Positions(AddTokens(idx, words, file, offset), w, p)
    {
      MergePrivateIndexAt(idx, words, file, offset, w, p);
    }
    Extensionality(AddAll(idx, AddTokens(empty, words, file, offset)), AddTokens(idx, words, file, offset));
  }

  // ---------------------------------------------------------------------------
  // outputInvertedIndex

  function Names(rs: seq<Record>): (ns: seq<string>)
    ensures |ns| == |rs| && forall k :: 0 <= k < |rs| ==> ns[k] == rs[k].name
  {
    if |rs| == 0 then [] else [rs[0].name] + Names(rs[1..])
  }

  function Headers(bs: seq<Block>): (hs: seq<string>)
    ensures |hs| == |bs| && forall i :: 0 <= i < |bs| ==> hs[i] == bs[i].header
  {
    if |bs| == 0 then [] else [bs[0].header] + Headers(bs[1..])
  }

  /** One record per path, in the given order, carrying that path's list. */
  function PathRecords(inner: map<string, seq<int>>, paths: seq<string>): seq<Record>
    requires forall p :: p in paths ==> p in inner
  {
    seq(|paths|, k requires 0 <= k < |paths| => Record(paths[k], inner[paths[k]]))
  }

  /** The block of one word: its paths ascending, as the inner TreeMap iterates them. */
  ghost function WordBlock(idx: Index, w: string): Block
    requires w in idx
  {
    Block(w, PathRecords(idx[w], SortedKeys(idx[w].Keys)))
  }

  /** The blocks of the given words, in order. */
  ghost function WordBlocks(idx: Index, words: seq<string>): (bs: seq<Block>)
    requires forall i :: 0 <= i < |words| ==> words[i] in idx
    ensures |bs| == |words|
    ensures forall i :: 0 <= i < |words| ==> bs[i] == WordBlock(idx, words[i])
  {
    if |words| == 0 then [] else [WordBlock(idx, words[0])] + WordBlocks(idx, words[1..])
  }

  /** The blocks the index is written as: one per word, words ascending. */
  ghost function IndexBlocks(idx: Index): seq<Block>
  {
    WordBlocks(idx, SortedKeys(idx.Keys))
  }

  /** Within the block of w: the paths ascending and each exactly once, each
      record carrying its list in order. */
  lemma WordBlockSpec(idx: Index, w: string)
    requires w in idx
    ensures WordBlock(idx, w).header == w
    ensures StrictlySorted(Names(WordBlock(idx, w).records))
    ensures forall p :: p in Names(WordBlock(idx, w).records) <==> p in idx[w]
    ensures forall k :: 0 <= k < |WordBlock(idx, w).records| ==>
              WordBlock(idx, w).records[k].numbers == idx[w][WordBlock(idx, w).records[k].name]
  {
    var paths := SortedKeys(idx[w].Keys);
    assert Names(WordBlock(idx, w).records) == paths;
  }

  lemma HeadersOf(bs: seq<Block>, words: seq<string>)
    requires |bs| == |words| && forall i :: 0 <= i < |bs| ==> bs[i].header == words[i]
    ensures Headers(bs) == words
  {
  }

  /** The written blocks: one per word in TreeMap order, that is every word once,
      ascending (the contract of SortedKeys). */
  lemma IndexBlocksHeaders(idx: Index)
    ensures Headers(IndexBlocks(idx)) == SortedKeys(idx.Keys)
  {
    var words := SortedKeys(idx.Keys);
    HeadersOf(WordBlocks(idx, words), words);
  }

  /** Each written block is the block of its word. */
  lemma IndexBlocksAt(idx: Index, i: int)
    requires 0 <= i < |IndexBlocks(idx)|
    ensures IndexBlocks(idx)[i].header in idx
    ensures IndexBlocks(idx)[i] == WordBlock(idx, IndexBlocks(idx)[i].header)
  {
  }

  /** The text outputInvertedIndex writes, one string per line. */
  ghost function IndexText(idx: Index): seq<string>
  {
    RenderBlocks(IndexBlocks(idx))
  }

  // ---------------------------------------------------------------------------
  // Reading the output back

  function RecordsToMap(rs: seq<Record>): map<string, seq<int>>
  {
    if |rs| == 0 then map[] else RecordsToMap(rs[1..])[rs[0].name := rs[0].numbers]
  }

  function BlocksToIndex(bs: seq<Block>): Index
  {
    if |bs| == 0 then map[] else BlocksToIndex(bs[1..])[bs[0].header := RecordsToMap(bs[0].records)]
  }

  /** Reads an index back from its written form. */
  function ReadIndex(lines: seq<string>): Option<Index>
  {
    match ParseBlocks(lines)
    case None => None
    case Some(bs) => Some(BlocksToIndex(bs))
  }

  /** Records with distinct names that list exactly the entries of m. */
  ghost predicate DescribesPaths(rs: seq<Record>, m: map<string, seq<int>>)
  {
    (forall i, j :: 0 <= i < j < |rs| ==> rs[i].name != rs[j].name) &&
    (forall p :: p in m ==> p in Names(rs)) &&
    (forall k :: 0 <= k < |rs| ==> rs[k].name in m && rs[k].numbers == m[rs[k].name])
  }

  lemma DescribesPathsTail(rs: seq<Record>, m: map<string, seq<int>>)
    requires |rs| > 0 && DescribesPaths(rs, m)
    ensures DescribesPaths(rs[1..], m - {rs[0].name})
  {
    var n := rs[0].name;
    var rest := m - {n};
    forall p | p in rest
      ensures p in Names(rs[1..])
    {
      assert p in Names(rs) && p != Names(rs)[0];
      assert Names(rs) == [n] + Names(rs[1..]);
    }
    forall k | 0 <= k < |rs[1..]|
      ensures rs[1..][k].name in rest && rs[1..][k].numbers == rest[rs[1..][k].name]
    {
      assert rs[1..][k] == rs[k + 1];
    }
  }

  lemma RecordsToMapStep(rs: seq<Record>, m: map<string, seq<int>>)
    requires |rs| > 0 && rs[0].name in m && rs[0].numbers == m[rs[0].name]
    requires RecordsToMap(rs[1..]) == m - {rs[0].name}
    ensures RecordsToMap(rs) == m
  {
    assert (m - {rs[0].name})[rs[0].name := rs[0].numbers] == m;
  }

  lemma {:induction false} RecordsToMapOf(rs: seq<Record>, m: map<string, seq<int>>)
    requires DescribesPaths(rs, m)
    ensures RecordsToMap(rs) == m
  {
    if |rs| > 0 {
      DescribesPathsTail(rs, m);
      RecordsToMapOf(rs[1..], m - {rs[0].name});
      RecordsToMapStep(rs, m);
    } else {
      assert m.Keys == {} by {
        assert Names(rs) == [];
      }
    }
  }

  /** Records for a duplicate-free listing of m's keys read back to m. */
  lemma PathRecordsReadBack(inner: map<string, seq<int>>, paths: seq<string>)
    requires forall i, j :: 0 <= i < j < |paths| ==> paths[i] != paths[j]
    requires forall p :: p in paths <==> p in inner
    ensures RecordsToMap(PathRecords(inner, paths)) == inner
  {
    var rs := PathRecords(inner, paths);
    assert Names(rs) == paths;
    RecordsToMapOf(rs, inner);
  }

  /** The records of one word's block read back to that word's inner map. */
  lemma WordBlockReadsBack(idx: Index, w: string)
    requires w in idx
    ensures RecordsToMap(WordBlock(idx, w).records) == idx[w]
  {
    var paths := SortedKeys(idx[w].Keys);
    SortedDistinct(paths);
    PathRecordsReadBack(idx[w], paths);
  }

  /** Blocks with distinct headers, one per key of idx, each reading back to that
      key's inner map. */
  ghost predicate DescribesIndex(bs: seq<Block>, idx: Index)
  {
    (forall i, j :: 0 <= i < j < |bs| ==> bs[i].header != bs[j].header) &&
    (forall w :: w in idx ==> w in Headers(bs)) &&
    (forall i :: 0 <= i < |bs| ==> bs[i].header in idx && RecordsToMap(bs[i].records) == idx[bs[i].header])
  }

  lemma DescribesIndexTail(bs: seq<Block>, idx: Index)
    requires |bs| > 0 && DescribesIndex(bs, idx)
    ensures DescribesIndex(bs[1..], idx - {bs[0].header})
  {
    var h := bs[0].header;
    var rest := idx - {h};
    forall w | w in rest
      ensures w in Headers(bs[1..])
    {
      assert w in Headers(bs) && w != Headers(bs)[0];
      assert Headers(bs) == [h] + Headers(bs[1..]);
    }
    forall i | 0 <= i < |bs[1..]|
      ensures bs[1..][i].header in rest && RecordsToMap(bs[1..][i].records) == rest[bs[1..][i].header]
    {
      assert bs[1..][i] == bs[i + 1];
    }
  }

  lemma BlocksToIndexStep(bs: seq<Block>, idx: Index)
    requires |bs| > 0 && bs[0].header in idx && RecordsToMap(bs[0].records) == idx[bs[0].header]
    requires BlocksToIndex(bs[1..]) == idx - {bs[0].header}
    ensures BlocksToIndex(bs) == idx
  {
    assert (idx - {bs[0].header})[bs[0].header := RecordsToMap(bs[0].records)] == idx;
  }

  lemma {:induction false} BlocksToIndexOf(bs: seq<Block>, idx: Index)
    requires DescribesIndex(bs, idx)
    ensures BlocksToIndex(bs) == idx
  {
    if |bs| > 0 {
      DescribesIndexTail(bs, idx);
      BlocksToIndexOf(bs[1..], idx - {bs[0].header});
      BlocksToIndexStep(bs, idx);
    } else {
      assert idx.Keys == {} by {
        assert Headers(bs) == [];
      }
    }
  }

  /** Writing the index and reading the text back reconstructs every
      (word, path, positions) entry exactly. */
  lemma IndexTextRoundTrip(idx: Index)
    ensures ReadIndex(IndexText(idx)) == Some(idx)
  {
    var words := SortedKeys(idx.Keys);
    var bs := IndexBlocks(idx);
    IndexBlocksHeaders(idx);
    SortedDistinct(words);
    forall i | 0 <= i < |bs|
      ensures bs[i].header in idx && RecordsToMap(bs[i].records) == idx[bs[i].header]
    {
      IndexBlocksAt(idx, i);
      WordBlockReadsBack(idx, bs[i].header);
    }
    BlocksToIndexOf(bs, idx);
    BlocksRoundTrip(bs);
  }
}
