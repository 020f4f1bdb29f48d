/** IndexBuilder: parseFile numbers the tokens of a file's lines with one running
    counter; build folds parseFile over a list of files. */
module IndexBuilder {
  import opened Strings
  import opened WordParser
  import opened InvertedIndex

  /** A file as the builder sees it: its (already normalised) path and its lines. */
  datatype SourceFile = SourceFile(path: string, lines: seq<string>)

  /** The state parseFile carries through its loops: the index and the position counter. */
  datatype Progress = Progress(index: Index, counter: int)

  /** The inner loop of parseFile over the split("\\s") fragments of one cleaned line:
      an empty fragment is skipped, every other one takes the next position. Returns
      the index and the counter after the line. */
  function AddFragments(idx: Index, frags: seq<string>, file: string, position: int): Progress
    decreases |frags|
  {
    if |frags| == 0 then Progress(idx, position)
    else if frags[0] == "" then AddFragments(idx, frags[1..], file, position)
    else AddFragments(Add(idx, frags[0], file, position + 1), frags[1..], file, position + 1)
  }

  /** The split("\\s") fragments of each cleaned line, line by line. */
  function LineFragments(lines: seq<string>): (fl: seq<seq<string>>)
    ensures |fl| == |lines|
    ensures forall i :: 0 <= i < |lines| ==> NonEmpty(fl[i]) == ParseText(lines[i])
  {
    if |lines| == 0 then [] else [Split(CleanText(lines[0]))] + LineFragments(lines[1..])
  }

  /** The outer loop of parseFile: one line after another, the counter carried over. */
  function AddLines(idx: Index, fl: seq<seq<string>>, file: string, position: int): Progress
    decreases |fl|
  {
    if |fl| == 0 then Progress(idx, position)
    else
      var line := AddFragments(idx, fl[0], file, position);
      AddLines(line.index, fl[1..], file, line.counter)
  }

  /** parseFile: the counter starts at 0, so the first token is at position 1. */
  function ParseFile(idx: Index, f: SourceFile): Index
  {
    AddLines(idx, LineFragments(f.lines), f.path, 0).index
  }

  /** build: parseFile on every file, in list order. */
  function Build(idx: Index, files: seq<SourceFile>): Index
    decreases |files|
  {
    if |files| == 0 then idx else Build(ParseFile(idx, files[0]), files[1..])
  }

  // ---------------------------------------------------------------------------
  // One line

  /** The fragments of one line add exactly its non-empty fragments, numbered on from
      the counter, and the counter moves by their number. */
  lemma {:induction false} AddFragmentsTokens(idx: Index, frags: seq<string>, file: string, position: int)
    ensures AddFragments(idx, frags, file, position).index == AddTokens(idx, NonEmpty(frags), file, position)
    ensures AddFragments(idx, frags, file, position).counter == position + |NonEmpty(frags)|
    decreases |frags|
  {
    if |frags| > 0 {
      var ne := NonEmpty(frags);
      if frags[0] == "" {
        AddFragmentsTokens(idx, frags[1..], file, position);
        assert ne == NonEmpty(frags[1..]);
        assert AddFragments(idx, frags, file, position) == AddFragments(idx, frags[1..], file, position);
      } else {
        var next := Add(idx, frags[0], file, position + 1);
        AddFragmentsTokens(next, frags[1..], file, position + 1);
        assert ne == [frags[0]] + NonEmpty(frags[1..]);
        assert ne[0] == frags[0] && ne[1..] == NonEmpty(frags[1..]);
        assert AddFragments(idx, frags, file, position) == AddFragments(next, frags[1..], file, position + 1);
        assert AddTokens(idx, ne, file, position) == AddTokens(next, ne[1..], file, position + 1);
      }
    }
  }

  /** For one line the fragments taken are exactly parseText's tokens. */
  lemma LineTokens(idx: Index, line: string, file: string, position: int)
    ensures AddFragments(idx, Split(CleanText(line)), file, position).index == AddTokens(idx, ParseText(line), file, position)
    ensures AddFragments(idx, Split(CleanText(line)), file, position).counter == position + |ParseText(line)|
  {
    AddFragmentsTokens(idx, Split(CleanText(line)), file, position);
  }

  /** What one line does to one list. */
  lemma AddFragmentsPositionsAt(idx: Index, frags: seq<string>, file: string, position: int, w: string, p: string)
    ensures Positions(AddFragments(idx, frags, file, position).index, w, p)
         == Positions(idx, w, p) + (if p == file then Occurrences(NonEmpty(frags), w, position) else [])
    ensures AddFragments(idx, frags, file, position).counter == position + |NonEmpty(frags)|
  {
    AddFragmentsTokens(idx, frags, file, position);
    AddTokensPositionsAt(idx, NonEmpty(frags), file, position, w, p);
  }

  lemma AddFragmentsWellFormed(idx: Index, frags: seq<string>, file: string, position: int)
    requires WellFormed(idx)
    ensures WellFormed(AddFragments(idx, frags, file, position).index)
  {
    AddFragmentsTokens(idx, frags, file, position);
    AddTokensWellFormed(idx, NonEmpty(frags), file, position);
  }

  // ---------------------------------------------------------------------------
  // A whole file

  /** The non-empty fragments of every line, in line order. */
  function FragmentTokens(fl: seq<seq<string>>): seq<string>
  {
    if |fl| == 0 then [] else NonEmpty(fl[0]) + FragmentTokens(fl[1..])
  }

  /** Those are the tokens parseFile of WordParser returns for the same lines. */
  lemma {:induction false} FragmentTokensOfLines(lines: seq<string>)
    ensures FragmentTokens(LineFragments(lines)) == ParseLines(lines)
    decreases |lines|
  {
    if |lines| > 0 {
      FragmentTokensOfLines(lines[1..]);
      assert LineFragments(lines)[0] == Split(CleanText(lines[0]));
      assert LineFragments(lines)[1..] == LineFragments(lines[1..]);
    }
  }

  /** One step of the outer loop, seen through one list, the counter and the invariant. */
  lemma AddLinesUnfold(idx: Index, fl: seq<seq<string>>, file: string, position: int, w: string, p: string)
    requires |fl| > 0
    ensures Positions(AddLines(idx, fl, file, position).index, w, p)
         == Positions(AddLines(AddFragments(idx, fl[0], file, position).index, fl[1..], file,
                               AddFragments(idx, fl[0], file, position).counter).index, w, p)
    ensures AddLines(idx, fl, file, position).counter
         == AddLines(AddFragments(idx, fl[0], file, position).index, fl[1..], file,
                     AddFragments(idx, fl[0], file, position).counter).counter
    ensures WellFormed(AddLines(AddFragments(idx, fl[0], file, position).index, fl[1..], file,
                               AddFragments(idx, fl[0], file, position).counter).index)
        ==> WellFormed(AddLines(idx, fl, file, position).index)
  {
  }

  /** The counter is never reset between lines: after the lines it has moved by the
      number of non-empty fragments of all of them. */
  lemma {:induction false} AddLinesCounter(idx: Index, fl: seq<seq<string>>, file: string, position: int)
    ensures AddLines(idx, fl, file, position).counter == position + |FragmentTokens(fl)|
    decreases |fl|
  {
    if |fl| > 0 {
      var af := AddFragments(idx, fl[0], file, position);
      AddLinesUnfold(idx, fl, file, position, "", "");
      AddFragmentsPositionsAt(idx, fl[0], file, position, "", "");
      AddLinesCounter(af.index, fl[1..], file, af.counter);
    }
  }

  lemma FragmentTokensOccurrences(fl: seq<seq<string>>, w: string, position: int)
    requires |fl| > 0
    ensures Occurrences(FragmentTokens(fl), w, position)
         == Occurrences(NonEmpty(fl[0]), w, position) + Occurrences(FragmentTokens(fl[1..]), w, position + |NonEmpty(fl[0])|)
  {
    var ne := NonEmpty(fl[0]);
    var rest := FragmentTokens(fl[1..]);
    assert FragmentTokens(fl) == ne + rest;
    OccurrencesAppend(ne, rest, w, position);
  }

  lemma AddLinesStepAt(idx: Index, fl: seq<seq<string>>, file: string, position: int, w: string, p: string)
    requires |fl| > 0
    ensures Positions(AddLines(idx, fl, file, position).index, w, p)
         == Positions(AddLines(AddFragments(idx, fl[0], file, position).index, fl[1..], file, position + |NonEmpty(fl[0])|).index, w, p)
    ensures Positions(AddFragments(idx, fl[0], file, position).index, w, p)
         == Positions(idx, w, p) + (if p == file then Occurrences(NonEmpty(fl[0]), w, position) else [])
    ensures (if p == file then Occurrences(FragmentTokens(fl), w, position) else [])
         == (if p == file then Occurrences(NonEmpty(fl[0]), w, position) else [])
          + (if p == file then Occurrences(FragmentTokens(fl[1..]), w, position + |NonEmpty(fl[0])|) else [])
  {
    AddLinesUnfold(idx, fl, file, position, w, p);
    AddFragmentsPositionsAt(idx, fl[0], file, position, w, p);
    FragmentTokensOccurrences(fl, w, position);
  }

  /** Under the file's path each list gains the positions of its word in the token
      sequence of all lines; lists under other paths are untouched. */
  lemma {:induction false} AddLinesPositionsAt(idx: Index, fl: seq<seq<string>>, file: string, position: int, w: string, p: string)
    ensures Positions(AddLines(idx, fl, file, position).index, w, p)
         == Positions(idx, w, p) + (if p == file then Occurrences(FragmentTokens(fl), w, position) else [])
    decreases |fl|
  {
    if |fl| > 0 {
      var next := AddFragments(idx, fl[0], file, position).index;
      var counter := position + |NonEmpty(fl[0])|;
      AddLinesStepAt(idx, fl, file, position, w, p);
      AddLinesPositionsAt(next, fl[1..], file, counter, w, p);
      Regroup(Positions(AddLines(next, fl[1..], file, counter).index, w, p), Positions(next, w, p), Positions(idx, w, p),
              if p == file then Occurrences(NonEmpty(fl[0]), w, position) else [],
              if p == file then Occurrences(FragmentTokens(fl[1..]), w, counter) else []);
    }
  }

  lemma {:induction false} AddLinesWellFormed(idx: Index, fl: seq<seq<string>>, file: string, position: int)
    requires WellFormed(idx)
    ensures WellFormed(AddLines(idx, fl, file, position).index)
    decreases |fl|
  {
    if |fl| > 0 {
      var af := AddFragments(idx, fl[0], file, position);
      AddFragmentsWellFormed(idx, fl[0], file, position);
      AddLinesWellFormed(af.index, fl[1..], file, af.counter);
      AddLinesUnfold(idx, fl, file, position, "", "");
    }
  }

  /** After a file the counter equals its number of tokens. */
  lemma ParseFileCounter(idx: Index, f: SourceFile)
    ensures AddLines(idx, LineFragments(f.lines), f.path, 0).counter == |ParseLines(f.lines)|
  {
    AddLinesCounter(idx, LineFragments(f.lines), f.path, 0);
    FragmentTokensOfLines(f.lines);
  }

  /** What parseFile records, list by list. */
  lemma ParseFilePositions(idx: Index, f: SourceFile, w: string, p: string)
    ensures p != f.path ==> Positions(ParseFile(idx, f), w, p) == Positions(idx, w, p)
    ensures p == f.path ==> Positions(ParseFile(idx, f), w, p) == Positions(idx, w, p) + Occurrences(ParseLines(f.lines), w, 0)
  {
    AddLinesPositionsAt(idx, LineFragments(f.lines), f.path, 0, w, p);
    FragmentTokensOfLines(f.lines);
  }

  /** parseFile stores the same (word, position) pairs as storeInfo of the file's
      token sequence (the concatenation of parseText over its lines). */
  lemma ParseFileIsStoreInfo(idx: Index, f: SourceFile)
    requires WellFormed(idx)
    ensures ParseFile(idx, f) == StoreInfo(idx, ParseLines(f.lines), f.path)
  {
    AddLinesWellFormed(idx, LineFragments(f.lines), f.path, 0);
    StoreInfoWellFormed(idx, ParseLines(f.lines), f.path);
    forall w, p
      ensures Positions(ParseFile(idx, f), w, p) == Positions(StoreInfo(idx, ParseLines(f.lines), f.path), w, p)
    {
      ParseFilePositions(idx, f, w, p);
      StoreInfoPositions(idx, ParseLines(f.lines), f.path, w, p);
    }
    Extensionality(ParseFile(idx, f), StoreInfo(idx, ParseLines(f.lines), f.path));
  }

  /** Parsing a file the index has no entries for leaves each of its lists strictly
      increasing. */
  lemma ParseFileIncreasing(idx: Index, f: SourceFile, w: string)
    requires WellFormed(idx)
    requires forall v :: Positions(idx, v, f.path) == []
    ensures forall k, l :: 0 <= k < l < |Positions(ParseFile(idx, f), w, f.path)| ==>
              Positions(ParseFile(idx, f), w, f.path)[k] < Positions(ParseFile(idx, f), w, f.path)[l]
  {
    ParseFileIsStoreInfo(idx, f);
    StoreInfoIncreasing(idx, ParseLines(f.lines), f.path, w);
  }

  // ---------------------------------------------------------------------------
  // build

  /** Reference for build: the positions of w in every file at path p, file after file. */
  function FileOccurrences(files: seq<SourceFile>, w: string, p: string): seq<int>
    decreases |files|
  {
    if |files| == 0 then []
    else (if files[0].path == p then Occurrences(ParseLines(files[0].lines), w, 0) else [])
         + FileOccurrences(files[1..], w, p)
  }

  lemma {:induction false} BuildPositionsAt(idx: Index, files: seq<SourceFile>, w: string, p: string)
    ensures Positions(Build(idx, files), w, p) == Positions(idx, w, p) + FileOccurrences(files, w, p)
    decreases |files|
  {
    if |files| > 0 {
      var next := ParseFile(idx, files[0]);
      ParseFilePositions(idx, files[0], w, p);
      BuildPositionsAt(next, files[1..], w, p);
      Regroup(Positions(Build(next, files[1..]), w, p), Positions(next, w, p), Positions(idx, w, p),
              if files[0].path == p then Occurrences(ParseLines(files[0].lines), w, 0) else [],
              FileOccurrences(files[1..], w, p));
    }
  }

  lemma {:induction false} FileOccurrencesOfOne(files: seq<SourceFile>, i: int, w: string)
    requires 0 <= i < |files|
    requires forall j :: 0 <= j < |files| && j != i ==> files[j].path != files[i].path
    ensures FileOccurrences(files, w, files[i].path) == Occurrences(ParseLines(files[i].lines), w, 0)
    decreases |files|
  {
    if |files| > 0 {
      if i == 0 {
        FileOccurrencesOfNone(files[1..], w, files[0].path);
      } else {
        FileOccurrencesOfOne(files[1..], i - 1, w);
      }
    }
  }

  lemma {:induction false} FileOccurrencesOfNone(files: seq<SourceFile>, w: string, p: string)
    requires forall j :: 0 <= j < |files| ==> files[j].path != p
    ensures FileOccurrences(files, w, p) == []
    decreases |files|
  {
    if |files| > 0 {
      FileOccurrencesOfNone(files[1..], w, p);
    }
  }

  /** Building from an empty index over files with distinct paths: each (word, path)
      list is exactly the positions of the word in that file's tokens, and paths that
      are not among the files get nothing. */
  lemma BuildFromEmpty(files: seq<SourceFile>, w: string, p: string)
    requires forall i, j :: 0 <= i < j < |files| ==> files[i].path != files[j].path
    ensures forall i :: 0 <= i < |files| ==>
              Positions(Build(map[], files), w, files[i].path) == Occurrences(ParseLines(files[i].lines), w, 0)
    ensures (forall i :: 0 <= i < |files| ==> files[i].path != p) ==> Positions(Build(map[], files), w, p) == []
  {
    var empty: Index := map[];
    forall i | 0 <= i < |files|
      ensures Positions(Build(empty, files), w, files[i].path) == Occurrences(ParseLines(files[i].lines), w, 0)
    {
      BuildPositionsAt(empty, files, w, files[i].path);
      FileOccurrencesOfOne(files, i, w);
    }
    if forall i :: 0 <= i < |files| ==> files[i].path != p {
      BuildPositionsAt(empty, files, w, p);
      FileOccurrencesOfNone(files, w, p);
    }
  }

  lemma {:induction false} BuildWellFormed(idx: Index, files: seq<SourceFile>)
    requires WellFormed(idx)
    ensures WellFormed(Build(idx, files))
    decreases |files|
  {
    if |files| > 0 {
      AddLinesWellFormed(idx, LineFragments(files[0].lines), files[0].path, 0);
      BuildWellFormed(ParseFile(idx, files[0]), files[1..]);
    }
  }
}
