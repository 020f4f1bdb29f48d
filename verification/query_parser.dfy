/**
 * QueryParser: every line of the query file is split into query words and searched
 * with partialSearch; the results are kept in a LinkedHashMap from the raw line to
 * its result list, so a repeated line keeps the slot of its first occurrence. write
 * prints one block per line: the line, one SearchResult.toString line per result,
 * and a blank line.
 */
module QueryParser {
  import opened Options
  import opened Strings
  import opened TextFormat
  import opened WordParser
  import opened InvertedIndex
  import opened SearchResults
  import opened IndexSearch

  /** One LinkedHashMap entry. */
  datatype Entry = Entry(line: string, results: seq<SearchResult>)

  /** The LinkedHashMap, its entries in insertion order. */
  type Table = seq<Entry>

  function Lines(t: Table): (ks: seq<string>)
    ensures |ks| == |t|
  {
    if |t| == 0 then [] else [t[0].line] + Lines(t[1..])
  }

  ghost predicate Distinct(ks: seq<string>)
  {
    forall i, j :: 0 <= i < j < |ks| ==> ks[i] != ks[j]
  }

  /** get(line). */
  function Get(t: Table, line: string): Option<seq<SearchResult>>
  {
    if |t| == 0 then None
    else if t[0].line == line then Some(t[0].results)
    else Get(t[1..], line)
  }

  /** put(line, results): an existing key keeps its place and takes the new value; a
      new key goes to the end. */
  function Put(t: Table, line: string, results: seq<SearchResult>): (u: Table)
    ensures Get(u, line) == Some(results)
    ensures forall k :: k != line ==> Get(u, k) == Get(t, k)
    ensures Lines(u) == if line in Lines(t) then Lines(t) else Lines(t) + [line]
  {
    if |t| == 0 then [Entry(line, results)]
    else if t[0].line == line then [Entry(line, results)] + t[1..]
    else
      var rest := Put(t[1..], line, results);
      assert Lines(t) == [t[0].line] + Lines(t[1..]);
      assert ([t[0]] + rest)[1..] == rest;
      [t[0]] + rest
  }

  lemma {:induction false} GetPresent(t: Table, line: string)
    ensures Get(t, line).Some? <==> line in Lines(t)
    decreases |t|
  {
    if |t| > 0 {
      GetPresent(t[1..], line);
      assert Lines(t) == [t[0].line] + Lines(t[1..]);
    }
  }

  /** queryParser over the lines of the query file: each line's results are
      partialSearch of its parsed words. */
  ghost function Answer(idx: Index, lines: seq<string>): Table
    requires WellFormed(idx)
    decreases |lines|
  {
    if |lines| == 0 then []
    else
      var n := |lines| - 1;
      Put(Answer(idx, lines[..n]), lines[n], PartialSearch(idx, ParseText(lines[n])))
  }

  /** The position of the first occurrence of x in s. */
  function FirstIndex(s: seq<string>, x: string): (i: nat)
    requires x in s
    ensures i < |s| && s[i] == x
    ensures forall j :: 0 <= j < i ==> s[j] != x
  {
    if s[0] == x then 0 else 1 + FirstIndex(s[1..], x)
  }

  lemma FirstIndexPrefix(s: seq<string>, n: nat, x: string)
    requires n <= |s| && x in s[..n]
    ensures FirstIndex(s, x) == FirstIndex(s[..n], x)
  {
    var i := FirstIndex(s[..n], x);
    assert s[i] == x;
    var k := FirstIndex(s, x);
    assert k <= i;
    assert s[..n][k] == x;
  }

  lemma FirstIndexNew(s: seq<string>, n: nat)
    requires n < |s| && s[n] !in s[..n]
    ensures FirstIndex(s, s[n]) == n
  {
    forall j | 0 <= j < n
      ensures s[j] != s[n]
    {
      assert s[j] == s[..n][j];
    }
  }

  lemma InLast(s: seq<string>, x: string)
    requires |s| > 0
    ensures x in s <==> x in s[..|s| - 1] || x == s[|s| - 1]
  {
    assert s == s[..|s| - 1] + [s[|s| - 1]];
  }

  /** Ordered by first occurrence in s. */
  ghost predicate FirstOccurrenceOrder(ks: seq<string>, s: seq<string>)
    requires forall i :: 0 <= i < |ks| ==> ks[i] in s
  {
    forall i, j :: 0 <= i < j < |ks| ==> FirstIndex(s, ks[i]) < FirstIndex(s, ks[j])
  }

  lemma KeysMembersStep(ks: seq<string>, lines: seq<string>, n: nat, ks': seq<string>)
    requires n < |lines|
    requires forall k :: k in ks <==> k in lines[..n]
    requires ks' == if lines[n] in ks then ks else ks + [lines[n]]
    ensures forall k :: k in ks' <==> k in lines[..n + 1]
    ensures forall i :: 0 <= i < |ks'| ==> ks'[i] in lines[..n + 1]
  {
    var s := lines[..n + 1];
    assert s[..n] == lines[..n] && s[n] == lines[n];
    forall k
      ensures k in ks' <==> k in s
    {
      InLast(s, k);
    }
  }

  lemma KeysDistinctStep(ks: seq<string>, x: string)
    requires Distinct(ks) && x !in ks
    ensures Distinct(ks + [x])
  {
    var ks' := ks + [x];
    forall i, j | 0 <= i < j < |ks'|
      ensures ks'[i] != ks'[j]
    {
      assert ks'[i] == ks[i];
      if j < |ks| {
        assert ks'[j] == ks[j];
      }
    }
  }

  lemma KeysOrderStep(ks: seq<string>, lines: seq<string>, n: nat, ks': seq<string>)
    requires n < |lines|
    requires forall i :: 0 <= i < |ks| ==> ks[i] in lines[..n]
    requires FirstOccurrenceOrder(ks, lines[..n])
    requires ks' == if lines[n] in ks then ks else ks + [lines[n]]
    requires forall i :: 0 <= i < |ks'| ==> ks'[i] in lines[..n + 1]
    requires lines[n] !in ks ==> lines[n] !in lines[..n]
    ensures FirstOccurrenceOrder(ks', lines[..n + 1])
  {
    var s := lines[..n + 1];
    assert s[..n] == lines[..n] && s[n] == lines[n];
    forall i | 0 <= i < |ks|
      ensures FirstIndex(s, ks[i]) == FirstIndex(lines[..n], ks[i]) < n
    {
      FirstIndexPrefix(s, n, ks[i]);
    }
    if lines[n] !in ks {
      FirstIndexNew(s, n);
      assert ks'[|ks|] == lines[n];
      assert forall i :: 0 <= i < |ks| ==> ks'[i] == ks[i];
    }
  }

  lemma AnswerKeysStep(ks: seq<string>, lines: seq<string>, n: nat, ks': seq<string>)
    requires n < |lines|
    requires forall k :: k in ks <==> k in lines[..n]
    requires forall i :: 0 <= i < |ks| ==> ks[i] in lines[..n]
    requires Distinct(ks) && FirstOccurrenceOrder(ks, lines[..n])
    requires ks' == if lines[n] in ks then ks else ks + [lines[n]]
    ensures forall k :: k in ks' <==> k in lines[..n + 1]
    ensures forall i :: 0 <= i < |ks'| ==> ks'[i] in lines[..n + 1]
    ensures Distinct(ks') && FirstOccurrenceOrder(ks', lines[..n + 1])
  {
    KeysMembersStep(ks, lines, n, ks');
    if lines[n] !in ks {
      KeysDistinctStep(ks, lines[n]);
    }
    KeysOrderStep(ks, lines, n, ks');
  }

  /** The table's keys are the distinct lines of the file, each once, in the order
      of their first occurrence. */
  lemma {:induction false} AnswerKeys(idx: Index, lines: seq<string>)
    requires WellFormed(idx)
    ensures forall k :: k in Lines(Answer(idx, lines)) <==> k in lines
    ensures forall i :: 0 <= i < |Lines(Answer(idx, lines))| ==> Lines(Answer(idx, lines))[i] in lines
    ensures Distinct(Lines(Answer(idx, lines)))
    ensures FirstOccurrenceOrder(Lines(Answer(idx, lines)), lines)
    decreases |lines|
  {
    if |lines| > 0 {
      var n := |lines| - 1;
      AnswerKeys(idx, lines[..n]);
      assert lines[..n + 1] == lines;
      AnswerKeysStep(Lines(Answer(idx, lines[..n])), lines, n, Lines(Answer(idx, lines)));
    }
  }

  lemma AnswerStep(idx: Index, lines: seq<string>, k: string)
    requires WellFormed(idx) && |lines| > 0
    ensures Get(Answer(idx, lines), k) ==
      if k == lines[|lines| - 1] then Some(PartialSearch(idx, ParseText(k))) else Get(Answer(idx, lines[..|lines| - 1]), k)
  {
  }

  /** Every line of the file maps to the search for its own words, and nothing
      else is in the table. A repeated line is searched again and put again, which
      leaves the same list. */
  lemma {:induction false} AnswerLookup(idx: Index, lines: seq<string>, k: string)
    requires WellFormed(idx)
    ensures Get(Answer(idx, lines), k) == if k in lines then Some(PartialSearch(idx, ParseText(k))) else None
    decreases |lines|
  {
    if |lines| > 0 {
      var n := |lines| - 1;
      AnswerStep(idx, lines, k);
      AnswerLookup(idx, lines[..n], k);
      InLast(lines, k);
    }
  }

  /** A line without any letter, digit or non-underscore word character has no
      query words, so its block lists no results. */
  lemma BlankQueryLine(idx: Index, line: string)
    requires WellFormed(idx)
    requires forall i :: 0 <= i < |line| ==> !IsWordChar(line[i]) || line[i] == '_'
    ensures PartialSearch(idx, ParseText(line)) == []
  {
    ParseTextEmpty(line);
    PartialSearchNoQueries(idx);
  }

  // ---------------------------------------------------------------------------
  // write

  function ResultLines(rs: seq<SearchResult>): (lines: seq<string>)
    ensures |lines| == |rs|
  {
    if |rs| == 0 then [] else [ToString(rs[0])] + ResultLines(rs[1..])
  }

  /** The lines write prints: for each key, the key, its results' toString, a blank line. */
  function WriteLines(t: Table): seq<string>
  {
    if |t| == 0 then [] else [t[0].line] + ResultLines(t[0].results) + [""] + WriteLines(t[1..])
  }

  function ResultRecord(r: SearchResult): Record
  {
    Record(r.path, [r.frequency, r.position])
  }

  function ResultRecords(rs: seq<SearchResult>): (recs: seq<Record>)
    ensures |recs| == |rs|
  {
    if |rs| == 0 then [] else [ResultRecord(rs[0])] + ResultRecords(rs[1..])
  }

  function TableBlocks(t: Table): seq<Block>
  {
    if |t| == 0 then [] else [Block(t[0].line, ResultRecords(t[0].results))] + TableBlocks(t[1..])
  }

  lemma {:induction false} ResultLinesAreRecords(rs: seq<SearchResult>)
    ensures ResultLines(rs) == RenderRecords(ResultRecords(rs))
    decreases |rs|
  {
    if |rs| > 0 {
      ToStringReadsBack(rs[0]);
      ResultLinesAreRecords(rs[1..]);
    }
  }

  /** The output is the shared block format, one block per key. */
  lemma {:induction false} WriteLinesAreBlocks(t: Table)
    ensures WriteLines(t) == RenderBlocks(TableBlocks(t))
    decreases |t|
  {
    if |t| > 0 {
      ResultLinesAreRecords(t[0].results);
      WriteLinesAreBlocks(t[1..]);
    }
  }

  /** A record line read back as a result: a path with exactly two numbers. */
  function RecordResult(rec: Record): Option<SearchResult>
  {
    if |rec.numbers| == 2 then Some(SearchResult(rec.numbers[0], rec.numbers[1], rec.name)) else None
  }

  function RecordResults(recs: seq<Record>): Option<seq<SearchResult>>
  {
    if |recs| == 0 then Some([])
    else
      match RecordResult(recs[0])
      case None => None
      case Some(r) =>
        match RecordResults(recs[1..])
        case None => None
        case Some(rs) => Some([r] + rs)
  }

  function BlocksTable(bs: seq<Block>): Option<Table>
  {
    if |bs| == 0 then Some([])
    else
      match RecordResults(bs[0].records)
      case None => None
      case Some(rs) =>
        match BlocksTable(bs[1..])
        case None => None
        case Some(t) => Some([Entry(bs[0].header, rs)] + t)
  }

  /** Reads a results file back into the table it was written from. */
  function ReadResults(lines: seq<string>): Option<Table>
  {
    match ParseBlocks(lines)
    case None => None
    case Some(bs) => BlocksTable(bs)
  }

  lemma {:induction false} RecordResultsRoundTrip(rs: seq<SearchResult>)
    ensures RecordResults(ResultRecords(rs)) == Some(rs)
    decreases |rs|
  {
    if |rs| > 0 {
      RecordResultsRoundTrip(rs[1..]);
      var recs := ResultRecords(rs);
      assert recs[0] == ResultRecord(rs[0]) && recs[1..] == ResultRecords(rs[1..]);
      assert RecordResult(recs[0]) == Some(rs[0]);
      assert rs == [rs[0]] + rs[1..];
    }
  }

  lemma {:induction false} BlocksTableRoundTrip(t: Table)
    ensures BlocksTable(TableBlocks(t)) == Some(t)
    decreases |t|
  {
    if |t| > 0 {
      RecordResultsRoundTrip(t[0].results);
      BlocksTableRoundTrip(t[1..]);
      var bs := TableBlocks(t);
      assert bs[0] == Block(t[0].line, ResultRecords(t[0].results)) && bs[1..] == TableBlocks(t[1..]);
      assert t == [Entry(t[0].line, t[0].results)] + t[1..];
    }
  }

  /** Reading the written file gives back every line and every result, in order. */
  lemma WriteRoundTrip(t: Table)
    ensures ReadResults(WriteLines(t)) == Some(t)
  {
    WriteLinesAreBlocks(t);
    BlocksRoundTrip(TableBlocks(t));
    BlocksTableRoundTrip(t);
  }
}
