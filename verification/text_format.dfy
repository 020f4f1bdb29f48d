/**
 * The line format both outputs of the search engine share. The inverted index is
 * written as one block per word and the query results as one block per query line;
 * each block is a header line, then one record line per path in the form
 * `"<path>", n1, n2, ...`, then a blank line. Reading the text back is the partner
 * of writing it: ParseBlocks recovers every block that RenderBlocks wrote.
 */
module TextFormat {
  import opened Options
  import opened Strings

  /** One record line: a quoted name followed by numbers. */
  datatype Record = Record(name: string, numbers: seq<int>)

  /** A header line followed by record lines and closed by a blank line. */
  datatype Block = Block(header: string, records: seq<Record>)

  // ---------------------------------------------------------------------------
  // Writing

  /** `, n` for every number, in order. */
  function RenderNumbers(ns: seq<int>): string
  {
    if |ns| == 0 then "" else ", " + IntToString(ns[0]) + RenderNumbers(ns[1..])
  }

  function RenderRecord(r: Record): string
  {
    "\"" + r.name + "\"" + RenderNumbers(r.numbers)
  }

  function RenderRecords(rs: seq<Record>): (lines: seq<string>)
    ensures |lines| == |rs|
    ensures forall i :: 0 <= i < |rs| ==> lines[i] == RenderRecord(rs[i])
  {
    if |rs| == 0 then [] else [RenderRecord(rs[0])] + RenderRecords(rs[1..])
  }

  function RenderBlock(b: Block): seq<string>
  {
    [b.header] + RenderRecords(b.records) + [""]
  }

  function RenderBlocks(bs: seq<Block>): seq<string>
  {
    if |bs| == 0 then [] else RenderBlock(bs[0]) + RenderBlocks(bs[1..])
  }

  // ---------------------------------------------------------------------------
  // Reading

  /** The index of the last occurrence of c in s. */
  function LastIndexOf(s: string, c: char): (r: Option<nat>)
    ensures r.Some? ==> r.value < |s| && s[r.value] == c
    ensures r.Some? ==> forall j :: r.value < j < |s| ==> s[j] != c
    ensures r.None? ==> forall j :: 0 <= j < |s| ==> s[j] != c
  {
    if |s| == 0 then None
    else if s[|s| - 1] == c then Some(|s| - 1)
    else LastIndexOf(s[..|s| - 1], c)
  }

  /** The index of the first comma of t, or |t| when there is none. */
  function CommaIndex(t: string): (k: nat)
    ensures k <= |t|
    ensures forall i :: 0 <= i < k ==> t[i] != ','
    ensures k == |t| || t[k] == ','
  {
    if |t| == 0 || t[0] == ',' then 0 else 1 + CommaIndex(t[1..])
  }

  /** Splits t before its first comma. */
  function TakeNumber(t: string): (string, string)
  {
    (t[..CommaIndex(t)], t[CommaIndex(t)..])
  }

  function ParseNumbers(t: string): Option<seq<int>>
    decreases |t|
  {
    if |t| == 0 then Some([])
    else if |t| >= 2 && t[0] == ',' && t[1] == ' ' then
      var (tok, rest) := TakeNumber(t[2..]);
      match ParseInt(tok)
      case None => None
      case Some(n) =>
        match ParseNumbers(rest)
        case None => None
        case Some(ns) => Some([n] + ns)
    else None
  }

  /** The name runs from the opening quote to the LAST quote of the line: the numbers
      after it never contain a quote, while the name itself may. */
  function ParseRecord(line: string): Option<Record>
  {
    if |line| == 0 || line[0] != '"' then None
    else
      match LastIndexOf(line, '"')
      case None => None
      case Some(k) =>
        if k == 0 then None
        else
          match ParseNumbers(line[k + 1..])
          case None => None
          case Some(ns) => Some(Record(line[1..k], ns))
  }

  /** Record lines up to and including the blank line that closes a block; also
      returns the lines after it. */
  function ParseRecords(lines: seq<string>): (r: Option<(seq<Record>, seq<string>)>)
    ensures r.Some? ==> |r.value.1| < |lines|
  {
    if |lines| == 0 then None
    else if |lines[0]| == 0 then Some(([], lines[1..]))
    else
      match ParseRecord(lines[0])
      case None => None
      case Some(rec) =>
        match ParseRecords(lines[1..])
        case None => None
        case Some(res) => Some(([rec] + res.0, res.1))
  }

  function ParseBlocks(lines: seq<string>): Option<seq<Block>>
    decreases |lines|
  {
    if |lines| == 0 then Some([])
    else
      match ParseRecords(lines[1..])
      case None => None
      case Some(res) =>
        match ParseBlocks(res.1)
        case None => None
        case Some(bs) => Some([Block(lines[0], res.0)] + bs)
  }

  // ---------------------------------------------------------------------------
  // Round trip

  lemma {:induction false} NumbersHaveNoQuoteOrComma(ns: seq<int>)
    ensures forall i :: 0 <= i < |RenderNumbers(ns)| ==> RenderNumbers(ns)[i] != '"'
    ensures |RenderNumbers(ns)| == 0 || RenderNumbers(ns)[0] == ','
  {
    if |ns| > 0 {
      NumbersHaveNoQuoteOrComma(ns[1..]);
      var s := IntToString(ns[0]);
      assert RenderNumbers(ns) == ", " + s + RenderNumbers(ns[1..]);
      forall i | 0 <= i < |RenderNumbers(ns)|
        ensures RenderNumbers(ns)[i] != '"'
      {
        if 2 <= i < 2 + |s| {
          assert RenderNumbers(ns)[i] == s[i - 2];
        } else if i >= 2 + |s| {
          assert RenderNumbers(ns)[i] == RenderNumbers(ns[1..])[i - 2 - |s|];
        }
      }
    }
  }

  lemma {:induction false} CommaIndexOf(a: string, b: string)
    requires forall i :: 0 <= i < |a| ==> a[i] != ','
    requires |b| == 0 || b[0] == ','
    ensures CommaIndex(a + b) == |a|
  {
    if |a| > 0 {
      assert (a + b)[0] == a[0];
      assert (a + b)[1..] == a[1..] + b;
      CommaIndexOf(a[1..], b);
    } else {
      assert a + b == b;
    }
  }

  lemma TakeNumberOf(a: string, b: string)
    requires forall i :: 0 <= i < |a| ==> a[i] != ','
    requires |b| == 0 || b[0] == ','
    ensures TakeNumber(a + b) == (a, b)
  {
    CommaIndexOf(a, b);
    assert (a + b)[..|a|] == a;
    assert (a + b)[|a|..] == b;
  }

  lemma ParseNumbersCons(s: string, tail: string, n: int, ns: seq<int>)
    requires forall i :: 0 <= i < |s| ==> s[i] != ','
    requires |tail| == 0 || tail[0] == ','
    requires ParseInt(s) == Some(n) && ParseNumbers(tail) == Some(ns)
    ensures ParseNumbers(", " + s + tail) == Some([n] + ns)
  {
    var u := s + tail;
    var t := ", " + u;
    assert ", " + s + tail == t;
    assert t[0] == ',' && t[1] == ' ';
    assert t[|", "|..] == u;
    TakeNumberOf(s, tail);
  }

  lemma {:induction false} NumbersRoundTrip(ns: seq<int>)
    ensures ParseNumbers(RenderNumbers(ns)) == Some(ns)
  {
    if |ns| > 0 {
      NumbersHaveNoQuoteOrComma(ns[1..]);
      IntToStringRoundTrip(ns[0]);
      NumbersRoundTrip(ns[1..]);
      ParseNumbersCons(IntToString(ns[0]), RenderNumbers(ns[1..]), ns[0], ns[1..]);
      assert [ns[0]] + ns[1..] == ns;
    }
  }

  lemma {:induction false} LastIndexOfAppend(head: string, tail: string, c: char)
    requires |head| > 0 && head[|head| - 1] == c
    requires forall i :: 0 <= i < |tail| ==> tail[i] != c
    ensures LastIndexOf(head + tail, c) == Some(|head| - 1)
  {
    if |tail| == 0 {
      assert head + tail == head;
    } else {
      var s := head + tail;
      assert s[|s| - 1] == tail[|tail| - 1];
      assert s[..|s| - 1] == head + tail[..|tail| - 1];
      LastIndexOfAppend(head, tail[..|tail| - 1], c);
    }
  }

  /** The pieces of a quoted name followed by a tail. */
  lemma QuotedPieces(name: string, tail: string)
    ensures ("\"" + name + "\"" + tail)[0] == '"'
    ensures ("\"" + name + "\"" + tail)[1..|name| + 1] == name
    ensures ("\"" + name + "\"" + tail)[|name| + 2..] == tail
    ensures "\"" + name + "\"" + tail == ("\"" + name + "\"") + tail
  {
    var line := "\"" + name + "\"" + tail;
    assert forall i :: 0 <= i < |name| ==> line[1 + i] == name[i];
    assert forall i :: 0 <= i < |tail| ==> line[|name| + 2 + i] == tail[i];
  }

  lemma ParseRecordOf(name: string, tail: string, ns: seq<int>)
    requires forall i :: 0 <= i < |tail| ==> tail[i] != '"'
    requires ParseNumbers(tail) == Some(ns)
    ensures ParseRecord("\"" + name + "\"" + tail) == Some(Record(name, ns))
  {
    var head := "\"" + name + "\"";
    QuotedPieces(name, tail);
    LastIndexOfAppend(head, tail, '"');
  }

  lemma RecordRoundTrip(r: Record)
    ensures ParseRecord(RenderRecord(r)) == Some(r)
  {
    NumbersHaveNoQuoteOrComma(r.numbers);
    NumbersRoundTrip(r.numbers);
    ParseRecordOf(r.name, RenderNumbers(r.numbers), r.numbers);
  }

  lemma {:induction false} RecordsRoundTrip(rs: seq<Record>, rest: seq<string>)
    ensures ParseRecords(RenderRecords(rs) + [""] + rest) == Some((rs, rest))
  {
    var lines := RenderRecords(rs) + [""] + rest;
    if |rs| == 0 {
      assert lines == [""] + rest;
      assert lines[1..] == rest;
    } else {
      var line := RenderRecord(rs[0]);
      assert lines == [line] + (RenderRecords(rs[1..]) + [""] + rest);
      assert lines[0] == line && lines[1..] == RenderRecords(rs[1..]) + [""] + rest;
      assert |line| > 0;
      RecordRoundTrip(rs[0]);
      RecordsRoundTrip(rs[1..], rest);
      assert ParseRecords(lines) == Some(([rs[0]] + rs[1..], rest));
      assert [rs[0]] + rs[1..] == rs;
    }
  }

  lemma ParseBlocksCons(header: string, tail: seq<string>, recs: seq<Record>, rest: seq<string>, bs: seq<Block>)
    requires ParseRecords(tail) == Some((recs, rest))
    requires ParseBlocks(rest) == Some(bs)
    ensures ParseBlocks([header] + tail) == Some([Block(header, recs)] + bs)
  {
    assert ([header] + tail)[0] == header;
    assert ([header] + tail)[1..] == tail;
  }

  lemma Regroup4<T>(a: seq<T>, b: seq<T>, c: seq<T>, d: seq<T>)
    ensures a + b + c + d == a + (b + c + d)
  {
  }

  lemma RenderBlocksCons(bs: seq<Block>)
    requires |bs| > 0
    ensures RenderBlocks(bs) == [bs[0].header] + (RenderRecords(bs[0].records) + [""] + RenderBlocks(bs[1..]))
  {
    Regroup4([bs[0].header], RenderRecords(bs[0].records), [""], RenderBlocks(bs[1..]));
  }

  /** Reading back what was written gives every block back. */
  lemma {:induction false} BlocksRoundTrip(bs: seq<Block>)
    ensures ParseBlocks(RenderBlocks(bs)) == Some(bs)
  {
    if |bs| > 0 {
      var b := bs[0];
      var after := RenderBlocks(bs[1..]);
      RenderBlocksCons(bs);
      RecordsRoundTrip(b.records, after);
      BlocksRoundTrip(bs[1..]);
      ParseBlocksCons(b.header, RenderRecords(b.records) + [""] + after, b.records, after, bs[1..]);
      assert [Block(b.header, b.records)] + bs[1..] == bs;
    }
  }

  /** Every block occupies exactly its header, its records and one blank line. */
  lemma {:induction false} RenderBlocksLength(bs: seq<Block>)
    ensures |RenderBlocks(bs)| == BlocksLength(bs)
  {
    if |bs| > 0 {
      RenderBlocksLength(bs[1..]);
    }
  }

  function BlocksLength(bs: seq<Block>): nat
  {
    if |bs| == 0 then 0 else |bs[0].records| + 2 + BlocksLength(bs[1..])
  }
}
