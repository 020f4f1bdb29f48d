/**
 * HTTPFetcher.fetch after the request is sent: the response lines up to and
 * including the first blank one are the headers and are dropped; every later line
 * goes through processLine and is appended to the buffer, with no line separator.
 * The socket is not modelled: the response arrives as its sequence of lines.
 */
module HttpFetcher {
  import opened Strings

  /** The port every fetch connects to. */
  const Port: int := 80

  function GetPort(): int
  {
    Port
  }

  /** line.trim().isEmpty(). */
  predicate IsBlank(line: string)
  {
    |Trim(line)| == 0
  }

  /** body is what the header loop leaves of lines: a suffix of it, preceded by
      header lines only up to a blank line that is consumed too, or nothing at all
      when no line is blank. */
  predicate SkipsTo(lines: seq<string>, body: seq<string>)
  {
    && |body| <= |lines| && body == lines[|lines| - |body|..]
    && (forall j :: 0 <= j < |lines| - |body| - 1 ==> !IsBlank(lines[j]))
    && (|| (|body| < |lines| && IsBlank(lines[|lines| - |body| - 1]))
        || (|body| == 0 && forall j :: 0 <= j < |lines| ==> !IsBlank(lines[j])))
  }

  /** The header loop: read until a blank line, which is consumed too; a response
      without one is read to its end. */
  function SkipHeaders(lines: seq<string>): (body: seq<string>)
    ensures SkipsTo(lines, body)
  {
    if |lines| == 0 then []
    else if IsBlank(lines[0]) then lines[1..]
    else
      var body := SkipHeaders(lines[1..]);
      HeaderStep(lines, body);
      body
  }

  /** A header line in front keeps the loop's facts about the rest of the response. */
  lemma HeaderStep(lines: seq<string>, body: seq<string>)
    requires |lines| > 0 && !IsBlank(lines[0])
    requires SkipsTo(lines[1..], body)
    ensures SkipsTo(lines, body)
  {
    assert lines[1..][|lines| - 1 - |body|..] == lines[|lines| - |body|..];
    HeaderStepLines(lines, |lines| - |body| - 1);
    if |body| < |lines| - 1 && IsBlank(lines[1..][|lines| - 1 - |body| - 1]) {
      assert lines[|lines| - |body| - 1] == lines[1..][|lines| - 1 - |body| - 1];
    } else {
      HeaderStepLines(lines, |lines|);
    }
  }

  /** The first k lines are headers when the first one is and the k - 1 after it are. */
  lemma HeaderStepLines(lines: seq<string>, k: int)
    requires |lines| > 0 && !IsBlank(lines[0]) && k <= |lines|
    requires forall j :: 0 <= j < k - 1 ==> !IsBlank(lines[1..][j])
    ensures forall j :: 0 <= j < k ==> !IsBlank(lines[j])
  {
    forall j | 0 < j < k
      ensures !IsBlank(lines[j])
    {
      assert lines[j] == lines[1..][j - 1];
    }
  }

  /** The body loop: each line processed and appended. */
  function Append(lines: seq<string>, process: string -> string): string
  {
    if |lines| == 0 then "" else process(lines[0]) + Append(lines[1..], process)
  }

  /** The default processLine keeps the line as it is. */
  function ProcessLine(line: string): string
  {
    line
  }

  /** fetch, given the response's lines and the fetcher's processLine. */
  function Fetch(response: seq<string>, process: string -> string): string
  {
    Append(SkipHeaders(response), process)
  }

  /** The body starts right after the first blank line, wherever later blank lines are. */
  lemma {:induction false} SkipHeadersAt(lines: seq<string>, k: nat)
    requires k < |lines| && IsBlank(lines[k])
    requires forall j :: 0 <= j < k ==> !IsBlank(lines[j])
    ensures SkipHeaders(lines) == lines[k + 1..]
    decreases k
  {
    if k > 0 {
      assert !IsBlank(lines[0]);
      SkipHeadersAt(lines[1..], k - 1);
      assert lines[1..][k..] == lines[k + 1..];
    }
  }

  /** Without a blank line everything is header and the page is empty. */
  lemma SkipHeadersNoBlank(lines: seq<string>)
    requires forall j :: 0 <= j < |lines| ==> !IsBlank(lines[j])
    ensures SkipHeaders(lines) == []
  {
  }

  lemma {:induction false} AppendIdentity(lines: seq<string>)
    ensures Append(lines, ProcessLine) == Concat(lines)
    decreases |lines|
  {
    if |lines| > 0 {
      AppendIdentity(lines[1..]);
    }
  }

  /** A response of headers, a blank line and a body fetches to the body's lines run
      together, blank lines in the body included and line breaks left out. */
  lemma FetchPage(headers: seq<string>, blank: string, body: seq<string>)
    requires forall j :: 0 <= j < |headers| ==> !IsBlank(headers[j])
    requires IsBlank(blank)
    ensures Fetch(headers + [blank] + body, ProcessLine) == Concat(body)
  {
    var response := headers + [blank] + body;
    assert response[|headers|] == blank;
    assert forall j :: 0 <= j < |headers| ==> response[j] == headers[j];
    SkipHeadersAt(response, |headers|);
    assert response[|headers| + 1..] == body;
    AppendIdentity(body);
  }

  /** A response that never has a blank line fetches to the empty page. */
  lemma FetchNoBlank(response: seq<string>, process: string -> string)
    requires forall j :: 0 <= j < |response| ==> !IsBlank(response[j])
    ensures Fetch(response, process) == ""
  {
    SkipHeadersNoBlank(response);
  }
}
