/** WordParser: cleanText, parseText and parseFile over a sequence of lines. */
module WordParser {
  import opened Strings

  // ---------------------------------------------------------------------------
  // The steps of cleanText

  /** The regular-expression class \w without the Unicode flag: ASCII letters, digits, '_'. */
  predicate IsWordChar(c: char)
  {
    'a' <= c <= 'z' || 'A' <= c <= 'Z' || '0' <= c <= '9' || c == '_'
  }

  /** The characters a token is made of. */
  predicate IsTokenChar(c: char)
  {
    'a' <= c <= 'z' || '0' <= c <= '9'
  }

  /** The characters cleanText can produce. */
  predicate IsCleanChar(c: char)
  {
    IsTokenChar(c) || c == ' '
  }

  /** toLowerCase on one ASCII character. */
  function LowerChar(c: char): char
  {
    if 'A' <= c <= 'Z' then (c as int + 32) as char else c
  }

  function ToLower(s: string): string
  {
    seq(|s|, i requires 0 <= i < |s| => LowerChar(s[i]))
  }

  /** replaceAll("_", " ") */
  function ReplaceUnderscores(s: string): string
  {
    seq(|s|, i requires 0 <= i < |s| => if s[i] == '_' then ' ' else s[i])
  }

  /** replaceAll("\\W", " ") */
  function ReplaceNonWord(s: string): string
  {
    seq(|s|, i requires 0 <= i < |s| => if IsWordChar(s[i]) then s[i] else ' ')
  }

  /** The text after its leading spaces. */
  function DropSpaces(s: string): (r: string)
    ensures |r| <= |s| && r == s[|s| - |r|..]
    ensures forall i :: 0 <= i < |s| - |r| ==> s[i] == ' '
    ensures |r| > 0 ==> r[0] != ' '
  {
    if |s| > 0 && s[0] == ' ' then DropSpaces(s[1..]) else s
  }

  /** replaceAll(" +", " "): every maximal run of spaces becomes one space. */
  function CollapseSpaces(s: string): (r: string)
    ensures |r| > 0 <==> |s| > 0
    ensures |s| > 0 ==> r[0] == s[0]
  {
    if |s| == 0 then ""
    else if s[0] == ' ' then " " + CollapseSpaces(DropSpaces(s[1..]))
    else [s[0]] + CollapseSpaces(s[1..])
  }

  /** Collapsing keeps the last character. */
  lemma {:induction false} CollapseSpacesLast(s: string)
    requires |s| > 0
    ensures CollapseSpaces(s)[|CollapseSpaces(s)| - 1] == s[|s| - 1]
    decreases |s|
  {
    if s[0] == ' ' {
      var rest := DropSpaces(s[1..]);
      if |rest| > 0 {
        CollapseSpacesLast(rest);
        assert rest[|rest| - 1] == s[|s| - 1];
      } else {
        assert |s| == 1 || s[1..][|s| - 2] == ' ';
      }
    } else if |s| > 1 {
      CollapseSpacesLast(s[1..]);
    }
  }

  predicate AllClean(s: string)
  {
    forall i :: 0 <= i < |s| ==> IsCleanChar(s[i])
  }

  predicate NoDoubleSpace(s: string)
  {
    forall i :: 0 <= i < |s| - 1 ==> s[i] != ' ' || s[i + 1] != ' '
  }

  /** What cleanText promises: lower-case letters, digits and single inner spaces. */
  predicate IsClean(s: string)
  {
    && AllClean(s)
    && NoDoubleSpace(s)
    && (|s| > 0 ==> s[0] != ' ' && s[|s| - 1] != ' ')
  }

  /** After the two replacements every character is a lower-case letter, a digit or a space. */
  lemma ReplacedClean(t: string)
    ensures AllClean(ReplaceNonWord(ReplaceUnderscores(ToLower(t))))
  {
    var l := ToLower(t);
    assert forall i :: 0 <= i < |l| ==> !('A' <= l[i] <= 'Z');
  }

  /** One clean character in front of clean text, with no space doubled. */
  lemma ConsClean(c: char, r: string)
    requires IsCleanChar(c) && AllClean(r) && NoDoubleSpace(r)
    requires c == ' ' ==> |r| == 0 || r[0] != ' '
    ensures AllClean([c] + r) && NoDoubleSpace([c] + r)
  {
    var x := [c] + r;
    assert forall i :: 1 <= i < |x| ==> x[i] == r[i - 1];
  }

  lemma {:induction false} CollapseSpacesClean(s: string)
    requires AllClean(s)
    ensures AllClean(CollapseSpaces(s)) && NoDoubleSpace(CollapseSpaces(s))
    decreases |s|
  {
    if |s| > 0 {
      if s[0] == ' ' {
        var rest := DropSpaces(s[1..]);
        assert forall i :: 0 <= i < |rest| ==> rest[i] == s[|s| - |rest| + i];
        CollapseSpacesClean(rest);
        ConsClean(' ', CollapseSpaces(rest));
      } else {
        CollapseSpacesClean(s[1..]);
        ConsClean(s[0], CollapseSpaces(s[1..]));
      }
    }
  }

  /** String.toLowerCase, replaceAll("_", " "), replaceAll("\\W", " "), trim,
      replaceAll(" +", " "), in that order (ASCII semantics). */
  function CleanText(t: string): (r: string)
    ensures IsClean(r)
  {
    var replaced := ReplaceNonWord(ReplaceUnderscores(ToLower(t)));
    ReplacedClean(t);
    var trimmed := Trim(replaced);
    TrimKeeps(replaced, IsCleanChar);
    CollapseSpacesClean(trimmed);
    if |trimmed| > 0 then CollapseSpacesLast(trimmed); CollapseSpaces(trimmed)
    else CollapseSpaces(trimmed)
  }

  // ---------------------------------------------------------------------------
  // Idempotence

  lemma {:induction false} CollapseNothing(s: string)
    requires NoDoubleSpace(s)
    ensures CollapseSpaces(s) == s
    decreases |s|
  {
    if |s| > 0 {
      assert NoDoubleSpace(s[1..]);
      if s[0] == ' ' {
        assert DropSpaces(s[1..]) == s[1..];
      }
      CollapseNothing(s[1..]);
    }
  }

  /** Cleaning leaves clean text as it is. */
  lemma CleanTextOfClean(s: string)
    requires IsClean(s)
    ensures CleanText(s) == s
  {
    assert ToLower(s) == s;
    assert ReplaceUnderscores(s) == s;
    assert ReplaceNonWord(s) == s;
    TrimNothing(s);
    CollapseNothing(s);
  }

  lemma CleanTextIdempotent(t: string)
    ensures CleanText(CleanText(t)) == CleanText(t)
  {
    CleanTextOfClean(CleanText(t));
  }

  // ---------------------------------------------------------------------------
  // parseText

  /** A word as the index stores it: non-empty, lower-case letters and digits only. */
  predicate IsToken(w: string)
  {
    |w| > 0 && forall i :: 0 <= i < |w| ==> IsTokenChar(w[i])
  }

  lemma {:induction false} SplitTokenChars(s: string)
    requires AllClean(s)
    ensures forall k, i :: 0 <= k < |Split(s)| && 0 <= i < |Split(s)[k]| ==> IsTokenChar(Split(s)[k][i])
    decreases |s|
  {
    if |s| > 0 {
      SplitTokenChars(s[1..]);
    }
  }

  lemma {:induction false} NonEmptyTokens(parts: seq<string>)
    requires forall k, i :: 0 <= k < |parts| && 0 <= i < |parts[k]| ==> IsTokenChar(parts[k][i])
    ensures forall k :: 0 <= k < |NonEmpty(parts)| ==> IsToken(NonEmpty(parts)[k])
    decreases |parts|
  {
    if |parts| > 0 {
      NonEmptyTokens(parts[1..]);
    }
  }

  /** cleanText, split("\\s"), and keep the fragments that are not empty. */
  function ParseText(t: string): (ws: seq<string>)
    ensures forall k :: 0 <= k < |ws| ==> IsToken(ws[k])
  {
    var s := CleanText(t);
    SplitTokenChars(s);
    NonEmptyTokens(Split(s));
    NonEmpty(Split(s))
  }

  /** In text with single inner spaces and none at the ends, no fragment is empty. */
  lemma {:induction false} SplitClean(s: string)
    requires |s| > 0 && IsClean(s)
    ensures forall k :: 0 <= k < |Split(s)| ==> |Split(s)[k]| > 0
    decreases |s|
  {
    if |s| > 1 {
      var rest := Split(s[1..]);
      assert s[0] != ' ';
      if s[1] == ' ' {
        assert |s| > 2 && s[2] != ' ';
        assert IsClean(s[2..]);
        SplitClean(s[2..]);
        assert s[1..][1..] == s[2..];
        assert rest == [""] + Split(s[2..]);
      } else {
        assert IsClean(s[1..]);
        SplitClean(s[1..]);
      }
    }
  }

  lemma {:induction false} NonEmptyNothing(parts: seq<string>)
    requires forall k :: 0 <= k < |parts| ==> |parts[k]| > 0
    ensures NonEmpty(parts) == parts
    decreases |parts|
  {
    if |parts| > 0 {
      NonEmptyNothing(parts[1..]);
    }
  }

  /** The tokens, joined with single spaces, are the cleaned text. */
  lemma JoinParseText(t: string)
    ensures Join(ParseText(t)) == CleanText(t)
  {
    var s := CleanText(t);
    if |s| > 0 {
      SplitClean(s);
      NonEmptyNothing(Split(s));
      JoinSplit(s);
    } else {
      assert Split(s) == [""];
      assert NonEmpty([""]) == NonEmpty([""][1..]) == [];
    }
  }

  /** Which characters the two replacements turn into spaces. */
  lemma ReplacedAt(t: string, i: int)
    requires 0 <= i < |t|
    ensures |ReplaceNonWord(ReplaceUnderscores(ToLower(t)))| == |t|
    ensures ReplaceNonWord(ReplaceUnderscores(ToLower(t)))[i] == ' ' <==> !IsWordChar(t[i]) || t[i] == '_'
  {
  }

  lemma CleanTextEmptyWhen(t: string)
    requires forall i :: 0 <= i < |t| ==> !IsWordChar(t[i]) || t[i] == '_'
    ensures CleanText(t) == ""
  {
    var replaced := ReplaceNonWord(ReplaceUnderscores(ToLower(t)));
    forall i | 0 <= i < |replaced|
      ensures IsTrimmable(replaced[i])
    {
      ReplacedAt(t, i);
    }
    assert Trim(replaced) == "";
  }

  lemma CleanTextNonEmptyWhen(t: string, i: int)
    requires 0 <= i < |t| && IsWordChar(t[i]) && t[i] != '_'
    ensures CleanText(t) != ""
  {
    var replaced := ReplaceNonWord(ReplaceUnderscores(ToLower(t)));
    ReplacedAt(t, i);
    assert !IsTrimmable(replaced[i]);
    assert Trim(replaced) != "";
  }

  /** Cleaning gives the empty text exactly when the text has no ASCII letter or digit. */
  lemma CleanTextEmpty(t: string)
    ensures CleanText(t) == "" <==> forall i :: 0 <= i < |t| ==> !IsWordChar(t[i]) || t[i] == '_'
  {
    if forall i :: 0 <= i < |t| ==> !IsWordChar(t[i]) || t[i] == '_' {
      CleanTextEmptyWhen(t);
    } else {
      var i :| 0 <= i < |t| && IsWordChar(t[i]) && t[i] != '_';
      CleanTextNonEmptyWhen(t, i);
    }
  }

  /** A text yields no token exactly when it has no ASCII letter or digit. */
  lemma ParseTextEmpty(t: string)
    ensures ParseText(t) == [] <==> forall i :: 0 <= i < |t| ==> !IsWordChar(t[i]) || t[i] == '_'
  {
    JoinParseText(t);
    CleanTextEmpty(t);
    if CleanText(t) == "" {
      assert Split("") == [""];
    }
  }

  lemma {:induction false} JoinTokensClean(ws: seq<string>)
    requires forall k :: 0 <= k < |ws| ==> IsToken(ws[k])
    ensures IsClean(Join(ws))
    ensures |ws| > 0 ==> |Join(ws)| > 0
    decreases |ws|
  {
    if |ws| > 1 {
      JoinTokensClean(ws[1..]);
      var j := ws[0] + " " + Join(ws[1..]);
      assert forall i :: 0 <= i < |ws[0]| ==> j[i] == ws[0][i];
      assert j[|ws[0]|] == ' ';
      assert forall i :: |ws[0]| < i < |j| ==> j[i] == Join(ws[1..])[i - |ws[0]| - 1];
    }
  }

  lemma {:induction false} SplitToken(w: string)
    requires forall i :: 0 <= i < |w| ==> IsTokenChar(w[i])
    ensures Split(w) == [w]
    decreases |w|
  {
    if |w| > 0 {
      SplitToken(w[1..]);
      assert w == [w[0]] + w[1..];
    }
  }

  lemma {:induction false} SplitJoin(ws: seq<string>)
    requires |ws| > 0 && forall k :: 0 <= k < |ws| ==> IsToken(ws[k])
    ensures Split(Join(ws)) == ws
    decreases |ws|
  {
    SplitToken(ws[0]);
    if |ws| > 1 {
      SplitJoin(ws[1..]);
      SplitAtSpace(ws[0], Join(ws[1..]));
      assert ws == [ws[0]] + ws[1..];
    }
  }

  /** Parsing the tokens joined with spaces gives the tokens back. */
  lemma ParseTextJoin(ws: seq<string>)
    requires forall k :: 0 <= k < |ws| ==> IsToken(ws[k])
    ensures ParseText(Join(ws)) == ws
  {
    JoinTokensClean(ws);
    CleanTextOfClean(Join(ws));
    if |ws| > 0 {
      SplitJoin(ws);
      NonEmptyNothing(ws);
    }
  }

  // ---------------------------------------------------------------------------
  // Reference: the words of a text

  /** A character that ends up inside a word: an ASCII letter or digit. */
  predicate IsLetterOrDigit(c: char)
  {
    IsWordChar(c) && c != '_'
  }

  /** The maximal runs of ASCII letters and digits of a text, in order, each
      lower-cased. A letter or digit joins the word of the character after it when
      that one is a letter or digit too, and ends a word otherwise. */
  function Words(t: string): (ws: seq<string>)
    ensures |t| > 0 && IsLetterOrDigit(t[0]) ==> |ws| > 0
  {
    if |t| == 0 then []
    else
      var rest := Words(t[1..]);
      if !IsLetterOrDigit(t[0]) then rest
      else if |t| > 1 && IsLetterOrDigit(t[1]) then [[LowerChar(t[0])] + rest[0]] + rest[1..]
      else [[LowerChar(t[0])]] + rest
  }

  /** The letters and digits of a text, lower-cased, in order. */
  function Letters(t: string): string
  {
    if |t| == 0 then ""
    else if IsLetterOrDigit(t[0]) then [LowerChar(t[0])] + Letters(t[1..])
    else Letters(t[1..])
  }

  /** Run together, the words are the text's letters and digits: no character is
      lost, none is added, and the order is kept. */
  lemma {:induction false} WordsLetters(t: string)
    ensures Concat(Words(t)) == Letters(t)
    decreases |t|
  {
    if |t| > 0 {
      var rest := Words(t[1..]);
      WordsLetters(t[1..]);
      if IsLetterOrDigit(t[0]) {
        var c := [LowerChar(t[0])];
        if |t| > 1 && IsLetterOrDigit(t[1]) {
          var ws := [c + rest[0]] + rest[1..];
          assert ws[0] == c + rest[0] && ws[1..] == rest[1..];
          assert Concat(rest) == rest[0] + Concat(rest[1..]);
          assert (c + rest[0]) + Concat(rest[1..]) == c + (rest[0] + Concat(rest[1..]));
        } else {
          var ws := [c] + rest;
          assert ws[0] == c && ws[1..] == rest;
        }
      }
    }
  }

  /** The text after the two replacements of cleanText. */
  function Replaced(t: string): string
  {
    ReplaceNonWord(ReplaceUnderscores(ToLower(t)))
  }

  /** The replacements keep each letter and digit, lower-cased, and turn every other
      character into a space, which belongs to no word. */
  lemma {:induction false} WordsReplaced(t: string)
    ensures Words(Replaced(t)) == Words(t)
    decreases |t|
  {
    if |t| > 0 {
      var m := Replaced(t);
      assert m[1..] == Replaced(t[1..]);
      WordsReplaced(t[1..]);
      assert IsLetterOrDigit(m[0]) <==> IsLetterOrDigit(t[0]);
      assert IsLetterOrDigit(t[0]) ==> LowerChar(m[0]) == LowerChar(t[0]);
      if |t| > 1 {
        assert m[1] == m[1..][0] && t[1] == t[1..][0];
        assert IsLetterOrDigit(m[1]) <==> IsLetterOrDigit(t[1]);
      }
    }
  }

  /** Characters that are not letters or digits in front of a text add no word. */
  lemma {:induction false} WordsSkip(s: string, n: nat)
    requires n <= |s| && forall i :: 0 <= i < n ==> !IsLetterOrDigit(s[i])
    ensures Words(s[n..]) == Words(s)
    decreases n
  {
    if n > 0 {
      WordsSkip(s[1..], n - 1);
      assert s[1..][n - 1..] == s[n..];
    }
  }

  /** Characters that are not letters or digits after a text add no word. */
  lemma {:induction false} WordsCut(s: string, n: nat)
    requires n <= |s| && forall i :: n <= i < |s| ==> !IsLetterOrDigit(s[i])
    ensures Words(s[..n]) == Words(s)
    decreases n
  {
    if n == 0 {
      WordsSkip(s, |s|);
      assert s[|s|..] == s[..0];
    } else {
      var p := s[..n];
      assert p[1..] == s[1..][..n - 1];
      WordsCut(s[1..], n - 1);
      assert p[0] == s[0];
      if n > 1 {
        assert p[1] == s[1];
      }
    }
  }

  /** trim removes only characters up to ' ', none of them a letter or digit. */
  lemma WordsTrim(s: string)
    ensures Words(Trim(s)) == Words(s)
  {
    var t := TrimStart(s);
    assert forall i :: 0 <= i < |s| - |t| ==> !IsLetterOrDigit(s[i]);
    WordsSkip(s, |s| - |t|);
    assert Words(t) == Words(s);
    var r := TrimEnd(t);
    assert forall i :: |r| <= i < |t| ==> !IsLetterOrDigit(t[i]);
    WordsCut(t, |r|);
    assert Words(r) == Words(t);
    assert Trim(s) == r;
  }

  /** Words of a text with one more character in front. */
  lemma WordsCons(c: char, x: string)
    ensures !IsLetterOrDigit(c) ==> Words([c] + x) == Words(x)
    ensures IsLetterOrDigit(c) && |x| > 0 && IsLetterOrDigit(x[0]) ==>
              Words([c] + x) == [[LowerChar(c)] + Words(x)[0]] + Words(x)[1..]
    ensures IsLetterOrDigit(c) && !(|x| > 0 && IsLetterOrDigit(x[0])) ==>
              Words([c] + x) == [[LowerChar(c)]] + Words(x)
  {
    assert ([c] + x)[1..] == x;
  }

  /** Collapsing runs of spaces changes no word. */
  lemma {:induction false} WordsCollapse(s: string)
    ensures Words(CollapseSpaces(s)) == Words(s)
    decreases |s|
  {
    if |s| > 0 {
      assert s == [s[0]] + s[1..];
      WordsCons(s[0], s[1..]);
      if s[0] == ' ' {
        var d := DropSpaces(s[1..]);
        WordsCollapse(d);
        WordsSkip(s[1..], |s| - 1 - |d|);
        WordsCons(' ', CollapseSpaces(d));
      } else {
        var x := CollapseSpaces(s[1..]);
        WordsCollapse(s[1..]);
        WordsCons(s[0], x);
      }
    }
  }

  /** On lower-case letters, digits and spaces, the non-empty fragments of the split
      are the words. */
  lemma {:induction false} SplitCleanWords(s: string)
    requires AllClean(s)
    ensures NonEmpty(Split(s)) == Words(s)
    decreases |s|
  {
    if |s| > 0 {
      var r := Split(s[1..]);
      assert AllClean(s[1..]);
      SplitCleanWords(s[1..]);
      assert s == [s[0]] + s[1..];
      WordsCons(s[0], s[1..]);
      if s[0] != ' ' {
        assert IsLetterOrDigit(s[0]) && LowerChar(s[0]) == s[0] && !IsSpace(s[0]);
        var parts := [[s[0]] + r[0]] + r[1..];
        assert Split(s) == parts;
        assert parts[0] == [s[0]] + r[0] && parts[1..] == r[1..];
        if |s| > 1 && s[1] != ' ' {
          assert s[1..][0] == s[1] && !IsSpace(s[1]);
          assert |r[0]| > 0;
          assert IsLetterOrDigit(s[1]);
        } else {
          if |s| == 1 {
            assert r == [""];
          } else {
            assert IsSpace(s[1..][0]);
            assert r == [""] + Split(s[1..][1..]);
          }
          assert [s[0]] + r[0] == [s[0]];
          assert NonEmpty(r) == NonEmpty(r[1..]);
        }
      }
    }
  }

  /** parseText yields exactly the words of the text. */
  lemma ParseTextWords(t: string)
    ensures ParseText(t) == Words(t)
  {
    var m := Replaced(t);
    ReplacedClean(t);
    TrimKeeps(m, IsCleanChar);
    var c := CollapseSpaces(Trim(m));
    CollapseSpacesClean(Trim(m));
    assert CleanText(t) == c;
    SplitCleanWords(c);
    WordsCollapse(Trim(m));
    WordsTrim(m);
    WordsReplaced(t);
  }

  /** cleanText is the words of the text joined by single spaces. */
  lemma CleanTextWords(t: string)
    ensures CleanText(t) == Join(Words(t))
  {
    ParseTextWords(t);
    JoinParseText(t);
  }

  /** The words parseText yields, run together, are the text's letters and digits,
      lower-cased and in order. */
  lemma ParseTextLetters(t: string)
    ensures Concat(ParseText(t)) == Letters(t)
  {
    ParseTextWords(t);
    WordsLetters(t);
  }

  // ---------------------------------------------------------------------------
  // parseFile

  /** The tokens of every line, in line order. */
  function ParseLines(lines: seq<string>): (ws: seq<string>)
    ensures forall k :: 0 <= k < |ws| ==> IsToken(ws[k])
  {
    if |lines| == 0 then [] else ParseText(lines[0]) + ParseLines(lines[1..])
  }

  lemma {:induction false} ParseLinesAppend(a: seq<string>, b: seq<string>)
    ensures ParseLines(a + b) == ParseLines(a) + ParseLines(b)
    decreases |a|
  {
    if |a| == 0 {
      assert a + b == b;
    } else {
      assert (a + b)[1..] == a[1..] + b;
      ParseLinesAppend(a[1..], b);
    }
  }
}
