/** The tokenizer (`tokenize` in b_lab/lab.py and a_lab/lab.py, identical in both).

    The program text is cut into lines at '\n', each line loses everything from its
    first ';', the lines are joined again with single spaces, every parenthesis is
    padded with spaces and the result is split on whitespace. */
module Lexer {
  import opened Seqs

  /** The characters Python's `str.split()` with no argument separates on (`str.isspace`). */
  predicate IsSpace(c: char) {
    || c == ' ' || c == '\t' || c == '\n' || c == '\r' || c == '\U{B}' || c == '\U{C}'
    || ('\U{1C}' <= c <= '\U{1F}') || c == '\U{85}' || c == '\U{A0}' || c == '\U{1680}'
    || ('\U{2000}' <= c <= '\U{200A}') || c == '\U{2028}' || c == '\U{2029}'
    || c == '\U{202F}' || c == '\U{205F}' || c == '\U{3000}'
  }

  predicate IsParen(c: char) {
    c == '(' || c == ')'
  }

  /** What every token satisfies: non-empty, no whitespace, no ';', and a token holding a
      parenthesis is that parenthesis alone. */
  predicate CleanToken(t: string) {
    && |t| > 0
    && (forall i :: 0 <= i < |t| ==> !IsSpace(t[i]) && t[i] != ';')
    && (('(' in t || ')' in t) ==> t == "(" || t == ")")
  }

  /** Position of the first occurrence of `c` (Python's `str.index`). */
  function IndexOf(s: string, c: char): (i: nat)
    requires c in s
    ensures i < |s| && s[i] == c && c !in s[..i]
  {
    if s[0] == c then 0 else 1 + IndexOf(s[1..], c)
  }

  /** `s.split('\n')`: always at least one piece, none containing '\n'. */
  function SplitLines(s: string): (r: seq<string>)
    ensures |r| >= 1
    ensures forall i :: 0 <= i < |r| ==> '\n' !in r[i]
    decreases |s|
  {
    if '\n' !in s then [s]
    else
      var i := IndexOf(s, '\n');
      [s[..i]] + SplitLines(s[i + 1..])
  }

  /** `sep.join(parts)`. */
  function Join(parts: seq<string>, sep: char): string {
    if |parts| == 0 then ""
    else if |parts| == 1 then parts[0]
    else parts[0] + [sep] + Join(parts[1..], sep)
  }

  /** `'\n'.join(s.split('\n')) == s`: splitting into lines loses nothing. */
  lemma {:induction false} SplitLinesJoin(s: string)
    ensures Join(SplitLines(s), '\n') == s
    decreases |s|
  {
    if '\n' in s {
      var i := IndexOf(s, '\n');
      var rest := SplitLines(s[i + 1..]);
      SplitLinesJoin(s[i + 1..]);
      assert SplitLines(s) == [s[..i]] + rest;
      assert ([s[..i]] + rest)[1..] == rest;
      assert s == s[..i] + ['\n'] + s[i + 1..];
    }
  }

  /** One line with its comment removed: the text before the first ';'. */
  function StripComment(line: string): (r: string)
    ensures ';' !in r
    ensures r <= line
    ensures ';' !in line ==> r == line
    ensures ';' in line ==> |r| < |line| && line[|r|] == ';'
  {
    if ';' in line then line[..IndexOf(line, ';')] else line
  }

  function StripAll(lines: seq<string>): (r: seq<string>)
    ensures |r| == |lines|
    ensures forall i :: 0 <= i < |r| ==> r[i] == StripComment(lines[i])
  {
    if |lines| == 0 then [] else [StripComment(lines[0])] + StripAll(lines[1..])
  }

  /** The program with comments removed and lines rejoined by single spaces. */
  function StripComments(program: string): string {
    Join(StripAll(SplitLines(program)), ' ')
  }

  function PadChar(c: char): string {
    if c == '(' then " ( " else if c == ')' then " ) " else [c]
  }

  /** `.replace('(', ' ( ').replace(')', ' ) ')`. */
  function SpaceParens(s: string): string {
    if |s| == 0 then "" else PadChar(s[0]) + SpaceParens(s[1..])
  }

  /** Length of the leading run of non-whitespace characters. */
  function WordLen(s: string): (n: nat)
    ensures n <= |s|
    ensures forall i :: 0 <= i < n ==> !IsSpace(s[i])
    ensures n == |s| || IsSpace(s[n])
  {
    if |s| == 0 || IsSpace(s[0]) then 0 else 1 + WordLen(s[1..])
  }

  predicate IsWord(w: string) {
    |w| > 0 && forall i :: 0 <= i < |w| ==> !IsSpace(w[i])
  }

  /** `s.split()`: the maximal runs of non-whitespace characters, in order. */
  function SplitWs(s: string): (r: seq<string>)
    ensures forall i :: 0 <= i < |r| ==> IsWord(r[i])
    decreases |s|
  {
    if |s| == 0 then []
    else if IsSpace(s[0]) then SplitWs(s[1..])
    else
      var n := WordLen(s);
      [s[..n]] + SplitWs(s[n..])
  }

  /** The tokenizer. */
  function Tokenize(program: string): (tokens: seq<string>)
    ensures forall i :: 0 <= i < |tokens| ==> CleanToken(tokens[i])
  {
    var text := StripComments(program);
    var spaced := SpaceParens(text);
    NoSemicolonAfterStrip(program);
    NoSemicolonPadded(text);
    PaddedIsPadWell(text);
    SplitWsPadWell(spaced);
    SplitWsChars(spaced);
    SplitWs(spaced)
  }

  // ---------------------------------------------------------------------------
  // Why every token is clean

  lemma {:induction false} JoinNoChar(parts: seq<string>, sep: char, c: char)
    requires c != sep
    requires forall i :: 0 <= i < |parts| ==> c !in parts[i]
    ensures c !in Join(parts, sep)
  {
    if |parts| > 1 {
      JoinNoChar(parts[1..], sep, c);
    }
  }

  lemma NoSemicolonAfterStrip(program: string)
    ensures ';' !in StripComments(program)
  {
    var lines := StripAll(SplitLines(program));
    JoinNoChar(lines, ' ', ';');
  }

  lemma {:induction false} NoSemicolonPadded(s: string)
    requires ';' !in s
    ensures ';' !in SpaceParens(s)
  {
    if |s| > 0 {
      NoSemicolonPadded(s[1..]);
    }
  }

  /** Every parenthesis is preceded and followed by whitespace, where it has a neighbour;
      unlike the stronger padding that `SpaceParens` produces, this survives taking suffixes. */
  predicate PadWell(s: string) {
    forall i :: 0 <= i < |s| && IsParen(s[i]) ==>
      (i == 0 || IsSpace(s[i - 1])) && (i == |s| - 1 || IsSpace(s[i + 1]))
  }

  /** Every parenthesis has whitespace on both sides inside the string itself. */
  predicate Surrounded(s: string) {
    forall i :: 0 <= i < |s| && IsParen(s[i]) ==> 0 < i < |s| - 1 && IsSpace(s[i - 1]) && IsSpace(s[i + 1])
  }

  lemma {:induction false} PaddedIsSurrounded(s: string)
    ensures Surrounded(SpaceParens(s))
  {
    if |s| > 0 {
      PaddedIsSurrounded(s[1..]);
      var p, rest := PadChar(s[0]), SpaceParens(s[1..]);
      assert Surrounded(p);
      forall i | 0 <= i < |p + rest| && IsParen((p + rest)[i])
        ensures 0 < i < |p + rest| - 1 && IsSpace((p + rest)[i - 1]) && IsSpace((p + rest)[i + 1])
      {
        if i >= |p| {
          assert (p + rest)[i] == rest[i - |p|];
        }
      }
    }
  }

  lemma PaddedIsPadWell(s: string)
    ensures PadWell(SpaceParens(s))
  {
    PaddedIsSurrounded(s);
  }

  lemma {:induction false} SplitWsPadWell(s: string)
    requires PadWell(s)
    ensures forall i :: 0 <= i < |SplitWs(s)| ==>
      var w := SplitWs(s)[i]; (w == "(" || w == ")") || ('(' !in w && ')' !in w)
    decreases |s|
  {
    if |s| > 0 {
      if IsSpace(s[0]) {
        SplitWsPadWell(s[1..]);
      } else {
        var n := WordLen(s);
        var w := s[..n];
        if IsParen(s[0]) {
          assert |s| == 1 || IsSpace(s[1]);
        } else {
          forall j | 0 <= j < n
            ensures !IsParen(w[j])
          {
            if j > 0 { assert !IsSpace(s[j - 1]); }
          }
        }
        SplitWsPadWell(s[n..]);
      }
    }
  }

  lemma {:induction false} SplitWsChars(s: string)
    ensures forall i, c :: 0 <= i < |SplitWs(s)| && c in SplitWs(s)[i] ==> c in s
    decreases |s|
  {
    if |s| > 0 {
      if IsSpace(s[0]) {
        SplitWsChars(s[1..]);
        assert forall c :: c in s[1..] ==> c in s;
      } else {
        var n := WordLen(s);
        SplitWsChars(s[n..]);
        assert forall c :: c in s[..n] ==> c in s;
        assert forall c :: c in s[n..] ==> c in s;
      }
    }
  }

  // ---------------------------------------------------------------------------
  // Nothing but whitespace and comments is dropped

  function RemoveSpaces(s: string): (r: string)
    ensures forall i :: 0 <= i < |r| ==> !IsSpace(r[i])
  {
    if |s| == 0 then ""
    else (if IsSpace(s[0]) then "" else [s[0]]) + RemoveSpaces(s[1..])
  }

  lemma {:induction false} RemoveSpacesWord(s: string, n: nat)
    requires n <= |s|
    requires forall i :: 0 <= i < n ==> !IsSpace(s[i])
    ensures RemoveSpaces(s) == s[..n] + RemoveSpaces(s[n..])
  {
    if n > 0 {
      RemoveSpacesWord(s[1..], n - 1);
      assert s[1..][..n - 1] == s[1..n];
      assert s[1..][n - 1..] == s[n..];
      assert s[..n] == [s[0]] + s[1..n];
    }
  }

  /** The words of `s`, laid end to end, are `s` without its whitespace. */
  lemma {:induction false} SplitWsKeepsText(s: string)
    ensures Flatten(SplitWs(s)) == RemoveSpaces(s)
    decreases |s|
  {
    if |s| > 0 {
      if IsSpace(s[0]) {
        SplitWsKeepsText(s[1..]);
      } else {
        var n := WordLen(s);
        SplitWsKeepsText(s[n..]);
        RemoveSpacesWord(s, n);
        var r := [s[..n]] + SplitWs(s[n..]);
        assert r[1..] == SplitWs(s[n..]);
      }
    }
  }

  lemma {:induction false} RemoveSpacesPadded(s: string)
    ensures RemoveSpaces(SpaceParens(s)) == RemoveSpaces(s)
  {
    if |s| > 0 {
      RemoveSpacesPadded(s[1..]);
      RemoveSpacesAppend(PadChar(s[0]), SpaceParens(s[1..]));
      assert RemoveSpaces(PadChar(s[0])) == (if IsSpace(s[0]) then "" else [s[0]]) by {
        var p := PadChar(s[0]);
        if IsParen(s[0]) {
          assert p[1..][1..][1..] == "";
          assert RemoveSpaces(p[1..][1..]) == "";
          assert RemoveSpaces(p[1..]) == [s[0]];
        } else {
          assert p[1..] == "";
        }
      }
    }
  }

  lemma {:induction false} RemoveSpacesAppend(a: string, b: string)
    ensures RemoveSpaces(a + b) == RemoveSpaces(a) + RemoveSpaces(b)
  {
    if |a| > 0 {
      assert (a + b)[1..] == a[1..] + b;
      RemoveSpacesAppend(a[1..], b);
    } else {
      assert a + b == b;
    }
  }

  /** The tokens, laid end to end, are the comment-free program without its whitespace. */
  lemma TokensCoverProgram(program: string)
    ensures Flatten(Tokenize(program)) == RemoveSpaces(StripComments(program))
  {
    SplitWsKeepsText(SpaceParens(StripComments(program)));
    RemoveSpacesPadded(StripComments(program));
  }

  // ---------------------------------------------------------------------------
  // Tokenizing the space-joined tokens gives them back

  lemma {:induction false} WordLenOf(w: string, rest: string)
    requires IsWord(w)
    requires rest == "" || IsSpace(rest[0])
    ensures WordLen(w + rest) == |w|
  {
    if |w| > 1 {
      assert (w + rest)[1..] == w[1..] + rest;
      WordLenOf(w[1..], rest);
    } else {
      assert (w + rest)[1..] == rest;
    }
  }

  lemma SplitWsWordThen(w: string, rest: string)
    requires IsWord(w)
    requires rest == "" || IsSpace(rest[0])
    ensures SplitWs(w + rest) == [w] + SplitWs(rest)
  {
    WordLenOf(w, rest);
    assert (w + rest)[..|w|] == w;
    assert (w + rest)[|w|..] == rest;
  }

  lemma SplitWsSpaceThen(rest: string)
    ensures SplitWs(" " + rest) == SplitWs(rest)
  {
    assert (" " + rest)[1..] == rest;
  }

  lemma {:induction false} SpaceParensAppend(a: string, b: string)
    ensures SpaceParens(a + b) == SpaceParens(a) + SpaceParens(b)
  {
    if |a| > 0 {
      assert (a + b)[1..] == a[1..] + b;
      SpaceParensAppend(a[1..], b);
    } else {
      assert a + b == b;
    }
  }

  lemma {:induction false} SpaceParensParenFree(t: string)
    requires '(' !in t && ')' !in t
    ensures SpaceParens(t) == t
  {
    if |t| > 0 {
      SpaceParensParenFree(t[1..]);
    }
  }

  /** A clean token padded the way the tokenizer pads it, followed by text that is empty or
      starts with whitespace, splits into that token and the split of the text. */
  lemma SplitPaddedToken(t: string, rest: string)
    requires CleanToken(t)
    requires rest == "" || IsSpace(rest[0])
    ensures SplitWs(SpaceParens(t) + rest) == [t] + SplitWs(rest)
  {
    if t == "(" || t == ")" {
      SplitParenToken(t, rest);
    } else {
      SpaceParensParenFree(t);
      SplitWsWordThen(t, rest);
    }
  }

  lemma SplitParenToken(t: string, rest: string)
    requires t == "(" || t == ")"
    ensures SplitWs(SpaceParens(t) + rest) == [t] + SplitWs(rest)
  {
    assert SpaceParens(t) == PadChar(t[0]) + SpaceParens("");
    var tail := " " + rest;
    assert SpaceParens(t) + rest == " " + (t + tail);
    SplitWsSpaceThen(t + tail);
    assert IsWord(t);
    SplitWsWordThen(t, tail);
    SplitWsSpaceThen(rest);
  }

  lemma SpaceParensSpaceThen(rest: string)
    ensures SpaceParens(" " + rest) == " " + SpaceParens(rest)
  {
    assert (" " + rest)[1..] == rest;
  }

  lemma SplitJoinedStep(t: string, rest: string)
    requires CleanToken(t)
    ensures SplitWs(SpaceParens(t + " " + rest)) == [t] + SplitWs(SpaceParens(rest))
  {
    assert t + " " + rest == t + (" " + rest);
    SpaceParensAppend(t, " " + rest);
    SpaceParensSpaceThen(rest);
    assert SpaceParens(t) + (" " + SpaceParens(rest)) == SpaceParens(t + " " + rest);
    SplitPaddedToken(t, " " + SpaceParens(rest));
    SplitWsSpaceThen(SpaceParens(rest));
  }

  lemma {:induction false} SplitJoinedTokens(tokens: seq<string>)
    requires forall i :: 0 <= i < |tokens| ==> CleanToken(tokens[i])
    ensures SplitWs(SpaceParens(Join(tokens, ' '))) == tokens
  {
    if |tokens| == 1 {
      SplitPaddedToken(tokens[0], "");
      assert SpaceParens(tokens[0]) + "" == SpaceParens(tokens[0]);
    } else if |tokens| > 1 {
      SplitJoinedTokens(tokens[1..]);
      SplitJoinedStep(tokens[0], Join(tokens[1..], ' '));
      assert [tokens[0]] + tokens[1..] == tokens;
    }
  }

  lemma {:induction false} JoinHasNoWhitespace(tokens: seq<string>)
    requires forall i :: 0 <= i < |tokens| ==> CleanToken(tokens[i])
    ensures '\n' !in Join(tokens, ' ') && ';' !in Join(tokens, ' ')
  {
    if |tokens| > 1 {
      JoinHasNoWhitespace(tokens[1..]);
    }
  }

  /** Tokenizing the tokens written out with single spaces between them gives the same tokens:
      the tokenizer is idempotent on its own output. */
  lemma TokenizeJoined(tokens: seq<string>)
    requires forall i :: 0 <= i < |tokens| ==> CleanToken(tokens[i])
    ensures Tokenize(Join(tokens, ' ')) == tokens
  {
    var text := Join(tokens, ' ');
    JoinHasNoWhitespace(tokens);
    assert SplitLines(text) == [text];
    assert StripAll([text]) == [text];
    assert StripComments(text) == text;
    SplitJoinedTokens(tokens);
  }
}
