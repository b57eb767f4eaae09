// `tokenizeXX` (method.go): splits a logical line into tokens at unquoted
// spaces. A double quote toggles quoting and marks the token being built as
// quoted; inside quotes a backslash escapes the next character; a token
// flushed at a space is flagged as a comment when it contains a marker.
module Tokenizer {
  import opened GoStrings
  import opened Tables
  import opened XxTokens

  /** The tokenizer's variables between two characters. */
  datatype TokState = TokState(
    tokens: seq<Token>, buf: string, verbatim: bool, isEscape: bool, isString: bool)

  const StartState := TokState([], "", false, false, false)

  /** The markers a flushed token is tested against. */
  const LineComments: seq<string> := AsciiComments + TwoCharComments

  /** The text holds one of the markers `ks`. */
  predicate ContainsAnyOf(buf: string, ks: seq<string>) {
    ks != [] && (ContainsAnyOf(buf, ks[..|ks| - 1]) || Contains(buf, ks[|ks| - 1]))
  }

  /** The text holds one of the markers: the flushed token's `isComment`. */
  predicate IsCommentText(buf: string) {
    ContainsAnyOf(buf, LineComments)
  }

  lemma {:induction false} ContainsAnyOfIff(buf: string, ks: seq<string>)
    ensures ContainsAnyOf(buf, ks) <==> exists k :: k in ks && Contains(buf, k)
    decreases |ks|
  {
    if ks != [] {
      var init := ks[..|ks| - 1];
      ContainsAnyOfIff(buf, init);
      assert ks == init + [ks[|ks| - 1]];
    }
  }

  /** The text a backslash and `c` put into the buffer inside quotes. */
  function Escaped(c: char): string {
    if [c] in Escapes then Escapes[[c]] else [EscapeSeq, c]
  }

  /** One pass of the character loop. */
  function Step(st: TokState, c: char, lineNum: int): TokState {
    if c == EscapeSeq && !st.isEscape && st.verbatim then st.(isEscape := true)
    else if st.isEscape then st.(buf := st.buf + Escaped(c), isEscape := false)
    else if c == DoubleQuote then st.(verbatim := !st.verbatim, isString := true)
    else if c == Space && !st.verbatim then
      if st.buf != [] then
        var t := InitOf(ZeroToken, st.buf, lineNum, IsCommentText(st.buf), st.isString);
        st.(tokens := st.tokens + [t], buf := [], isString := false)
      else st.(buf := [])
    else st.(buf := st.buf + [c])
  }

  /** A token flushed at a space: a fresh token of its non-empty text, a
      comment exactly when that text holds a marker. */
  predicate Flushed(t: Token, lineNum: int) {
    t.rawData != [] && t == InitOf(ZeroToken, t.rawData, lineNum, IsCommentText(t.rawData), t.isString)
  }

  predicate AllFlushed(ts: seq<Token>, lineNum: int) {
    forall j :: 0 <= j < |ts| ==> Flushed(ts[j], lineNum)
  }

  /** The character loop run over the rest `s` of the line. */
  function RunFrom(st: TokState, s: string, lineNum: int): TokState
    decreases |s|
  {
    if s == [] then st else RunFrom(Step(st, s[0], lineNum), s[1..], lineNum)
  }

  /** What `tokenizeXX(xxline, lineNum)` returns: the tokens flushed at
      spaces, then the final buffer as a token that is never a comment. */
  function TokenizeOf(xxline: string, lineNum: int): (r: seq<Token>)
    ensures |r| >= 1
  {
    var st := RunFrom(StartState, TrimSpace(xxline), lineNum);
    st.tokens + [InitOf(ZeroToken, st.buf, lineNum, false, st.isString)]
  }

  /** The marker test of a flushed token, with Go's early `break`. */
  method ContainsMarker(buf: string) returns (isComment: bool)
    ensures isComment == IsCommentText(buf)
  {
    isComment := false;
    var comments := LineComments;
    for i := 0 to |comments|
      invariant forall j :: 0 <= j < i ==> !Contains(buf, comments[j])
    {
      if Contains(buf, comments[i]) {
        isComment := true;
        break;
      }
    }
    ContainsAnyOfIff(buf, comments);
  }

  /** `tokenizeXX(xxline, lineNum)`. */
  method TokenizeXX(xxline: string, lineNum: int) returns (tokens: seq<Token>)
    ensures tokens == TokenizeOf(xxline, lineNum)
  {
    var line := TrimSpace(xxline);
    tokens := [];
    var buf := "";
    var verbatim, isEscape, isString := false, false, false;
    var split := SplitChars(line);
    for i := 0 to |split|
      invariant RunFrom(TokState(tokens, buf, verbatim, isEscape, isString), line[i..], lineNum)
        == RunFrom(StartState, line, lineNum)
    {
      ghost var next := Step(TokState(tokens, buf, verbatim, isEscape, isString), line[i], lineNum);
      RunFromCons(TokState(tokens, buf, verbatim, isEscape, isString), line[i..], lineNum);
      assert line[i..][1..] == line[i + 1..];
      var c := split[i];
      assert c == [line[i]];
      if c == [EscapeSeq] && !isEscape && verbatim {
        isEscape := true;
        assert TokState(tokens, buf, verbatim, isEscape, isString) == next;
        continue;
      }
      if isEscape {
        ghost var before := buf;
        if c in Escapes {
          buf := buf + Escapes[c];
        } else {
          buf := buf + [EscapeSeq];
          buf := buf + c;
          assert buf == before + [EscapeSeq, line[i]];
        }
        assert buf == before + Escaped(line[i]);
        isEscape := false;
        assert TokState(tokens, buf, verbatim, isEscape, isString) == next;
        continue;
      }
      if c == [DoubleQuote] {
        verbatim := !verbatim;
        isString := true;
        assert TokState(tokens, buf, verbatim, isEscape, isString) == next;
        continue;
      }
      if c == [Space] && !verbatim {
        if buf != "" {
          var isComment := ContainsMarker(buf);
          var newToken := new XxToken();
          var t := InitXxToken(newToken, buf, lineNum, isComment, isString);
          tokens := tokens + [t];
          isString := false;
        }
        buf := "";
        assert TokState(tokens, buf, verbatim, isEscape, isString) == next;
        continue;
      }
      buf := buf + c;
      assert TokState(tokens, buf, verbatim, isEscape, isString) == next;
    }
    assert line[|line|..] == [];
    var newToken := new XxToken();
    var t := InitXxToken(newToken, buf, lineNum, false, isString);
    tokens := tokens + [t];
  }

  lemma RunFromCons(st: TokState, s: string, lineNum: int)
    requires s != []
    ensures RunFrom(st, s, lineNum) == RunFrom(Step(st, s[0], lineNum), s[1..], lineNum)
  {
  }

  lemma RunFromSingle(st: TokState, c: char, lineNum: int)
    ensures RunFrom(st, [c], lineNum) == Step(st, c, lineNum)
  {
    assert RunFrom(st, [c], lineNum) == RunFrom(Step(st, c, lineNum), [], lineNum);
  }

  lemma {:induction false} RunFromAppend(st: TokState, a: string, b: string, lineNum: int)
    ensures RunFrom(st, a + b, lineNum) == RunFrom(RunFrom(st, a, lineNum), b, lineNum)
    decreases |a|
  {
    if a != [] {
      assert (a + b)[1..] == a[1..] + b;
      RunFromAppend(Step(st, a[0], lineNum), a[1..], b, lineNum);
    } else {
      assert a + b == b;
    }
  }

  // ---- the shape of the token list ----

  lemma {:induction false} RunKeepsFlushed(st: TokState, s: string, lineNum: int)
    requires AllFlushed(st.tokens, lineNum)
    ensures AllFlushed(RunFrom(st, s, lineNum).tokens, lineNum)
    decreases |s|
  {
    if s != [] {
      RunFromCons(st, s, lineNum);
      StepKeepsFlushed(st, s[0], lineNum);
      RunKeepsFlushed(Step(st, s[0], lineNum), s[1..], lineNum);
    }
  }

  lemma StepKeepsFlushed(st: TokState, c: char, lineNum: int)
    requires AllFlushed(st.tokens, lineNum)
    ensures AllFlushed(Step(st, c, lineNum).tokens, lineNum)
  {
  }

  /** There is always a token. Every token but the last is non-empty and is a
      comment exactly when its text holds one of `# ; % | ESC - / -- //`;
      the last is never a comment. Every token is fresh from `initXxToken`. */
  lemma TokenizeShape(xxline: string, lineNum: int)
    ensures var r := TokenizeOf(xxline, lineNum);
      |r| >= 1
      && !r[|r| - 1].isComment
      && r[|r| - 1] == InitOf(ZeroToken, r[|r| - 1].rawData, lineNum, false, r[|r| - 1].isString)
      && forall j :: 0 <= j < |r| - 1 ==>
        r[j].rawData != []
        && (r[j].isComment <==> IsCommentText(r[j].rawData))
        && r[j] == InitOf(ZeroToken, r[j].rawData, lineNum, r[j].isComment, r[j].isString)
  {
    RunKeepsFlushed(StartState, TrimSpace(xxline), lineNum);
    var st := RunFrom(StartState, TrimSpace(xxline), lineNum);
    FinalShape(st, lineNum, TokenizeOf(xxline, lineNum));
  }

  /** The shape of the token list once the final buffer is appended. */
  lemma FinalShape(st: TokState, lineNum: int, r: seq<Token>)
    requires AllFlushed(st.tokens, lineNum)
    requires r == st.tokens + [InitOf(ZeroToken, st.buf, lineNum, false, st.isString)]
    ensures |r| >= 1
      && !r[|r| - 1].isComment
      && r[|r| - 1] == InitOf(ZeroToken, r[|r| - 1].rawData, lineNum, false, r[|r| - 1].isString)
      && forall j :: 0 <= j < |r| - 1 ==>
        r[j].rawData != []
        && (r[j].isComment <==> IsCommentText(r[j].rawData))
        && r[j] == InitOf(ZeroToken, r[j].rawData, lineNum, r[j].isComment, r[j].isString)
  {
    forall j | 0 <= j < |r| - 1
      ensures r[j].rawData != []
        && (r[j].isComment <==> IsCommentText(r[j].rawData))
        && r[j] == InitOf(ZeroToken, r[j].rawData, lineNum, r[j].isComment, r[j].isString)
    {
      assert r[j] == st.tokens[j] && Flushed(st.tokens[j], lineNum);
    }
  }

  // ---- a line without quotes ----

  /** `s` with every space deleted. */
  function RemoveSpaces(s: string): (r: string)
    ensures Space !in r
  {
    if s == [] then [] else (if s[0] == Space then [] else [s[0]]) + RemoveSpaces(s[1..])
  }

  /** The texts of the tokens, one after another. */
  function Concat(ts: seq<Token>): string {
    if ts == [] then [] else Concat(ts[..|ts| - 1]) + ts[|ts| - 1].rawData
  }

  predicate NoSpaceTokens(ts: seq<Token>) {
    forall j :: 0 <= j < |ts| ==> Space !in ts[j].rawData
  }

  /** Outside quotes the loop only moves characters other than spaces into
      the buffer and buffers into tokens. */
  lemma {:induction false} PlainRun(st: TokState, s: string, lineNum: int)
    requires !st.verbatim && !st.isEscape && DoubleQuote !in s
    requires NoSpaceTokens(st.tokens) && Space !in st.buf
    ensures var r := RunFrom(st, s, lineNum);
      !r.verbatim && !r.isEscape && NoSpaceTokens(r.tokens) && Space !in r.buf
      && Concat(r.tokens) + r.buf == Concat(st.tokens) + st.buf + RemoveSpaces(s)
    decreases |s|
  {
    if s != [] {
      var c := s[0];
      var st1 := Step(st, c, lineNum);
      PlainStep(st, c, lineNum);
      PlainRun(st1, s[1..], lineNum);
      var x := if c == Space then [] else [c];
      assert RemoveSpaces(s) == x + RemoveSpaces(s[1..]);
      var a := Concat(st.tokens) + st.buf;
      assert a + x + RemoveSpaces(s[1..]) == a + RemoveSpaces(s);
    }
  }

  lemma PlainStep(st: TokState, c: char, lineNum: int)
    requires !st.verbatim && !st.isEscape && c != DoubleQuote
    requires NoSpaceTokens(st.tokens) && Space !in st.buf
    ensures var r := Step(st, c, lineNum);
      !r.verbatim && !r.isEscape && NoSpaceTokens(r.tokens) && Space !in r.buf
      && Concat(r.tokens) + r.buf == Concat(st.tokens) + st.buf + (if c == Space then [] else [c])
  {
    var r := Step(st, c, lineNum);
    if c == Space && st.buf != [] {
      assert r.tokens[..|r.tokens| - 1] == st.tokens;
    }
  }

  /** For a line without double quotes, no token holds a space and the tokens
      put together are the trimmed line with its spaces deleted. */
  lemma TokenizeUnquoted(xxline: string, lineNum: int)
    requires DoubleQuote !in xxline
    ensures var r := TokenizeOf(xxline, lineNum);
      NoSpaceTokens(r) && Concat(r) == RemoveSpaces(TrimSpace(xxline))
  {
    var s := TrimSpace(xxline);
    TrimSpaceKeepsOut(xxline, DoubleQuote);
    PlainRun(StartState, s, lineNum);
    var st := RunFrom(StartState, s, lineNum);
    UnquotedFinal(st, lineNum, TokenizeOf(xxline, lineNum), s);
  }

  lemma UnquotedFinal(st: TokState, lineNum: int, r: seq<Token>, s: string)
    requires NoSpaceTokens(st.tokens) && Space !in st.buf
    requires Concat(st.tokens) + st.buf == RemoveSpaces(s)
    requires r == st.tokens + [InitOf(ZeroToken, st.buf, lineNum, false, st.isString)]
    ensures NoSpaceTokens(r) && Concat(r) == RemoveSpaces(s)
  {
    assert r[..|r| - 1] == st.tokens;
  }

  // ---- a quoted line ----

  /** A quoted text with no unescaped `"` and no dangling backslash. */
  predicate WellQuoted(w: string)
    decreases |w|
  {
    if w == [] then true
    else if w[0] == EscapeSeq then |w| >= 2 && WellQuoted(w[2..])
    else w[0] != DoubleQuote && WellQuoted(w[1..])
  }

  /** The text a well-quoted body puts into the buffer: each `\n \\ \t \r`
      becomes newline, backslash, tab, carriage return; any other backslash
      pair is kept as it is. */
  function Unescape(w: string): string
    requires WellQuoted(w)
    decreases |w|
  {
    if w == [] then []
    else if w[0] == EscapeSeq then Escaped(w[1]) + Unescape(w[2..])
    else [w[0]] + Unescape(w[1..])
  }

  lemma {:induction false} QuotedRun(st: TokState, w: string, lineNum: int)
    requires st.verbatim && !st.isEscape && WellQuoted(w)
    ensures RunFrom(st, w, lineNum) == st.(buf := st.buf + Unescape(w))
    decreases |w|
  {
    if w == [] {
      assert st.buf + Unescape(w) == st.buf;
    } else if w[0] == EscapeSeq {
      QuotedRun(st.(buf := st.buf + Escaped(w[1])), w[2..], lineNum);
      QuotedEscapeStep(st, w, lineNum);
    } else {
      QuotedRun(st.(buf := st.buf + [w[0]]), w[1..], lineNum);
      QuotedPlainStep(st, w, lineNum);
    }
  }

  lemma QuotedEscapeStep(st: TokState, w: string, lineNum: int)
    requires st.verbatim && !st.isEscape && |w| >= 2 && w[0] == EscapeSeq && WellQuoted(w)
    requires var st2 := st.(buf := st.buf + Escaped(w[1]));
      RunFrom(st2, w[2..], lineNum) == st2.(buf := st2.buf + Unescape(w[2..]))
    ensures RunFrom(st, w, lineNum) == st.(buf := st.buf + Unescape(w))
  {
    assert st.buf + Escaped(w[1]) + Unescape(w[2..]) == st.buf + Unescape(w);
    EscapePair(st, w[1], lineNum);
    RunFromCons(st, w, lineNum);
    RunFromCons(Step(st, w[0], lineNum), w[1..], lineNum);
    assert w[1..][0] == w[1] && w[1..][1..] == w[2..];
  }

  lemma QuotedPlainStep(st: TokState, w: string, lineNum: int)
    requires st.verbatim && !st.isEscape && w != [] && w[0] != EscapeSeq && WellQuoted(w)
    requires var st1 := st.(buf := st.buf + [w[0]]);
      RunFrom(st1, w[1..], lineNum) == st1.(buf := st1.buf + Unescape(w[1..]))
    ensures RunFrom(st, w, lineNum) == st.(buf := st.buf + Unescape(w))
  {
    assert st.buf + [w[0]] + Unescape(w[1..]) == st.buf + Unescape(w);
    assert Step(st, w[0], lineNum) == st.(buf := st.buf + [w[0]]);
    RunFromCons(st, w, lineNum);
  }

  /** Inside quotes, a backslash and the next character put `Escaped` of it
      into the buffer. */
  lemma EscapePair(st: TokState, c: char, lineNum: int)
    requires st.verbatim && !st.isEscape
    ensures Step(Step(st, EscapeSeq, lineNum), c, lineNum) == st.(buf := st.buf + Escaped(c))
  {
  }

  /** A line that is one quoted text gives one quoted, non-comment token of
      the unescaped text, spaces included. */
  lemma TokenizeQuoted(w: string, lineNum: int)
    requires WellQuoted(w)
    ensures TokenizeOf([DoubleQuote] + w + [DoubleQuote], lineNum)
      == [InitOf(ZeroToken, Unescape(w), lineNum, false, true)]
  {
    var s := [DoubleQuote] + w + [DoubleQuote];
    assert s[0] == DoubleQuote && s[|s| - 1] == DoubleQuote;
    QuotedLineRun(w, lineNum);
  }

  lemma QuotedLineRun(w: string, lineNum: int)
    requires WellQuoted(w)
    ensures RunFrom(StartState, [DoubleQuote] + w + [DoubleQuote], lineNum)
      == TokState([], Unescape(w), false, false, true)
  {
    var s := [DoubleQuote] + w + [DoubleQuote];
    var st1 := TokState([], [], true, false, true);
    assert Step(StartState, DoubleQuote, lineNum) == st1;
    RunFromCons(StartState, s, lineNum);
    assert s[1..] == w + [DoubleQuote];
    RunFromAppend(st1, w, [DoubleQuote], lineNum);
    QuotedRun(st1, w, lineNum);
    assert st1.buf + Unescape(w) == Unescape(w);
    RunFromSingle(st1.(buf := Unescape(w)), DoubleQuote, lineNum);
  }

  /** `isString` is cleared only when a token is flushed: an empty pair of
      quotes marks the next token as quoted, so `"" 41` gives one quoted
      token `41`. */
  lemma QuotedFlagSticks(w: string, lineNum: int)
    requires w != [] && !IsSpace(w[|w| - 1])
    requires forall j :: 0 <= j < |w| ==> w[j] != Space && w[j] != DoubleQuote
    ensures TokenizeOf([DoubleQuote, DoubleQuote, Space] + w, lineNum)
      == [InitOf(ZeroToken, w, lineNum, false, true)]
  {
    var s := [DoubleQuote, DoubleQuote, Space] + w;
    assert TrimSpace(s) == s by {
      assert s[0] == DoubleQuote && s[|s| - 1] == w[|w| - 1];
    }
    EmptyQuotesThenWord(w, lineNum);
    TrimmedLineTokens(s, lineNum, TokState([], w, false, false, true));
    var t := InitOf(ZeroToken, w, lineNum, false, true);
    assert [] + [t] == [t];
  }

  lemma EmptyQuotesThenWord(w: string, lineNum: int)
    requires forall j :: 0 <= j < |w| ==> w[j] != Space && w[j] != DoubleQuote
    ensures RunFrom(StartState, [DoubleQuote, DoubleQuote, Space] + w, lineNum)
      == TokState([], w, false, false, true)
  {
    EmptyQuotesThenSpace(lineNum);
    RunFromAppend(StartState, [DoubleQuote, DoubleQuote, Space], w, lineNum);
    PlainWordRun(TokState([], [], false, false, true), w, lineNum);
    assert [] + w == w;
  }

  /** The tokens of a line with no white space at its ends, from the state
      the loop ends in. */
  lemma TrimmedLineTokens(s: string, lineNum: int, st: TokState)
    requires TrimSpace(s) == s && RunFrom(StartState, s, lineNum) == st
    ensures TokenizeOf(s, lineNum) == st.tokens + [InitOf(ZeroToken, st.buf, lineNum, false, st.isString)]
  {
  }

  lemma EmptyQuotesThenSpace(lineNum: int)
    ensures RunFrom(StartState, [DoubleQuote, DoubleQuote, Space], lineNum)
      == TokState([], [], false, false, true)
  {
    var st1 := TokState([], [], true, false, true);
    var st2 := TokState([], [], false, false, true);
    assert Step(StartState, DoubleQuote, lineNum) == st1;
    assert Step(st1, DoubleQuote, lineNum) == st2;
    assert Step(st2, Space, lineNum) == st2;
    RunFromCons(StartState, [DoubleQuote, DoubleQuote, Space], lineNum);
    RunFromCons(st1, [DoubleQuote, Space], lineNum);
    RunFromSingle(st2, Space, lineNum);
  }

  /** Outside quotes, a word without spaces or quotes goes into the buffer;
      other white space, such as a tab, is an ordinary character there. */
  lemma {:induction false} PlainWordRun(st: TokState, w: string, lineNum: int)
    requires !st.verbatim && !st.isEscape
    requires forall j :: 0 <= j < |w| ==> w[j] != Space && w[j] != DoubleQuote
    ensures RunFrom(st, w, lineNum) == st.(buf := st.buf + w)
    decreases |w|
  {
    if w != [] {
      PlainWordRun(Step(st, w[0], lineNum), w[1..], lineNum);
      assert st.buf + [w[0]] + w[1..] == st.buf + w;
    }
  }
}
