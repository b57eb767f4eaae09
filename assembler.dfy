/**
  `parseXX` (method.go): the whole assembler. Each line goes through the
  block-comment filter, the tokenizer and the token passes; the hex of the
  tokens before the first comment is decoded, with the ASCII fallback, and
  appended to the output. Go stops the program with exit status 3 when a
  line cannot be decoded; here that is the error result `BadLine`.
 */
module Assembler {
  import opened Wrappers
  import opened GoStrings
  import opened GoHex
  import opened Tables
  import opened Helpers
  import opened BlockComments
  import opened XxTokens
  import opened TokenComments
  import opened Tokenizer
  import opened Attributes

  /** The line (1-based) that could not be decoded, and why. */
  datatype ParseError = BadLine(lineNum: int, cause: DecodeError)

  /** The variables `parseXX` carries from one line to the next. */
  datatype ParseState = ParseState(
    xxOut: seq<byte>, lineNum: int, joinedLine: string, multilineComment: bool)

  const StartParse := ParseState([], 0, "", false)

  /** Each token of a line after `getTokenAttributes`. */
  function AttributesAll(ts: seq<Token>): seq<Token> {
    seq(|ts|, j requires 0 <= j < |ts| => AttributesOf(ts[j]))
  }

  lemma AttributesAllAppend(a: seq<Token>, b: seq<Token>)
    ensures AttributesAll(a + b) == AttributesAll(a) + AttributesAll(b)
  {
    var l, pa, pb := AttributesAll(a + b), AttributesAll(a), AttributesAll(b);
    assert |l| == |pa + pb|;
    forall j | 0 <= j < |l| ensures l[j] == (pa + pb)[j] {
      if j < |a| {
        assert (a + b)[j] == a[j] && (pa + pb)[j] == pa[j];
      } else {
        assert (a + b)[j] == b[j - |a|] && (pa + pb)[j] == pb[j - |a|];
      }
    }
    assert l == pa + pb;
  }

  /** The token, after the passes, ends the line's data: it is or holds a
      comment. */
  predicate EndsData(a: Token) {
    a.isComment || a.hasComment
  }

  /** The hex of tokens that have been through the passes, up to the first
      one that is or holds a comment. */
  function HexUntilComment(passed: seq<Token>): string {
    if passed == [] then []
    else if EndsData(passed[0]) then []
    else passed[0].hexData + HexUntilComment(passed[1..])
  }

  /** The hex of a line: each token's hex after the passes, up to the first
      token that is or holds a comment. */
  function LineHexOf(ts: seq<Token>): string {
    HexUntilComment(AttributesAll(ts))
  }

  /** The copy of a token that the loop of `parseXX` sends through
      `getTokenAttributes`, as it is afterwards. */
  method PassedCopy(tok: Token) returns (a: Token)
    requires CommentTestable(tok)
    ensures a == AttributesOf(tok)
  {
    var t := new XxToken.FromValue(tok);
    GetTokenAttributes(t);
    a := t.Value();
  }

  /** The token loop of `parseXX`: each token is copied, as `range` does,
      given its attributes, and its hex appended until a comment. */
  method LineHexData(lineTokens: seq<Token>) returns (linesHexData: string)
    requires AllTestable(lineTokens)
    ensures linesHexData == LineHexOf(lineTokens)
  {
    ghost var passed := AttributesAll(lineTokens);
    linesHexData := "";
    for i := 0 to |lineTokens|
      invariant linesHexData + HexUntilComment(passed[i..]) == HexUntilComment(passed)
    {
      assert passed[i..][0] == passed[i] && passed[i..][1..] == passed[i + 1..];
      var t := PassedCopy(lineTokens[i]);
      if t.isComment || t.hasComment {
        assert HexUntilComment(passed[i..]) == [];
        assert linesHexData + [] == linesHexData;
        return;
      }
      assert HexUntilComment(passed[i..]) == t.hexData + HexUntilComment(passed[i + 1..]);
      linesHexData := linesHexData + t.hexData;
    }
    assert passed[|lineTokens|..] == [];
    assert linesHexData + [] == linesHexData;
  }

  /** No token of `passed` ends the data. */
  predicate NoEnd(passed: seq<Token>) {
    forall j :: 0 <= j < |passed| ==> !EndsData(passed[j])
  }

  /** Processed tokens split in two: the second part counts only when no
      token of the first part is or holds a comment. */
  lemma {:induction false} HexUntilAppend(a: seq<Token>, b: seq<Token>)
    ensures HexUntilComment(a + b) == HexUntilComment(a) + (if NoEnd(a) then HexUntilComment(b) else [])
    decreases |a|
  {
    if a == [] {
      assert a + b == b;
    } else {
      HexUntilAppend(a[1..], b);
      assert (a + b)[0] == a[0] && (a + b)[1..] == a[1..] + b;
      if !EndsData(a[0]) {
        assert NoEnd(a) <==> NoEnd(a[1..]) by {
          if NoEnd(a[1..]) {
            forall j | 0 <= j < |a| ensures !EndsData(a[j]) {
              if j > 0 {
                assert a[j] == a[1..][j - 1];
              }
            }
          }
        }
      }
    }
  }

  /** The tokens of a line split in two: the hex of the second part counts
      only when no token of the first part is or holds a comment. */
  lemma LineHexAppend(a: seq<Token>, b: seq<Token>)
    ensures LineHexOf(a + b) == LineHexOf(a) + (if NoEnd(AttributesAll(a)) then LineHexOf(b) else [])
  {
    AttributesAllAppend(a, b);
    HexUntilAppend(AttributesAll(a), AttributesAll(b));
  }

  /** The decoding step of `parseXX`: the hex text decoded, or else, for an
      ASCII text, the hex of its characters decoded. */
  function DecodeLineOf(h: string): Result<seq<byte>, DecodeError> {
    match DecodeString(h)
    case Ok(out) => Ok(out)
    case Err(e) =>
      if IsAscii(h) then DecodeString(Ascii2HexOf(SplitChars(h))) else Err(e)
  }

  /** A line's data decodes exactly when it is ASCII: valid hex is decoded
      as hex, any other ASCII text gives its character codes, and the exit
      after the fallback can never happen. */
  lemma DecodeLineCases(h: string)
    ensures DecodeLineOf(h).Ok? <==> IsAscii(h)
    ensures |h| % 2 == 0 && IsHexText(h) ==> DecodeLineOf(h) == DecodeString(h)
    ensures !(|h| % 2 == 0 && IsHexText(h)) && IsAscii(h) ==> DecodeLineOf(h) == Ok(Codes(h))
  {
    Ascii2HexRoundTrip(h);
    if IsHexText(h) {
      assert IsAscii(h) by {
        forall i | 0 <= i < |h| ensures h[i] as int < 0x80 {
          assert IsHexDigit(h[i]);
        }
      }
    }
  }

  /** The bytes of one logical line, or why it cannot be decoded. */
  function LineBytes(line: string, lineNum: int): Result<seq<byte>, DecodeError> {
    DecodeLineOf(LineHexOf(TokenizeOf(line, lineNum)))
  }

  /** How the line loop turns a logical line, with its number, into bytes.
      The loop's lemmas hold for any decoder; `parseXX` uses `LineBytes`. */
  type LineDecoder = (string, int) -> Result<seq<byte>, DecodeError>

  /** One pass of the line loop. */
  function LineStep(dec: LineDecoder, ps: ParseState, line: string): Result<ParseState, ParseError> {
    var n := ps.lineNum + 1;
    var f := FilterOf(ps.multilineComment, ps.joinedLine, line);
    var next := ps.(lineNum := n, joinedLine := f.joinedLine, multilineComment := f.multilineComment);
    if f.mustContinue then Ok(next)
    else
      match dec(f.line, n)
      case Err(e) => Err(BadLine(n, e))
      case Ok(out) => Ok(next.(xxOut := ps.xxOut + out))
  }

  /** The line loop run over the remaining lines. */
  function ParseFrom(dec: LineDecoder, ps: ParseState, lines: seq<string>): Result<ParseState, ParseError>
    decreases |lines|
  {
    if lines == [] then Ok(ps)
    else
      match LineStep(dec, ps, lines[0])
      case Err(e) => Err(e)
      case Ok(next) => ParseFrom(dec, next, lines[1..])
  }

  /** What `parseXX(xxFile)` returns, or the line it stops at. */
  function ParseXXOf(xxFile: seq<string>): Result<seq<byte>, ParseError> {
    match ParseFrom(LineBytes, StartParse, xxFile)
    case Ok(ps) => Ok(ps.xxOut)
    case Err(e) => Err(e)
  }

  lemma ParseFromCons(dec: LineDecoder, ps: ParseState, lines: seq<string>)
    requires lines != []
    ensures ParseFrom(dec, ps, lines) ==
      match LineStep(dec, ps, lines[0])
      case Err(e) => Err(e)
      case Ok(next) => ParseFrom(dec, next, lines[1..])
  {
  }

  /** The decoding at the end of `parseXX`'s line loop, with the ASCII
      fallback; each error is where Go exits with status 3. */
  method DecodeLine(linesHexData: string) returns (out: Result<seq<byte>, DecodeError>)
    ensures out == DecodeLineOf(linesHexData)
  {
    out := DecodeString(linesHexData);
    if out.Err? {
      if IsAscii(linesHexData) {
        var linesHexDataList := SplitChars(linesHexData);
        var linesHexDataByte := Ascii2Hex(linesHexDataList);
        out := DecodeString(linesHexDataByte);
      }
    }
  }

  /** Every token the tokenizer makes can go through the passes. */
  lemma TokenizedTestable(line: string, lineNum: int)
    ensures AllTestable(TokenizeOf(line, lineNum))
  {
    var r := TokenizeOf(line, lineNum);
    TokenizeShape(line, lineNum);
    forall j | 0 <= j < |r| ensures CommentTestable(r[j]) {
      FreshIsTestable(r[j]);
    }
  }

  /** The work `parseXX` does on a line the comment filter lets through:
      tokenize, collect the hex, decode. */
  method AssembleLine(line: string, lineNum: int) returns (decoded: Result<seq<byte>, DecodeError>)
    ensures decoded == LineBytes(line, lineNum)
  {
    var lineTokens := TokenizeXX(line, lineNum);
    TokenizedTestable(line, lineNum);
    var linesHexData := LineHexData(lineTokens);
    decoded := DecodeLine(linesHexData);
  }

  /** The line loop's step for a line that the comment filter holds back. */
  lemma LineStepHeld(dec: LineDecoder, ps: ParseState, line: string)
    requires FilterOf(ps.multilineComment, ps.joinedLine, line).mustContinue
    ensures var f := FilterOf(ps.multilineComment, ps.joinedLine, line);
      LineStep(dec, ps, line)
        == Ok(ps.(lineNum := ps.lineNum + 1, joinedLine := f.joinedLine, multilineComment := f.multilineComment))
  {
  }

  /** The line loop's step for a line that the comment filter lets through. */
  lemma LineStepDecoded(dec: LineDecoder, ps: ParseState, line: string)
    requires !FilterOf(ps.multilineComment, ps.joinedLine, line).mustContinue
    ensures var n, f := ps.lineNum + 1, FilterOf(ps.multilineComment, ps.joinedLine, line);
      var b := dec(f.line, n);
      LineStep(dec, ps, line)
        == if b.Err? then Err(BadLine(n, b.error))
           else Ok(ParseState(ps.xxOut + b.value, n, f.joinedLine, f.multilineComment))
  {
  }

  /** `parseXX(xxFile)`. */
  method ParseXX(xxFile: seq<string>) returns (r: Result<seq<byte>, ParseError>)
    ensures r == ParseXXOf(xxFile)
  {
    var xxOut: seq<byte> := [];
    var lineNum := 0;
    var joinedLine := "";
    var multilineComment := false;
    var mustContinue := false;
    for i := 0 to |xxFile|
      invariant ParseFrom(LineBytes, ParseState(xxOut, lineNum, joinedLine, multilineComment), xxFile[i..])
        == ParseFrom(LineBytes, StartParse, xxFile)
    {
      ghost var ps := ParseState(xxOut, lineNum, joinedLine, multilineComment);
      ghost var rest := xxFile[i..];
      assert rest[0] == xxFile[i] && rest[1..] == xxFile[i + 1..];
      var line := xxFile[i];
      lineNum := lineNum + 1;
      multilineComment, joinedLine, line, mustContinue :=
        FilterMultLineComments(multilineComment, joinedLine, line);
      if mustContinue {
        ParseHeld(ps, rest);
        continue;
      }
      var decoded := AssembleLine(line, lineNum);
      ParseDecoded(ps, rest, FilterResult(multilineComment, joinedLine, line, mustContinue), lineNum, decoded);
      if decoded.Err? {
        return Err(BadLine(lineNum, decoded.error));
      }
      xxOut := xxOut + decoded.value;
    }
    assert xxFile[|xxFile|..] == [];
    r := Ok(xxOut);
  }

  /** The loop over lines whose first line the comment filter holds back. */
  lemma ParseFromHeld(dec: LineDecoder, ps: ParseState, lines: seq<string>)
    requires lines != [] && FilterOf(ps.multilineComment, ps.joinedLine, lines[0]).mustContinue
    ensures var f := FilterOf(ps.multilineComment, ps.joinedLine, lines[0]);
      ParseFrom(dec, ps, lines) == ParseFrom(dec,
        ps.(lineNum := ps.lineNum + 1, joinedLine := f.joinedLine, multilineComment := f.multilineComment),
        lines[1..])
  {
    ParseFromCons(dec, ps, lines);
    LineStepHeld(dec, ps, lines[0]);
  }

  /** The loop over lines whose first line the filter lets through and the
      decoder turns into `b`. */
  lemma ParseFromDecoded(dec: LineDecoder, ps: ParseState, lines: seq<string>, b: Result<seq<byte>, DecodeError>)
    requires lines != [] && !FilterOf(ps.multilineComment, ps.joinedLine, lines[0]).mustContinue
    requires b == dec(FilterOf(ps.multilineComment, ps.joinedLine, lines[0]).line, ps.lineNum + 1)
    ensures b.Err? ==> ParseFrom(dec, ps, lines) == Err(BadLine(ps.lineNum + 1, b.error))
    ensures var f := FilterOf(ps.multilineComment, ps.joinedLine, lines[0]);
      b.Ok? ==> ParseFrom(dec, ps, lines) == ParseFrom(dec,
        ParseState(ps.xxOut + b.value, ps.lineNum + 1, f.joinedLine, f.multilineComment), lines[1..])
  {
    ParseFromCons(dec, ps, lines);
    LineStepDecoded(dec, ps, lines[0]);
  }

  /** `ParseFromHeld` for the assembler's own decoder. */
  lemma ParseHeld(ps: ParseState, lines: seq<string>)
    requires lines != [] && FilterOf(ps.multilineComment, ps.joinedLine, lines[0]).mustContinue
    ensures var f := FilterOf(ps.multilineComment, ps.joinedLine, lines[0]);
      ParseFrom(LineBytes, ps, lines) == ParseFrom(LineBytes,
        ps.(lineNum := ps.lineNum + 1, joinedLine := f.joinedLine, multilineComment := f.multilineComment),
        lines[1..])
  {
    ParseFromHeld(LineBytes, ps, lines);
  }

  /** `ParseFromDecoded` for the assembler's own decoder. */
  lemma ParseDecoded(ps: ParseState, lines: seq<string>, f: FilterResult, n: int, b: Result<seq<byte>, DecodeError>)
    requires lines != [] && f == FilterOf(ps.multilineComment, ps.joinedLine, lines[0]) && !f.mustContinue
    requires n == ps.lineNum + 1 && b == LineBytes(f.line, n)
    ensures b.Err? ==> ParseFrom(LineBytes, ps, lines) == Err(BadLine(n, b.error))
    ensures b.Ok? ==> ParseFrom(LineBytes, ps, lines) == ParseFrom(LineBytes,
      ParseState(ps.xxOut + b.value, n, f.joinedLine, f.multilineComment), lines[1..])
  {
    ParseFromDecoded(LineBytes, ps, lines, b);
  }

  lemma LineStepShift(dec: LineDecoder, ps: ParseState, line: string)
    ensures var s, s0 := LineStep(dec, ps, line), LineStep(dec, ps.(xxOut := []), line);
      s.Ok? == s0.Ok?
      && (s.Ok? ==> s.value == s0.value.(xxOut := ps.xxOut + s0.value.xxOut))
      && (s.Err? ==> s.error == s0.error)
  {
    var p0 := ps.(xxOut := []);
    var n, f := ps.lineNum + 1, FilterOf(ps.multilineComment, ps.joinedLine, line);
    if f.mustContinue {
      LineStepHeld(dec, ps, line);
      LineStepHeld(dec, p0, line);
    } else {
      LineStepDecoded(dec, ps, line);
      LineStepDecoded(dec, p0, line);
      var b := dec(f.line, n);
      if b.Ok? {
        assert [] + b.value == b.value;
      }
    }
  }

  // ---- the line loop as a fold ----

  /** Running the loop over two batches of lines is running it over the
      first and then, from where it stopped, over the second. */
  lemma {:induction false} ParseSplit(dec: LineDecoder, ps: ParseState, a: seq<string>, b: seq<string>)
    ensures ParseFrom(dec, ps, a + b) ==
      match ParseFrom(dec, ps, a)
      case Err(e) => Err(e)
      case Ok(mid) => ParseFrom(dec, mid, b)
    decreases |a|
  {
    if a == [] {
      assert a + b == b;
    } else {
      assert (a + b)[0] == a[0];
      assert (a + b)[1..] == a[1..] + b;
      match LineStep(dec, ps, a[0])
      case Err(e) =>
      case Ok(next) => ParseSplit(dec, next, a[1..], b);
    }
  }

  /** The output only grows: what the loop has written stays in front, the
      rest depends only on the lines still to come, and the line count
      advances by one per line. */
  lemma {:induction false} ParseAppendsOutput(dec: LineDecoder, ps: ParseState, lines: seq<string>)
    ensures var r, r0 := ParseFrom(dec, ps, lines), ParseFrom(dec, ps.(xxOut := []), lines);
      r.Ok? == r0.Ok?
      && (r.Ok? ==> r.value == r0.value.(xxOut := ps.xxOut + r0.value.xxOut)
                    && r.value.lineNum == ps.lineNum + |lines|)
      && (r.Err? ==> r.error == r0.error)
    decreases |lines|
  {
    if lines == [] {
      assert ps.xxOut + [] == ps.xxOut;
    } else {
      var p0 := ps.(xxOut := []);
      var s, s0 := LineStep(dec, ps, lines[0]), LineStep(dec, p0, lines[0]);
      LineStepShift(dec, ps, lines[0]);
      ParseFromCons(dec, ps, lines);
      ParseFromCons(dec, p0, lines);
      if s.Ok? {
        ParseAppendsOutput(dec, s.value, lines[1..]);
        ParseAppendsOutput(dec, s0.value, lines[1..]);
        assert s.value.(xxOut := []) == s0.value.(xxOut := []);
      }
    }
  }

  /** A line inside an open block comment that does not close it writes
      nothing and keeps the carried text. */
  lemma SwallowedLineWritesNothing(dec: LineDecoder, ps: ParseState, line: string)
    requires ps.multilineComment && |line| > 0 && !Contains(line, MultiCommentEnd)
    ensures LineStep(dec, ps, line) == Ok(ps.(lineNum := ps.lineNum + 1))
  {
    SwallowedLine(ps.joinedLine, line);
  }

  // ---- whole lines ----

  /** A hex text has none of the characters that start a comment. */
  lemma HexTextIsPlain(h: string)
    requires IsHexText(h)
    ensures IsAscii(h) && DoubleQuote !in h
    ensures forall j :: 0 <= j < |h| ==> !IsSpace(h[j]) && h[j] != DoubleQuote
    ensures h != [] ==> !IsAsciiMarkerChar(h[0])
    ensures h != [] ==> !Contains(h, MultiCommentStart)
  {
    forall j | 0 <= j < |h| ensures h[j] as int < 0x80 && !IsSpace(h[j]) && h[j] != DoubleQuote {
      assert IsHexDigit(h[j]);
    }
    if h != [] {
      assert IsHexDigit(h[0]);
      assert forall j :: 0 <= j < |h[1..]| ==> IsHexDigit(h[1..][j]);
      NoOpenIn(h);
    }
  }

  /** A word with no space or quote, and no white space at its ends, is one
      token. */
  lemma WordIsOneToken(w: string, lineNum: int)
    requires w != [] && !IsSpace(w[0]) && !IsSpace(w[|w| - 1])
    requires forall j :: 0 <= j < |w| ==> w[j] != Space && w[j] != DoubleQuote
    ensures TokenizeOf(w, lineNum) == [InitOf(ZeroToken, w, lineNum, false, false)]
  {
    assert TrimSpace(w) == w;
    PlainWordRun(StartState, w, lineNum);
    assert [] + w == w;
    TrimmedLineTokens(w, lineNum, StartState.(buf := w));
  }

  /** A file of one line that opens no block comment is that line, decoded
      as line 1. */
  lemma OneLineFile(dec: LineDecoder, line: string)
    requires !Contains(line, MultiCommentStart)
    ensures ParseFrom(dec, StartParse, [line]) ==
      match dec(line, 1)
      case Err(e) => Err(BadLine(1, e))
      case Ok(b) => Ok(ParseState(b, 1, "", false))
  {
    PlainLine("", line);
    assert "" + line == line;
    ParseFromCons(dec, StartParse, [line]);
    LineStepDecoded(dec, StartParse, line);
    assert [line][1..] == [];
    if dec(line, 1).Ok? {
      assert [] + dec(line, 1).value == dec(line, 1).value;
    }
  }

  /** The hex of a line of one token that does not end the data is that
      token's hex. */
  lemma SingleTokenHex(t: Token)
    requires !EndsData(AttributesOf(t))
    ensures LineHexOf([t]) == AttributesOf(t).hexData
  {
    var passed := AttributesAll([t]);
    assert passed[0] == AttributesOf(t);
    assert passed[1..] == [];
    assert HexUntilComment(passed) == passed[0].hexData + HexUntilComment(passed[1..]);
  }

  /** A word of hex digits, as a token, is its own hex. */
  lemma HexWordIsHex(h: string, lineNum: int)
    requires h != [] && IsHexText(h)
    ensures var t := InitOf(ZeroToken, h, lineNum, false, false);
      !EndsData(AttributesOf(t)) && AttributesOf(t).hexData == h
  {
    HexTextIsPlain(h);
    var t := InitOf(ZeroToken, h, lineNum, false, false);
    assert !IsBinaryLiteral(t) by {
      if |h| >= 2 {
        assert IsHexDigit(h[1]) && h[..2][1] == h[1];
      }
    }
    PlainTokenIsHex(t);
    FilterKeepsHexText(h, |FilterList|);
    AsciiByteLen(h);
  }

  /** A line of hex digits gives the bytes those digits spell. */
  lemma HexLineBytes(h: string, lineNum: int)
    requires h != [] && |h| % 2 == 0 && IsHexText(h)
    ensures DecodeString(h).Ok? && LineBytes(h, lineNum) == DecodeString(h)
  {
    HexTextIsPlain(h);
    WordIsOneToken(h, lineNum);
    HexWordIsHex(h, lineNum);
    SingleTokenHex(InitOf(ZeroToken, h, lineNum, false, false));
    DecodeLineCases(h);
  }

  /** A file of one line of hex digits assembles to the bytes those digits
      spell. */
  lemma HexLineAssembles(h: string)
    requires h != [] && |h| % 2 == 0 && IsHexText(h)
    ensures DecodeString(h).Ok? && ParseXXOf([h]) == Ok(DecodeString(h).value)
  {
    HexTextIsPlain(h);
    HexLineBytes(h, 1);
    OneLineFile(LineBytes, h);
  }

  /** A quoted text with no backslash or quote in it is kept as it is. */
  lemma {:induction false} PlainQuoted(w: string)
    requires forall j :: 0 <= j < |w| ==> w[j] != EscapeSeq && w[j] != DoubleQuote
    ensures WellQuoted(w) && Unescape(w) == w
    decreases |w|
  {
    if w != [] {
      PlainQuoted(w[1..]);
    }
  }

  /** A quoted ASCII line with no backslash or quote in it, not starting
      with a marker, gives the codes of its characters. */
  lemma QuotedLineBytes(w: string, lineNum: int)
    requires w != [] && IsAscii(w) && !IsAsciiMarkerChar(w[0])
    requires forall j :: 0 <= j < |w| ==> w[j] != EscapeSeq && w[j] != DoubleQuote
    ensures LineBytes([DoubleQuote] + w + [DoubleQuote], lineNum) == Ok(Codes(w))
  {
    PlainQuoted(w);
    TokenizeQuoted(w, lineNum);
    var t := InitOf(ZeroToken, w, lineNum, false, true);
    QuotedTokenIsText(t);
    SingleTokenHex(t);
  }

  /** A file of one quoted ASCII line with no backslash, quote or `*`,
      not starting with a marker, assembles to the codes of its characters. */
  lemma QuotedLineAssembles(w: string)
    requires w != [] && IsAscii(w) && !IsAsciiMarkerChar(w[0])
    requires forall j :: 0 <= j < |w| ==> w[j] != EscapeSeq && w[j] != DoubleQuote && w[j] != '*'
    ensures ParseXXOf([[DoubleQuote] + w + [DoubleQuote]]) == Ok(Codes(w))
  {
    var line := [DoubleQuote] + w + [DoubleQuote];
    assert forall j :: 0 <= j < |line[1..]| ==> line[1..][j] != '*' by {
      assert line[1..] == w + [DoubleQuote];
    }
    NoOpenIn(line);
    QuotedLineBytes(w, 1);
    OneLineFile(LineBytes, line);
  }
}
