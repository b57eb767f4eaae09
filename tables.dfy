/**
  The marker, escape and noise tables of the assembler and the helpers that
  consult them (method.go: the tables, `getCommentList`, `include`,
  `testCharComment`).
 */
module Tables {
  import opened GoStrings

  /** One-character comment markers; the fifth is ESC. */
  const AsciiComments: seq<string> := ["#", ";", "%", "|", "\U{1B}", "-", "/"]
  /** Two-character comment markers. */
  const TwoCharComments: seq<string> := ["--", "//"]
  /** Noise deleted, in this order, before a token is taken as hex. */
  const FilterList: seq<string> := [",", "$", "\\x", "0x", "h", ":", " "]
  /** The escapes recognised after a backslash inside double quotes. */
  const Escapes: map<string, string> := map["n" := "\n", "\\" := "\\", "t" := "\t", "r" := "\r"]

  /** The drawing-character markers run from U+2500 to U+25A1 inclusive. */
  const CommentStart: int := 9472
  const CommentEnd: int := 9633
  const MultiCommentStart: string := "/*"
  const MultiCommentEnd: string := "*/"
  const EscapeSeq: char := '\\'
  const DoubleQuote: char := '"'
  const Space: char := ' '

  predicate IsAsciiMarkerChar(c: char) {
    [c] in AsciiComments
  }

  /** A character that `testComment` treats as the start of an embedded comment. */
  predicate IsMarkerChar(c: char) {
    IsAsciiMarkerChar(c) || CommentStart <= c as int <= CommentEnd
  }

  /** The one-character strings of the code points `lo` up to (not including) `hi`. */
  function DrawingMarkers(lo: int, hi: int): (r: seq<string>)
    requires CommentStart <= lo <= hi <= CommentEnd + 1
    ensures |r| == hi - lo
    ensures forall k :: 0 <= k < |r| ==> r[k] == [(lo + k) as char]
  {
    seq(hi - lo, k requires 0 <= k < hi - lo => [(lo + k) as char])
  }

  /** The marker list in the order `getCommentList` builds it. */
  function CommentList(): seq<string> {
    AsciiComments + TwoCharComments + DrawingMarkers(CommentStart, CommentEnd + 1)
  }

  /** `getCommentList`: the ASCII markers, the two-character markers, then
      every code point of the drawing range. */
  method GetCommentList() returns (cList: seq<string>)
    ensures cList == CommentList()
  {
    cList := [];
    for i := 0 to |AsciiComments|
      invariant cList == AsciiComments[..i]
    {
      cList := cList + [AsciiComments[i]];
    }
    for i := 0 to |TwoCharComments|
      invariant cList == AsciiComments + TwoCharComments[..i]
    {
      cList := cList + [TwoCharComments[i]];
    }
    for i := CommentStart to CommentEnd + 1
      invariant cList == AsciiComments + TwoCharComments + DrawingMarkers(CommentStart, i)
    {
      assert DrawingMarkers(CommentStart, i + 1) == DrawingMarkers(CommentStart, i) + [[i as char]];
      cList := cList + [[i as char]];
    }
  }

  /** The list holds 171 markers: every one is a marker character or one of
      the two-character markers, and every marker character is in it. */
  lemma CommentListMembers()
    ensures |CommentList()| == 171
    ensures forall m :: m in CommentList() ==>
      m in TwoCharComments || (|m| == 1 && IsMarkerChar(m[0]))
    ensures forall c :: IsMarkerChar(c) ==> [c] in CommentList()
  {
    var d := DrawingMarkers(CommentStart, CommentEnd + 1);
    assert CommentList() == AsciiComments + TwoCharComments + d;
    forall c | IsMarkerChar(c) ensures [c] in CommentList() {
      if !IsAsciiMarkerChar(c) {
        assert d[c as int - CommentStart] == [c];
      }
    }
  }

  /** `include(list, target)`. */
  method Include(list: seq<string>, target: string) returns (found: bool)
    ensures found <==> target in list
  {
    for i := 0 to |list|
      invariant target !in list[..i]
    {
      if list[i] == target {
        return true;
      }
    }
    return false;
  }

  /** What `testCharComment` decides about its argument. */
  predicate IsCharComment(inChar: string)
    requires |inChar| > 0
  {
    (CommentStart <= inChar[0] as int <= CommentEnd) || inChar in AsciiComments
  }

  /** `testCharComment(inChar)`: the first code point lies in the drawing
      range, or the whole string is one of the seven ASCII markers. Go
      indexes the first rune, so an empty argument is not allowed. */
  method TestCharComment(inChar: string) returns (isComment: bool)
    requires |inChar| > 0
    ensures isComment <==> IsCharComment(inChar)
  {
    var o := inChar[0] as int;
    if o >= CommentStart && o <= CommentEnd {
      return true;
    }
    isComment := Include(AsciiComments, inChar);
  }

  /** `testComment` calls `testCharComment(string(normData[0]))`: the first
      BYTE of the text, read as a code point. That code point is below 256, so
      only the ASCII markers can match, and a character matches exactly when
      it is one of them. */
  lemma FirstByteSeesAsciiMarkersOnly(c: char)
    ensures IsCharComment([EncodeRune(c)[0] as char]) <==> IsAsciiMarkerChar(c)
  {
    var b := EncodeRune(c)[0];
    if c as int >= 0x80 {
      assert [b as char] !in AsciiComments;
    }
  }
}
