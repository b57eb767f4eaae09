// `filterMultLineComments` (method.go): the block-comment state machine that
// runs over each raw line before it is tokenised. Its state is whether a
// `/*` comment is open and the text carried over from earlier lines; its
// result is the new state, the new carry, the logical line to tokenise and
// whether the line must be held back.
module BlockComments {
  import opened GoStrings
  import opened Tables

  // The four values `filterMultLineComments` returns, in Go's order.
  datatype FilterResult = FilterResult(
    multilineComment: bool, joinedLine: string, line: string, mustContinue: bool)

  // Every pass after the first shortens `line`, and from then on an open
  // comment's `line` starts with `/*` and a closed one's with `*/`; the
  // extra unit pays for the first pass, which may keep the length.
  function Measure(multilineComment: bool, line: string): nat {
    |line| + (if multilineComment then (if StartsWith(line, MultiCommentStart) then 0 else 1)
              else (if StartsWith(line, MultiCommentEnd) then 0 else 1))
  }

  // The loop of `filterMultLineComments` from a given state: `line` is what
  // is still to scan and `lineResult` the logical line so far.
  function FilterLoop(multilineComment: bool, line: string, lineResult: string): FilterResult
    decreases Measure(multilineComment, line)
  {
    if |line| == 0 then FilterResult(multilineComment, "", lineResult, false)
    else if multilineComment then
      if Contains(line, MultiCommentEnd) then
        var e := After(line, MultiCommentEnd);
        assert IndexOf(line, MultiCommentEnd) == 0 ==> StartsWith(line, MultiCommentEnd);
        assert StartsWith(MultiCommentEnd + e, MultiCommentEnd);
        FilterLoop(false, MultiCommentEnd + e, lineResult + e)
      else FilterResult(true, lineResult, lineResult, true)
    else
      if Contains(line, MultiCommentStart) then
        var e := After(line, MultiCommentStart);
        assert IndexOf(line, MultiCommentStart) == 0 ==> StartsWith(line, MultiCommentStart);
        assert StartsWith(MultiCommentStart + e, MultiCommentStart);
        FilterLoop(true, MultiCommentStart + e, lineResult + Before(line, MultiCommentStart))
      else FilterResult(false, "", lineResult + line, false)
  }

  // What `filterMultLineComments(multilineComment, joinedLine, line)` returns.
  function FilterOf(multilineComment: bool, joinedLine: string, line: string): FilterResult {
    FilterLoop(multilineComment, line, joinedLine)
  }

  // `filterMultLineComments`.
  method FilterMultLineComments(inComment: bool, inJoinedLine: string, inLine: string)
    returns (multilineComment: bool, joinedLine: string, lineResult: string, mustContinue: bool)
    ensures FilterResult(multilineComment, joinedLine, lineResult, mustContinue)
      == FilterOf(inComment, inJoinedLine, inLine)
  {
    multilineComment := inComment;
    var line := inLine;
    lineResult := inJoinedLine;
    joinedLine := "";
    mustContinue := false;
    while |line| > 0
      invariant joinedLine == "" && !mustContinue
      invariant FilterLoop(multilineComment, line, lineResult) == FilterOf(inComment, inJoinedLine, inLine)
      decreases Measure(multilineComment, line)
    {
      if multilineComment {
        if Contains(line, MultiCommentEnd) {
          var e := After(line, MultiCommentEnd);
          lineResult := lineResult + e;
          line := MultiCommentEnd + e;
          multilineComment := false;
        } else {
          joinedLine := joinedLine + lineResult;
          mustContinue := true;
          break;
        }
      } else {
        if Contains(line, MultiCommentStart) {
          var s, e := Before(line, MultiCommentStart), After(line, MultiCommentStart);
          lineResult := lineResult + s;
          line := MultiCommentStart + e;
          multilineComment := true;
        } else {
          lineResult := lineResult + line;
          break;
        }
      }
    }
  }

  // The carry comes back non-empty only with a held-back line, and then it
  // is that line; a held-back line always leaves a comment open.
  lemma {:induction false} CarryOnlyWhenHeld(multilineComment: bool, line: string, lineResult: string)
    ensures var r := FilterLoop(multilineComment, line, lineResult);
      (r.mustContinue ==> r.multilineComment && r.joinedLine == r.line)
      && (!r.mustContinue ==> r.joinedLine == "")
    decreases Measure(multilineComment, line)
  {
    if |line| > 0 {
      if multilineComment && Contains(line, MultiCommentEnd) {
        var e := After(line, MultiCommentEnd);
        assert IndexOf(line, MultiCommentEnd) == 0 ==> StartsWith(line, MultiCommentEnd);
        CarryOnlyWhenHeld(false, MultiCommentEnd + e, lineResult + e);
      } else if !multilineComment && Contains(line, MultiCommentStart) {
        var e := After(line, MultiCommentStart);
        assert IndexOf(line, MultiCommentStart) == 0 ==> StartsWith(line, MultiCommentStart);
        CarryOnlyWhenHeld(true, MultiCommentStart + e, lineResult + Before(line, MultiCommentStart));
      }
    }
  }

  // The incoming carry always starts the logical line.
  lemma {:induction false} CarryStartsLine(multilineComment: bool, line: string, lineResult: string)
    ensures StartsWith(FilterLoop(multilineComment, line, lineResult).line, lineResult)
    decreases Measure(multilineComment, line)
  {
    if |line| > 0 {
      if multilineComment && Contains(line, MultiCommentEnd) {
        var e := After(line, MultiCommentEnd);
        assert IndexOf(line, MultiCommentEnd) == 0 ==> StartsWith(line, MultiCommentEnd);
        CarryStartsLine(false, MultiCommentEnd + e, lineResult + e);
        StartsWithLonger(FilterLoop(false, MultiCommentEnd + e, lineResult + e).line, lineResult, e);
      } else if !multilineComment && Contains(line, MultiCommentStart) {
        var e, s := After(line, MultiCommentStart), Before(line, MultiCommentStart);
        assert IndexOf(line, MultiCommentStart) == 0 ==> StartsWith(line, MultiCommentStart);
        CarryStartsLine(true, MultiCommentStart + e, lineResult + s);
        StartsWithLonger(FilterLoop(true, MultiCommentStart + e, lineResult + s).line, lineResult, s);
      } else if !multilineComment {
        StartsWithLonger(lineResult + line, lineResult, line);
      }
    }
  }

  lemma StartsWithLonger(r: string, a: string, b: string)
    requires r == a + b || StartsWith(r, a + b)
    ensures StartsWith(r, a)
  {
    assert (a + b)[..|a|] == a;
    assert r[..|a|] == r[..|a + b|][..|a|];
  }

  // Outside a comment, a line without `/*` is appended to the carry, the
  // carry is cleared and nothing is held back.
  lemma PlainLine(joinedLine: string, line: string)
    requires !Contains(line, MultiCommentStart)
    ensures FilterOf(false, joinedLine, line) == FilterResult(false, "", joinedLine + line, false)
  {
    if line == [] {
      assert joinedLine + line == joinedLine;
    }
  }

  // An empty line leaves the state as it is, clears the carry and hands the
  // carry on as the logical line.
  lemma EmptyLine(multilineComment: bool, joinedLine: string)
    ensures FilterOf(multilineComment, joinedLine, "") == FilterResult(multilineComment, "", joinedLine, false)
  {
  }

  // Inside a comment, a non-empty line without `*/` is swallowed: the carry
  // comes back unchanged as both the new carry and the held-back line.
  lemma SwallowedLine(joinedLine: string, line: string)
    requires |line| > 0 && !Contains(line, MultiCommentEnd)
    ensures FilterOf(true, joinedLine, line) == FilterResult(true, joinedLine, joinedLine, true)
  {
  }

  // A `/*` that is not closed later on the line opens a comment and holds
  // the line back, carrying the text before the `/*`.
  lemma OpenedLine(joinedLine: string, line: string)
    requires Contains(line, MultiCommentStart)
    requires !Contains(MultiCommentStart + After(line, MultiCommentStart), MultiCommentEnd)
    ensures var carry := joinedLine + Before(line, MultiCommentStart);
      FilterOf(false, joinedLine, line) == FilterResult(true, carry, carry, true)
  {
    var e := After(line, MultiCommentStart);
    SwallowedLine(joinedLine + Before(line, MultiCommentStart), MultiCommentStart + e);
  }

  // Closing a comment appends the text after `*/`, then rescans `*/` and
  // that text with the comment closed and appends both again: with no
  // further `/*`, the remainder `e` appears twice.
  lemma ClosedLine(joinedLine: string, line: string)
    requires Contains(line, MultiCommentEnd)
    requires !Contains(MultiCommentEnd + After(line, MultiCommentEnd), MultiCommentStart)
    ensures var e := After(line, MultiCommentEnd);
      FilterOf(true, joinedLine, line) == FilterResult(false, "", joinedLine + e + MultiCommentEnd + e, false)
  {
    var e := After(line, MultiCommentEnd);
    PlainLine(joinedLine + e, MultiCommentEnd + e);
    assert joinedLine + e + (MultiCommentEnd + e) == joinedLine + e + MultiCommentEnd + e;
  }

  // A whole `/* x */` comment on one line, followed by `e`, leaves `e`, then
  // `*/` and `e` again: `/* x */41` outside a comment becomes `41*/41`.
  lemma CommentThenText(joinedLine: string, x: string, e: string)
    requires '*' !in x && '/' !in x && !Contains(MultiCommentEnd + e, MultiCommentStart)
    ensures FilterOf(false, joinedLine, MultiCommentStart + x + MultiCommentEnd + e)
      == FilterResult(false, "", joinedLine + e + MultiCommentEnd + e, false)
  {
    var line := MultiCommentStart + x + MultiCommentEnd + e;
    assert line[..2] == MultiCommentStart;
    IndexOfIs(line, MultiCommentStart, 0);
    assert Before(line, MultiCommentStart) == [];
    assert line[2..] == x + MultiCommentEnd + e;
    assert MultiCommentStart + line[2..] == line;
    assert joinedLine + [] == joinedLine;
    var k := 2 + |x|;
    assert line[k..k + 2] == MultiCommentEnd;
    forall j | 0 <= j < k ensures !MatchAt(line, MultiCommentEnd, j) {
      assert line[j..j + 2] == [line[j], line[j + 1]];
      if j == 0 {
        assert line[0] == '/';
      } else if j == 1 {
        assert line[2] != '/';
      } else {
        assert line[j] == x[j - 2];
      }
    }
    IndexOfIs(line, MultiCommentEnd, k);
    assert line[k + 2..] == e;
    assert FilterOf(false, joinedLine, line) == FilterLoop(true, line, joinedLine);
    ClosedLine(joinedLine, line);
  }

  lemma CommentThenHex()
    ensures FilterOf(false, "", "/* x */41").line == "41*/41"
  {
    var x, e := " x ", "41";
    assert !Contains(MultiCommentEnd + e, MultiCommentStart) by {
      NoOpenIn(MultiCommentEnd + e);
    }
    CommentThenText("", x, e);
    assert MultiCommentStart + x + MultiCommentEnd + e == "/* x */41";
    assert "" + e + MultiCommentEnd + e == "41*/41";
  }

  // Past its first character the text has no `*`, so it holds no `/*`.
  lemma NoOpenIn(s: string)
    requires |s| > 0 && '*' !in s[1..]
    ensures !Contains(s, MultiCommentStart)
  {
    forall j | 0 <= j ensures !MatchAt(s, MultiCommentStart, j) {
      if j + 2 <= |s| {
        assert s[j..j + 2][1] == s[1..][j];
      }
    }
  }
}
