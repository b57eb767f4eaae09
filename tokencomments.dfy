/**
  `testComment` (xxToken.go): decides whether a token is a comment, and cuts
  an embedded comment off a non-ASCII token. The cut is a scan over the 171
  markers of `getCommentList`; the lemmas here show that the scan cuts the
  text before its first marker character.
 */
module TokenComments {
  import opened GoStrings
  import opened Tables
  import opened XxTokens

  /** The first byte of a text: what `inTok.normData[0]` reads. */
  function FirstByte(s: string): byte
    requires |s| > 0
  {
    EncodeRune(s[0])[0]
  }

  /** What `testComment` needs to index the text without a panic: a first
      byte when the stored length is positive, two bytes when it exceeds 1. */
  predicate CommentTestable(t: Token) {
    (t.normDataLen > 0 ==> |t.normData| > 0) && (t.normDataLen > 1 ==> ByteLen(t.normData) >= 2)
  }

  /** Every token of `ts` can go through `testComment`. */
  predicate AllTestable(ts: seq<Token>) {
    forall j :: 0 <= j < |ts| ==> CommentTestable(ts[j])
  }

  /** The first two characters hold one of the two-character markers. The
      source tests the first two bytes; those spell `--` or `//` exactly when
      the first two characters do. */
  predicate TwoCharAtStart(s: string) {
    |s| >= 2 && exists k :: k in TwoCharComments && Contains(s[..2], k)
  }

  /** The token after the inner loop finds a character of marker `m`: the
      text is cut before the first `m`, its length recomputed, and the token
      marked as holding a comment. */
  function Hit(u: Token, m: string): Token {
    var temp := Before(u.normData, m);
    u.(normData := temp, normDataLen := ByteLen(temp), hasComment := true)
  }

  /** The inner loop over the characters `cs` of the text as it was when
      marker `m`'s turn began, after its first `i` characters. */
  function ScanChars(u: Token, m: string, cs: string, i: nat): Token
    requires i <= |cs|
  {
    if i == 0 then u
    else
      var v := ScanChars(u, m, cs, i - 1);
      if Contains(m, [cs[i - 1]]) then Hit(v, m) else v
  }

  /** The outer loop after the first `k` markers of `ms`. */
  function ScanMarkers(u: Token, ms: seq<string>, k: nat): Token
    requires k <= |ms|
  {
    if k == 0 then u
    else
      var v := ScanMarkers(u, ms, k - 1);
      ScanChars(v, ms[k - 1], v.normData, |v.normData|)
  }

  /** What `testComment` leaves in the token. A positive stored length
      with an empty text would make Go's `normData[0]` panic; `TestComment`
      requires `CommentTestable`, which rules that out, and here such a
      token is left as it is. */
  function TestCommentOf(t: Token): Token {
    if t.normDataLen > 0 && t.normData != [] then
      if IsCharComment([FirstByte(t.normData) as char]) then t.(isComment := true)
      else if t.normDataLen > 1 && TwoCharAtStart(t.normData) then t.(isComment := true)
      else if !t.isAscii then ScanMarkers(t, CommentList(), |CommentList()|)
      else t
    else t
  }

  /** `testComment(inTok)`. The marker list is built by the sequential
      `getCommentList`. */
  method TestComment(inTok: XxToken)
    requires CommentTestable(inTok.Value())
    modifies inTok
    ensures inTok.Value() == TestCommentOf(old(inTok.Value()))
  {
    if inTok.normDataLen > 0 {
      var firstCharComment := TestCharComment([FirstByte(inTok.normData) as char]);
      if firstCharComment {
        inTok.isComment := true;
        return;
      } else {
        if inTok.normDataLen > 1 && |inTok.normData| >= 2 {
          for j := 0 to |TwoCharComments|
            invariant forall j' :: 0 <= j' < j ==> !Contains(inTok.normData[..2], TwoCharComments[j'])
          {
            if Contains(inTok.normData[..2], TwoCharComments[j]) {
              inTok.isComment := true;
              return;
            }
          }
        }
      }
      if !inTok.isAscii {
        ScanComments(inTok);
      }
    }
  }

  /** The marker scan of `testComment`: for each marker, each character of
      the text as it stood when the marker's turn began. */
  method ScanComments(inTok: XxToken)
    modifies inTok
    ensures inTok.Value() == ScanMarkers(old(inTok.Value()), CommentList(), |CommentList()|)
  {
    var cL := GetCommentList();
    var tempString := inTok.normData;
    for k := 0 to |cL|
      invariant inTok.Value() == ScanMarkers(old(inTok.Value()), cL, k)
      invariant tempString == inTok.normData
    {
      tempString := ScanCommentChars(inTok, cL[k], tempString);
    }
  }

  /** The inner loop of the scan for one marker. */
  method ScanCommentChars(inTok: XxToken, comment: string, inString: string) returns (tempString: string)
    requires inString == inTok.normData
    modifies inTok
    ensures inTok.Value() == ScanChars(old(inTok.Value()), comment, inString, |inString|)
    ensures tempString == inTok.normData
  {
    tempString := inString;
    var split := SplitChars(tempString);
    for i := 0 to |split|
      invariant inTok.Value() == ScanChars(old(inTok.Value()), comment, inString, i)
      invariant tempString == inTok.normData
    {
      var c := split[i];
      ghost var v := inTok.Value();
      if Contains(comment, c) {
        tempString := Before(tempString, comment);
        inTok.hasComment := true;
        inTok.normData := tempString;
        inTok.normDataLen := ByteLen(tempString);
        assert inTok.Value() == Hit(v, comment);
      }
    }
  }

  // ---- the scan cuts at the first marker character ----

  /** The first position of `s` holding a character of `p`, or `|s|`. */
  function FirstIn(s: string, p: seq<char>): (i: nat)
    ensures i <= |s|
    ensures forall j :: 0 <= j < i ==> s[j] !in p
    ensures i < |s| ==> s[i] in p
  {
    if s == [] then 0 else if s[0] in p then 0 else 1 + FirstIn(s[1..], p)
  }

  lemma FirstInIs(s: string, p: seq<char>, i: nat)
    requires i <= |s| && (forall j :: 0 <= j < i ==> s[j] !in p) && (i < |s| ==> s[i] in p)
    ensures FirstIn(s, p) == i
  {
  }

  /** The first position of `s` holding a marker character, or `|s|`. */
  function FirstMarker(s: string): (i: nat)
    ensures i <= |s|
    ensures forall j :: 0 <= j < i ==> !IsMarkerChar(s[j])
    ensures i < |s| ==> IsMarkerChar(s[i])
  {
    if s == [] then 0 else if IsMarkerChar(s[0]) then 0 else 1 + FirstMarker(s[1..])
  }

  /** The token with its text cut at position `i`: unchanged when `i` is the
      end, otherwise cut, re-measured and marked as holding a comment. */
  function Cut(t: Token, i: nat): Token
    requires i <= |t.normData|
  {
    if i < |t.normData| then
      t.(normData := t.normData[..i], normDataLen := ByteLen(t.normData[..i]), hasComment := true)
    else t
  }

  /** The characters of the one-character markers among `ms`, in order. */
  function MarkerChars(ms: seq<string>): seq<char> {
    if ms == [] then [] else MarkerChars(ms[..|ms| - 1]) + (if |ms[|ms| - 1]| == 1 then ms[|ms| - 1] else [])
  }

  lemma {:induction false} MarkerCharsAppend(a: seq<string>, b: seq<string>)
    ensures MarkerChars(a + b) == MarkerChars(a) + MarkerChars(b)
    decreases |b|
  {
    if b == [] {
      assert a + b == a;
    } else {
      var n := |b| - 1;
      assert (a + b)[..|a + b| - 1] == a + b[..n];
      MarkerCharsAppend(a, b[..n]);
    }
  }

  /** Cutting before a character of marker `m` twice is cutting once. */
  lemma HitTwice(u: Token, m: string)
    requires |m| > 0
    ensures Hit(Hit(u, m), m) == Hit(u, m)
  {
  }

  /** A marker none of whose characters is in `cs` leaves the token alone. */
  lemma {:induction false} ScanCharsMiss(u: Token, m: string, cs: string, i: nat)
    requires i <= |cs| && forall j :: 0 <= j < i ==> cs[j] !in m
    ensures ScanChars(u, m, cs, i) == u
  {
    if i > 0 {
      ScanCharsMiss(u, m, cs, i - 1);
      ContainsOneChar(m, cs[i - 1]);
    }
  }

  /** A one-character marker cuts once if its character occurs. */
  lemma {:induction false} ScanCharsSingle(u: Token, m: string, cs: string, i: nat)
    requires |m| == 1 && i <= |cs|
    ensures ScanChars(u, m, cs, i) == if m[0] in cs[..i] then Hit(u, m) else u
  {
    if i > 0 {
      ScanCharsSingle(u, m, cs, i - 1);
      ContainsOneChar(m, cs[i - 1]);
      assert cs[i - 1] in m <==> cs[i - 1] == m[0];
      assert cs[..i] == cs[..i - 1] + [cs[i - 1]];
      HitTwice(u, m);
    }
  }

  /** Cutting at a one-character marker is cutting at its first occurrence. */
  lemma BeforeSingle(s: string, c: char)
    ensures Before(s, [c]) == s[..FirstIn(s, [c])]
  {
    ContainsOneChar(s, c);
    if c in s {
      var i := IndexOf(s, [c]);
      assert s[i..i + 1] == [c];
      forall j | 0 <= j < i ensures s[j] != c {
        assert s[j..j + 1] == [s[j]];
        assert !MatchAt(s, [c], j);
      }
      FirstInIs(s, [c], i);
    }
  }

  /** Cutting the prefix before the first `p` character at `c` is cutting
      the whole text before its first `p` or `c` character. */
  lemma CutCompose(s: string, p: seq<char>, c: char)
    ensures var i := FirstIn(s, p);
      FirstIn(s, p + [c]) == FirstIn(s[..i], [c])
      && (c in s[..i] <==> FirstIn(s[..i], [c]) < i)
  {
    var i := FirstIn(s, p);
    var x := s[..i];
    var i2 := FirstIn(x, [c]);
    forall j | 0 <= j < i2 ensures s[j] !in p + [c] {
      assert s[j] == x[j];
    }
    if i2 < i {
      assert s[i2] == x[i2];
    }
    FirstInIs(s, p + [c], i2);
    if c in x {
      var j :| 0 <= j < |x| && x[j] == c;
      assert i2 <= j;
    }
  }

  /** The marker characters of markers that are all one character long. */
  lemma {:induction false} MarkerCharsOfSingles(ms: seq<string>)
    requires forall j :: 0 <= j < |ms| ==> |ms[j]| == 1
    ensures |MarkerChars(ms)| == |ms|
    ensures forall j :: 0 <= j < |ms| ==> MarkerChars(ms)[j] == ms[j][0]
  {
    if ms != [] {
      MarkerCharsOfSingles(ms[..|ms| - 1]);
    }
  }

  /** The two two-character markers sit at positions 7 and 8, after every
      one-character ASCII marker, so their characters are already among the
      marker characters seen; every other marker is one character. */
  lemma CommentListShape()
    ensures var cl := CommentList();
      cl[7] == "--" && cl[8] == "//"
      && (forall k :: 0 <= k < |cl| && k != 7 && k != 8 ==> |cl[k]| == 1)
      && '-' in MarkerChars(cl[..7]) && '/' in MarkerChars(cl[..7])
      && MarkerChars(cl[..8]) == MarkerChars(cl[..7])
      && (forall c :: c in MarkerChars(cl[..7]) <==> IsAsciiMarkerChar(c))
  {
    var cl := CommentList();
    var d := DrawingMarkers(CommentStart, CommentEnd + 1);
    assert cl == AsciiComments + TwoCharComments + d;
    assert cl[..7] == AsciiComments;
    forall k | 0 <= k < |cl| && k != 7 && k != 8 ensures |cl[k]| == 1 {
      if k >= 9 {
        assert cl[k] == d[k - 9];
      }
    }
    var a, mc := AsciiComments, MarkerChars(AsciiComments);
    MarkerCharsOfSingles(a);
    assert mc[5] == '-' && mc[6] == '/';
    forall c ensures c in mc <==> IsAsciiMarkerChar(c) {
      if c in mc {
        var j :| 0 <= j < |mc| && mc[j] == c;
        assert a[j] == [c];
      }
      if IsAsciiMarkerChar(c) {
        var j :| 0 <= j < |a| && a[j] == [c];
        assert mc[j] == c;
      }
    }
    assert cl[..8][..7] == cl[..7];
  }

  /** One more one-character marker `c` after the markers of `p`. */
  lemma ScanStepSingle(t: Token, p: seq<char>, c: char)
    ensures var s := t.normData;
      var v := Cut(t, FirstIn(s, p));
      ScanChars(v, [c], v.normData, |v.normData|) == Cut(t, FirstIn(s, p + [c]))
  {
    var i := FirstIn(t.normData, p);
    ScanWhole(Cut(t, i), c);
    CutCompose(t.normData, p, c);
    CutThenHit(t, i, c);
  }

  lemma ScanWhole(v: Token, c: char)
    ensures ScanChars(v, [c], v.normData, |v.normData|) == (if c in v.normData then Hit(v, [c]) else v)
  {
    ScanCharsSingle(v, [c], v.normData, |v.normData|);
    assert v.normData[..|v.normData|] == v.normData;
  }

  /** Cutting at `i` and then at the first `c` before `i` is cutting at
      that `c`. */
  lemma CutThenHit(t: Token, i: nat, c: char)
    requires i <= |t.normData|
    ensures var s := t.normData; var i2 := FirstIn(s[..i], [c]);
      Cut(t, i).normData == s[..i]
      && (c in s[..i] ==> Hit(Cut(t, i), [c]) == Cut(t, i2))
  {
    var s := t.normData;
    var i2 := FirstIn(s[..i], [c]);
    if c in s[..i] {
      var temp := s[..i2];
      assert Before(s[..i], [c]) == temp by {
        BeforeSingle(s[..i], c);
        assert s[..i][..i2] == temp;
      }
      assert Cut(t, i2) == t.(normData := temp, normDataLen := ByteLen(temp), hasComment := true);
    }
  }

  /** A marker whose characters are all among those of `p` changes nothing. */
  lemma ScanStepMiss(t: Token, p: seq<char>, m: string)
    requires forall c :: c in m ==> c in p
    ensures var s := t.normData;
      var v := Cut(t, FirstIn(s, p));
      ScanChars(v, m, v.normData, |v.normData|) == v
  {
    var s := t.normData;
    var i := FirstIn(s, p);
    var v := Cut(t, i);
    assert v.normData == s[..i];
    forall j | 0 <= j < |v.normData| ensures v.normData[j] !in m {
      assert v.normData[j] == s[j] && s[j] !in p;
    }
    ScanCharsMiss(v, m, v.normData, |v.normData|);
  }

  /** Every character of a marker longer than one character is the
      character of an earlier one-character marker. */
  predicate LongMarkersSeen(ms: seq<string>) {
    forall i :: 0 <= i < |ms| && |ms[i]| != 1 ==>
      forall c :: c in ms[i] ==> c in MarkerChars(ms[..i])
  }

  /** After the first `k` markers, the scan has cut the text before its first
      character among those markers' characters. */
  lemma {:induction false} ScanMarkersCut(t: Token, ms: seq<string>, k: nat)
    requires k <= |ms| && LongMarkersSeen(ms)
    ensures ScanMarkers(t, ms, k) == Cut(t, FirstIn(t.normData, MarkerChars(ms[..k])))
  {
    if k == 0 {
      assert FirstIn(t.normData, []) == |t.normData|;
    } else {
      ScanMarkersCut(t, ms, k - 1);
      ScanMarkersStep(t, ms, k);
    }
  }

  /** One more marker in the scan: a one-character marker cuts at its
      character too, a longer one cuts nothing more. */
  lemma ScanMarkersStep(t: Token, ms: seq<string>, k: nat)
    requires 0 < k <= |ms| && LongMarkersSeen(ms)
    requires ScanMarkers(t, ms, k - 1) == Cut(t, FirstIn(t.normData, MarkerChars(ms[..k - 1])))
    ensures ScanMarkers(t, ms, k) == Cut(t, FirstIn(t.normData, MarkerChars(ms[..k])))
  {
    var p := MarkerChars(ms[..k - 1]);
    var m := ms[k - 1];
    assert MarkerChars(ms[..k]) == p + (if |m| == 1 then [m[0]] else []) by {
      assert ms[..k][..k - 1] == ms[..k - 1] && ms[..k][k - 1] == m;
      MarkerCharsStep(ms[..k]);
    }
    if |m| == 1 {
      assert m == [m[0]];
      ScanStepSingle(t, p, m[0]);
    } else {
      assert forall c :: c in m ==> c in p;
      ScanStepMiss(t, p, m);
      assert p + [] == p;
    }
  }

  /** The last marker of `ms` adds its character when it has one. */
  lemma MarkerCharsStep(ms: seq<string>)
    requires ms != []
    ensures var m := ms[|ms| - 1];
      MarkerChars(ms) == MarkerChars(ms[..|ms| - 1]) + (if |m| == 1 then [m[0]] else [])
  {
    var m := ms[|ms| - 1];
    if |m| == 1 {
      assert [m[0]] == m;
    }
  }

  /** The two-character markers come after `-` and `/`. */
  lemma CommentListSeen()
    ensures LongMarkersSeen(CommentList())
  {
    var cl := CommentList();
    CommentListShape();
    assert cl[..8] == cl[..7] + [cl[7]];
  }

  /** The marker characters of the whole list are exactly the marker
      characters. */
  lemma AllMarkerChars(c: char)
    ensures c in MarkerChars(CommentList()) <==> IsMarkerChar(c)
  {
    var cl := CommentList();
    var d := DrawingMarkers(CommentStart, CommentEnd + 1);
    CommentListShape();
    assert cl == cl[..9] + d;
    MarkerCharsAppend(cl[..9], d);
    assert cl[..9][..8] == cl[..8];
    assert MarkerChars(cl[..9]) == MarkerChars(cl[..8]);
    MarkerCharsOfSingles(d);
    if CommentStart <= c as int <= CommentEnd {
      assert MarkerChars(d)[c as int - CommentStart] == c;
    }
  }

  /** The whole scan cuts the text before its first marker character. */
  lemma ScanCutsAtFirstMarker(t: Token)
    ensures ScanMarkers(t, CommentList(), |CommentList()|) == Cut(t, FirstMarker(t.normData))
  {
    var cl := CommentList();
    var s := t.normData;
    CommentListSeen();
    ScanMarkersCut(t, cl, |cl|);
    assert cl[..|cl|] == cl;
    var i := FirstMarker(s);
    forall j | 0 <= j < i ensures s[j] !in MarkerChars(cl) {
      AllMarkerChars(s[j]);
    }
    if i < |s| {
      AllMarkerChars(s[i]);
    }
    FirstInIs(s, MarkerChars(cl), i);
  }

  // ---- what testComment decides ----

  /** A text that contains a text of its own length is that text. */
  lemma ContainsSameLength(x: string, k: string)
    requires |x| == |k| && Contains(x, k)
    ensures x == k
  {
    var i := IndexOf(x, k);
    assert x[i..i + |k|] == k;
  }

  /** A text starting `--` or `//` starts with a one-character marker. */
  lemma TwoCharStartsWithMarker(s: string)
    requires |s| > 0
    ensures TwoCharAtStart(s) ==> IsAsciiMarkerChar(s[0])
  {
    if TwoCharAtStart(s) {
      var k :| k in TwoCharComments && Contains(s[..2], k);
      ContainsSameLength(s[..2], k);
      assert s[0] == k[0];
      assert "-" in AsciiComments && "/" in AsciiComments;
    }
  }

  /** The two-character test never fires: a text starting `--` or `//`
      starts with a one-character marker, which the first test already took. */
  lemma TwoCharTestIsDead(s: string)
    requires |s| > 0 && !IsCharComment([FirstByte(s) as char])
    ensures !TwoCharAtStart(s)
  {
    FirstByteSeesAsciiMarkersOnly(s[0]);
    TwoCharStartsWithMarker(s);
  }

  /** A token with no length is unchanged. */
  lemma TestCommentEmpty(t: Token)
    requires CommentTestable(t) && t.normDataLen <= 0
    ensures TestCommentOf(t) == t
  {
  }

  /** A token starting with one of the seven ASCII markers becomes a comment
      with its text untouched; no other character at the start does, since
      only the first byte is looked at. */
  lemma TestCommentFirstChar(t: Token)
    requires CommentTestable(t) && t.normDataLen > 0
    ensures IsAsciiMarkerChar(t.normData[0]) ==> TestCommentOf(t) == t.(isComment := true)
    ensures !IsAsciiMarkerChar(t.normData[0]) ==> !TestCommentOf(t).isComment || t.isComment
  {
    FirstByteSeesAsciiMarkersOnly(t.normData[0]);
    if !IsAsciiMarkerChar(t.normData[0]) {
      TwoCharTestIsDead(t.normData);
      if !t.isAscii {
        ScanCutsAtFirstMarker(t);
      }
    }
  }

  /** An ASCII token that does not start with a marker is left as it is. */
  lemma TestCommentAsciiUnchanged(t: Token)
    requires CommentTestable(t) && t.normDataLen > 0 && t.isAscii
    requires !IsAsciiMarkerChar(t.normData[0])
    ensures TestCommentOf(t) == t
  {
    FirstByteSeesAsciiMarkersOnly(t.normData[0]);
    TwoCharTestIsDead(t.normData);
  }

  /** A non-ASCII token that does not start with an ASCII marker is cut
      before its first marker character (an ASCII marker or a drawing
      character); `hasComment` is set and the length re-measured exactly when
      there was one. */
  lemma TestCommentCutsNonAscii(t: Token)
    requires CommentTestable(t) && t.normDataLen > 0 && !t.isAscii
    requires !IsAsciiMarkerChar(t.normData[0])
    ensures var s, r := t.normData, TestCommentOf(t);
      var i := FirstMarker(s);
      r.normData == s[..i]
      && (forall j :: 0 <= j < |r.normData| ==> !IsMarkerChar(r.normData[j]))
      && (i < |s| ==> IsMarkerChar(s[i]) && r.hasComment && r.normDataLen == |Utf8(r.normData)|)
      && (i == |s| ==> r == t)
      && r.(normData := s, normDataLen := t.normDataLen, hasComment := t.hasComment) == t
  {
    FirstByteSeesAsciiMarkersOnly(t.normData[0]);
    TwoCharTestIsDead(t.normData);
    ScanCutsAtFirstMarker(t);
  }
}
