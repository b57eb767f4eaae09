/**
  `getTokenAttributes` (method.go): the five token passes run in order on
  one token, and what they decide together for a token as `initXxToken`
  leaves it.
 */
module Attributes {
  import opened Wrappers
  import opened GoStrings
  import opened GoHex
  import opened Tables
  import opened Helpers
  import opened XxTokens
  import opened TokenComments

  /** What `getTokenAttributes` leaves in the token. */
  function AttributesOf(t: Token): Token {
    GetHexOf(TestHexDataOf(TestBinaryOf(TestCommentOf(TestASCIIOf(t)))))
  }

  /** `getTokenAttributes(inTok)`. */
  method GetTokenAttributes(inTok: XxToken)
    requires CommentTestable(inTok.Value())
    modifies inTok
    ensures inTok.Value() == AttributesOf(old(inTok.Value()))
  {
    TestASCII(inTok);
    TestComment(inTok);
    TestBinary(inTok);
    TestHexData(inTok);
    GetHexFromString(inTok);
  }

  /** A token as `initXxToken` leaves it. */
  predicate Fresh(t: Token) {
    t == InitOf(ZeroToken, t.rawData, t.lineNum, t.isComment, t.isString)
  }

  /** A fresh token's lengths agree with its text, so `testComment` may
      look at its first bytes. */
  lemma FreshIsTestable(t: Token)
    requires Fresh(t)
    ensures CommentTestable(t)
  {
  }

  /** `r` has the origin of `t` and keeps its comment flags. */
  predicate SameOrigin(t: Token, r: Token) {
    r.lineNum == t.lineNum && r.rawData == t.rawData && r.rawDataLen == t.rawDataLen
    && r.isString == t.isString
    && (t.isComment ==> r.isComment) && (t.hasComment ==> r.hasComment)
  }

  /** The passes never touch the line number, the raw text, its length or
      the quoting, and never clear a comment flag. */
  lemma AttributesKeepOrigin(t: Token)
    requires CommentTestable(t)
    ensures SameOrigin(t, AttributesOf(t))
  {
    var a := TestASCIIOf(t);
    TestCommentKeepsOrigin(a);
    var c := TestCommentOf(a);
    var b := TestBinaryOf(c);
    var h := TestHexDataOf(b);
    LaterPassesKeepOrigin(c);
    assert SameOrigin(t, a);
  }

  lemma LaterPassesKeepOrigin(c: Token)
    ensures SameOrigin(c, GetHexOf(TestHexDataOf(TestBinaryOf(c))))
  {
    var b := TestBinaryOf(c);
    var h := TestHexDataOf(b);
    assert SameOrigin(c, b);
    assert SameOrigin(b, h);
    assert SameOrigin(h, GetHexOf(h));
  }

  lemma TestCommentKeepsOrigin(t: Token)
    requires CommentTestable(t)
    ensures SameOrigin(t, TestCommentOf(t))
  {
    if t.normDataLen > 0 && !IsCharComment([FirstByte(t.normData) as char])
      && !(t.normDataLen > 1 && TwoCharAtStart(t.normData)) && !t.isAscii
    {
      ScanCutsAtFirstMarker(t);
    }
  }

  /** A comment keeps the hex it had: neither `testHexData` nor
      `getHexFromString` fills in a comment. */
  lemma CommentGetsNoHex(t: Token)
    requires CommentTestable(t)
    ensures AttributesOf(t).isComment ==>
      AttributesOf(t).hexData == t.hexData && AttributesOf(t).isHex == t.isHex
  {
    var a := TestASCIIOf(t);
    TestCommentKeepsHex(a);
    LaterPassesSkipComment(TestCommentOf(a));
  }

  lemma TestCommentKeepsHex(t: Token)
    requires CommentTestable(t)
    ensures TestCommentOf(t).hexData == t.hexData && TestCommentOf(t).isHex == t.isHex
  {
    if t.normDataLen > 0 && !IsCharComment([FirstByte(t.normData) as char])
      && !(t.normDataLen > 1 && TwoCharAtStart(t.normData)) && !t.isAscii
    {
      ScanCutsAtFirstMarker(t);
    }
  }

  lemma LaterPassesSkipComment(c: Token)
    ensures var r := GetHexOf(TestHexDataOf(TestBinaryOf(c)));
      r.isComment == c.isComment && (c.isComment ==> r.hexData == c.hexData && r.isHex == c.isHex)
  {
  }

  /** A quoted token is never taken as hex. */
  lemma QuotedNeverHex(t: Token)
    requires CommentTestable(t) && t.isString
    ensures AttributesOf(t).isHex == t.isHex
  {
    var a := TestASCIIOf(t);
    if a.normDataLen > 0 && !IsCharComment([FirstByte(a.normData) as char])
      && !(a.normDataLen > 1 && TwoCharAtStart(a.normData)) && !a.isAscii
    {
      ScanCutsAtFirstMarker(a);
    }
  }

  /** A fresh ASCII token that starts with one of `# ; % | ESC - /` becomes a
      comment and nothing else. */
  lemma MarkerTokenIsComment(t: Token)
    requires Fresh(t) && t.rawData != [] && IsAscii(t.rawData) && IsAsciiMarkerChar(t.rawData[0])
    ensures AttributesOf(t) == t.(isAscii := true, isComment := true)
  {
    var a := TestASCIIOf(t);
    assert a == t.(isAscii := true);
    TestCommentFirstChar(a);
    assert !IsBinaryLiteral(a.(isComment := true)) by {
      assert a.normData[0] != '0';
    }
  }

  /** A fresh quoted ASCII token that does not start with a marker is
      written as the hex of its characters, which decodes back to their
      codes. */
  lemma QuotedTokenIsText(t: Token)
    requires Fresh(t) && !t.isComment && t.isString
    requires t.rawData != [] && IsAscii(t.rawData) && !IsAsciiMarkerChar(t.rawData[0])
    ensures var s := t.rawData; var r := AttributesOf(t);
      r == t.(isAscii := true, hexData := Ascii2HexOf(SplitChars(s)))
      && DecodeString(r.hexData) == Ok(Codes(s))
  {
    var a := TestASCIIOf(t);
    assert a == t.(isAscii := true);
    TestCommentAsciiUnchanged(a);
    Ascii2HexRoundTrip(t.rawData);
  }

  /** An unquoted ASCII text that is not a binary literal. */
  predicate PlainText(t: Token) {
    Fresh(t) && !t.isComment && !t.isString && t.rawData != [] && IsAscii(t.rawData)
    && !IsAsciiMarkerChar(t.rawData[0]) && !IsBinaryLiteral(t)
  }

  /** A fresh unquoted ASCII token that does not start with a marker and is
      not a binary literal is hex: its text with the noise deleted, whatever
      characters remain; if nothing remains it is written as the hex of its
      characters instead. */
  lemma PlainTokenIsHex(t: Token)
    requires PlainText(t)
    ensures var s, f, r := t.rawData, FilterIgnoredOf(t.rawData), AttributesOf(t);
      (f != [] ==> r == t.(isAscii := true, isHex := true, hexData := f, normData := f, normDataLen := |f|))
      && (f == [] ==> r == t.(isAscii := true, hexData := Ascii2HexOf(SplitChars(s))))
  {
    var s := t.rawData;
    var f := FilterIgnoredOf(s);
    var a := TestASCIIOf(t);
    assert a == t.(isAscii := true);
    TestCommentAsciiUnchanged(a);
    assert !IsBinaryLiteral(a);
    TestHexDataAcceptsAnything(a);
    FilteredKeepsAscii(s, |FilterList|);
    AsciiByteLen(f);
  }

  /** The noise-only text `h` gives the byte of its character: the token is
      not hex, so `getHexFromString` writes it out. */
  lemma NoiseTokenIsText(n: int)
    ensures AttributesOf(InitOf(ZeroToken, "h", n, false, false)).hexData == "68"
  {
    NoiseIsPlain(n);
    NoiseFiltersAway();
    PlainTokenIsHex(InitOf(ZeroToken, "h", n, false, false));
    NoiseHex();
  }

  lemma NoiseIsPlain(n: int)
    ensures PlainText(InitOf(ZeroToken, "h", n, false, false))
  {
    var t := InitOf(ZeroToken, "h", n, false, false);
    assert t.rawData == "h" && "h"[0] == 'h';
    assert !IsBinaryLiteral(t) by {
      assert !StartsWith("h", "0y");
    }
    assert !IsAsciiMarkerChar('h');
  }

  lemma NoiseFiltersAway()
    ensures FilterIgnoredOf("h") == []
  {
    assert FilterList[4] == "h";
    FilteredKeeps("h", "h", 0, 4);
    assert "h"[..1] == "h" && "h"[1..] == [];
    FilteredStep("h", 4, "h", []);
    FilteredKeeps("h", [], 5, 7);
  }

  lemma NoiseHex()
    ensures Ascii2HexOf(SplitChars("h")) == "68"
  {
    assert SplitChars("h") == ["h"];
    assert Utf8("h") == [0x68];
    assert EncodeToString([0x68]) == "68";
  }

  /** A fresh binary literal `0y` plus eight binary digits becomes the hex
      token of the byte those digits spell. */
  lemma BinaryTokenIsByte(t: Token)
    requires Fresh(t) && !t.isComment && IsBinaryLiteral(t)
    ensures var v := BinaryValue(t.rawData[2..]); var r := AttributesOf(t);
      v < 256 && r.isHex && r.hexData == EncodeToString([v]) && DecodeString(r.hexData) == Ok([v])
  {
    var s := t.rawData;
    BinaryLiteralLength(t);
    assert IsAscii(s) by {
      forall i | 0 <= i < |s| ensures s[i] as int < 0x80 {
        if i >= 2 {
          assert s[i] == s[2..][i - 2];
        } else {
          assert s[..2] == "0y";
          assert s[i] == s[..2][i];
        }
      }
    }
    var a := TestASCIIOf(t);
    assert a == t.(isAscii := true);
    assert s[0] == s[..2][0] == '0';
    TestCommentAsciiUnchanged(a);
    TestBinaryWritesByte(a);
    var v := BinaryValue(s[2..]);
    var b := TestBinaryOf(a);
    var h := EncodeToString([v]);
    assert b.normData == h;
    assert IsHexText(h);
    FilterKeepsHexText(h, |FilterList|);
    DecodeEncode([v]);
    TestHexDataAcceptsAnything(b);
    assert h != [];
    AsciiByteLen(h);
  }
}
