/**
  The token record of xxToken.go and the passes that fill in its attributes
  in place: `initXxToken`, `testASCII`, `testBinary`, `testHexData` and
  `getHexFromString`. Each pass is a method on an `XxToken` object, proved
  to leave the object holding a function of its old value; the properties
  the passes promise are lemmas about those functions.
 */
module XxTokens {
  import opened Wrappers
  import opened GoStrings
  import opened GoHex
  import opened Tables
  import opened Helpers

  /** The value of an `xxToken`. Lengths are Go byte lengths. */
  datatype Token = Token(
    lineNum: int,
    rawData: string,
    rawDataLen: int,
    normData: string,
    normDataLen: int,
    hexData: string,
    isString: bool,
    isAscii: bool,
    isHex: bool,
    isComment: bool,
    hasComment: bool)

  /** A freshly declared `var newToken xxToken`. */
  const ZeroToken := Token(0, "", 0, "", 0, "", false, false, false, false, false)

  /** An `xxToken` that the passes update field by field. */
  class XxToken {
    var lineNum: int
    var rawData: string
    var rawDataLen: int
    var normData: string
    var normDataLen: int
    var hexData: string
    var isString: bool
    var isAscii: bool
    var isHex: bool
    var isComment: bool
    var hasComment: bool

    constructor ()
      ensures Value() == ZeroToken
    {
      lineNum, rawData, rawDataLen := 0, "", 0;
      normData, normDataLen, hexData := "", 0, "";
      isString, isAscii, isHex, isComment, hasComment := false, false, false, false, false;
    }

    /** A copy of a token value, as Go's `range` hands out. */
    constructor FromValue(t: Token)
      ensures Value() == t
    {
      lineNum, rawData, rawDataLen := t.lineNum, t.rawData, t.rawDataLen;
      normData, normDataLen, hexData := t.normData, t.normDataLen, t.hexData;
      isString, isAscii, isHex, isComment, hasComment := t.isString, t.isAscii, t.isHex, t.isComment, t.hasComment;
    }

    function Value(): Token
      reads this
    {
      Token(lineNum, rawData, rawDataLen, normData, normDataLen, hexData,
            isString, isAscii, isHex, isComment, hasComment)
    }
  }

  /** What `initXxToken` leaves in the token; `isHex` is not touched. */
  function InitOf(t: Token, inData: string, lineNum: int, isComment: bool, isString: bool): Token {
    t.(lineNum := lineNum, rawData := inData, rawDataLen := ByteLen(inData),
       normData := inData, normDataLen := ByteLen(inData), hexData := "",
       isString := isString, isAscii := false, isComment := isComment, hasComment := false)
  }

  /** `initXxToken(inTok, inData, lineNum, isComment, isString)`: fills the
      token and returns a copy of it. */
  method InitXxToken(inTok: XxToken, inData: string, lineNum: int, isComment: bool, isString: bool)
    returns (r: Token)
    modifies inTok
    ensures inTok.Value() == InitOf(old(inTok.Value()), inData, lineNum, isComment, isString)
    ensures r == inTok.Value()
  {
    inTok.lineNum := lineNum;
    inTok.rawData := inData;
    inTok.rawDataLen := ByteLen(inData);
    inTok.normData := inData;
    inTok.normDataLen := ByteLen(inData);
    inTok.hexData := "";
    inTok.isString := isString;
    inTok.isAscii := false;
    inTok.isComment := isComment;
    inTok.hasComment := false;
    r := inTok.Value();
  }

  /** A fresh token after `initXxToken`: both texts are the input, both
      lengths its byte length, no hex, and the given comment and string
      flags. */
  lemma InitFresh(inData: string, lineNum: int, isComment: bool, isString: bool)
    ensures var r := InitOf(ZeroToken, inData, lineNum, isComment, isString);
      r.rawData == inData && r.normData == inData
      && r.rawDataLen == r.normDataLen == |Utf8(inData)| && r.hexData == ""
      && !r.isAscii && !r.isHex && !r.hasComment
      && r.isComment == isComment && r.isString == isString && r.lineNum == lineNum
      && (IsAscii(inData) ==> r.normDataLen == |inData|)
  {
    if IsAscii(inData) {
      AsciiByteLen(inData);
    }
  }

  /** What `testASCII` leaves in the token. */
  function TestASCIIOf(t: Token): Token {
    if IsAscii(t.normData) then t.(isAscii := true) else t
  }

  /** `testASCII(inTok)`. */
  method TestASCII(inTok: XxToken)
    modifies inTok
    ensures inTok.Value() == TestASCIIOf(old(inTok.Value()))
  {
    if IsAscii(inTok.normData) {
      inTok.isAscii := true;
    }
  }

  /** `testASCII` sets `isAscii` exactly for an all-ASCII text, never clears
      it, and changes nothing else. */
  lemma TestASCIISets(t: Token)
    ensures var r := TestASCIIOf(t);
      (r.isAscii <==> t.isAscii || forall i :: 0 <= i < |t.normData| ==> t.normData[i] as int < 0x80)
      && r.(isAscii := t.isAscii) == t
  {
  }

  // ---- testBinary ----

  predicate IsBinaryDigits(b: string) {
    forall i :: 0 <= i < |b| ==> b[i] == '0' || b[i] == '1'
  }

  function Pow2(n: nat): nat {
    if n == 0 then 1 else 2 * Pow2(n - 1)
  }

  /** `strconv.ParseInt(b, 2, 16)` on a text of binary digits short enough
      to fit. */
  function BinaryValue(b: string): (v: nat)
    requires IsBinaryDigits(b)
    ensures v < Pow2(|b|)
  {
    if b == [] then 0
    else 2 * BinaryValue(b[..|b| - 1]) + (if b[|b| - 1] == '1' then 1 else 0)
  }

  /** `strconv.FormatInt(v, 16)`: lower-case digits, no leading zeros. */
  function FormatHex(v: nat): (s: string)
    ensures |s| >= 1
    ensures v < 16 <==> |s| == 1
  {
    if v < 16 then [HexDigit(v)] else FormatHex(v / 16) + [HexDigit(v % 16)]
  }

  /** The number a text of hex digits spells, most significant first. */
  function HexNumber(s: string): nat
    requires forall i :: 0 <= i < |s| ==> IsHexDigit(s[i])
  {
    if s == [] then 0 else 16 * HexNumber(s[..|s| - 1]) + HexValue(s[|s| - 1])
  }

  /** `FormatHex(v)` is lower-case hex that reads back as `v`, with no
      leading zero. */
  lemma {:induction false} FormatHexValue(v: nat)
    ensures var s := FormatHex(v);
      (forall i :: 0 <= i < |s| ==> IsLowerHexDigit(s[i]))
      && HexNumber(s) == v && (|s| > 1 ==> s[0] != '0')
  {
    if v >= 16 {
      FormatHexValue(v / 16);
      var a, d := FormatHex(v / 16), HexDigit(v % 16);
      var s := FormatHex(v);
      assert s == a + [d] && s[..|s| - 1] == a;
      assert |a| > 1 || a[0] != '0' by {
        if |a| == 1 { assert HexNumber(a) == HexValue(a[0]) by { assert a[..0] == []; } }
      }
      assert s[0] == a[0];
    }
  }

  /** The two-digit text `testBinary` makes from the digits after `0y`. */
  function BinaryToHex(b: string): string
    requires IsBinaryDigits(b)
  {
    var s := FormatHex(BinaryValue(b));
    if |s| == 1 then "0" + s else s
  }

  /** A token `testBinary` rewrites: unquoted, ten bytes, `0y` then only
      binary digits. */
  predicate IsBinaryLiteral(t: Token) {
    !t.isString && ByteLen(t.normData) == 10 && StartsWith(t.normData, "0y")
    && IsBinaryDigits(t.normData[2..])
  }

  /** What `testBinary` leaves in the token; `normDataLen` is not updated. */
  function TestBinaryOf(t: Token): Token {
    if IsBinaryLiteral(t) then t.(normData := BinaryToHex(t.normData[2..])) else t
  }

  /** `testBinary(inTok)`: the digit loop returns early on the first
      character that is not `0` or `1`. */
  method TestBinary(inTok: XxToken)
    modifies inTok
    ensures inTok.Value() == TestBinaryOf(old(inTok.Value()))
  {
    if !inTok.isString {
      if ByteLen(inTok.normData) == 10 {
        if StartsWith(inTok.normData, "0y") {
          var bindata := inTok.normData[2..];
          var split := SplitChars(bindata);
          for i := 0 to |split|
            invariant IsBinaryDigits(bindata[..i])
          {
            var c := split[i];
            if c != "0" && c != "1" {
              assert !IsBinaryDigits(inTok.normData[2..]) by {
                assert bindata[i] != '0' && bindata[i] != '1';
              }
              return;
            }
            assert bindata[..i + 1] == bindata[..i] + [bindata[i]];
          }
          assert bindata[..|split|] == bindata;
          var bindatastr := FormatHex(BinaryValue(bindata));
          if |bindatastr| == 1 {
            bindatastr := "0" + bindatastr;
          }
          inTok.normData := bindatastr;
        }
      }
    }
  }

  /** The eight digits of `0y` followed by `b` are ASCII, so the ten bytes are
      ten characters. */
  lemma BinaryLiteralLength(t: Token)
    requires IsBinaryLiteral(t)
    ensures |t.normData| == 10 && |t.normData[2..]| == 8
  {
    var s := t.normData;
    assert IsAscii(s) by {
      forall i | 0 <= i < |s| ensures s[i] as int < 0x80 {
        if i >= 2 {
          assert s[2..][i - 2] == s[i];
        } else {
          assert s[..2][i] == s[i];
        }
      }
    }
    AsciiByteLen(s);
  }

  /** A value below 256 formats as the two lower-case digits `hex.EncodeToString`
      writes for that byte. */
  lemma FormatHexByte(v: nat)
    requires v < 256
    ensures (var s := FormatHex(v); if |s| == 1 then "0" + s else s) == EncodeToString([v])
  {
    assert EncodeToString([v]) == [HexDigit(v / 16), HexDigit(v % 16)] + EncodeToString([]);
    if v < 16 {
      assert HexDigit(0) == '0';
    } else {
      assert FormatHex(v / 16) == [HexDigit(v / 16)];
    }
  }

  /** `testBinary` on an unquoted `0y` token with eight binary digits writes
      the two lower-case hex digits of their value, which decode to that one
      byte; any other token is unchanged. */
  lemma TestBinaryWritesByte(t: Token)
    ensures IsBinaryLiteral(t) ==>
      var v := BinaryValue(t.normData[2..]);
      v < 256 && TestBinaryOf(t).normData == EncodeToString([v])
      && DecodeString(TestBinaryOf(t).normData) == Ok([v])
      && TestBinaryOf(t) == t.(normData := EncodeToString([v]))
    ensures !IsBinaryLiteral(t) ==> TestBinaryOf(t) == t
  {
    if IsBinaryLiteral(t) {
      BinaryLiteralLength(t);
      var v := BinaryValue(t.normData[2..]);
      assert Pow2(8) == 256;
      FormatHexByte(v);
      DecodeEncode([v]);
    }
  }

  /** The eight binary digits of a value below 256, most significant first. */
  function Bits(v: nat, n: nat): (b: string)
    ensures |b| == n && IsBinaryDigits(b)
  {
    if n == 0 then [] else Bits(v / 2, n - 1) + [if v % 2 == 1 then '1' else '0']
  }

  lemma {:induction false} BitsValue(v: nat, n: nat)
    requires v < Pow2(n)
    ensures BinaryValue(Bits(v, n)) == v
  {
    if n > 0 {
      BitsValue(v / 2, n - 1);
      var b := Bits(v, n);
      assert b[..|b| - 1] == Bits(v / 2, n - 1);
    }
  }

  /** Every one of the 256 patterns `0y` + eight digits becomes the hex of
      its own value. */
  lemma TestBinaryAllPatterns(t: Token, v: nat)
    requires v < 256 && !t.isString && t.normData == "0y" + Bits(v, 8)
    ensures TestBinaryOf(t).normData == EncodeToString([v])
  {
    var s := t.normData;
    assert s[..2] == "0y" && s[2..] == Bits(v, 8);
    assert Pow2(8) == 256;
    BitsValue(v, 8);
    assert IsAscii(s) by {
      forall i | 0 <= i < |s| ensures s[i] as int < 0x80 {
        if i >= 2 {
          assert s[2..][i - 2] == s[i];
        }
      }
    }
    AsciiByteLen(s);
    TestBinaryWritesByte(t);
  }

  // ---- testHexData ----

  /** What `testHexData` leaves in the token, with Go's error branch. */
  function TestHexDataOf(t: Token): Token {
    if !t.isComment && !t.isString then
      var tempData := FilterIgnoredOf(t.normData);
      match DecodeString(EncodeToString(Utf8(tempData)))
      case Err(_) => t
      case Ok(testHex) =>
        if |testHex| != 0 then
          t.(isHex := true, hexData := tempData, normData := tempData, normDataLen := ByteLen(tempData))
        else t
    else t
  }

  /** `testHexData(inTok)`. */
  method TestHexData(inTok: XxToken)
    modifies inTok
    ensures inTok.Value() == TestHexDataOf(old(inTok.Value()))
  {
    if !inTok.isComment && !inTok.isString {
      var tempData := FilterIgnored(inTok.normData);
      var encHex := EncodeToString(Utf8(tempData));
      var testHex := DecodeString(encHex);
      if testHex.Err? {
        return;
      }
      if |testHex.value| != 0 {
        inTok.isHex := true;
        inTok.hexData := tempData;
        inTok.normData := tempData;
        inTok.normDataLen := ByteLen(tempData);
      }
    }
  }

  /** The round trip inside `testHexData` never fails, so the pass validates
      nothing: an unquoted, non-comment token whose filtered text is not empty
      becomes hex with that text, whatever its characters; any other token is
      unchanged. */
  lemma TestHexDataAcceptsAnything(t: Token)
    ensures var tempData := FilterIgnoredOf(t.normData);
      DecodeString(EncodeToString(Utf8(tempData))).Ok?
      && TestHexDataOf(t) == if !t.isComment && !t.isString && tempData != [] then
        t.(isHex := true, hexData := tempData, normData := tempData, normDataLen := ByteLen(tempData))
      else t
  {
    DecodeEncode(Utf8(FilterIgnoredOf(t.normData)));
  }

  // ---- getHexFromString ----

  /** What `getHexFromString` leaves in the token. */
  function GetHexOf(t: Token): Token {
    if t.isAscii && ByteLen(t.hexData) == 0 && !t.isComment then
      t.(hexData := Ascii2HexOf(SplitChars(t.normData)))
    else t
  }

  /** `getHexFromString(inTok)`. */
  method GetHexFromString(inTok: XxToken)
    modifies inTok
    ensures inTok.Value() == GetHexOf(old(inTok.Value()))
  {
    if inTok.isAscii && ByteLen(inTok.hexData) == 0 {
      if !inTok.isComment {
        inTok.hexData := Ascii2Hex(SplitChars(inTok.normData));
      }
    }
  }

  /** `getHexFromString` fills an empty `hexData` of an ASCII non-comment token
      with the hex of its text, which decodes back to the character codes;
      any other token is unchanged. */
  lemma GetHexEncodesText(t: Token)
    ensures t.isAscii && t.hexData == [] && !t.isComment ==>
      GetHexOf(t) == t.(hexData := Ascii2HexOf(SplitChars(t.normData)))
      && DecodeString(GetHexOf(t).hexData) == Ok(Utf8(t.normData))
    ensures t.isAscii && t.hexData == [] && !t.isComment && IsAscii(t.normData) ==>
      DecodeString(GetHexOf(t).hexData) == Ok(Codes(t.normData))
    ensures !(t.isAscii && t.hexData == [] && !t.isComment) ==> GetHexOf(t) == t
  {
    Ascii2HexRoundTrip(t.normData);
  }
}
