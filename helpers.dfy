/**
  The two text helpers of method.go: `filterIgnored`, which deletes the
  noise substrings before a token is taken as hex, and `ascii2hex`, which
  writes each character as the hex of its bytes.
 */
module Helpers {
  import opened Wrappers
  import opened GoStrings
  import opened GoHex
  import opened Tables

  /** The text after the first `n` entries of `FilterList` have been deleted,
      one `strings.ReplaceAll` after another. */
  function Filtered(s: string, n: nat): (r: string)
    requires n <= |FilterList|
    ensures |r| <= |s|
  {
    if n == 0 then s else ReplaceAll(Filtered(s, n - 1), FilterList[n - 1])
  }

  function FilterIgnoredOf(s: string): string {
    Filtered(s, |FilterList|)
  }

  /** `filterIgnored(inText)`. */
  method FilterIgnored(inText: string) returns (newText: string)
    ensures newText == FilterIgnoredOf(inText)
  {
    newText := inText;
    for i := 0 to |FilterList|
      invariant newText == Filtered(inText, i)
    {
      newText := ReplaceAll(newText, FilterList[i]);
    }
  }

  /** The filtered text holds none of the single-character noise and is never
      longer than the input. */
  lemma FilterIgnoredRemovesNoise(s: string)
    ensures var r := FilterIgnoredOf(s);
      ',' !in r && '$' !in r && 'h' !in r && ':' !in r && ' ' !in r && |r| <= |s|
  {
    var n := |FilterList|;
    assert FilterList[0] == "," && FilterList[1] == "$" && FilterList[4] == "h";
    assert FilterList[5] == ":" && FilterList[6] == " ";
    StaysFiltered(s, ',', 1, n);
    StaysFiltered(s, '$', 2, n);
    StaysFiltered(s, 'h', 5, n);
    StaysFiltered(s, ':', 6, n);
  }

  /** A character absent after `k` deletions stays absent after more. */
  lemma {:induction false} StaysFiltered(s: string, c: char, k: nat, n: nat)
    requires k <= n <= |FilterList| && c !in Filtered(s, k)
    ensures c !in Filtered(s, n)
  {
    if n > k {
      StaysFiltered(s, c, k, n - 1);
      ReplaceAllKeepsOut(Filtered(s, n - 1), FilterList[n - 1], c);
    }
  }

  /** Filtering keeps an ASCII text ASCII. */
  lemma {:induction false} FilteredKeepsAscii(s: string, n: nat)
    requires IsAscii(s) && n <= |FilterList|
    ensures IsAscii(Filtered(s, n))
  {
    if n > 0 {
      FilteredKeepsAscii(s, n - 1);
      ReplaceAllKeepsAscii(Filtered(s, n - 1), FilterList[n - 1]);
    }
  }

  /** A text of hex digits has no noise: it passes through unchanged. */
  lemma {:induction false} FilterKeepsHexText(s: string, n: nat)
    requires IsHexText(s) && n <= |FilterList|
    ensures Filtered(s, n) == s
  {
    if n > 0 {
      FilterKeepsHexText(s, n - 1);
      var pat := FilterList[n - 1];
      assert !IsHexDigit(pat[|pat| - 1]);
    }
  }

  /** The deletions run once each in table order, so deleting `h` can join a
      `0` and an `x` into a new `0x` that the earlier `0x` entry has already
      passed: `0hx41` filters to `0x41`, and filtering again gives `41`. */
  lemma FilterIgnoredNotIdempotent(h: string)
    requires IsHexText(h)
    ensures FilterIgnoredOf("0hx" + h) == "0x" + h
    ensures FilterIgnoredOf(FilterIgnoredOf("0hx" + h)) == h
  {
    FilterJoinsZeroX(h);
    FilterDropsZeroX(h);
  }

  /** A hex text holds no noise character, nor `x`. */
  lemma HexTextIsQuiet(h: string)
    requires IsHexText(h)
    ensures ',' !in h && '$' !in h && '\\' !in h && 'x' !in h
    ensures 'h' !in h && ':' !in h && ' ' !in h
  {
    forall i | 0 <= i < |h| ensures IsHexDigit(h[i]) { }
  }

  lemma FilterJoinsZeroX(h: string)
    requires IsHexText(h)
    ensures FilterIgnoredOf("0hx" + h) == "0x" + h
  {
    var s := "0hx" + h;
    assert Filtered(s, 5) == "0x" + h by {
      ZeroHxKeptToFour(h);
      DeleteHJoins(h);
      assert FilterList[4] == "h";
      FilteredStep(s, 4, s, "0x" + h);
    }
    HexTextIsQuiet(h);
    FilteredKeeps(s, "0x" + h, 5, 7);
  }

  lemma ZeroHxKeptToFour(h: string)
    requires IsHexText(h)
    ensures Filtered("0hx" + h, 4) == "0hx" + h
  {
    var s := "0hx" + h;
    HexTextIsQuiet(h);
    assert FilterList[0] == "," && FilterList[1] == "$" && FilterList[2] == "\\x";
    FilteredKeeps(s, s, 0, 3);
    ZeroXNeverMatches(h);
    assert FilterList[3] == "0x";
    FilteredStep(s, 3, s, s);
  }

  /** One more deletion. */
  lemma FilteredStep(s: string, k: nat, t: string, u: string)
    requires k < |FilterList| && Filtered(s, k) == t && ReplaceAll(t, FilterList[k]) == u
    ensures Filtered(s, k + 1) == u
  {
  }

  /** In `0hx` followed by hex, `0x` never matches: the only `x` follows an `h`. */
  lemma ZeroXNeverMatches(h: string)
    requires IsHexText(h)
    ensures ReplaceAll("0hx" + h, "0x") == "0hx" + h
  {
    HexTextIsQuiet(h);
    var s := "0hx" + h;
    assert s[1..] == "hx" + h && s[2..] == "x" + h && s[3..] == h;
    assert Misses(h, "0x");
    assert ReplaceAll("x" + h, "0x") == "x" + h;
    assert ReplaceAll("hx" + h, "0x") == "hx" + h;
  }

  /** Deleting the `h` of `0hx` joins the `0` and the `x`. */
  lemma DeleteHJoins(h: string)
    requires IsHexText(h)
    ensures ReplaceAll("0hx" + h, "h") == "0x" + h
  {
    var s := "0hx" + h;
    assert s[1..] == "hx" + h && ("hx" + h)[1..] == "x" + h;
    assert ReplaceAll("hx" + h, "h") == "x" + h by {
      HexTextIsQuiet(h);
      assert Misses("x" + h, "h");
    }
  }

  lemma FilterDropsZeroX(h: string)
    requires IsHexText(h)
    ensures FilterIgnoredOf("0x" + h) == h
  {
    var s := "0x" + h;
    assert Filtered(s, 4) == h by {
      ZeroXKeptToThree(h);
      DeleteZeroX(h);
      assert FilterList[3] == "0x";
      FilteredStep(s, 3, s, h);
    }
    HexTextIsQuiet(h);
    FilteredKeeps(s, h, 4, 7);
  }

  lemma ZeroXKeptToThree(h: string)
    requires IsHexText(h)
    ensures Filtered("0x" + h, 3) == "0x" + h
  {
    var s := "0x" + h;
    HexTextIsQuiet(h);
    assert FilterList[0] == "," && FilterList[1] == "$" && FilterList[2] == "\\x";
    FilteredKeeps(s, s, 0, 3);
  }

  lemma DeleteZeroX(h: string)
    requires IsHexText(h)
    ensures ReplaceAll("0x" + h, "0x") == h
  {
    HexTextIsQuiet(h);
    var s := "0x" + h;
    assert s[..2] == "0x" && s[2..] == h;
    assert Misses(h, "0x");
  }

  /** Entries `k` up to `n` whose first or last character is absent from the
      text `t` left by the first `k` leave it alone. */
  lemma {:induction false} FilteredKeeps(s: string, t: string, k: nat, n: nat)
    requires k <= n <= |FilterList| && Filtered(s, k) == t
    requires forall j :: k <= j < n ==> Misses(t, FilterList[j])
    ensures Filtered(s, n) == t
  {
    if n > k {
      FilteredKeeps(s, t, k, n - 1);
      assert Misses(t, FilterList[n - 1]);
    }
  }

  /** The concatenated hex of the UTF-8 bytes of each string, in order. */
  function Ascii2HexOf(ss: seq<string>): string {
    if ss == [] then [] else Ascii2HexOf(ss[..|ss| - 1]) + EncodeToString(Utf8(ss[|ss| - 1]))
  }

  /** `ascii2hex(inString)`: the pieces are joined as they are appended. */
  method Ascii2Hex(inString: seq<string>) returns (outString: string)
    ensures outString == Ascii2HexOf(inString)
  {
    outString := [];
    for i := 0 to |inString|
      invariant outString == Ascii2HexOf(inString[..i])
    {
      assert inString[..i + 1][..i] == inString[..i];
      outString := outString + EncodeToString(Utf8(inString[i]));
    }
    assert inString[..|inString|] == inString;
  }

  /** Applied to a text split into characters, `ascii2hex` is the hex of the
      text's bytes. */
  lemma {:induction false} Ascii2HexOfText(s: string)
    ensures Ascii2HexOf(SplitChars(s)) == EncodeToString(Utf8(s))
  {
    if s != [] {
      var n := |s| - 1;
      var init, last := s[..n], [s[n]];
      var ss := SplitChars(s);
      assert Ascii2HexOf(ss) == Ascii2HexOf(SplitChars(init)) + EncodeToString(Utf8(last)) by {
        assert ss[..n] == SplitChars(init) && ss[n] == last;
      }
      Ascii2HexOfText(init);
      assert EncodeToString(Utf8(s)) == EncodeToString(Utf8(init)) + EncodeToString(Utf8(last)) by {
        assert s == init + last;
        Utf8Append(init, last);
        EncodeAppend(Utf8(init), Utf8(last));
      }
    }
  }

  /** `ascii2hex` round-trips through `hex.DecodeString` for every text; for
      an ASCII text it gives twice as many lower-case digits, which decode to
      the character codes. */
  lemma Ascii2HexRoundTrip(s: string)
    ensures DecodeString(Ascii2HexOf(SplitChars(s))) == Ok(Utf8(s))
    ensures IsAscii(s) ==> var r := Ascii2HexOf(SplitChars(s));
      |r| == 2 * |s| && (forall i :: 0 <= i < |r| ==> IsLowerHexDigit(r[i]))
      && DecodeString(r) == Ok(Codes(s))
  {
    Ascii2HexOfText(s);
    DecodeEncode(Utf8(s));
    if IsAscii(s) {
      AsciiUtf8(s);
    }
  }
}
