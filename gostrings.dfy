/**
  The parts of Go's `strings`, `unicode`, `unicode/utf8` and `utf8string`
  packages that the assembler relies on, over text modelled as `seq<char>`.
  Go strings are UTF-8 byte strings; `Utf8` gives the bytes of a text, so
  that byte lengths (`len(s)`) and byte conversions (`[]byte(s)`) can be
  stated exactly.
 */
module GoStrings {

  type byte = x: int | 0 <= x < 256

  /** Every character is 7-bit ASCII (`utf8string.NewString(s).IsASCII()`). */
  predicate IsAscii(s: string) {
    forall i :: 0 <= i < |s| ==> s[i] as int < 0x80
  }

  /** The UTF-8 encoding of one character, as in `[]byte(string(c))`. */
  function EncodeRune(c: char): (b: seq<byte>)
    ensures 1 <= |b| <= 4
    ensures |b| == 1 <==> c as int < 0x80
    ensures c as int < 0x80 ==> b[0] == c as int
    ensures c as int >= 0x80 ==> 0xC0 <= b[0]
    ensures forall k :: 1 <= k < |b| ==> 0x80 <= b[k] < 0xC0
  {
    var n := c as int;
    if n < 0x80 then [n]
    else if n < 0x800 then [0xC0 + n / 64, 0x80 + n % 64]
    else if n < 0x10000 then [0xE0 + n / 4096, 0x80 + (n / 64) % 64, 0x80 + n % 64]
    else [0xF0 + n / 262144, 0x80 + (n / 4096) % 64, 0x80 + (n / 64) % 64, 0x80 + n % 64]
  }

  /** The character codes of an ASCII text, one byte each. */
  function Codes(s: string): (b: seq<byte>)
    requires IsAscii(s)
    ensures |b| == |s|
    ensures forall i :: 0 <= i < |s| ==> b[i] == s[i] as int
  {
    seq(|s|, i requires 0 <= i < |s| => s[i] as int)
  }

  /** The bytes of a text, `[]byte(s)`. */
  function Utf8(s: string): (b: seq<byte>)
    ensures |b| >= |s|
    ensures |b| == 0 <==> |s| == 0
  {
    if s == [] then [] else EncodeRune(s[0]) + Utf8(s[1..])
  }

  /** An ASCII text has one byte per character: its character codes. */
  lemma {:induction false} AsciiUtf8(s: string)
    requires IsAscii(s)
    ensures Utf8(s) == Codes(s)
  {
    if s != [] {
      assert IsAscii(s[1..]);
      AsciiUtf8(s[1..]);
      assert Codes(s) == [s[0] as int] + Codes(s[1..]);
    }
  }

  /** A text is ASCII exactly when every byte of its encoding is below
      0x80, the test `utf8string`'s `IsASCII` makes. */
  lemma {:induction false} AsciiIffBytes(s: string)
    ensures IsAscii(s) <==> forall k :: 0 <= k < |Utf8(s)| ==> Utf8(s)[k] < 0x80
  {
    if s != [] {
      var e, u := EncodeRune(s[0]), Utf8(s[1..]);
      AsciiIffBytes(s[1..]);
      assert Utf8(s) == e + u;
      assert IsAscii(s) <==> s[0] as int < 0x80 && IsAscii(s[1..]) by {
        forall i | 1 <= i < |s| ensures s[i] == s[1..][i - 1] { }
      }
      if forall k :: 0 <= k < |Utf8(s)| ==> Utf8(s)[k] < 0x80 {
        assert Utf8(s)[0] == e[0];
        forall k | 0 <= k < |u| ensures u[k] < 0x80 {
          assert u[k] == Utf8(s)[|e| + k];
        }
      }
      if IsAscii(s) {
        assert |e| == 1 && e[0] < 0x80;
        assert IsAscii(s[1..]);
        assert forall k :: 0 <= k < |Utf8(s[1..])| ==> Utf8(s[1..])[k] < 0x80;
        forall k | 0 <= k < |Utf8(s)| ensures Utf8(s)[k] < 0x80 {
          if k >= 1 { assert Utf8(s)[k] == u[k - 1]; } else { assert Utf8(s)[k] == e[0]; }
        }
      }
    }
  }

  /** Go's `len(s)`: the number of bytes of the text. */
  function ByteLen(s: string): nat {
    |Utf8(s)|
  }

  lemma {:induction false} Utf8Append(a: string, b: string)
    ensures Utf8(a + b) == Utf8(a) + Utf8(b)
  {
    if a == [] {
      assert a + b == b;
    } else {
      assert (a + b)[1..] == a[1..] + b;
      Utf8Append(a[1..], b);
    }
  }

  /** `sep` occurs in `s` at position `j`. */
  predicate MatchAt(s: string, sep: string, j: int) {
    0 <= j && j + |sep| <= |s| && s[j..j + |sep|] == sep
  }

  lemma SliceOfTail(s: string, j: int, n: nat)
    requires 1 <= j && j + n <= |s|
    ensures s[j..j + n] == s[1..][j - 1..j - 1 + n]
  {
    var a, b := s[j..j + n], s[1..][j - 1..j - 1 + n];
    forall k | 0 <= k < n ensures a[k] == b[k] { }
  }

  /** `strings.Index(s, sep)`: the first position of `sep` in `s`, or -1. */
  function IndexOf(s: string, sep: string): (i: int)
    ensures -1 <= i
    ensures i >= 0 ==> MatchAt(s, sep, i)
    ensures forall j :: 0 <= j && (i < 0 || j < i) ==> !MatchAt(s, sep, j)
    decreases |s|
  {
    if |s| < |sep| then -1
    else if s[..|sep|] == sep then 0
    else
      var k := IndexOf(s[1..], sep);
      assert forall j :: 1 <= j ==> (MatchAt(s, sep, j) <==> MatchAt(s[1..], sep, j - 1)) by {
        forall j | 1 <= j ensures MatchAt(s, sep, j) <==> MatchAt(s[1..], sep, j - 1) {
          if j + |sep| <= |s| {
            SliceOfTail(s, j, |sep|);
          }
        }
      }
      if k < 0 then -1 else k + 1
  }

  /** `s` begins with `p`. */
  predicate StartsWith(s: string, p: string) {
    |p| <= |s| && s[..|p|] == p
  }

  /** The first match is at `k`. */
  lemma IndexOfIs(s: string, sep: string, k: nat)
    requires MatchAt(s, sep, k) && forall j :: 0 <= j < k ==> !MatchAt(s, sep, j)
    ensures IndexOf(s, sep) == k
  {
  }

  /** `strings.Contains(s, sep)`. */
  predicate Contains(s: string, sep: string) {
    IndexOf(s, sep) >= 0
  }

  /** `sep` is contained in `s` exactly when it occurs somewhere in it. */
  lemma ContainsIff(s: string, sep: string)
    ensures Contains(s, sep) <==> exists j :: MatchAt(s, sep, j)
  {
    if exists j :: MatchAt(s, sep, j) {
      var j :| MatchAt(s, sep, j);
      assert IndexOf(s, sep) >= 0;
    }
  }

  lemma ContainsOneChar(s: string, c: char)
    ensures Contains(s, [c]) <==> c in s
  {
    if c in s {
      var j :| 0 <= j < |s| && s[j] == c;
      assert s[j..j + 1] == [c];
      assert MatchAt(s, [c], j);
    }
    if Contains(s, [c]) {
      var j := IndexOf(s, [c]);
      assert s[j..j + 1] == [c];
      assert s[j] == c;
    }
  }

  /** The text before the first `sep` (all of `s` when absent): the `before`
      of `strings.Cut(s, sep)`, and `strings.Split(s, sep)[0]`. */
  function Before(s: string, sep: string): (r: string)
    ensures |r| <= |s| && r == s[..|r|]
    ensures !Contains(s, sep) ==> r == s
    ensures |sep| > 0 ==> !Contains(r, sep)
    ensures Contains(s, sep) ==> |r| == IndexOf(s, sep)
  {
    var i := IndexOf(s, sep);
    if i < 0 then s
    else
      var r := s[..i];
      assert forall j :: 0 <= j && MatchAt(r, sep, j) ==> MatchAt(s, sep, j) by {
        forall j | 0 <= j && MatchAt(r, sep, j) ensures MatchAt(s, sep, j) {
          assert r[j..j + |sep|] == s[j..j + |sep|];
        }
      }
      assert |sep| > 0 ==> IndexOf(r, sep) < 0 by {
        var k := IndexOf(r, sep);
        assert k >= 0 ==> MatchAt(r, sep, k);
      }
      r
  }

  /** The text after the first `sep` (empty when absent): the `after` of
      `strings.Cut(s, sep)`. */
  function After(s: string, sep: string): (r: string)
    ensures Contains(s, sep) ==> s == Before(s, sep) + sep + r
    ensures !Contains(s, sep) ==> r == []
    ensures Contains(s, sep) ==> |r| == |s| - |Before(s, sep)| - |sep|
  {
    var i := IndexOf(s, sep);
    if i < 0 then []
    else
      assert s == s[..i] + s[i..i + |sep|] + s[i + |sep|..];
      s[i + |sep|..]
  }

  /** `pat` cannot occur in `s`: its first or its last character is absent. */
  predicate Misses(s: string, pat: string)
    requires |pat| > 0
  {
    pat[0] !in s || pat[|pat| - 1] !in s
  }

  /** `s` with every `c` taken out, the other characters kept in order. */
  function Without(s: string, c: char): string {
    if s == [] then [] else (if s[0] == c then [] else [s[0]]) + Without(s[1..], c)
  }

  /** `strings.ReplaceAll(s, pat, "")`: deletes the non-overlapping
      occurrences of `pat`, found from left to right. */
  function ReplaceAll(s: string, pat: string): (r: string)
    requires |pat| > 0
    ensures |r| <= |s|
    ensures |pat| == 1 ==> r == Without(s, pat[0])
    ensures |pat| == 1 ==> pat[0] !in r
    ensures Misses(s, pat) ==> r == s
    decreases |s|
  {
    if |s| < |pat| then
      assert |pat| == 1 ==> s == [];
      s
    else if s[..|pat|] == pat then
      assert s[0] == pat[0] && s[|pat| - 1] == pat[|pat| - 1];
      var rest := ReplaceAll(s[|pat|..], pat);
      assert |pat| == 1 ==> s[|pat|..] == s[1..];
      rest
    else
      var rest := ReplaceAll(s[1..], pat);
      assert |pat| == 1 ==> s[0] != pat[0] by {
        if |pat| == 1 { assert s[..1] == [s[0]]; }
      }
      assert Misses(s, pat) ==> Misses(s[1..], pat) by {
        assert forall c :: c in s[1..] ==> c in s;
      }
      [s[0]] + rest
  }

  /** Deleting never brings in a character that was not there. */
  lemma {:induction false} ReplaceAllKeepsOut(s: string, pat: string, c: char)
    requires |pat| > 0 && c !in s
    ensures c !in ReplaceAll(s, pat)
    decreases |s|
  {
    if |s| >= |pat| {
      if s[..|pat|] == pat {
        ReplaceAllKeepsOut(s[|pat|..], pat, c);
      } else {
        ReplaceAllKeepsOut(s[1..], pat, c);
      }
    }
  }

  /** Deleting keeps an ASCII text ASCII. */
  lemma ReplaceAllKeepsAscii(s: string, pat: string)
    requires |pat| > 0 && IsAscii(s)
    ensures IsAscii(ReplaceAll(s, pat))
  {
    var r := ReplaceAll(s, pat);
    forall i | 0 <= i < |r| ensures r[i] as int < 0x80 {
      if r[i] as int >= 0x80 {
        ReplaceAllKeepsOut(s, pat, r[i]);
      }
    }
  }

  /** An ASCII text has as many bytes as characters. */
  lemma AsciiByteLen(s: string)
    requires IsAscii(s)
    ensures ByteLen(s) == |s|
  {
    AsciiUtf8(s);
  }

  /** `unicode.IsSpace`: the Unicode White_Space characters of the Latin-1
      range and beyond. */
  predicate IsSpace(c: char) {
    c == '\t' || c == '\n' || c == '\U{0B}' || c == '\U{0C}' || c == '\r' || c == ' '
    || c == '\U{85}' || c == '\U{A0}' || c == '\U{1680}'
    || ('\U{2000}' <= c <= '\U{200A}')
    || c == '\U{2028}' || c == '\U{2029}' || c == '\U{202F}' || c == '\U{205F}' || c == '\U{3000}'
  }

  /** In the Latin-1 range `unicode.IsSpace` holds for tab, newline,
      vertical tab, form feed, carriage return, space, NEL (U+0085) and
      NBSP (U+00A0) and for nothing else. */
  lemma IsSpaceLatin1(c: char)
    requires c as int < 0x100
    ensures IsSpace(c) <==> c in ['\t', '\n', '\U{0B}', '\U{0C}', '\r', ' ', '\U{85}', '\U{A0}']
  {
  }

  /** `s` without its leading white space. */
  function TrimLeft(s: string): (r: string)
    ensures |r| <= |s|
    ensures r != [] ==> !IsSpace(r[0]) && r[|r| - 1] == s[|s| - 1]
    ensures (s == [] || !IsSpace(s[0])) ==> r == s
    ensures forall c :: c in r ==> c in s
    decreases |s|
  {
    if s != [] && IsSpace(s[0]) then TrimLeft(s[1..]) else s
  }

  /** `s` without its trailing white space. */
  function TrimRight(s: string): (r: string)
    ensures |r| <= |s|
    ensures r != [] ==> !IsSpace(r[|r| - 1]) && r[0] == s[0]
    ensures (s == [] || !IsSpace(s[|s| - 1])) ==> r == s
    ensures forall c :: c in r ==> c in s
    decreases |s|
  {
    if s != [] && IsSpace(s[|s| - 1]) then TrimRight(s[..|s| - 1]) else s
  }

  /** `strings.TrimSpace(s)`: `s` without its leading and trailing white space. */
  function TrimSpace(s: string): (r: string)
    ensures |r| <= |s|
    ensures r != [] ==> !IsSpace(r[0]) && !IsSpace(r[|r| - 1])
    ensures (s == [] || (!IsSpace(s[0]) && !IsSpace(s[|s| - 1]))) ==> r == s
  {
    TrimRight(TrimLeft(s))
  }

  /** Trimming takes away exactly the white space at the two ends: the result
      is the part of `s` between a run of leading and a run of trailing white
      space. */
  lemma TrimSpaceIsInner(s: string)
    ensures exists i, j ::
              && 0 <= i <= j <= |s| && TrimSpace(s) == s[i..j]
              && (forall k :: 0 <= k < i ==> IsSpace(s[k]))
              && (forall k :: j <= k < |s| ==> IsSpace(s[k]))
  {
    var i := TrimLeftSuffix(s);
    var t := s[i..];
    var j := TrimRightPrefix(t);
    assert TrimSpace(s) == s[i..i + j];
    forall k | i + j <= k < |s| ensures IsSpace(s[k]) {
      assert s[k] == t[k - i];
    }
  }

  /** Left trimming drops a prefix of white space. */
  lemma {:induction false} TrimLeftSuffix(s: string) returns (i: nat)
    ensures i <= |s| && TrimLeft(s) == s[i..]
    ensures forall k :: 0 <= k < i ==> IsSpace(s[k])
    decreases |s|
  {
    if s != [] && IsSpace(s[0]) {
      var i' := TrimLeftSuffix(s[1..]);
      i := i' + 1;
      assert s[1..][i'..] == s[i..];
      forall k | 0 < k < i ensures IsSpace(s[k]) {
        assert s[k] == s[1..][k - 1];
      }
    } else {
      i := 0;
    }
  }

  /** Right trimming drops a suffix of white space. */
  lemma {:induction false} TrimRightPrefix(s: string) returns (j: nat)
    ensures j <= |s| && TrimRight(s) == s[..j]
    ensures forall k :: j <= k < |s| ==> IsSpace(s[k])
    decreases |s|
  {
    if s != [] && IsSpace(s[|s| - 1]) {
      var u := s[..|s| - 1];
      j := TrimRightPrefix(u);
      assert u[..j] == s[..j];
      forall k | j <= k < |s| - 1 ensures IsSpace(s[k]) {
        assert s[k] == u[k];
      }
    } else {
      j := |s|;
    }
  }

  /** Trimming keeps out a character that was out. */
  lemma TrimSpaceKeepsOut(s: string, c: char)
    ensures c !in s ==> c !in TrimSpace(s)
  {
  }

  /** `strings.Split(s, "")`: one single-character string per character. */
  function SplitChars(s: string): (r: seq<string>)
    ensures |r| == |s|
    ensures forall i :: 0 <= i < |s| ==> r[i] == [s[i]]
  {
    seq(|s|, i requires 0 <= i < |s| => [s[i]])
  }
}
