/**
  Go's `encoding/hex`: `EncodeToString` writes two lower-case digits per
  byte; `DecodeString` accepts upper- and lower-case digits, rejects any
  other character and an odd length, and decodes the empty text to no
  bytes.
 */
module GoHex {
  import opened Wrappers
  import opened GoStrings

  predicate IsHexDigit(c: char) {
    '0' <= c <= '9' || 'a' <= c <= 'f' || 'A' <= c <= 'F'
  }

  predicate IsLowerHexDigit(c: char) {
    '0' <= c <= '9' || 'a' <= c <= 'f'
  }

  predicate IsHexText(s: string) {
    forall i :: 0 <= i < |s| ==> IsHexDigit(s[i])
  }

  function HexValue(c: char): (v: nat)
    requires IsHexDigit(c)
    ensures v < 16
  {
    if '0' <= c <= '9' then c as int - '0' as int
    else if 'a' <= c <= 'f' then c as int - 'a' as int + 10
    else c as int - 'A' as int + 10
  }

  /** The lower-case digit of a value below 16. */
  function HexDigit(v: nat): (c: char)
    requires v < 16
    ensures IsLowerHexDigit(c) && HexValue(c) == v
  {
    "0123456789abcdef"[v]
  }

  /** `hex.EncodeToString(b)`. */
  function EncodeToString(b: seq<byte>): (s: string)
    ensures |s| == 2 * |b|
    ensures forall i :: 0 <= i < |s| ==> IsLowerHexDigit(s[i])
  {
    if b == [] then []
    else [HexDigit(b[0] / 16), HexDigit(b[0] % 16)] + EncodeToString(b[1..])
  }

  /** Each pair of digits spells the byte at its position. */
  lemma {:induction false} EncodedPairs(b: seq<byte>)
    ensures var s := EncodeToString(b);
      forall k :: 0 <= k < |b| ==> 16 * HexValue(s[2 * k]) + HexValue(s[2 * k + 1]) == b[k]
  {
    if b != [] {
      EncodedPairs(b[1..]);
      var s, t := EncodeToString(b), EncodeToString(b[1..]);
      forall k | 1 <= k < |b| ensures 16 * HexValue(s[2 * k]) + HexValue(s[2 * k + 1]) == b[k] {
        assert s[2 * k] == t[2 * (k - 1)] && s[2 * k + 1] == t[2 * (k - 1) + 1];
        assert b[k] == b[1..][k - 1];
      }
    }
  }

  lemma {:induction false} EncodeAppend(a: seq<byte>, b: seq<byte>)
    ensures EncodeToString(a + b) == EncodeToString(a) + EncodeToString(b)
  {
    if a == [] {
      assert a + b == b;
    } else {
      assert (a + b)[1..] == a[1..] + b;
      EncodeAppend(a[1..], b);
    }
  }

  /** The two ways `hex.DecodeString` fails. `InvalidByte` carries the first
      byte that is not a digit, as Go reports it. */
  datatype DecodeError = ErrLength | InvalidByte(b: byte)

  /** `hex.DecodeString(s)`: pairs are checked left to right, so the first
      non-digit is reported before an odd length is. */
  function DecodeString(s: string): (r: Result<seq<byte>, DecodeError>)
    ensures r.Ok? <==> |s| % 2 == 0 && IsHexText(s)
    ensures r.Ok? ==> |r.value| == |s| / 2
  {
    if |s| == 0 then Ok([])
    else if |s| == 1 then
      if IsHexDigit(s[0]) then Err(ErrLength) else Err(InvalidByte(EncodeRune(s[0])[0]))
    else if !IsHexDigit(s[0]) then Err(InvalidByte(EncodeRune(s[0])[0]))
    else if !IsHexDigit(s[1]) then Err(InvalidByte(EncodeRune(s[1])[0]))
    else
      match DecodeString(s[2..])
      case Err(e) => Err(e)
      case Ok(rest) => Ok([16 * HexValue(s[0]) + HexValue(s[1])] + rest)
  }

  /** Byte `k` of a successful decode is the value of the digit pair at `2 * k`. */
  lemma {:induction false} DecodedBytes(s: string)
    requires DecodeString(s).Ok?
    ensures forall k :: 0 <= k < |s| / 2 ==>
      DecodeString(s).value[k] == 16 * HexValue(s[2 * k]) + HexValue(s[2 * k + 1])
  {
    if |s| >= 2 {
      var rest := DecodeString(s[2..]).value;
      DecodedBytes(s[2..]);
      var r := DecodeString(s).value;
      assert r == [16 * HexValue(s[0]) + HexValue(s[1])] + rest;
      forall k | 1 <= k < |s| / 2
        ensures r[k] == 16 * HexValue(s[2 * k]) + HexValue(s[2 * k + 1])
      {
        assert r[k] == rest[k - 1];
        assert s[2 * k] == s[2..][2 * (k - 1)] && s[2 * k + 1] == s[2..][2 * (k - 1) + 1];
      }
    }
  }

  /** Decoding what was encoded gives the bytes back. */
  lemma {:induction false} DecodeEncode(b: seq<byte>)
    ensures DecodeString(EncodeToString(b)) == Ok(b)
  {
    if b != [] {
      var d1, d2 := HexDigit(b[0] / 16), HexDigit(b[0] % 16);
      var rest := EncodeToString(b[1..]);
      var s := EncodeToString(b);
      assert s == [d1, d2] + rest;
      assert s[0] == d1 && s[1] == d2 && s[2..] == rest;
      DecodeEncode(b[1..]);
      assert 16 * HexValue(d1) + HexValue(d2) == b[0];
      assert DecodeString(s) == Ok([b[0]] + b[1..]);
      assert [b[0]] + b[1..] == b;
    }
  }
}
