/**
 * Base16 (section 8 of RFC 4648) as Go's `encoding/hex` implements it:
 * `EncodeToString` writes lower-case digits, `DecodeString` accepts either
 * case and reports the first invalid character, scanning left to right,
 * before it reports an odd length.
 */
module Hex {
  import opened Results
  import opened Strings

  type byte = x: int | 0 <= x < 256

  /** The two ways `hex.DecodeString` can fail. */
  datatype HexError =
    | InvalidByte(c: char)   // `hex.InvalidByteError`
    | OddLength              // `hex.ErrLength`

  predicate IsHexDigit(c: char) {
    '0' <= c <= '9' || 'a' <= c <= 'f' || 'A' <= c <= 'F'
  }

  predicate IsLowerHexDigit(c: char) {
    '0' <= c <= '9' || 'a' <= c <= 'f'
  }

  predicate AllHex(s: string) {
    forall i :: 0 <= i < |s| ==> IsHexDigit(s[i])
  }

  predicate IsLowerHex(s: string) {
    forall i :: 0 <= i < |s| ==> IsLowerHexDigit(s[i])
  }

  /** Whether characters `i` onwards of `s` are lower-case digits, checked one by one. */
  function ScanLowerHex(s: string, i: nat): (ok: bool)
    requires i <= |s|
    ensures ok ==> forall j :: i <= j < |s| ==> IsLowerHexDigit(s[j]) && IsHexDigit(s[j])
    decreases |s| - i
  {
    i == |s| || (IsLowerHexDigit(s[i]) && ScanLowerHex(s, i + 1))
  }

  /** The value of one hexadecimal digit, in either case. */
  function HexVal(c: char): (v: nat)
    requires IsHexDigit(c)
    ensures v < 16
  {
    if '0' <= c <= '9' then c as int - '0' as int
    else if 'a' <= c <= 'f' then c as int - 'a' as int + 10
    else c as int - 'A' as int + 10
  }

  /** Case does not change a digit's value. */
  lemma HexValLower(c: char)
    requires IsHexDigit(c)
    ensures IsLowerHexDigit(LowerChar(c)) && HexVal(LowerChar(c)) == HexVal(c)
  {
  }

  /** The lower-case digit that stands for a nibble. */
  function Digit(v: nat): (c: char)
    requires v < 16
    ensures IsLowerHexDigit(c) && HexVal(c) == v
  {
    if v < 10 then ('0' as int + v) as char else ('a' as int + v - 10) as char
  }

  /** A lower-case digit is determined by its value. */
  lemma LowerDigitUnique(c: char, d: char)
    requires IsLowerHexDigit(c) && IsLowerHexDigit(d) && HexVal(c) == HexVal(d)
    ensures c == d
  {
  }

  /** The byte that characters `2k` and `2k+1` of `s` stand for. */
  function ByteAt(s: string, k: nat): (b: byte)
    requires 2 * k + 1 < |s| && IsHexDigit(s[2 * k]) && IsHexDigit(s[2 * k + 1])
  {
    16 * HexVal(s[2 * k]) + HexVal(s[2 * k + 1])
  }

  /** Index of the first character that is not a hexadecimal digit. */
  function FirstInvalid(s: string): (i: nat)
    requires !AllHex(s)
    ensures i < |s| && !IsHexDigit(s[i]) && AllHex(s[..i])
  {
    if !IsHexDigit(s[0]) then 0
    else
      var j := FirstInvalid(s[1..]);
      assert s[..j + 1] == [s[0]] + s[1..][..j];
      j + 1
  }

  /** `hex.EncodeToString`: two lower-case digits per byte, high nibble first. */
  function Encode(bs: seq<byte>): (s: string)
    ensures |s| == 2 * |bs| && IsLowerHex(s) && AllHex(s)
    ensures forall k :: 0 <= k < |bs| ==> ByteAt(s, k) == bs[k]
  {
    if bs == [] then []
    else
      var rest := Encode(bs[1..]);
      var s := [Digit(bs[0] / 16), Digit(bs[0] % 16)] + rest;
      assert forall k :: 1 <= k < |bs| ==> ByteAt(s, k) == ByteAt(rest, k - 1);
      s
  }

  /** `hex.DecodeString`. */
  function Decode(s: string): (r: Result<seq<byte>, HexError>)
    ensures r.Ok? <==> AllHex(s) && |s| % 2 == 0
    ensures r.Ok? ==> |r.value| == |s| / 2
    ensures r.Ok? ==> forall k :: 0 <= k < |r.value| ==> r.value[k] == ByteAt(s, k)
    ensures !AllHex(s) ==> r == Err(InvalidByte(s[FirstInvalid(s)]))
    ensures AllHex(s) && |s| % 2 == 1 ==> r == Err(OddLength)
  {
    if s == [] then Ok([])
    else if !IsHexDigit(s[0]) then Err(InvalidByte(s[0]))
    else if |s| == 1 then Err(OddLength)
    else if !IsHexDigit(s[1]) then Err(InvalidByte(s[1]))
    else
      var tail := s[2..];
      assert !AllHex(s) ==> !AllHex(tail) && FirstInvalid(s) == FirstInvalid(tail) + 2 by {
        if !AllHex(s) {
          assert FirstInvalid(s) == FirstInvalid(s[1..]) + 1;
          assert s[1..][1..] == tail;
        }
      }
      match Decode(tail)
      case Err(e) => Err(e)
      case Ok(rest) =>
        var bs := [ByteAt(s, 0)] + rest;
        assert forall k :: 1 <= k < |bs| ==> ByteAt(s, k) == ByteAt(tail, k - 1);
        Ok(bs)
  }

  /** A string decodes to the bytes its digit pairs spell. */
  lemma DecodeBytes(s: string, bs: seq<byte>)
    requires |s| == 2 * |bs| && AllHex(s)
    requires forall k :: 0 <= k < |bs| ==> ByteAt(s, k) == bs[k]
    ensures Decode(s) == Ok(bs)
  {
    assert Decode(s).value == bs;
  }

  /** Decoding undoes encoding. */
  lemma DecodeEncode(bs: seq<byte>)
    ensures Decode(Encode(bs)) == Ok(bs)
  {
    var s := Encode(bs);
    assert Decode(s).value == bs;
  }

  /** Two digits spelling the same byte are the same digits, up to case. */
  lemma ByteAtLower(s: string, e: string, k: nat)
    requires 2 * k + 1 < |s| && 2 * k + 1 < |e|
    requires IsHexDigit(s[2 * k]) && IsHexDigit(s[2 * k + 1])
    requires IsLowerHexDigit(e[2 * k]) && IsLowerHexDigit(e[2 * k + 1])
    requires ByteAt(e, k) == ByteAt(s, k)
    ensures e[2 * k] == LowerChar(s[2 * k]) && e[2 * k + 1] == LowerChar(s[2 * k + 1])
  {
    var hi, lo := HexVal(s[2 * k]), HexVal(s[2 * k + 1]);
    var hi', lo' := HexVal(e[2 * k]), HexVal(e[2 * k + 1]);
    assert hi' == hi && lo' == lo by {
      assert 16 * hi' + lo' == 16 * hi + lo;
    }
    HexValLower(s[2 * k]);
    HexValLower(s[2 * k + 1]);
    LowerDigitUnique(e[2 * k], LowerChar(s[2 * k]));
    LowerDigitUnique(e[2 * k + 1], LowerChar(s[2 * k + 1]));
  }

  /** Encoding a decoded string gives back the string, lower-cased. */
  lemma EncodeDecode(s: string)
    requires Decode(s).Ok?
    ensures Encode(Decode(s).value) == ToLower(s)
  {
    var bs := Decode(s).value;
    var e := Encode(bs);
    forall k | 0 <= k < |bs|
      ensures e[2 * k] == LowerChar(s[2 * k]) && e[2 * k + 1] == LowerChar(s[2 * k + 1])
    {
      assert ByteAt(e, k) == bs[k] == ByteAt(s, k);
      ByteAtLower(s, e, k);
    }
    PairwiseLower(s, e);
  }

  /** Agreeing with the lower-case form on every digit pair is agreeing with it everywhere. */
  lemma PairwiseLower(s: string, e: string)
    requires |e| == |s| && |s| % 2 == 0
    requires forall k :: 0 <= k < |s| / 2 ==>
               e[2 * k] == LowerChar(s[2 * k]) && e[2 * k + 1] == LowerChar(s[2 * k + 1])
    ensures e == ToLower(s)
  {
    var l := ToLower(s);
    forall i | 0 <= i < |s|
      ensures e[i] == l[i]
    {
      var k := i / 2;
      assert i == 2 * k || i == 2 * k + 1;
    }
  }

  /** Two bytes with the same two-digit spelling are the same byte. */
  lemma EncodeInjectiveAt(a: seq<byte>, b: seq<byte>)
    requires |a| > 0 && |b| > 0 && Encode(a)[..2] == Encode(b)[..2]
    ensures a[0] == b[0]
  {
    var x, y := Encode(a), Encode(b);
    assert x[0] == y[0] && x[1] == y[1];
    assert ByteAt(x, 0) == ByteAt(y, 0);
  }

  /** One encoding is a prefix of another exactly when the bytes are. */
  lemma {:induction false} EncodePrefix(p: seq<byte>, bs: seq<byte>)
    ensures Encode(p) <= Encode(bs) <==> p <= bs
    decreases |p|
  {
    if p != [] && bs != [] {
      var x, y := Encode(p), Encode(bs);
      assert x == Encode([p[0]]) + Encode(p[1..]);
      assert y == Encode([bs[0]]) + Encode(bs[1..]);
      EncodePrefix(p[1..], bs[1..]);
      if x <= y {
        assert x[..2] == y[..2];
        EncodeInjectiveAt(p, bs);
        assert x[2..] == Encode(p[1..]) && y[2..] == Encode(bs[1..]);
        assert p == [p[0]] + p[1..] && bs == [bs[0]] + bs[1..];
      }
    } else if p != [] {
      assert |Encode(p)| > 0;
    }
  }
}
