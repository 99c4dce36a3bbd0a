/**
 * The two integer parsers of Go's `strconv` that the commands use:
 * `Atoi` on the port argument of `input set`, and `ParseUint(s, 16, 8)`
 * on the port byte of a reply.
 */
module Strconv {
  import opened Results
  import opened Hex

  /** `strconv.NumError` reasons. */
  datatype NumError = Syntax | Range

  const MinInt64: int := -0x8000_0000_0000_0000
  const MaxInt64: int := 0x7fff_ffff_ffff_ffff

  predicate IsDecDigit(c: char) {
    '0' <= c <= '9'
  }

  function DecVal(c: char): (v: nat)
    requires IsDecDigit(c)
    ensures v < 10
  {
    c as int - '0' as int
  }

  /** One or more decimal digits and nothing else. */
  predicate IsDigits(s: string) {
    |s| > 0 && forall i :: 0 <= i < |s| ==> IsDecDigit(s[i])
  }

  /** The value of a run of decimal digits, most significant first. */
  function DecimalValue(s: string): nat
    requires forall i :: 0 <= i < |s| ==> IsDecDigit(s[i])
  {
    if s == [] then 0
    else DecimalValue(s[..|s| - 1]) * 10 + DecVal(s[|s| - 1])
  }

  /** The value of a run of hexadecimal digits, most significant first. */
  function HexNumber(s: string): nat
    requires AllHex(s)
  {
    if s == [] then 0 else HexNumber(s[..|s| - 1]) * 16 + HexVal(s[|s| - 1])
  }

  /** Whether `s` is an optional sign followed by decimal digits. */
  predicate IsSignedDecimal(s: string) {
    if |s| > 0 && (s[0] == '+' || s[0] == '-') then IsDigits(s[1..]) else IsDigits(s)
  }

  /** The value of an optionally signed decimal numeral. */
  function SignedValue(s: string): int
    requires IsSignedDecimal(s)
  {
    if s[0] == '-' then -(DecimalValue(s[1..]) as int)
    else if s[0] == '+' then DecimalValue(s[1..])
    else DecimalValue(s)
  }

  /**
   * `strconv.Atoi` on a 64-bit platform: an optional sign and at least one
   * decimal digit, with no spaces, underscores or base prefixes, and a value
   * that fits in 64 bits. Both of Go's reasons (syntax and range) are
   * reported as one error here.
   */
  function Atoi(s: string): (r: Result<int, NumError>)
    ensures r.Ok? <==> IsSignedDecimal(s) && MinInt64 <= SignedValue(s) <= MaxInt64
    ensures r.Ok? ==> r.value == SignedValue(s)
  {
    var sign := |s| > 0 && (s[0] == '+' || s[0] == '-');
    var digits := if sign then s[1..] else s;
    if !IsDigits(digits) then Err(Syntax)
    else
      var magnitude := DecimalValue(digits);
      var v := if sign && s[0] == '-' then -(magnitude as int) else magnitude;
      if MinInt64 <= v <= MaxInt64 then Ok(v) else Err(Syntax)
  }

  /**
   * The loop of `strconv.ParseUint` with base 16 and bit size 8, from a
   * partial value `acc`: a character that is not a hexadecimal digit is a
   * syntax error, and a partial value above 255 is a range error, whichever
   * comes first.
   */
  function ParseHexFrom(s: string, acc: nat): Result<nat, NumError>
    requires acc <= 255
  {
    if s == [] then Ok(acc)
    else if !IsHexDigit(s[0]) then Err(Syntax)
    else if acc * 16 + HexVal(s[0]) > 255 then Err(Range)
    else ParseHexFrom(s[1..], acc * 16 + HexVal(s[0]))
  }

  /** `strconv.ParseUint(s, 16, 8)`. */
  function ParseUint8Hex(s: string): (r: Result<nat, NumError>)
    ensures r.Ok? <==> |s| > 0 && AllHex(s) && HexNumber(s) <= 255
    ensures r.Ok? ==> r.value == HexNumber(s) <= 255
    ensures !AllHex(s) && HexNumber(s[..FirstInvalid(s)]) <= 255 ==> r == Err(Syntax)
  {
    if s == [] then Err(Syntax)
    else
      ParseHexFromValue([], s, 0);
      ParseHexFromSyntax([], s, 0);
      assert forall t: string :: [] + t == t;
      ParseHexFrom(s, 0)
  }

  /** Appending a digit scales the value of what was there by 16. */
  lemma HexNumberSnoc(p: string, c: char)
    requires AllHex(p) && IsHexDigit(c)
    ensures AllHex(p + [c]) && HexNumber(p + [c]) == HexNumber(p) * 16 + HexVal(c)
  {
    assert (p + [c])[..|p|] == p;
  }

  /** A numeral is worth at least as much as any of its prefixes. */
  lemma {:induction false} HexNumberMonotone(p: string, t: string)
    requires AllHex(p + t)
    ensures AllHex(p) && HexNumber(p + t) >= HexNumber(p)
    decreases |t|
  {
    assert forall i :: 0 <= i < |p| ==> p[i] == (p + t)[i];
    if t == [] {
      assert p + t == p;
    } else {
      var t' := t[..|t| - 1];
      assert (p + t)[..|p + t| - 1] == p + t';
      assert forall i :: 0 <= i < |p + t'| ==> (p + t')[i] == (p + t)[i];
      HexNumberMonotone(p, t');
      assert HexNumber(p + t) == HexNumber(p + t') * 16 + HexVal((p + t)[|p + t| - 1]);
    }
  }

  /** What the loop computes, in terms of the digits read before it and after it. */
  lemma {:induction false} ParseHexFromValue(p: string, s: string, acc: nat)
    requires AllHex(p) && HexNumber(p) == acc <= 255
    ensures ParseHexFrom(s, acc).Ok? <==> AllHex(s) && HexNumber(p + s) <= 255
    ensures ParseHexFrom(s, acc).Ok? ==> ParseHexFrom(s, acc).value == HexNumber(p + s)
    decreases |s|
  {
    if s == [] {
      assert p + s == p;
    } else if !IsHexDigit(s[0]) {
    } else {
      var p' := p + [s[0]];
      HexNumberSnoc(p, s[0]);
      assert p' + s[1..] == p + s;
      if acc * 16 + HexVal(s[0]) > 255 {
        if AllHex(s) {
          assert AllHex(p' + s[1..]);
          HexNumberMonotone(p', s[1..]);
        }
      } else {
        ParseHexFromValue(p', s[1..], acc * 16 + HexVal(s[0]));
        assert AllHex(s) <==> IsHexDigit(s[0]) && AllHex(s[1..]);
      }
    }
  }

  /** Reading `s` after `p`, a non-digit comes before the value exceeds eight bits. */
  predicate SyntaxFirst(p: string, s: string) {
    !AllHex(s) && AllHex(p + s[..FirstInvalid(s)]) && HexNumber(p + s[..FirstInvalid(s)]) <= 255
  }

  /** A non-digit reached before the value overflows is a syntax error. */
  lemma {:induction false} ParseHexFromSyntax(p: string, s: string, acc: nat)
    requires AllHex(p) && HexNumber(p) == acc <= 255
    ensures SyntaxFirst(p, s) ==> ParseHexFrom(s, acc) == Err(Syntax)
    decreases |s|
  {
    if SyntaxFirst(p, s) && IsHexDigit(s[0]) {
      var p' := p + [s[0]];
      HexNumberSnoc(p, s[0]);
      var j := FirstInvalid(s);
      assert j == FirstInvalid(s[1..]) + 1;
      assert p' + s[1..][..j - 1] == p + s[..j];
      HexNumberMonotone(p', s[1..][..j - 1]);
      ParseHexFromSyntax(p', s[1..], acc * 16 + HexVal(s[0]));
    }
  }

  /** Two hexadecimal digits never overflow eight bits. */
  lemma TwoDigitsFit(s: string)
    requires |s| == 2
    ensures ParseUint8Hex(s).Ok? <==> IsHexDigit(s[0]) && IsHexDigit(s[1])
    ensures ParseUint8Hex(s).Ok? ==> ParseUint8Hex(s).value == 16 * HexVal(s[0]) + HexVal(s[1])
    ensures ParseUint8Hex(s).Err? ==> ParseUint8Hex(s) == Err(Syntax)
  {
    if AllHex(s) {
      HexNumberSnoc([], s[0]);
      assert [s[0]] == s[..1];
      HexNumberSnoc([s[0]], s[1]);
      assert [s[0]] + [s[1]] == s;
    } else {
      var j := FirstInvalid(s);
      if j == 1 {
        HexNumberSnoc([], s[0]);
        assert [] + [s[0]] == s[..1];
      } else {
        assert s[..0] == [];
      }
    }
  }

  /** The decimal numeral of a natural number, without leading zeros. */
  function Decimal(n: nat): (s: string)
    ensures IsDigits(s) && DecimalValue(s) == n
  {
    var d := ['0' + (n % 10) as char];
    if n < 10 then d
    else
      var s := Decimal(n / 10) + d;
      assert s[..|s| - 1] == Decimal(n / 10);
      s
  }

  /** `Atoi` reads back every 64-bit value written in decimal, with or without a sign. */
  lemma AtoiDecimal(n: nat)
    ensures n <= MaxInt64 ==> Atoi(Decimal(n)) == Ok(n)
    ensures n <= MaxInt64 ==> Atoi("+" + Decimal(n)) == Ok(n)
    ensures n <= -MinInt64 ==> Atoi("-" + Decimal(n)) == Ok(-(n as int))
    ensures n > MaxInt64 ==> Atoi(Decimal(n)).Err? && Atoi("+" + Decimal(n)).Err?
    ensures n > -MinInt64 ==> Atoi("-" + Decimal(n)).Err?
  {
    var s := Decimal(n);
    assert ("+" + s)[1..] == s;
    assert ("-" + s)[1..] == s;
  }
}
