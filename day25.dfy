/** Day 25: SNAFU numerals, base five with the digits `=`, `-`, `0`, `1`, `2`
    standing for -2 … 2, most significant digit first. */
module Day25 {
  import opened Common

  predicate IsSnafuDigit(c: char)
  {
    c == '=' || c == '-' || c == '0' || c == '1' || c == '2'
  }

  /** The value of one digit, or None for a character that is not a SNAFU digit. */
  function DigitValue(c: char): (v: Option<int>)
    ensures v.Some? <==> IsSnafuDigit(c)
    ensures v.Some? ==> -2 <= v.value <= 2
  {
    match c
    case '=' => Some(-2)
    case '-' => Some(-1)
    case '0' => Some(0)
    case '1' => Some(1)
    case '2' => Some(2)
    case _ => None
  }

  /** The largest magnitude `n` SNAFU digits can express: all `2`s, or all `=`s for the
      negative end; (5^n - 1) / 2. */
  function SnafuLimit(n: nat): nat
  {
    if n == 0 then 0 else 5 * SnafuLimit(n - 1) + 2
  }

  /** `SnafuToInt`: `""` and `"0"` are zero; otherwise the last digit is the least
      significant one and an unknown digit is an error. */
  function SnafuToInt(s: string): (r: Result<int>)
    ensures r.Ok? ==> Abs(r.value) <= SnafuLimit(|s|)
  {
    if s == "" || s == "0" then Ok(0)
    else
      match DigitValue(s[|s| - 1])
      case None => Err("Invalid SNAFU value")
      case Some(d) =>
        match SnafuToInt(s[..|s| - 1])
        case Err(m) => Err(m)
        case Ok(rest) => Ok(rest * 5 + d)
  }

  /** Decoding fails exactly when some character is not a SNAFU digit. */
  lemma {:induction false} SnafuToIntFails(s: string)
    ensures SnafuToInt(s).Err? <==> exists i :: 0 <= i < |s| && !IsSnafuDigit(s[i])
  {
    if s == "" || s == "0" {
    } else {
      var p := s[..|s| - 1];
      SnafuToIntFails(p);
      if exists i :: 0 <= i < |p| && !IsSnafuDigit(p[i]) {
        var i :| 0 <= i < |p| && !IsSnafuDigit(p[i]);
        assert s[i] == p[i];
      }
      if exists i :: 0 <= i < |s| && !IsSnafuDigit(s[i]) {
        var i :| 0 <= i < |s| && !IsSnafuDigit(s[i]);
        if i < |p| {
          assert p[i] == s[i];
        }
      }
    }
  }

  /** The digit for a remainder of `Math.DivRem(value + 2, 5)`, or None outside 0..4. */
  function DigitChar(remainder: int): (c: Option<char>)
    ensures c.Some? <==> 0 <= remainder <= 4
    ensures c.Some? ==> IsSnafuDigit(c.value) && DigitValue(c.value) == Some(remainder - 2)
  {
    match remainder
    case 0 => Some('=')
    case 1 => Some('-')
    case 2 => Some('0')
    case 3 => Some('1')
    case 4 => Some('2')
    case _ => None
  }

  lemma QuotientShrinks(v: int)
    requires v != 0
    ensures Abs(TruncDiv(v + 2, 5)) < Abs(v)
  {
  }

  /** `IntToSnafu`: zero is the empty numeral; otherwise the last digit comes from the
      truncating `Math.DivRem(value + 2, 5)` and a negative remainder is an error. */
  function IntToSnafu(v: int): (r: Result<string>)
    ensures v == 0 <==> r == Ok("")
    ensures v >= 0 ==> r.Ok?
    ensures r.Ok? ==> forall i :: 0 <= i < |r.value| ==> IsSnafuDigit(r.value[i])
    ensures v > 0 ==> r.value[0] == '1' || r.value[0] == '2'
    decreases Abs(v)
  {
    if v == 0 then Ok("")
    else
      QuotientShrinks(v);
      var q := TruncDiv(v + 2, 5);
      match DigitChar(TruncRem(v + 2, 5))
      case None => Err("Invalid SNAFU value")
      case Some(c) =>
        match IntToSnafu(q)
        case Err(m) => Err(m)
        case Ok(s) => Ok(s + [c])
  }

  /** Encoding and then decoding gives the value back whenever the encoding succeeds,
      in particular for every v >= 0. */
  lemma {:induction false} DecodeEncode(v: int)
    requires IntToSnafu(v).Ok?
    ensures SnafuToInt(IntToSnafu(v).value) == Ok(v)
    decreases Abs(v)
  {
    if v != 0 {
      var q := TruncDiv(v + 2, 5);
      var rem := TruncRem(v + 2, 5);
      QuotientShrinks(v);
      var c := DigitChar(rem).value;
      var p := IntToSnafu(q).value;
      DecodeEncode(q);
      var s := IntToSnafu(v).value;
      assert s == p + [c];
      assert s[..|s| - 1] == p && s[|s| - 1] == c;
      assert s != "0" by {
        if p == [] {
          assert q == 0 && v + 2 == rem;
        }
      }
      assert SnafuToInt(s) == Ok(q * 5 + (rem - 2));
    }
  }

  /** Some negative values encode (-1, -2, -7) and others hit a negative remainder (-3). */
  lemma NegativeEncoding()
    ensures IntToSnafu(-1) == Ok("-") && IntToSnafu(-7) == Ok("-=")
    ensures IntToSnafu(-3).Err?
  {
    assert TruncDiv(1, 5) == 0 && TruncRem(1, 5) == 1;
    assert TruncDiv(-5, 5) == -1 && TruncRem(-5, 5) == 0;
    assert TruncRem(-1, 5) == -1;
    assert IntToSnafu(0) == Ok("");
    assert DigitChar(1) == Some('-');
    assert IntToSnafu(-1) == Ok("" + ['-']);
    assert "" + ['-'] == "-";
    assert DigitChar(0) == Some('=');
    assert IntToSnafu(-7) == Ok("-" + ['=']);
    assert "-" + ['='] == "-=";
  }

  /** A numeral without leading zeros or negative leading digit, as `IntToSnafu` writes them. */
  predicate Canonical(s: string)
  {
    s != [] && (s[0] == '1' || s[0] == '2') && forall i :: 0 <= i < |s| ==> IsSnafuDigit(s[i])
  }

  /** Decoding and then encoding gives a canonical numeral back, and its value is positive. */
  lemma {:induction false} EncodeDecode(s: string)
    requires Canonical(s)
    ensures SnafuToInt(s).Ok? && SnafuToInt(s).value >= 1
    ensures IntToSnafu(SnafuToInt(s).value) == Ok(s)
  {
    var p := s[..|s| - 1];
    var c := s[|s| - 1];
    var d := DigitValue(c).value;
    if p == [] {
      assert s == [c];
      assert SnafuToInt(s) == Ok(d);
      assert TruncRem(d + 2, 5) == d + 2 && TruncDiv(d + 2, 5) == 0;
      assert DigitChar(d + 2) == Some(c) by {
        if c == '1' { assert d == 1; } else { assert d == 2; }
      }
      assert IntToSnafu(0) == Ok("");
      assert IntToSnafu(d) == Ok([] + [c]);
      assert [] + [c] == s;
    } else {
      assert p[0] == s[0];
      assert forall i :: 0 <= i < |p| ==> p[i] == s[i];
      EncodeDecode(p);
      var x := SnafuToInt(p).value;
      var v := x * 5 + d;
      assert SnafuToInt(s) == Ok(v);
      assert TruncDiv(v + 2, 5) == x;
      assert TruncRem(v + 2, 5) == d + 2;
      assert s == p + [c];
    }
  }

  /** Decodes every line, failing on the first line that is not a numeral. */
  function DecodeAll(lines: seq<string>): (r: Result<seq<int>>)
    ensures r.Ok? ==> |r.value| == |lines| && forall i :: 0 <= i < |lines| ==> SnafuToInt(lines[i]) == Ok(r.value[i])
    ensures r.Err? ==> exists i :: 0 <= i < |lines| && SnafuToInt(lines[i]).Err?
  {
    if lines == [] then Ok([])
    else
      match SnafuToInt(lines[0])
      case Err(m) => Err(m)
      case Ok(v) =>
        match DecodeAll(lines[1..])
        case Err(m) => Err(m)
        case Ok(vs) => Ok([v] + vs)
  }

  /** `ComputeSolution1`: the sum of all numerals, written as a numeral. */
  function ComputeSolution1(lines: seq<string>): (r: Result<string>)
    ensures r.Ok? ==> DecodeAll(lines).Ok? && SnafuToInt(r.value) == Ok(Sum(DecodeAll(lines).value))
    ensures DecodeAll(lines).Ok? && Sum(DecodeAll(lines).value) >= 0 ==> r.Ok?
  {
    match DecodeAll(lines)
    case Err(m) => Err(m)
    case Ok(values) =>
      var total := Sum(values);
      var encoded := IntToSnafu(total);
      if encoded.Ok? then DecodeEncode(total); encoded else encoded
  }
}
