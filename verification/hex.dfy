/**
 * The text layer the receive path goes through: `binascii.hexlify` renders a
 * raw report as lowercase hexadecimal text, `bytes.fromhex` turns a piece of
 * that text back into bytes, `int(text, 16)` reads a number, and Python's
 * clamping slice `s[i:j]` cuts the text.
 */
module Hex {
  import opened Wrappers

  /** One byte of a report as Python sees it: an int in 0..255. */
  type uint8 = x: int | 0 <= x < 256

  /** The exception a failed `bytes.fromhex` or `int(..., 16)` raises. */
  datatype PyError = ValueError

  function Min(a: nat, b: nat): nat
  {
    if a <= b then a else b
  }

  /** Python's `s[i:j]` for non-negative bounds: both bounds are clamped to
      the length, and a reversed range is empty. */
  function PySlice<T>(s: seq<T>, i: nat, j: nat): (r: seq<T>)
    ensures |r| <= |s|
    ensures i <= j <= |s| ==> r == s[i..j]
    ensures |s| <= i ==> r == []
    ensures i <= |s| <= j ==> r == s[i..]
    ensures j <= i ==> r == []
  {
    var lo := Min(i, |s|);
    var hi := Min(j, |s|);
    if lo <= hi then s[lo..hi] else []
  }

  predicate IsLowerHexDigit(c: char)
  {
    ('0' <= c <= '9') || ('a' <= c <= 'f')
  }

  /** The lowercase hexadecimal digit of a nibble. */
  function HexDigit(n: nat): (c: char)
    requires n < 16
    ensures IsLowerHexDigit(c)
  {
    if n < 10 then (('0' as int) + n) as char else (('a' as int) + n - 10) as char
  }

  /** The value of one hexadecimal digit in either case, as `int` and
      `bytes.fromhex` read it; None for any other character. */
  function DigitValue(c: char): (r: Option<nat>)
    ensures r.Some? ==> r.value < 16
    ensures r.Some? <==> ('0' <= c <= '9') || ('a' <= c <= 'f') || ('A' <= c <= 'F')
  {
    if '0' <= c <= '9' then Some(c as int - '0' as int)
    else if 'a' <= c <= 'f' then Some(c as int - 'a' as int + 10)
    else if 'A' <= c <= 'F' then Some(c as int - 'A' as int + 10)
    else None
  }

  lemma DigitValueOfHexDigit(n: nat)
    requires n < 16
    ensures DigitValue(HexDigit(n)) == Some(n)
  {
  }

  /** `binascii.hexlify`: two lowercase digits per byte, high nibble first. */
  function Hexlify(b: seq<uint8>): (s: string)
    ensures |s| == 2 * |b|
    ensures forall i :: 0 <= i < |s| ==> IsLowerHexDigit(s[i])
  {
    if |b| == 0 then [] else [HexDigit(b[0] / 16), HexDigit(b[0] % 16)] + Hexlify(b[1..])
  }

  /** `bytes.fromhex` on text without whitespace: pairs of hexadecimal digits
      (either case) become bytes; an odd length or a non-digit raises. */
  function FromHex(s: string): (r: Option<seq<uint8>>)
    ensures r.Some? ==> 2 * |r.value| == |s|
    ensures |s| % 2 == 1 ==> r.None?
    decreases |s|
  {
    if |s| == 0 then Some([])
    else if |s| == 1 then None
    else
      match (DigitValue(s[0]), DigitValue(s[1]))
      case (Some(hi), Some(lo)) =>
        (match FromHex(s[2..])
         case Some(rest) => Some([hi * 16 + lo] + rest)
         case None => None)
      case _ => None
  }

  lemma {:induction false} HexlifyConcat(a: seq<uint8>, b: seq<uint8>)
    ensures Hexlify(a + b) == Hexlify(a) + Hexlify(b)
  {
    if |a| == 0 {
      assert a + b == b;
    } else {
      assert (a + b)[1..] == a[1..] + b;
      HexlifyConcat(a[1..], b);
    }
  }

  /** Reading back what hexlify wrote gives the original bytes. */
  lemma {:induction false} FromHexHexlify(b: seq<uint8>)
    ensures FromHex(Hexlify(b)) == Some(b)
  {
    if |b| > 0 {
      var s := Hexlify(b);
      DigitValueOfHexDigit(b[0] / 16);
      DigitValueOfHexDigit(b[0] % 16);
      assert s[2..] == Hexlify(b[1..]);
      FromHexHexlify(b[1..]);
      assert [b[0]] + b[1..] == b;
    }
  }

  /** Hexlify loses nothing: distinct byte strings give distinct text. */
  lemma HexlifyInjective(a: seq<uint8>, b: seq<uint8>)
    requires Hexlify(a) == Hexlify(b)
    ensures a == b
  {
    FromHexHexlify(a);
    FromHexHexlify(b);
  }

  /** Cutting the hexlified text at even offsets is the same as cutting the
      bytes first: text[2i:2j] is the hexlified form of bytes[i:j]. */
  lemma HexlifySlice(b: seq<uint8>, i: nat, j: nat)
    requires i <= j
    ensures PySlice(Hexlify(b), 2 * i, 2 * j) == Hexlify(PySlice(b, i, j))
  {
    var lo := Min(i, |b|);
    var hi := Min(j, |b|);
    assert b == b[..lo] + b[lo..hi] + b[hi..];
    HexlifyConcat(b[..lo] + b[lo..hi], b[hi..]);
    HexlifyConcat(b[..lo], b[lo..hi]);
    var s := Hexlify(b);
    assert s == Hexlify(b[..lo]) + Hexlify(b[lo..hi]) + Hexlify(b[hi..]);
    assert Min(2 * i, |s|) == 2 * lo;
    assert Min(2 * j, |s|) == 2 * hi;
    assert s[2 * lo..2 * hi] == Hexlify(b[lo..hi]);
  }

  /** `s.startswith(p)` for sequences. */
  predicate StartsWith<T(==)>(s: seq<T>, p: seq<T>)
  {
    |p| <= |s| && s[..|p|] == p
  }

  /** The hexlified text starts with the hexlified form of `p` exactly when
      the bytes start with `p`. */
  lemma HexPrefix(b: seq<uint8>, p: seq<uint8>)
    ensures PySlice(Hexlify(b), 0, 2 * |p|) == Hexlify(p) <==> StartsWith(b, p)
  {
    HexlifySlice(b, 0, |p|);
    var head := PySlice(b, 0, |p|);
    if Hexlify(head) == Hexlify(p) {
      HexlifyInjective(head, p);
    }
  }

  /** `int(text, 16)` over the magnitude: one or more hexadecimal digits,
      read most significant first. */
  function DigitsValue(s: string): (r: Option<nat>)
    ensures r.Some? ==> |s| > 0
    decreases |s|
  {
    if |s| == 0 then None
    else
      var d := DigitValue(s[|s| - 1]);
      if d.None? then None
      else if |s| == 1 then d
      else
        match DigitsValue(s[..|s| - 1])
        case Some(v) => Some(v * 16 + d.value)
        case None => None
  }

  /** The magnitude part of `int(text, 16)`, which tolerates a `0x`/`0X`
      prefix. */
  function MagnitudeValue(s: string): Option<nat>
  {
    if |s| >= 2 && s[0] == '0' && (s[1] == 'x' || s[1] == 'X') then DigitsValue(s[2..])
    else DigitsValue(s)
  }

  /** Python's `int(text, 16)`: an optional sign, an optional `0x` prefix,
      then at least one hexadecimal digit; anything else raises ValueError. */
  function ParseHexInt(s: string): (r: Result<int, PyError>)
    ensures |s| == 0 ==> r.Failure?
  {
    if |s| > 0 && s[0] == '-' then
      (match MagnitudeValue(s[1..])
       case Some(v) => Success(0 - (v as int))
       case None => Failure(ValueError))
    else
      var rest := if |s| > 0 && s[0] == '+' then s[1..] else s;
      match MagnitudeValue(rest)
      case Some(v) => Success(v)
      case None => Failure(ValueError)
  }

  /** Python's `format(n, 'x')`: the shortest lowercase hexadecimal text. */
  function ToHex(n: nat): (s: string)
    ensures |s| > 0
    ensures forall i :: 0 <= i < |s| ==> IsLowerHexDigit(s[i])
  {
    if n < 16 then [HexDigit(n)] else ToHex(n / 16) + [HexDigit(n % 16)]
  }

  /** Python's `hex(i)`. */
  function PyHex(i: int): string
  {
    if i < 0 then "-0x" + ToHex(-i) else "0x" + ToHex(i)
  }

  lemma {:induction false} DigitsValueToHex(n: nat)
    ensures DigitsValue(ToHex(n)) == Some(n)
  {
    var s := ToHex(n);
    if n < 16 {
      DigitValueOfHexDigit(n);
    } else {
      DigitValueOfHexDigit(n % 16);
      assert s[..|s| - 1] == ToHex(n / 16);
      DigitsValueToHex(n / 16);
    }
  }

  /** `int(hex(i), 16) == i` for every integer. */
  lemma ParseHexIntPyHex(i: int)
    ensures ParseHexInt(PyHex(i)) == Success(i)
  {
    if i < 0 {
      ParseNegativeHex(-i);
    } else {
      ParseNonNegativeHex(i);
    }
  }

  lemma ParseNonNegativeHex(n: nat)
    ensures ParseHexInt("0x" + ToHex(n)) == Success(n)
  {
    var s := "0x" + ToHex(n);
    DigitsValueToHex(n);
    assert s[2..] == ToHex(n);
    assert MagnitudeValue(s) == Some(n);
  }

  lemma ParseNegativeHex(n: nat)
    requires n > 0
    ensures ParseHexInt("-0x" + ToHex(n)) == Success(-(n as int))
  {
    var s := "-0x" + ToHex(n);
    DigitsValueToHex(n);
    assert s[1..] == "0x" + ToHex(n);
    assert (s[1..])[2..] == ToHex(n);
    assert MagnitudeValue(s[1..]) == Some(n);
  }

  /** Reading one hexlified byte back as a number gives the byte. */
  lemma ParseHexIntByte(x: uint8)
    ensures ParseHexInt(Hexlify([x])) == Success(x)
  {
    var s := Hexlify([x]);
    assert s == [HexDigit(x / 16), HexDigit(x % 16)];
    DigitValueOfHexDigit(x / 16);
    DigitValueOfHexDigit(x % 16);
    assert s[..1] == [HexDigit(x / 16)];
    assert DigitsValue(s[..1]) == Some(x / 16);
    assert DigitsValue(s) == Some((x / 16) * 16 + x % 16);
    assert MagnitudeValue(s) == DigitsValue(s);
  }
}
