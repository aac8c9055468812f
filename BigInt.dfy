/**
  Arbitrary-precision integers and their renderings: big-endian octet strings
  (the base-256 form of Base64urlUInt values), decimal and hexadecimal text.
  The number itself is an unbounded integer; the GMP calls become the
  positional definitions below.
 */
module BigInt {
  import opened Common

  // ---------------------------------------------------------------------------
  // Big-endian octet strings

  /** The unsigned integer an octet string denotes, most significant octet first. */
  function OctetsValue(o: seq<byte>): nat
  {
    if o == [] then 0 else OctetsValue(o[..|o| - 1]) * 256 + o[|o| - 1]
  }

  /** The shortest big-endian octet string of n: empty for zero, no leading zero octet otherwise. */
  function Octets(n: nat): seq<byte>
  {
    if n == 0 then [] else Octets(n / 256) + [n % 256]
  }

  /** Canonical octet strings: no leading zero octet. */
  predicate IsMinimal(o: seq<byte>)
  {
    o == [] || o[0] != 0
  }

  lemma {:induction false} OctetsValueOfOctets(n: nat)
    ensures OctetsValue(Octets(n)) == n
    decreases n
  {
    if n > 0 {
      OctetsValueOfOctets(n / 256);
      var o := Octets(n);
      assert o[..|o| - 1] == Octets(n / 256);
    }
  }

  lemma {:induction false} OctetsMinimal(n: nat)
    ensures IsMinimal(Octets(n))
    ensures n > 0 <==> Octets(n) != []
    decreases n
  {
    if n > 0 {
      OctetsMinimal(n / 256);
    }
  }

  lemma {:induction false} OctetsValuePositive(o: seq<byte>)
    requires o != [] && o[0] != 0
    ensures OctetsValue(o) > 0
    decreases |o|
  {
    if |o| > 1 {
      OctetsValuePositive(o[..|o| - 1]);
    }
  }

  /** A minimal octet string is the octets of its own value. */
  lemma {:induction false} OctetsOfOctetsValue(o: seq<byte>)
    requires IsMinimal(o)
    ensures Octets(OctetsValue(o)) == o
    decreases |o|
  {
    if o != [] {
      var p := o[..|o| - 1];
      var v := OctetsValue(o);
      OctetsValuePositive(o);
      assert v / 256 == OctetsValue(p) && v % 256 == o[|o| - 1];
      if p != [] {
        assert p[0] == o[0];
      }
      OctetsOfOctetsValue(p);
    }
  }

  /** OctetsValue(o) < 256^|o|: an octet string of length k holds k octets of magnitude. */
  function Pow256(k: nat): (r: nat)
    ensures r > 0
  {
    if k == 0 then 1 else 256 * Pow256(k - 1)
  }

  lemma {:induction false} OctetsValueBound(o: seq<byte>)
    ensures OctetsValue(o) < Pow256(|o|)
    decreases |o|
  {
    if o != [] {
      OctetsValueBound(o[..|o| - 1]);
    }
  }

  // ---------------------------------------------------------------------------
  // Positional text in radix 10 and 16 (lower-case digits, as gmp_strval gives)

  predicate IsDigit(c: char, radix: nat)
  {
    ('0' <= c <= '9' && (c as int) - ('0' as int) < radix)
    || ('a' <= c <= 'f' && (c as int) - ('a' as int) + 10 < radix)
  }

  function DigitValue(c: char, radix: nat): (d: nat)
    requires IsDigit(c, radix)
    ensures d < radix
  {
    if '0' <= c <= '9' then (c as int) - ('0' as int) else (c as int) - ('a' as int) + 10
  }

  function DigitChar(d: nat, radix: nat): (c: char)
    requires d < radix <= 16
    ensures IsDigit(c, radix) && DigitValue(c, radix) == d
  {
    if d < 10 then (('0' as int) + d) as char else (('a' as int) + d - 10) as char
  }

  predicate AllDigits(s: string, radix: nat)
  {
    forall i :: 0 <= i < |s| ==> IsDigit(s[i], radix)
  }

  /** The value of a string of digits, most significant first. */
  function DigitsValue(s: string, radix: nat): nat
    requires AllDigits(s, radix)
  {
    if s == [] then 0 else DigitsValue(s[..|s| - 1], radix) * radix + DigitValue(s[|s| - 1], radix)
  }

  /** The shortest digit string of n: "0" for zero, no leading zero otherwise. */
  function Digits(n: nat, radix: nat): (s: string)
    requires 2 <= radix <= 16
    ensures |s| > 0 && AllDigits(s, radix)
    decreases n
  {
    if n < radix then [DigitChar(n, radix)]
    else Digits(n / radix, radix) + [DigitChar(n % radix, radix)]
  }

  /** Canonical digit strings: non-empty, and "0" is the only one starting with '0'. */
  predicate IsCanonicalDigits(s: string, radix: nat)
  {
    AllDigits(s, radix) && |s| > 0 && (s[0] == '0' ==> |s| == 1)
  }

  /** Division by the radix splits off the last digit. */
  lemma DivModRadix(n: nat, radix: nat)
    requires radix >= 2
    ensures n == n / radix * radix + n % radix
    ensures n >= radix ==> 0 < n / radix < n
  {
  }

  /** Appending a digit multiplies by the radix and adds it. */
  lemma AppendDigit(q: nat, d: nat, radix: nat)
    requires d < radix
    ensures (q * radix + d) / radix == q && (q * radix + d) % radix == d
  {
    var n := q * radix + d;
    var k, m := n / radix, n % radix;
    assert (k - q) * radix == d - m;
    SmallMultiple(k - q, radix, d - m);
  }

  /** The only multiple of r strictly between -r and r is zero. */
  lemma SmallMultiple(x: int, r: int, y: int)
    requires r > 0 && x * r == y && -r < y < r
    ensures x == 0
  {
    if x >= 1 {
      MulAtLeast(x, r);
    } else if x <= -1 {
      MulAtLeast(-x, r);
    }
  }

  lemma MulAtLeast(x: int, r: int)
    requires x >= 1 && r >= 0
    ensures x * r >= r
  {
  }

  lemma {:induction false} DigitsValueOfDigits(n: nat, radix: nat)
    requires 2 <= radix <= 16
    ensures DigitsValue(Digits(n, radix), radix) == n
    ensures IsCanonicalDigits(Digits(n, radix), radix)
    decreases n
  {
    var s := Digits(n, radix);
    if n >= radix {
      var q := n / radix;
      DivModRadix(n, radix);
      var p := Digits(q, radix);
      var c := DigitChar(n % radix, radix);
      assert s == p + [c];
      assert s[..|s| - 1] == p && s[|s| - 1] == c;
      DigitsValueOfDigits(q, radix);
      assert DigitsValue(s, radix) == q * radix + n % radix;
      DigitsCanonicalPositive(q, radix);
      assert s[0] == p[0];
    } else {
      assert s == [DigitChar(n, radix)];
    }
  }

  /** The digits of a positive number do not start with '0'. */
  lemma {:induction false} DigitsCanonicalPositive(n: nat, radix: nat)
    requires 2 <= radix <= 16 && n > 0
    ensures Digits(n, radix)[0] != '0'
    decreases n
  {
    if n >= radix {
      DivModRadix(n, radix);
      var p := Digits(n / radix, radix);
      assert Digits(n, radix) == p + [DigitChar(n % radix, radix)];
      DigitsCanonicalPositive(n / radix, radix);
    } else {
      var c := DigitChar(n, radix);
      assert Digits(n, radix) == [c];
      assert DigitValue(c, radix) == n;
    }
  }

  lemma {:induction false} DigitsValuePositive(s: string, radix: nat)
    requires AllDigits(s, radix) && s != [] && s[0] != '0'
    ensures DigitsValue(s, radix) > 0
    decreases |s|
  {
    var p := s[..|s| - 1];
    if |s| > 1 {
      assert p[0] == s[0];
      DigitsValuePositive(p, radix);
      MulAtLeast(DigitsValue(p, radix), radix);
    } else {
      assert p == [];
      assert DigitValue(s[0], radix) > 0;
    }
  }

  /** A canonical digit string is the rendering of its own value. */
  lemma {:induction false} DigitsOfDigitsValue(s: string, radix: nat)
    requires 2 <= radix <= 16 && IsCanonicalDigits(s, radix)
    ensures Digits(DigitsValue(s, radix), radix) == s
    decreases |s|
  {
    var v := DigitsValue(s, radix);
    var p, c := s[..|s| - 1], s[|s| - 1];
    assert s == p + [c];
    var d := DigitValue(c, radix);
    DigitCharOfDigitValue(c, radix);
    if p == [] {
      assert v == d;
    } else {
      var pv := DigitsValue(p, radix);
      assert v == pv * radix + d;
      assert p[0] == s[0];
      assert IsCanonicalDigits(p, radix);
      DigitsValuePositive(p, radix);
      MulAtLeast(pv, radix);
      AppendDigit(pv, d, radix);
      assert Digits(v, radix) == Digits(pv, radix) + [DigitChar(d, radix)];
      DigitsOfDigitsValue(p, radix);
    }
  }

  lemma DigitCharOfDigitValue(c: char, radix: nat)
    requires radix <= 16 && IsDigit(c, radix)
    ensures DigitChar(DigitValue(c, radix), radix) == c
  {
  }

  // ---------------------------------------------------------------------------
  // Signed text: an optional '-' and the digits of the magnitude

  function Abs(n: int): nat
  {
    if n < 0 then -n else n
  }

  /** gmp_strval: '-' for negative numbers, then the canonical digits of the magnitude. */
  function SignedDigits(n: int, radix: nat): (s: string)
    requires 2 <= radix <= 16
    ensures |s| > 0
  {
    if n < 0 then "-" + Digits(-n, radix) else Digits(n, radix)
  }

  /**
    gmp_init($number, 10) for a string: an optional '-' and one or more decimal
    digits; anything else is rejected. "-0" and leading zeros are accepted.
   */
  function ParseDecimal(s: string): (r: Option<int>)
    ensures r.Some? <==> (|s| > 0 && AllDigits(s, 10)) || (|s| > 1 && s[0] == '-' && AllDigits(s[1..], 10))
    ensures r.Some? && r.value < 0 ==> s[0] == '-'
  {
    if |s| > 0 && s[0] == '-' then
      var m := s[1..];
      if |m| > 0 && AllDigits(m, 10) then Some(0 - DigitsValue(m, 10)) else None
    else if |s| > 0 && AllDigits(s, 10) then Some(DigitsValue(s, 10))
    else None
  }

  /** What BigInt::fromBase10 accepts: a PHP int, or a string. */
  datatype Number = IntNumber(i: int) | StringNumber(s: string)

  /** A BigInt wraps one immutable integer, set by its constructor. */
  datatype BigInt = BigInt(num: int)
  {
    /** BigInt::base10: the canonical decimal rendering, parsed back by fromBase10. */
    function Base10(): (r: string)
      ensures FromBase10(StringNumber(r)) == Ok(this)
    {
      DecimalRoundTrip(num);
      SignedDigits(num, 10)
    }

    /** BigInt::base16: the lower-case hexadecimal rendering of the same integer. */
    function Base16(): (r: string)
      ensures |r| > 0
      ensures r[0] == '-' <==> num < 0
      ensures var m := if num < 0 then r[1..] else r;
        IsCanonicalDigits(m, 16) && DigitsValue(m, 16) == Abs(num)
    {
      DigitsValueOfDigits(Abs(num), 16);
      SignedDigits(num, 16)
    }

    /** BigInt::base256: the minimal big-endian octets of the magnitude (gmp_export drops the sign). */
    function Base256(): (r: seq<byte>)
      ensures OctetsValue(r) == Abs(num)
      ensures IsMinimal(r)
      ensures r == [] <==> num == 0
    {
      OctetsValueOfOctets(Abs(num));
      OctetsMinimal(Abs(num));
      Octets(Abs(num))
    }

    /** BigInt::__toString is base10. */
    function ToString(): (r: string)
      ensures r == Base10()
      ensures FromBase10(StringNumber(r)) == Ok(this)
    {
      Base10()
    }
  }

  /** BigInt::fromBase10: an int is taken as is; a string must be a decimal integer. */
  function FromBase10(n: Number): (r: Result<BigInt>)
    ensures n.IntNumber? ==> r == Ok(BigInt(n.i))
    ensures n.StringNumber? ==> (r.Ok? <==> ParseDecimal(n.s).Some?)
    ensures n.StringNumber? && r.Ok? ==> r.value.num == ParseDecimal(n.s).value
    ensures r.Err? ==> r.error == NotAnInteger && r.error.Class() == TypeError
  {
    match n
    case IntNumber(i) => Ok(BigInt(i))
    case StringNumber(s) =>
      match ParseDecimal(s)
      case Some(v) => Ok(BigInt(v))
      case None => Err(NotAnInteger)
  }

  /** BigInt::fromBase256: the big-endian unsigned integer of the octets. */
  function FromBase256(o: seq<byte>): (r: BigInt)
    ensures r.num == OctetsValue(o)
    ensures 0 <= r.num < Pow256(|o|)
  {
    OctetsValueBound(o);
    BigInt(OctetsValue(o))
  }

  // ---------------------------------------------------------------------------
  // Properties

  lemma DecimalRoundTrip(n: int)
    ensures ParseDecimal(SignedDigits(n, 10)) == Some(n)
  {
    DigitsValueOfDigits(Abs(n), 10);
    var d := Digits(Abs(n), 10);
    if n < 0 {
      var s := "-" + d;
      assert s[1..] == d;
    } else {
      assert d[0] != '-';
    }
  }

  /** fromBase256(n.base256()) denotes |n|, and n itself when n is not negative. */
  lemma FromBase256OfBase256(n: BigInt)
    ensures FromBase256(n.Base256()) == BigInt(Abs(n.num))
  {
  }

  /** fromBase256 then base256 gives back a minimal octet string unchanged. */
  lemma Base256OfFromBase256(o: seq<byte>)
    requires IsMinimal(o)
    ensures FromBase256(o).Base256() == o
  {
    OctetsOfOctetsValue(o);
  }

  /** A canonical decimal string survives fromBase10 then base10 unchanged. */
  lemma Base10OfFromBase10(s: string)
    requires IsCanonicalDecimal(s)
    ensures FromBase10(StringNumber(s)).Ok?
    ensures FromBase10(StringNumber(s)).value.Base10() == s
  {
    if s[0] == '-' {
      var m := s[1..];
      DigitsOfDigitsValue(m, 10);
      DigitsValuePositive(m, 10);
      assert s == "-" + m;
    } else {
      DigitsOfDigitsValue(s, 10);
    }
  }

  /** Canonical decimal text: canonical digits, or '-' and the canonical digits of a positive number. */
  predicate IsCanonicalDecimal(s: string)
  {
    IsCanonicalDigits(s, 10)
    || (|s| > 1 && s[0] == '-' && IsCanonicalDigits(s[1..], 10) && s[1] != '0')
  }

  /** base10 and base16 render the same integer: same sign, same magnitude. */
  lemma Base10AndBase16Agree(n: BigInt)
    ensures var d, h := n.Base10(), n.Base16();
      (d[0] == '-') == (h[0] == '-') &&
      DigitsValue(if d[0] == '-' then d[1..] else d, 10) == DigitsValue(if h[0] == '-' then h[1..] else h, 16)
  {
    DigitsValueOfDigits(Abs(n.num), 10);
    var d := n.Base10();
    if n.num < 0 {
      assert d[1..] == Digits(-n.num, 10);
    } else {
      DigitsNoSign(n.num, 10);
    }
  }

  lemma DigitsNoSign(n: nat, radix: nat)
    requires 2 <= radix <= 16
    ensures Digits(n, radix)[0] != '-'
  {
    assert IsDigit(Digits(n, radix)[0], radix);
  }
}
