/**
  Parameters whose value is a Base64urlUInt (section 2 of RFC 7518): the
  base64url encoding of the big-endian octets of a non-negative integer, using
  the fewest octets, with zero written as the single octet 0 ("AA").
 */
module Base64UIntValue {
  import opened Common
  import Base64
  import BigInt

  /** A JWK parameter (modulus, exponent, coordinate, ...) holding a Base64urlUInt. */
  datatype UIntParameter = UIntParameter(name: string, value: string)
  {
    /** Base64UIntValue::number: the big-endian integer of the base64url-decoded value. */
    function Number(): (r: Result<BigInt.BigInt>)
      ensures |value| % 4 == 1 ==> r == Err(MalformedBase64URL)
      ensures r.Ok? ==> Base64.UrlDecode(value).Ok? && r.value.num == BigInt.OctetsValue(Base64.UrlDecode(value).value)
      ensures r.Err? ==> Base64.UrlDecode(value) == Err(r.error)
    {
      var octets :- Base64.UrlDecode(value);
      Ok(BigInt.FromBase256(octets))
    }
  }

  /** The octets that RFC 7518 section 2 prescribes for a magnitude: minimal, and [0] for zero. */
  function UIntOctets(n: BigInt.BigInt): (o: seq<Common.byte>)
    ensures |o| > 0 && (o[0] == 0 ==> o == [0])
    ensures BigInt.OctetsValue(o) == BigInt.Abs(n.num)
  {
    var b := n.Base256();
    if b == [] then [0] else b
  }

  /**
    Base64UIntValue::fromNumber, as written: the decimal number becomes
    BigInt::base256 octets, stored base64url-encoded (Base64URLValue::fromString
    is taken to encode its argument). Zero exports to no octets at all.
   */
  function FromNumberAsWritten(name: string, number: BigInt.Number): (r: Result<UIntParameter>)
    ensures r.Err? <==> BigInt.FromBase10(number).Err?
    ensures r.Ok? ==> r.value.name == name
  {
    var n :- BigInt.FromBase10(number);
    Ok(UIntParameter(name, Base64.UrlEncode(n.Base256())))
  }

  /** Base64UIntValue::fromNumber, with zero encoded as "AA" as RFC 7518 section 2 requires. */
  function FromNumber(name: string, number: BigInt.Number): (r: Result<UIntParameter>)
    ensures r.Err? <==> BigInt.FromBase10(number).Err?
    ensures r.Err? ==> r.error == NotAnInteger
    ensures r.Ok? ==> r.value.name == name && IsBase64UrlUInt(r.value.value)
  {
    var n :- BigInt.FromBase10(number);
    var o := UIntOctets(n);
    Base64.UrlDecodeUrlEncode(o);
    Ok(UIntParameter(name, Base64.UrlEncode(o)))
  }

  /** A well-formed Base64urlUInt: it decodes to a non-empty minimal octet string, or to [0]. */
  predicate IsBase64UrlUInt(s: string)
  {
    var d := Base64.UrlDecode(s);
    d.Ok? && |d.value| > 0 && (d.value[0] == 0 ==> d.value == [0])
  }

  // ---------------------------------------------------------------------------
  // Properties

  /** number(fromNumber(n)) is |n|: exactly n for the non-negative numbers Base64urlUInt is for. */
  lemma NumberOfFromNumber(name: string, number: BigInt.Number)
    requires BigInt.FromBase10(number).Ok?
    ensures FromNumber(name, number).Ok?
    ensures FromNumber(name, number).value.Number() == Ok(BigInt.BigInt(BigInt.Abs(BigInt.FromBase10(number).value.num)))
  {
    var n := BigInt.FromBase10(number).value;
    Base64.UrlDecodeUrlEncode(UIntOctets(n));
  }

  /** The as-written encoding also round-trips through number(). */
  lemma NumberOfFromNumberAsWritten(name: string, number: BigInt.Number)
    requires BigInt.FromBase10(number).Ok?
    ensures FromNumberAsWritten(name, number).Ok?
    ensures FromNumberAsWritten(name, number).value.Number() == Ok(BigInt.BigInt(BigInt.Abs(BigInt.FromBase10(number).value.num)))
  {
    var n := BigInt.FromBase10(number).value;
    Base64.UrlDecodeUrlEncode(n.Base256());
  }

  /** The as-written fromNumber(0) stores the empty string. */
  lemma FromNumberZeroAsWritten()
    ensures FromNumberAsWritten("n", BigInt.IntNumber(0)) == Ok(UIntParameter("n", ""))
  {
    assert BigInt.BigInt(0).Base256() == [];
    Base64.UrlEncodeUnpadded([]);
  }

  /** The empty string is not a Base64urlUInt: it decodes to no octets at all. */
  lemma EmptyIsNotBase64UrlUInt()
    ensures !IsBase64UrlUInt("")
  {
    Base64.UrlEncodeUnpadded([]);
    Base64.UrlDecodeUrlEncode([]);
  }

  /** The corrected fromNumber(0) stores "AA", the single zero octet. */
  lemma FromNumberZero()
    ensures FromNumber("n", BigInt.IntNumber(0)) == Ok(UIntParameter("n", "AA"))
  {
    assert UIntOctets(BigInt.BigInt(0)) == [0];
    Base64.UrlEncodeUnpadded([0]);
    assert Base64.EncodeGroups([0]) == [Base64.SextetChar(0), Base64.SextetChar(0)];
    assert Base64.SextetChar(0) == 'A';
    assert Base64.StandardToURL("AA") == "AA";
  }

  /** fromNumber of a PHP integer stores the unpadded URL encoding of its octets. */
  lemma FromNumberOfInteger(name: string, i: int)
    ensures FromNumber(name, BigInt.IntNumber(i)) == Ok(UIntParameter(name, Base64.UrlEncode(UIntOctets(BigInt.BigInt(i)))))
  {
  }

  /** ModulusParameter::fromNumber(123) stores "ew", the encoding of the single octet 0x7b. */
  lemma FromNumberExample()
    ensures FromNumber("n", BigInt.IntNumber(123)) == Ok(UIntParameter("n", "ew"))
  {
    FromNumberOfInteger("n", 123);
    OctetsOf123();
    UrlEncodeOf123();
  }

  lemma OctetsOf123()
    ensures UIntOctets(BigInt.BigInt(123)) == [123]
  {
    assert BigInt.Octets(123) == BigInt.Octets(0) + [123];
  }

  lemma UrlEncodeOf123()
    ensures Base64.UrlEncode([123]) == "ew"
  {
    Base64.UrlEncodeUnpadded([123]);
    assert Base64.EncodeGroups([123]) == [Base64.SextetChar(30), Base64.SextetChar(48)];
    assert Base64.SextetChar(30) == 'e' && Base64.SextetChar(48) == 'w';
    assert Base64.StandardToURL("ew") == "ew";
  }
}
