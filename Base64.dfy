/**
  Base64 and base64url codecs of lib/JWX/Util/Base64.php.

  `Encode`/`Decode` are the standard-alphabet transforms of section 4 of
  RFC 4648, written out as PHP's `base64_encode` and strict
  `base64_decode($data, true)` behave; `UrlEncode`/`UrlDecode` are the
  unpadded URL-safe variant of section 5, built from them exactly as the
  source builds it (rtrim "=", then strtr; strtr, then re-pad by length).
 */
module Base64 {
  import opened Common

  // ---------------------------------------------------------------------------
  // Alphabets

  predicate IsStandardChar(c: char)
  {
    'A' <= c <= 'Z' || 'a' <= c <= 'z' || '0' <= c <= '9' || c == '+' || c == '/'
  }

  predicate IsURLChar(c: char)
  {
    'A' <= c <= 'Z' || 'a' <= c <= 'z' || '0' <= c <= '9' || c == '-' || c == '_'
  }

  /** The characters strict `base64_decode` skips. */
  predicate IsWhitespace(c: char)
  {
    c == ' ' || c == '\t' || c == '\n' || c == '\r'
  }

  predicate AllStandard(s: string)
  {
    forall i :: 0 <= i < |s| ==> IsStandardChar(s[i])
  }

  predicate AllURL(s: string)
  {
    forall i :: 0 <= i < |s| ==> IsURLChar(s[i])
  }

  /** The character of a 6-bit group (Table 1 of RFC 4648). */
  function SextetChar(v: nat): (c: char)
    requires v < 64
    ensures IsStandardChar(c) && CharSextet(c) == v
  {
    if v < 26 then (65 + v) as char
    else if v < 52 then (97 + v - 26) as char
    else if v < 62 then (48 + v - 52) as char
    else if v == 62 then '+'
    else '/'
  }

  /** The 6-bit group a standard-alphabet character stands for. */
  function CharSextet(c: char): (v: nat)
    requires IsStandardChar(c)
    ensures v < 64
  {
    if 'A' <= c <= 'Z' then c as int - 65
    else if 'a' <= c <= 'z' then c as int - 97 + 26
    else if '0' <= c <= '9' then c as int - 48 + 52
    else if c == '+' then 62
    else 63
  }

  lemma SextetCharOfCharSextet(c: char)
    requires IsStandardChar(c)
    ensures SextetChar(CharSextet(c)) == c
  {
  }

  // ---------------------------------------------------------------------------
  // Padding and the strtr / rtrim helpers of urlEncode and urlDecode

  /** The number of '=' characters that end `s`: what rtrim($s, "=") removes. */
  function TrailingPadding(s: string): (n: nat)
    ensures n <= |s|
    ensures forall i :: |s| - n <= i < |s| ==> s[i] == '='
    ensures n < |s| ==> s[|s| - n - 1] != '='
  {
    if |s| > 0 && s[|s| - 1] == '=' then TrailingPadding(s[..|s| - 1]) + 1 else 0
  }

  /** rtrim($s, "=") */
  function RTrimPadding(s: string): string
  {
    s[..|s| - TrailingPadding(s)]
  }

  function URLToStandardChar(c: char): char
  {
    if c == '-' then '+' else if c == '_' then '/' else c
  }

  function StandardToURLChar(c: char): char
  {
    if c == '+' then '-' else if c == '/' then '_' else c
  }

  /** strtr($s, "-_", "+/") */
  function URLToStandard(s: string): (t: string)
    ensures |t| == |s| && forall i :: 0 <= i < |s| ==> t[i] == URLToStandardChar(s[i])
  {
    if s == [] then [] else [URLToStandardChar(s[0])] + URLToStandard(s[1..])
  }

  /** strtr($s, "+/", "-_") */
  function StandardToURL(s: string): (t: string)
    ensures |t| == |s| && forall i :: 0 <= i < |s| ==> t[i] == StandardToURLChar(s[i])
  {
    if s == [] then [] else [StandardToURLChar(s[0])] + StandardToURL(s[1..])
  }

  /** The '=' padding that completes an encoding of `n` octets to a multiple of 4 characters. */
  function Padding(n: nat): (p: string)
    ensures |p| <= 2 && forall i :: 0 <= i < |p| ==> p[i] == '='
  {
    if n % 3 == 1 then "==" else if n % 3 == 2 then "=" else ""
  }

  /** s with every whitespace character removed. */
  function StripWhitespace(s: string): (r: string)
    ensures |r| <= |s|
    ensures forall i :: 0 <= i < |r| ==> !IsWhitespace(r[i])
  {
    if s == [] then []
    else (if IsWhitespace(s[0]) then [] else [s[0]]) + StripWhitespace(s[1..])
  }

  // ---------------------------------------------------------------------------
  // Encoding

  /**
    The unpadded encoding: each 3-octet group becomes 4 characters and a final
    group of 1 or 2 octets becomes 2 or 3 characters.
   */
  function EncodeGroups(d: seq<byte>): (s: string)
    ensures AllStandard(s)
    decreases |d|
  {
    if |d| == 0 then ""
    else if |d| == 1 then
      [SextetChar(d[0] / 4), SextetChar(d[0] % 4 * 16)]
    else if |d| == 2 then
      [SextetChar(d[0] / 4), SextetChar(d[0] % 4 * 16 + d[1] / 16), SextetChar(d[1] % 16 * 4)]
    else
      [SextetChar(d[0] / 4), SextetChar(d[0] % 4 * 16 + d[1] / 16),
       SextetChar(d[1] % 16 * 4 + d[2] / 64), SextetChar(d[2] % 64)]
      + EncodeGroups(d[3..])
  }

  /** The length of the unpadded encoding of n octets. */
  function UnpaddedLength(n: nat): nat
  {
    4 * (n / 3) + (if n % 3 == 0 then 0 else n % 3 + 1)
  }

  /**
    Base64::encode (base64_encode): the padded standard encoding; its length is a
    multiple of 4 and it always passes `IsValid`.
   */
  function Encode(d: seq<byte>): (s: string)
    ensures |s| % 4 == 0
    ensures IsValid(s)
  {
    PaddedEncoding(d);
    EncodeGroups(d) + Padding(|d|)
  }

  /** Base64::urlEncode: strtr(rtrim(encode($data), "="), "+/", "-_") */
  function UrlEncode(d: seq<byte>): (s: string)
    ensures IsValidURLEncoding(s)
    ensures forall i :: 0 <= i < |s| ==> s[i] != '='
    ensures |s| % 4 != 1
  {
    RTrimEncode(d);
    EncodeGroupsLength(d);
    EncodingLength(|d|);
    var body := RTrimPadding(Encode(d));
    var s := StandardToURL(body);
    assert forall i :: 0 <= i < |s| ==> IsURLChar(s[i]) && s[i] != '=' by {
      forall i | 0 <= i < |s| ensures IsURLChar(s[i]) && s[i] != '=' {
        assert IsStandardChar(body[i]);
      }
    }
    s
  }

  // ---------------------------------------------------------------------------
  // Decoding

  /**
    Inverse of `EncodeGroups` on one body of standard characters; a last group of
    2 or 3 characters yields 1 or 2 octets and its unused low bits are ignored.
   */
  function DecodeGroups(b: string): seq<byte>
    requires AllStandard(b)
    decreases |b|
  {
    if |b| < 2 then []
    else
      var v0, v1 := CharSextet(b[0]), CharSextet(b[1]);
      if |b| == 2 then [v0 * 4 + v1 / 16]
      else
        var v2 := CharSextet(b[2]);
        if |b| == 3 then [v0 * 4 + v1 / 16, v1 % 16 * 16 + v2 / 4]
        else
          var v3 := CharSextet(b[3]);
          [v0 * 4 + v1 / 16, v1 % 16 * 16 + v2 / 4, v2 % 4 * 64 + v3] + DecodeGroups(b[4..])
  }

  /**
    Strict base64_decode: whitespace is skipped; the rest must be standard
    characters followed by optional '=' padding; a lone character in the last
    group fails; padding, when present, is at most two characters and must
    complete the last group.
   */
  function StrictDecode(s: string): (r: Option<seq<byte>>)
    ensures var t := StripWhitespace(s);
      r.Some? <==> IsValid(t) && |RTrimPadding(t)| % 4 != 1 && (TrailingPadding(t) > 0 ==> |t| % 4 == 0)
    ensures r.Some? ==> |r.value| == |RTrimPadding(StripWhitespace(s))| * 3 / 4
  {
    var t := StripWhitespace(s);
    var p := TrailingPadding(t);
    var body := t[..|t| - p];
    assert RTrimPadding(t) == body;
    assert IsValid(t) <==> p <= 2 && AllStandard(body);
    if !AllStandard(body) then None
    else if |body| % 4 == 1 then None
    else if p > 0 && (p > 2 || (|body| + p) % 4 != 0) then None
    else DecodedLength(body); Some(DecodeGroups(body))
  }

  /** Base64::decode: strict decoding, failing with a RuntimeException. */
  function Decode(s: string): (r: Result<seq<byte>>)
    ensures r.Err? ==> r.error == Base64DecodeFailed && r.error.Class() == RuntimeException
    ensures r.Ok? ==> IsValid(StripWhitespace(s))
  {
    match StrictDecode(s)
    case Some(d) => Ok(d)
    case None => Err(Base64DecodeFailed)
  }

  /**
    Base64::urlDecode: strtr "-_" to "+/", then pad by length mod 4
    (0: nothing, 2: "==", 3: "=", 1: UnexpectedValueException), then decode.
   */
  function UrlDecode(s: string): (r: Result<seq<byte>>)
    ensures |s| % 4 == 1 ==> r == Err(MalformedBase64URL)
    ensures r.Err? ==> r.error in {MalformedBase64URL, Base64DecodeFailed}
  {
    var t := URLToStandard(s);
    if |t| % 4 == 1 then Err(MalformedBase64URL)
    else Decode(t + URLPadding(|t|))
  }

  /** The padding urlDecode appends to a string of length n (n mod 4 != 1). */
  function URLPadding(n: nat): string
  {
    if n % 4 == 2 then "==" else if n % 4 == 3 then "=" else ""
  }

  // ---------------------------------------------------------------------------
  // Validity checks

  /** The PCRE pattern ^[A-Za-z0-9\-_]*$ anchored at the very end of the string. */
  predicate IsValidURLEncoding(s: string)
  {
    AllURL(s)
  }

  /** The PCRE pattern ^[A-Za-z0-9+/]*={0,2}$ anchored at the very end of the string. */
  predicate IsValid(s: string)
  {
    TrailingPadding(s) <= 2 && AllStandard(RTrimPadding(s))
  }

  /** The string PCRE's `$` without the D modifier tests: one final "\n" is not part of it. */
  function DropFinalNewline(s: string): (t: string)
    ensures t == s || t + "\n" == s
  {
    if |s| > 0 && s[|s| - 1] == '\n' then s[..|s| - 1] else s
  }

  /**
    Base64::isValidURLEncoding as written: without the D modifier PCRE's `$` also
    matches before one final "\n", so a string with a trailing newline passes.
   */
  function IsValidURLEncodingAsWritten(s: string): (b: bool)
    ensures IsValidURLEncoding(s) ==> b
    ensures b <==> IsValidURLEncoding(DropFinalNewline(s))
  {
    FinalNewlineInvalid(s);
    IsValidURLEncoding(s) || (|s| > 0 && s[|s| - 1] == '\n' && IsValidURLEncoding(s[..|s| - 1]))
  }

  /** Base64::isValid as written, with the same trailing-newline allowance. */
  function IsValidAsWritten(s: string): (b: bool)
    ensures IsValid(s) ==> b
    ensures b <==> IsValid(DropFinalNewline(s))
  {
    FinalNewlineInvalid(s);
    IsValid(s) || (|s| > 0 && s[|s| - 1] == '\n' && IsValid(s[..|s| - 1]))
  }

  // ---------------------------------------------------------------------------
  // Lemmas

  predicate NoWhitespace(s: string)
  {
    forall i :: 0 <= i < |s| ==> !IsWhitespace(s[i])
  }

  predicate AllPadding(s: string)
  {
    forall i :: 0 <= i < |s| ==> s[i] == '='
  }

  lemma {:induction false} EncodeGroupsLength(d: seq<byte>)
    ensures |EncodeGroups(d)| == UnpaddedLength(|d|)
    decreases |d|
  {
    if |d| >= 3 {
      EncodeGroupsLength(d[3..]);
    }
  }

  lemma {:induction false} DecodeGroupsLength(b: string)
    requires AllStandard(b)
    ensures |DecodeGroups(b)| == 3 * (|b| / 4) + (if |b| % 4 == 0 then 0 else |b| % 4 - 1)
    decreases |b|
  {
    if |b| >= 4 {
      DecodeGroupsLength(b[4..]);
    }
  }

  /** A body of standard characters whose length is not 1 mod 4 yields floor(3 * |b| / 4) octets. */
  lemma DecodedLength(b: string)
    requires AllStandard(b) && |b| % 4 != 1
    ensures |DecodeGroups(b)| == |b| * 3 / 4
  {
    DecodeGroupsLength(b);
  }

  /** How the unpadded length of n octets determines the padding. */
  lemma EncodingLength(n: nat)
    ensures UnpaddedLength(n) % 4 != 1
    ensures URLPadding(UnpaddedLength(n)) == Padding(n)
  {
  }

  /** The three octets of a group come back from its four sextets. */
  lemma GroupRoundTrip(b0: byte, b1: byte, b2: byte)
    ensures b0 / 4 * 4 + (b0 % 4 * 16 + b1 / 16) / 16 == b0
    ensures (b0 % 4 * 16 + b1 / 16) % 16 * 16 + (b1 % 16 * 4 + b2 / 64) / 4 == b1
    ensures (b1 % 16 * 4 + b2 / 64) % 4 * 64 + b2 % 64 == b2
  {
    assert (b0 % 4 * 16 + b1 / 16) / 16 == b0 % 4;
    assert (b0 % 4 * 16 + b1 / 16) % 16 == b1 / 16;
    assert (b1 % 16 * 4 + b2 / 64) / 4 == b1 % 16;
    assert (b1 % 16 * 4 + b2 / 64) % 4 == b2 / 64;
  }

  lemma {:induction false} DecodeGroupsEncodeGroups(d: seq<byte>)
    ensures DecodeGroups(EncodeGroups(d)) == d
    decreases |d|
  {
    if |d| == 0 {
    } else if |d| == 1 {
      OneOctetRoundTrip(d[0]);
      assert d == [d[0]];
    } else if |d| == 2 {
      TwoOctetsRoundTrip(d[0], d[1]);
      assert d == [d[0], d[1]];
    } else {
      var rest := d[3..];
      assert d == [d[0], d[1], d[2]] + rest;
      GroupPrefixRoundTrip(d[0], d[1], d[2], rest);
      DecodeGroupsEncodeGroups(rest);
    }
  }

  lemma OneOctetRoundTrip(b0: byte)
    ensures DecodeGroups(EncodeGroups([b0])) == [b0]
  {
    var e := EncodeGroups([b0]);
    assert e == [SextetChar(b0 / 4), SextetChar(b0 % 4 * 16)];
    assert b0 % 4 * 16 / 16 == b0 % 4;
  }

  lemma TwoOctetsRoundTrip(b0: byte, b1: byte)
    ensures DecodeGroups(EncodeGroups([b0, b1])) == [b0, b1]
  {
    var e := EncodeGroups([b0, b1]);
    assert e == [SextetChar(b0 / 4), SextetChar(b0 % 4 * 16 + b1 / 16), SextetChar(b1 % 16 * 4)];
    GroupRoundTrip(b0, b1, 0);
  }

  lemma ThreeOctetsRoundTrip(b0: byte, b1: byte, b2: byte)
    ensures DecodeGroups(EncodeGroups([b0, b1, b2])) == [b0, b1, b2]
  {
    var c0, c1 := SextetChar(b0 / 4), SextetChar(b0 % 4 * 16 + b1 / 16);
    var c2, c3 := SextetChar(b1 % 16 * 4 + b2 / 64), SextetChar(b2 % 64);
    assert [b0, b1, b2][3..] == [];
    assert EncodeGroups([b0, b1, b2]) == [c0, c1, c2, c3] + EncodeGroups([]);
    assert EncodeGroups([b0, b1, b2]) == [c0, c1, c2, c3];
    assert [c0, c1, c2, c3][4..] == [];
    GroupRoundTrip(b0, b1, b2);
  }

  /** Encoding a full group and the rest is encoding each of them. */
  lemma EncodeGroupsCons(b0: byte, b1: byte, b2: byte, rest: seq<byte>)
    ensures EncodeGroups([b0, b1, b2] + rest) == EncodeGroups([b0, b1, b2]) + EncodeGroups(rest)
  {
    assert ([b0, b1, b2] + rest)[3..] == rest;
    assert [b0, b1, b2][3..] == [];
  }

  /** Decoding four characters and the rest is decoding each of them. */
  lemma DecodeGroupsCons(head: string, rest: string)
    requires AllStandard(head) && AllStandard(rest) && |head| == 4
    ensures AllStandard(head + rest)
    ensures DecodeGroups(head + rest) == DecodeGroups(head) + DecodeGroups(rest)
  {
    var s := head + rest;
    assert AllStandard(s) by {
      forall i | 0 <= i < |s| ensures IsStandardChar(s[i]) {
        if i >= 4 { assert s[i] == rest[i - 4]; }
      }
    }
    assert s[4..] == rest;
    assert head[4..] == [];
  }

  lemma GroupPrefixRoundTrip(b0: byte, b1: byte, b2: byte, rest: seq<byte>)
    ensures DecodeGroups(EncodeGroups([b0, b1, b2] + rest)) == [b0, b1, b2] + DecodeGroups(EncodeGroups(rest))
  {
    EncodeGroupsCons(b0, b1, b2, rest);
    EncodeGroupsLength([b0, b1, b2]);
    DecodeGroupsCons(EncodeGroups([b0, b1, b2]), EncodeGroups(rest));
    ThreeOctetsRoundTrip(b0, b1, b2);
  }

  /** Padding after a body without '=' is exactly what rtrim removes. */
  lemma {:induction false} TrailingPaddingOfPadded(body: string, pad: string)
    requires AllStandard(body) && AllPadding(pad)
    ensures TrailingPadding(body + pad) == |pad|
    ensures RTrimPadding(body + pad) == body
    decreases |pad|
  {
    var s := body + pad;
    if |pad| == 0 {
      assert s == body;
      if |body| > 0 {
        assert IsStandardChar(body[|body| - 1]);
      }
    } else {
      assert s[..|s| - 1] == body + pad[..|pad| - 1];
      TrailingPaddingOfPadded(body, pad[..|pad| - 1]);
    }
  }

  /** The padded encoding splits into the unpadded body and its padding. */
  lemma PaddedEncoding(d: seq<byte>)
    ensures RTrimPadding(EncodeGroups(d) + Padding(|d|)) == EncodeGroups(d)
    ensures IsValid(EncodeGroups(d) + Padding(|d|))
    ensures |EncodeGroups(d) + Padding(|d|)| % 4 == 0
  {
    var body, pad := EncodeGroups(d), Padding(|d|);
    assert RTrimPadding(body + pad) == body && IsValid(body + pad) by {
      TrailingPaddingOfPadded(body, pad);
    }
    assert |body + pad| % 4 == 0 by {
      EncodeGroupsLength(d);
      PaddedLength(|d|);
      assert |body + pad| == UnpaddedLength(|d|) + |Padding(|d|)|;
    }
  }

  lemma PaddedLength(n: nat)
    ensures (UnpaddedLength(n) + |Padding(n)|) % 4 == 0
  {
  }

  /** rtrim(encode(d), "=") is the unpadded encoding. */
  lemma RTrimEncode(d: seq<byte>)
    ensures RTrimPadding(Encode(d)) == EncodeGroups(d)
  {
    PaddedEncoding(d);
  }

  /** strtr to the URL alphabet and back is the identity on standard characters. */
  lemma StandardURLStandard(s: string)
    requires AllStandard(s)
    ensures URLToStandard(StandardToURL(s)) == s
  {
    var t := URLToStandard(StandardToURL(s));
    forall i | 0 <= i < |s| ensures t[i] == s[i] {
      assert IsStandardChar(s[i]);
    }
  }

  lemma {:induction false} StripWhitespaceNoop(s: string)
    requires NoWhitespace(s)
    ensures StripWhitespace(s) == s
  {
    if s != [] {
      StripWhitespaceNoop(s[1..]);
      assert s == [s[0]] + s[1..];
    }
  }

  lemma {:induction false} StripWhitespaceKeeps(s: string, c: char)
    requires c in s && !IsWhitespace(c)
    ensures c in StripWhitespace(s)
  {
    if s[0] != c {
      StripWhitespaceKeeps(s[1..], c);
    }
  }

  lemma PaddedNoWhitespace(body: string, pad: string)
    requires AllStandard(body) && AllPadding(pad)
    ensures NoWhitespace(body + pad)
  {
    var s := body + pad;
    forall i | 0 <= i < |s| ensures !IsWhitespace(s[i]) {
      if i < |body| { assert IsStandardChar(body[i]); } else { assert s[i] == pad[i - |body|]; }
    }
  }

  /** Strict decoding of a whitespace-free string whose body and padding pass every test. */
  lemma StrictDecodeAccepts(s: string)
    requires NoWhitespace(s)
    requires AllStandard(RTrimPadding(s)) && TrailingPadding(s) <= 2
    requires |RTrimPadding(s)| % 4 != 1
    requires TrailingPadding(s) > 0 ==> |s| % 4 == 0
    ensures StrictDecode(s) == Some(DecodeGroups(RTrimPadding(s)))
  {
    StripWhitespaceNoop(s);
  }

  /** A body of standard characters followed by well-placed padding decodes to its groups. */
  lemma DecodePadded(body: string, pad: string)
    requires AllStandard(body) && AllPadding(pad) && |pad| <= 2
    requires |body| % 4 != 1
    requires |pad| > 0 ==> (|body| + |pad|) % 4 == 0
    ensures Decode(body + pad) == Ok(DecodeGroups(body))
  {
    PaddedNoWhitespace(body, pad);
    TrailingPaddingOfPadded(body, pad);
    StrictDecodeAccepts(body + pad);
  }

  /** urlEncode is the unpadded encoding, translated to the URL alphabet. */
  lemma UrlEncodeUnpadded(d: seq<byte>)
    ensures UrlEncode(d) == StandardToURL(EncodeGroups(d))
  {
    RTrimEncode(d);
  }

  /** The unpadded encoding and its padding meet the decoder's conditions. */
  lemma EncodingFits(d: seq<byte>)
    ensures |EncodeGroups(d)| % 4 != 1
    ensures (|EncodeGroups(d)| + |Padding(|d|)|) % 4 == 0
  {
    EncodeGroupsLength(d);
    EncodingLength(|d|);
    PaddedLength(|d|);
  }

  /** decode(encode(d)) == d for every octet string. */
  lemma DecodeEncode(d: seq<byte>)
    ensures Decode(Encode(d)) == Ok(d)
  {
    var body, pad := EncodeGroups(d), Padding(|d|);
    assert Encode(d) == body + pad;
    EncodingFits(d);
    DecodePadded(body, pad);
    DecodeGroupsEncodeGroups(d);
  }

  /** urlDecode(urlEncode(d)) == d for every octet string, the empty one included. */
  lemma UrlDecodeUrlEncode(d: seq<byte>)
    ensures UrlDecode(UrlEncode(d)) == Ok(d)
  {
    var body := EncodeGroups(d);
    RTrimEncode(d);
    StandardURLStandard(body);
    EncodeGroupsLength(d);
    EncodingLength(|d|);
    DecodeEncode(d);
  }

  /**
    Every string over the URL alphabet whose length is not 1 mod 4 is accepted
    by urlDecode, and yields floor(3 * |s| / 4) octets.
   */
  lemma UrlDecodeAcceptsURLAlphabet(s: string)
    requires IsValidURLEncoding(s) && |s| % 4 != 1
    ensures UrlDecode(s).Ok? && |UrlDecode(s).value| == |s| * 3 / 4
  {
    var t := URLToStandard(s);
    assert AllStandard(t) by {
      forall i | 0 <= i < |t| ensures IsStandardChar(t[i]) {
        assert IsURLChar(s[i]);
      }
    }
    DecodePadded(t, URLPadding(|t|));
    DecodeGroupsLength(t);
  }

  /** Decode rejects a character outside the standard alphabet, '=' and whitespace. */
  lemma DecodeRejectsForeignChar(s: string, c: char)
    requires c in s && !IsStandardChar(c) && c != '=' && !IsWhitespace(c)
    ensures Decode(s) == Err(Base64DecodeFailed)
  {
    var t := StripWhitespace(s);
    StripWhitespaceKeeps(s, c);
    var k :| 0 <= k < |t| && t[k] == c;
    var p := TrailingPadding(t);
    assert k < |t| - p;
    assert RTrimPadding(t)[k] == c;
  }

  /** Decode rejects padding that is followed by anything other than padding. */
  lemma DecodeRejectsMisplacedPadding(s: string, i: nat, j: nat)
    requires NoWhitespace(s)
    requires i < j < |s| && s[i] == '=' && s[j] != '='
    ensures Decode(s) == Err(Base64DecodeFailed)
  {
    StripWhitespaceNoop(s);
    var p := TrailingPadding(s);
    assert j < |s| - p;
    assert RTrimPadding(s)[i] == '=';
  }

  /** A valid standard encoding whose length is a multiple of 4 always decodes. */
  lemma DecodeAcceptsValid(s: string)
    requires IsValid(s) && |s| % 4 == 0
    ensures Decode(s).Ok?
  {
    var p := TrailingPadding(s);
    var body, pad := RTrimPadding(s), s[|s| - p..];
    assert s == body + pad;
    assert AllPadding(pad);
    assert |body| % 4 != 1 by { assert |body| + p == |s|; }
    DecodePadded(body, pad);
  }

  /** The as-written validity checks accept a trailing newline that the intended ones refuse. */
  lemma IsValidAsWrittenAcceptsNewline()
    ensures IsValidURLEncodingAsWritten("QQ\n") && !IsValidURLEncoding("QQ\n")
    ensures IsValidAsWritten("QQ==\n") && !IsValid("QQ==\n")
  {
    assert IsValidURLEncodingAsWritten("QQ\n") && !IsValidURLEncoding("QQ\n") by {
      FinalNewlineInvalid("QQ\n");
      assert DropFinalNewline("QQ\n") == "QQ";
    }
    assert IsValid("QQ==") by {
      assert "QQ=="[..3] == "QQ=";
      assert "QQ="[..2] == "QQ";
      assert TrailingPadding("QQ") == 0;
      assert TrailingPadding("QQ==") == 2;
      assert RTrimPadding("QQ==") == "QQ";
    }
    FinalNewlineInvalid("QQ==\n");
    assert DropFinalNewline("QQ==\n") == "QQ==";
  }

  /** Both intended validity checks accept what the encoders produce, and never a final newline. */
  lemma EncodersPassValidity(d: seq<byte>, s: string)
    requires |s| > 0 && s[|s| - 1] == '\n'
    ensures IsValid(Encode(d)) && IsValidAsWritten(Encode(d))
    ensures IsValidURLEncoding(UrlEncode(d)) && IsValidURLEncodingAsWritten(UrlEncode(d))
    ensures !IsValid(s) && !IsValidURLEncoding(s)
  {
    FinalNewlineInvalid(s);
  }

  /** Neither intended validity pattern matches a string that ends in a newline. */
  lemma FinalNewlineInvalid(s: string)
    ensures |s| > 0 && s[|s| - 1] == '\n' ==> !AllURL(s)
    ensures |s| > 0 && s[|s| - 1] == '\n' ==> TrailingPadding(s) == 0 && !AllStandard(RTrimPadding(s))
  {
    if |s| > 0 && s[|s| - 1] == '\n' {
      assert !IsURLChar(s[|s| - 1]);
      assert !IsStandardChar(RTrimPadding(s)[|s| - 1]);
    }
  }

  /**
    isValid's pattern read as a regular expression: some split of s into a body of
    standard characters and at most two '=' exists; rtrim finds the only one.
   */
  lemma IsValidMatchesPattern(s: string)
    ensures IsValid(s) <==> exists k :: 0 <= k <= |s| <= k + 2 && AllStandard(s[..k]) && AllPadding(s[k..])
  {
    var n := TrailingPadding(s);
    assert AllPadding(s[|s| - n..]);
    forall k | 0 <= k <= |s| && AllStandard(s[..k]) && AllPadding(s[k..])
      ensures k == |s| - n
    {
      assert forall j :: k <= j < |s| ==> s[j] == s[k..][j - k];
      assert forall j :: 0 <= j < k ==> s[j] == s[..k][j];
      assert 0 < k ==> IsStandardChar(s[k - 1]);
    }
  }
}
