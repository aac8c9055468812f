/**
  A JWT in compact serialization (lib/JWX/JWT/JWT.php, section 3 of RFC 7519):
  the token is split on '.', three parts make a JWS and five a JWE. The JWS and
  JWE codecs, the header and claims JSON parsers and the cryptography are
  outside the model; they are handed in as functions, and every operation
  reports the calls it made into them, in order.
 */
module JWT {
  import opened Common
  import Base64
  import JWTParameter
  import ValidationContext

  // ---------------------------------------------------------------------------
  // explode(".", $s) and implode(".", $parts)

  /** explode(".", s): the maximal '.'-free pieces of s, in order; never empty. */
  function Explode(s: string): (parts: seq<string>)
    ensures |parts| >= 1
    ensures forall i :: 0 <= i < |parts| ==> '.' !in parts[i]
  {
    if s == [] then [""]
    else
      var rest := Explode(s[1..]);
      if s[0] == '.' then [""] + rest
      else [[s[0]] + rest[0]] + rest[1..]
  }

  /** implode(".", parts) */
  function Implode(parts: seq<string>): string
    requires |parts| >= 1
  {
    if |parts| == 1 then parts[0] else parts[0] + "." + Implode(parts[1..])
  }

  /** The number of '.' separators in s. */
  function Dots(s: string): nat
  {
    if s == [] then 0 else (if s[0] == '.' then 1 else 0) + Dots(s[1..])
  }

  /** Implode with more than one part: the first part, a '.', then the rest imploded. */
  lemma ImplodeMany(parts: seq<string>)
    requires |parts| > 1
    ensures Implode(parts) == parts[0] + ("." + Implode(parts[1..]))
  {
  }

  lemma ImplodeCons(c: char, parts: seq<string>)
    requires |parts| >= 1
    ensures Implode([[c] + parts[0]] + parts[1..]) == [c] + Implode(parts)
  {
    var q := [[c] + parts[0]] + parts[1..];
    if |parts| > 1 {
      assert q[1..] == parts[1..];
      ImplodeMany(q);
      ImplodeMany(parts);
    }
  }

  /** implode(".", explode(".", s)) == s */
  lemma {:induction false} ImplodeExplode(s: string)
    ensures Implode(Explode(s)) == s
  {
    if s != [] {
      var rest := Explode(s[1..]);
      ImplodeExplode(s[1..]);
      if s[0] == '.' {
        assert ([""] + rest)[1..] == rest;
        assert s == "." + s[1..];
      } else {
        ImplodeCons(s[0], rest);
        assert s == [s[0]] + s[1..];
      }
    }
  }

  /** explode yields one more part than there are separators. */
  lemma {:induction false} ExplodeCount(s: string)
    ensures |Explode(s)| == Dots(s) + 1
  {
    if s != [] {
      ExplodeCount(s[1..]);
    }
  }

  /** explode(".", implode(".", parts)) == parts when no part holds a '.'. */
  lemma {:induction false} ExplodeImplode(parts: seq<string>)
    requires |parts| >= 1
    requires forall i :: 0 <= i < |parts| ==> '.' !in parts[i]
    ensures Explode(Implode(parts)) == parts
    decreases |parts|, |parts[0]|
  {
    var p := parts[0];
    if |parts| == 1 {
      ExplodePiece(p);
    } else if p == [] {
      var s := Implode(parts);
      assert s == "." + Implode(parts[1..]);
      assert s[1..] == Implode(parts[1..]);
      ExplodeImplode(parts[1..]);
      assert parts == [""] + parts[1..];
    } else {
      var tail := [p[1..]] + parts[1..];
      assert tail[1..] == parts[1..];
      DotFreeTail(p);
      assert forall i :: 0 <= i < |tail| ==> '.' !in tail[i];
      ExplodeImplode(tail);
      ImplodeCons(p[0], tail);
      assert [p[0]] + tail[0] == p;
      assert [[p[0]] + tail[0]] + tail[1..] == parts;
      var s := Implode(parts);
      assert s[1..] == Implode(tail);
      assert s[0] == p[0];
    }
  }

  lemma DotFreeTail(p: string)
    requires p != [] && '.' !in p
    ensures '.' !in p[1..]
  {
    assert forall k :: 0 <= k < |p| - 1 ==> p[1..][k] == p[k + 1];
  }

  /** A '.'-free string explodes to itself. */
  lemma {:induction false} ExplodePiece(p: string)
    requires '.' !in p
    ensures Explode(p) == [p]
  {
    if p != [] {
      DotFreeTail(p);
      ExplodePiece(p[1..]);
      assert p == [p[0]] + p[1..];
    }
  }

  // ---------------------------------------------------------------------------
  // The token

  datatype TokenType = TypeJWS | TypeJWE

  /** The parts of a token and its type, as the constructor leaves them. */
  datatype Token = Token(parts: seq<string>, typ: TokenType)
  {
    /** What the constructor guarantees: '.'-free parts, three for a JWS and five for a JWE. */
    predicate Valid()
    {
      (forall i :: 0 <= i < |parts| ==> '.' !in parts[i])
      && ((typ == TypeJWS && |parts| == 3) || (typ == TypeJWE && |parts| == 5))
    }
  }

  /** A constructed JWT. */
  type JWT = t: Token | t.Valid() witness Token(["", "", ""], TypeJWS)

  /** new JWT($token): explode on '.', then classify by part count or throw. */
  function Parse(token: string): (r: Result<JWT>)
    ensures r.Ok? <==> Dots(token) == 2 || Dots(token) == 4
    ensures r.Err? ==> r.error == NotAJWT && r.error.Class() == UnexpectedValueException
    ensures r.Ok? ==> r.value.parts == Explode(token)
    ensures r.Ok? ==> (r.value.typ == TypeJWS <==> Dots(token) == 2)
  {
    ExplodeCount(token);
    var parts := Explode(token);
    if |parts| == 3 then Ok(Token(parts, TypeJWS))
    else if |parts| == 5 then Ok(Token(parts, TypeJWE))
    else Err(NotAJWT)
  }

  /** isJWS */
  function IsJWS(t: JWT): (b: bool)
    ensures b <==> |t.parts| == 3
  {
    t.typ == TypeJWS
  }

  /** isJWE */
  function IsJWE(t: JWT): (b: bool)
    ensures b <==> |t.parts| == 5
    ensures b <==> !IsJWS(t)
  {
    t.typ == TypeJWE
  }

  /** token(), and __toString which returns it: implode(".", parts). */
  function TokenString(t: JWT): (s: string)
    ensures Explode(s) == t.parts
  {
    ExplodeImplode(t.parts);
    Implode(t.parts)
  }

  // ---------------------------------------------------------------------------
  // Collaborators outside the model

  /** A JWS as JWS::fromParts builds it; `payload` is what JWS::payload returns. */
  datatype JWSObject = JWSObject(parts: seq<string>, payload: string)

  /** A JWE as JWE::fromParts builds it. */
  datatype JWEObject = JWEObject(parts: seq<string>)

  /** The unseen code JWT.php calls, each call able to fail with its own exception. */
  datatype Codecs = Codecs(
    headerFromJSON: seq<byte> -> Result<JWTParameter.Header>,        // Header::fromJSON
    jwsFromParts: seq<string> -> Result<JWSObject>,                  // JWS::fromParts
    jweFromParts: seq<string> -> Result<JWEObject>,                  // JWE::fromParts
    claimsFromJSON: string -> Result<seq<ValidationContext.Claim>>,  // Claims::fromJSON
    claimValid: (ValidationContext.Claim, ValidationContext.ValidationContext) -> bool  // Claim::validateWithContext
  )

  // ---------------------------------------------------------------------------
  // Guards and the header

  /** JWS(): a LogicException on a JWE-typed token, before any call; else JWS::fromParts. */
  function JWS(t: JWT, c: Codecs): (r: Traced<JWSObject>)
    ensures IsJWE(t) ==> r == Traced(Err(NotAJWS), []) && r.result.error.Class() == LogicException
    ensures IsJWS(t) ==> r == Traced(c.jwsFromParts(t.parts), [JWSFromParts])
  {
    if !IsJWS(t) then Traced(Err(NotAJWS), [])
    else Traced(c.jwsFromParts(t.parts), [JWSFromParts])
  }

  /** JWE(): a LogicException on a JWS-typed token, before any call; else JWE::fromParts. */
  function JWE(t: JWT, c: Codecs): (r: Traced<JWEObject>)
    ensures IsJWS(t) ==> r == Traced(Err(NotAJWE), []) && r.result.error.Class() == LogicException
    ensures IsJWE(t) ==> r == Traced(c.jweFromParts(t.parts), [JWEFromParts])
  {
    if !IsJWE(t) then Traced(Err(NotAJWE), [])
    else Traced(c.jweFromParts(t.parts), [JWEFromParts])
  }

  /** header(): Header::fromJSON of the base64url-decoded first part. */
  function HeaderOf(t: JWT, c: Codecs): (r: Traced<JWTParameter.Header>)
    ensures Base64.UrlDecode(t.parts[0]).Err? ==> r == Traced(Base64.UrlDecode(t.parts[0]).PropagateFailure(), [])
    ensures Base64.UrlDecode(t.parts[0]).Ok? ==> r == Traced(c.headerFromJSON(Base64.UrlDecode(t.parts[0]).value), [ParseHeader])
  {
    match Base64.UrlDecode(t.parts[0])
    case Err(e) => Traced(Err(e), [])
    case Ok(json) => Traced(c.headerFromJSON(json), [ParseHeader])
  }

  /** The nesting test, corrected: the "cty" parameter's value is exactly the string "JWT". */
  predicate CtyIsJWT(h: JWTParameter.Header)
  {
    h.Has(JWTParameter.P_CTY) && h.Get(JWTParameter.P_CTY).value == JString(JWTParameter.TYPE_JWT)
  }

  /** The nesting test as written: PHP's loose `!=` against "JWT". */
  predicate CtyIsJWTAsWritten(h: JWTParameter.Header)
  {
    h.Has(JWTParameter.P_CTY) && LooseEqualsLiteral(h.Get(JWTParameter.P_CTY).value, JWTParameter.TYPE_JWT)
  }

  /** isNested(): whether the header declares the content type "JWT" (section 5.2 of RFC 7519). */
  function IsNested(t: JWT, c: Codecs): (r: Traced<bool>)
    ensures r.calls == HeaderOf(t, c).calls
    ensures r.result.Ok? <==> HeaderOf(t, c).result.Ok?
    ensures r.result.Ok? ==> (r.result.value <==> CtyIsJWT(HeaderOf(t, c).result.value))
  {
    var h := HeaderOf(t, c);
    match h.result
    case Err(e) => Traced(Err(e), h.calls)
    case Ok(header) => Traced(Ok(CtyIsJWT(header)), h.calls)
  }

  /** isNested() as written, with the loose comparison. */
  function IsNestedAsWritten(t: JWT, c: Codecs): (r: Traced<bool>)
    ensures r.calls == HeaderOf(t, c).calls
    ensures r.result.Ok? <==> HeaderOf(t, c).result.Ok?
    ensures r.result.Ok? ==> (r.result.value <==> CtyIsJWTAsWritten(HeaderOf(t, c).result.value))
  {
    var h := HeaderOf(t, c);
    match h.result
    case Err(e) => Traced(Err(e), h.calls)
    case Ok(header) => Traced(Ok(CtyIsJWTAsWritten(header)), h.calls)
  }

  // ---------------------------------------------------------------------------
  // Claims, nesting

  /**
    claimsFromJWS: the JWS() guard, then the signature check (JWS::validate,
    given as `verify`, which may itself throw); only a valid signature lets the
    payload be parsed into claims, which the context then validates.
   */
  function ClaimsFromJWS(t: JWT, verify: JWSObject -> Result<bool>, ctx: ValidationContext.ValidationContext, c: Codecs)
    : (r: Traced<seq<ValidationContext.Claim>>)
    ensures r.calls <= [JWSFromParts, VerifySignature, ParseClaims, ValidateClaims]
    ensures IsJWE(t) ==> r == Traced(Err(NotAJWS), [])
    ensures IsJWS(t) && c.jwsFromParts(t.parts).Err? ==>
      r == Traced(c.jwsFromParts(t.parts).PropagateFailure(), [JWSFromParts])
    ensures IsJWS(t) && c.jwsFromParts(t.parts).Ok? && verify(c.jwsFromParts(t.parts).value).Err? ==>
      r == Traced(verify(c.jwsFromParts(t.parts).value).PropagateFailure(), [JWSFromParts, VerifySignature])
    ensures ParseClaims in r.calls ==> IsJWS(t) && c.jwsFromParts(t.parts).Ok? && verify(c.jwsFromParts(t.parts).value) == Ok(true)
    ensures IsJWS(t) && c.jwsFromParts(t.parts).Ok? && verify(c.jwsFromParts(t.parts).value) == Ok(false) ==>
      r == Traced(Err(InvalidSignature), [JWSFromParts, VerifySignature]) && r.result.error.Class() == ValidationException
    ensures IsJWS(t) && c.jwsFromParts(t.parts).Ok? && verify(c.jwsFromParts(t.parts).value) == Ok(true) ==>
      ClaimsOutcome(c.claimsFromJSON(c.jwsFromParts(t.parts).value.payload), ctx, c, [JWSFromParts, VerifySignature], r)
    ensures r.result.Ok? ==> (
      && ValidateClaims in r.calls
      && IsJWS(t) && c.jwsFromParts(t.parts).Ok?
      && c.claimsFromJSON(c.jwsFromParts(t.parts).value.payload) == Ok(r.result.value)
      && forall i :: 0 <= i < |r.result.value| ==> c.claimValid(r.result.value[i], ctx))
  {
    var jws := JWS(t, c);
    match jws.result
    case Err(e) => Traced(Err(e), jws.calls)
    case Ok(j) =>
      match verify(j)
      case Err(e) => Traced(Err(e), [JWSFromParts, VerifySignature])
      case Ok(valid) =>
        if !valid then Traced(Err(InvalidSignature), [JWSFromParts, VerifySignature])
        else
          var calls := [JWSFromParts, VerifySignature, ParseClaims];
          match c.claimsFromJSON(j.payload)
          case Err(e) => Traced(Err(e), calls)
          case Ok(claims) =>
            match ctx.Outcome(claims, c.claimValid)
            case Err(e) => Traced(Err(e), calls + [ValidateClaims])
            case Ok(_) => Traced(Ok(claims), calls + [ValidateClaims])
  }

  /**
    What both claims getters do once the payload is in hand, after the calls
    `before`: Claims::fromJSON's failure propagates; otherwise the parsed claims
    are returned when the context validates them, and the context's
    ValidationException is raised when it does not.
   */
  predicate ClaimsOutcome(parsed: Result<seq<ValidationContext.Claim>>, ctx: ValidationContext.ValidationContext, c: Codecs,
                          before: seq<Call>, r: Traced<seq<ValidationContext.Claim>>)
  {
    && (parsed.Err? ==> r == Traced(Err(parsed.error), before + [ParseClaims]))
    && (parsed.Ok? && ctx.Outcome(parsed.value, c.claimValid).Ok? ==>
          r == Traced(Ok(parsed.value), before + [ParseClaims, ValidateClaims]))
    && (parsed.Ok? && ctx.Outcome(parsed.value, c.claimValid).Err? ==>
          && r == Traced(Err(ctx.Outcome(parsed.value, c.claimValid).error), before + [ParseClaims, ValidateClaims])
          && r.result.error.Class() == ValidationException)
  }

  /**
    claimsFromJWE: the JWE() guard, decryption, then the claims are parsed and
    validated.
   */
  function ClaimsFromJWE(t: JWT, decrypt: JWEObject -> Result<string>, ctx: ValidationContext.ValidationContext, c: Codecs)
    : (r: Traced<seq<ValidationContext.Claim>>)
    ensures r.calls <= [JWEFromParts, Decrypt, ParseClaims, ValidateClaims]
    ensures IsJWS(t) ==> r == Traced(Err(NotAJWE), [])
    ensures IsJWE(t) && c.jweFromParts(t.parts).Err? ==>
      r == Traced(c.jweFromParts(t.parts).PropagateFailure(), [JWEFromParts])
    ensures IsJWE(t) && c.jweFromParts(t.parts).Ok? && decrypt(c.jweFromParts(t.parts).value).Err? ==>
      r == Traced(decrypt(c.jweFromParts(t.parts).value).PropagateFailure(), [JWEFromParts, Decrypt])
    ensures ParseClaims in r.calls ==> IsJWE(t) && c.jweFromParts(t.parts).Ok? && decrypt(c.jweFromParts(t.parts).value).Ok?
    ensures IsJWE(t) && c.jweFromParts(t.parts).Ok? && decrypt(c.jweFromParts(t.parts).value).Ok? ==>
      ClaimsOutcome(c.claimsFromJSON(decrypt(c.jweFromParts(t.parts).value).value), ctx, c, [JWEFromParts, Decrypt], r)
    ensures r.result.Ok? ==> (
      && ValidateClaims in r.calls
      && IsJWE(t) && c.jweFromParts(t.parts).Ok? && decrypt(c.jweFromParts(t.parts).value).Ok?
      && c.claimsFromJSON(decrypt(c.jweFromParts(t.parts).value).value) == Ok(r.result.value)
      && forall i :: 0 <= i < |r.result.value| ==> c.claimValid(r.result.value[i], ctx))
  {
    var jwe := JWE(t, c);
    match jwe.result
    case Err(e) => Traced(Err(e), jwe.calls)
    case Ok(j) =>
      var calls := [JWEFromParts, Decrypt];
      match decrypt(j)
      case Err(e) => Traced(Err(e), calls)
      case Ok(payload) =>
        match c.claimsFromJSON(payload)
        case Err(e) => Traced(Err(e), calls + [ParseClaims])
        case Ok(claims) =>
          match ctx.Outcome(claims, c.claimValid)
          case Err(e) => Traced(Err(e), calls + [ParseClaims, ValidateClaims])
          case Ok(_) => Traced(Ok(claims), calls + [ParseClaims, ValidateClaims])
  }

  /** The header encryptNested encrypts under: the given one, or a new empty one, with cty = "JWT" added. */
  function NestedHeader(header: Option<JWTParameter.Header>): (h: JWTParameter.Header)
    ensures CtyIsJWT(h)
    ensures h.Get(JWTParameter.P_CTY) == JWTParameter.ContentType(JWTParameter.TYPE_JWT)
    ensures header.None? ==> h.params.Keys == {JWTParameter.P_CTY}
    ensures header.Some? ==> forall n :: n != JWTParameter.P_CTY ==>
      (h.Has(n) <==> header.value.Has(n)) && (h.Has(n) ==> h.Get(n) == header.value.Get(n))
  {
    var base := match header case Some(h) => h case None => JWTParameter.EmptyHeader;
    base.WithParameter(JWTParameter.ContentType(JWTParameter.TYPE_JWT))
  }

  /**
    encryptNested: the token's own string is encrypted under the nested header
    (JWE::encrypt(...)->toCompact(), given as `encrypt`) and the result parsed.
   */
  function EncryptNested(t: JWT, encrypt: (string, JWTParameter.Header) -> Result<string>, header: Option<JWTParameter.Header>)
    : (r: Traced<JWT>)
    ensures r.calls == [Encrypt]
    ensures encrypt(TokenString(t), NestedHeader(header)).Err? ==> r.result == encrypt(TokenString(t), NestedHeader(header)).PropagateFailure()
    ensures encrypt(TokenString(t), NestedHeader(header)).Ok? ==> r.result == Parse(encrypt(TokenString(t), NestedHeader(header)).value)
  {
    match encrypt(TokenString(t), NestedHeader(header))
    case Err(e) => Traced(Err(e), [Encrypt])
    case Ok(compact) => Traced(Parse(compact), [Encrypt])
  }

  /** The nesting test nestedFromJWE applies: isNested() as written (loose) or corrected (strict). */
  function NestingTest(t: JWT, c: Codecs, looseCty: bool): Traced<bool>
  {
    if looseCty then IsNestedAsWritten(t, c) else IsNested(t, c)
  }

  /**
    nestedFromJWE: a token that is not nested is refused before anything is
    decrypted; then the JWE() guard; the decrypted payload is parsed as a JWT.
    `looseCty` selects isNested()'s comparison: true as written, false corrected.
   */
  function NestedFromJWE(t: JWT, decrypt: JWEObject -> Result<string>, c: Codecs, looseCty: bool): (r: Traced<JWT>)
    ensures r.calls <= HeaderOf(t, c).calls + [JWEFromParts, Decrypt]
    ensures NestingTest(t, c, looseCty).result.Err? ==>
      r == Traced(NestingTest(t, c, looseCty).result.PropagateFailure(), HeaderOf(t, c).calls)
    ensures NestingTest(t, c, looseCty).result == Ok(false) ==>
      r == Traced(Err(NotNested), HeaderOf(t, c).calls) && r.result.error.Class() == UnexpectedValueException
    ensures Decrypt in r.calls ==> NestingTest(t, c, looseCty).result == Ok(true) && IsJWE(t)
    ensures NestingTest(t, c, looseCty).result == Ok(true) && IsJWS(t) ==>
      r == Traced(Err(NotAJWE), HeaderOf(t, c).calls)
    ensures NestingTest(t, c, looseCty).result == Ok(true) && IsJWE(t) && c.jweFromParts(t.parts).Err? ==>
      r == Traced(c.jweFromParts(t.parts).PropagateFailure(), HeaderOf(t, c).calls + [JWEFromParts])
    ensures NestingTest(t, c, looseCty).result == Ok(true) && IsJWE(t) && c.jweFromParts(t.parts).Ok? ==>
      var p := decrypt(c.jweFromParts(t.parts).value);
      && (p.Err? ==> r == Traced(Err(p.error), HeaderOf(t, c).calls + [JWEFromParts, Decrypt]))
      && (p.Ok? ==> r == Traced(Parse(p.value), HeaderOf(t, c).calls + [JWEFromParts, Decrypt]))
    ensures r.result.Ok? ==> (
      && IsJWE(t) && c.jweFromParts(t.parts).Ok?
      && decrypt(c.jweFromParts(t.parts).value).Ok?
      && Parse(decrypt(c.jweFromParts(t.parts).value).value) == r.result)
  {
    var nested := NestingTest(t, c, looseCty);
    match nested.result
    case Err(e) => Traced(Err(e), nested.calls)
    case Ok(isNested) =>
      if !isNested then Traced(Err(NotNested), nested.calls)
      else
        var jwe := JWE(t, c);
        var calls := nested.calls + jwe.calls;
        match jwe.result
        case Err(e) => Traced(Err(e), calls)
        case Ok(j) =>
          match decrypt(j)
          case Err(e) => Traced(Err(e), calls + [Decrypt])
          case Ok(payload) => Traced(Parse(payload), calls + [Decrypt])
  }

  // ---------------------------------------------------------------------------
  // Properties

  /** Construction succeeds iff the token has 3 or 5 parts, and every token is exactly one of JWS, JWE. */
  lemma ParseClassifies(token: string)
    ensures Parse(token).Ok? <==> |Explode(token)| in {3, 5}
    ensures Parse(token).Ok? ==> (IsJWS(Parse(token).value) <==> |Explode(token)| == 3)
    ensures Parse(token).Ok? ==> (IsJWE(Parse(token).value) <==> |Explode(token)| == 5)
    ensures Parse(token).Ok? ==> IsJWS(Parse(token).value) != IsJWE(Parse(token).value)
  {
    ExplodeCount(token);
  }

  /** token() gives back the string the JWT was constructed from. */
  lemma TokenStringOfParse(token: string)
    requires Parse(token).Ok?
    ensures TokenString(Parse(token).value) == token
  {
    ImplodeExplode(token);
  }

  /** Reparsing token() gives the same JWT. */
  lemma ParseOfTokenString(t: JWT)
    ensures Parse(TokenString(t)) == Ok(t)
  {
    ExplodeCount(TokenString(t));
  }

  /** A header whose "cty" parameter is the JSON value true. */
  const CtyTrueHeader := JWTParameter.Header(map[JWTParameter.P_CTY := JWTParameter.JWTParameter(JWTParameter.Generic, JWTParameter.P_CTY, JBool(true))])

  /** The loose comparison takes cty = true for "JWT"; the corrected test does not. */
  lemma CtyTrueCountsAsNested()
    ensures CtyIsJWTAsWritten(CtyTrueHeader) && !CtyIsJWT(CtyTrueHeader)
  {
  }

  /**
    On a JWE whose header has cty = true, nestedFromJWE as written goes on to
    decrypt, while the corrected test refuses the token before any decryption.
   */
  lemma CtyTrueDecryptedAsWritten(t: JWT, decrypt: JWEObject -> Result<string>, c: Codecs)
    requires IsJWE(t) && c.jweFromParts(t.parts).Ok?
    requires Base64.UrlDecode(t.parts[0]).Ok? && c.headerFromJSON(Base64.UrlDecode(t.parts[0]).value) == Ok(CtyTrueHeader)
    ensures Decrypt in NestedFromJWE(t, decrypt, c, true).calls
    ensures NestedFromJWE(t, decrypt, c, false) == Traced(Err(NotNested), [ParseHeader])
  {
    CtyTrueCountsAsNested();
    assert IsNestedAsWritten(t, c).result == Ok(true);
    assert IsNested(t, c).result == Ok(false);
  }

  /** On string values of cty the two tests agree. */
  lemma CtyTestsAgreeOnStrings(h: JWTParameter.Header)
    requires h.Has(JWTParameter.P_CTY) ==> h.Get(JWTParameter.P_CTY).value.JString?
    ensures CtyIsJWTAsWritten(h) <==> CtyIsJWT(h)
  {
  }
}
