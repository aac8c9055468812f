/**
  A JWK holding a symmetric key (lib/JWX/JWK/Symmetric/SymmetricKeyJWK.php,
  section 6.4 of RFC 7518): the "kty" parameter must be "oct" and the "k"
  parameter holds the key, base64url-encoded.
 */
module SymmetricKeyJWK {
  import opened Common
  import Base64

  /** A JWK parameter: a name and its JSON value. */
  datatype JWKParameter = JWKParameter(name: string, value: Json)

  const PARAM_KEY_TYPE := "kty"
  const PARAM_KEY_VALUE := "k"
  /** KeyTypeParameter::TYPE_OCT */
  const TYPE_OCT := "oct"
  /** MANAGED_PARAMS: the parameters the constructor insists on, in the order it checks them. */
  const MANAGED_PARAMS := [PARAM_KEY_TYPE, PARAM_KEY_VALUE]

  /** The JWK constructor's parameter table: keyed by name, a later parameter replacing an earlier one. */
  function ParamMap(params: seq<JWKParameter>): (m: map<string, JWKParameter>)
    ensures forall n :: n in m ==> m[n].name == n
    ensures forall i :: 0 <= i < |params| ==> params[i].name in m
    ensures |params| > 0 ==> m[params[|params| - 1].name] == params[|params| - 1]
  {
    if params == [] then map[]
    else
      var last := params[|params| - 1];
      ParamMap(params[..|params| - 1])[last.name := last]
  }

  /** The index of the first name absent from m, or |names| when all are present. */
  function FirstMissing<V>(names: seq<string>, m: map<string, V>): (k: nat)
    ensures k <= |names|
    ensures forall j :: 0 <= j < k ==> names[j] in m
    ensures k < |names| ==> names[k] !in m
  {
    if names == [] then 0
    else if names[0] !in m then 0
    else 1 + FirstMissing(names[1..], m)
  }

  lemma FirstMissingIs<V>(names: seq<string>, m: map<string, V>, k: nat)
    requires k <= |names|
    requires forall j :: 0 <= j < k ==> names[j] in m
    requires k < |names| ==> names[k] !in m
    ensures FirstMissing(names, m) == k
  {
  }

  /** A symmetric-key JWK: its parameters keyed by name. */
  datatype SymmetricKeyJWK = SymmetricKeyJWK(params: map<string, JWKParameter>)
  {
    /** What the constructor guarantees: both managed parameters are present. */
    predicate Valid()
    {
      PARAM_KEY_TYPE in params && PARAM_KEY_VALUE in params
    }
  }

  /**
    The outcome of the constructor: UnexpectedValueException for the first
    missing managed parameter, then for a key type other than "oct"; otherwise
    the key. `looseKty` selects PHP's loose `!=` for the key-type test instead of
    the strict comparison.
   */
  function Outcome(params: seq<JWKParameter>, looseKty: bool): (r: Result<SymmetricKeyJWK>)
    ensures r.Ok? <==> (
      && PARAM_KEY_TYPE in ParamMap(params) && PARAM_KEY_VALUE in ParamMap(params)
      && KtyAccepted(ParamMap(params)[PARAM_KEY_TYPE].value, looseKty))
    ensures r.Ok? ==> r.value.params == ParamMap(params) && r.value.Valid()
    ensures r.Err? ==> r.error.Class() == UnexpectedValueException
    ensures PARAM_KEY_TYPE !in ParamMap(params) ==> r == Err(MissingParameter(PARAM_KEY_TYPE))
    ensures PARAM_KEY_TYPE in ParamMap(params) && PARAM_KEY_VALUE !in ParamMap(params) ==> r == Err(MissingParameter(PARAM_KEY_VALUE))
  {
    var m := ParamMap(params);
    var k := FirstMissing(MANAGED_PARAMS, m);
    assert MANAGED_PARAMS[0] == PARAM_KEY_TYPE && MANAGED_PARAMS[1] == PARAM_KEY_VALUE;
    if k < |MANAGED_PARAMS| then Err(MissingParameter(MANAGED_PARAMS[k]))
    else if !KtyAccepted(m[PARAM_KEY_TYPE].value, looseKty) then Err(InvalidKeyType)
    else Ok(SymmetricKeyJWK(m))
  }

  /** The key-type test: strict equality with "oct", or PHP's loose equality as written. */
  predicate KtyAccepted(kty: Json, loose: bool)
  {
    if loose then LooseEqualsLiteral(kty, TYPE_OCT) else kty == JString(TYPE_OCT)
  }

  /**
    new SymmetricKeyJWK(...$params): the managed parameters are checked for
    presence in order, then the key type, compared strictly.
   */
  method Construct(params: seq<JWKParameter>) returns (r: Result<SymmetricKeyJWK>)
    ensures r == Outcome(params, false)
  {
    var m := ParamMap(params);
    var i := 0;
    while i < |MANAGED_PARAMS|
      invariant 0 <= i <= |MANAGED_PARAMS|
      invariant forall j :: 0 <= j < i ==> MANAGED_PARAMS[j] in m
    {
      if MANAGED_PARAMS[i] !in m {
        FirstMissingIs(MANAGED_PARAMS, m, i);
        return Err(MissingParameter(MANAGED_PARAMS[i]));
      }
      i := i + 1;
    }
    FirstMissingIs(MANAGED_PARAMS, m, |MANAGED_PARAMS|);
    if m[PARAM_KEY_TYPE].value != JString(TYPE_OCT) {
      return Err(InvalidKeyType);
    }
    return Ok(SymmetricKeyJWK(m));
  }

  /** key(): the base64url decoding of the "k" value. */
  function Key(jwk: SymmetricKeyJWK): (r: Result<seq<byte>>)
    requires jwk.Valid()
    ensures jwk.params[PARAM_KEY_VALUE].value.JString? ==> r == Base64.UrlDecode(jwk.params[PARAM_KEY_VALUE].value.s)
    ensures !jwk.params[PARAM_KEY_VALUE].value.JString? ==> r.Err?
  {
    match jwk.params[PARAM_KEY_VALUE].value
    case JString(s) => Base64.UrlDecode(s)
    case _ => Err(CollaboratorFailed("k is not a string"))
  }

  /** The parameter list fromKey builds: the caller's, then kty = "oct", then k. */
  function FromKeyParams(kValue: string, params: seq<JWKParameter>): (ps: seq<JWKParameter>)
    ensures |ps| == |params| + 2 && ps[..|params|] == params
    ensures ps[|params|] == JWKParameter(PARAM_KEY_TYPE, JString(TYPE_OCT))
    ensures ps[|params| + 1] == JWKParameter(PARAM_KEY_VALUE, JString(kValue))
  {
    params + [JWKParameter(PARAM_KEY_TYPE, JString(TYPE_OCT)), JWKParameter(PARAM_KEY_VALUE, JString(kValue))]
  }

  /** The octets of a PHP byte string, read as the characters of the string. */
  function BytesAsString(key: seq<byte>): (s: string)
    ensures |s| == |key| && forall i :: 0 <= i < |key| ==> s[i] as int == key[i]
  {
    if key == [] then [] else [key[0] as char] + BytesAsString(key[1..])
  }

  /**
    SymmetricKeyJWK::fromKey as written: the raw key becomes the "k" value.
    KeyValueParameter's constructor is not part of this model: `checksEncoding`
    says whether it first validates its argument with isValidURLEncoding, as the
    other base64url-valued parameters' constructors do, throwing an
    UnexpectedValueException when the check fails.
   */
  function FromKeyAsWritten(key: seq<byte>, params: seq<JWKParameter>, checksEncoding: bool): (r: Result<SymmetricKeyJWK>)
    ensures r.Ok? <==> !checksEncoding || Base64.IsValidURLEncodingAsWritten(BytesAsString(key))
    ensures r.Ok? ==> r.value.Valid() && r.value.params[PARAM_KEY_VALUE].value == JString(BytesAsString(key))
    ensures r.Err? ==> r.error == InvalidEncoding && r.error.Class() == UnexpectedValueException
  {
    if checksEncoding && !Base64.IsValidURLEncodingAsWritten(BytesAsString(key)) then Err(InvalidEncoding)
    else
      AppendedManagedParams(BytesAsString(key), params);
      Outcome(FromKeyParams(BytesAsString(key), params), false)
  }

  /** SymmetricKeyJWK::fromKey, corrected: the "k" value is the base64url encoding of the key. */
  function FromKey(key: seq<byte>, params: seq<JWKParameter>): (r: Result<SymmetricKeyJWK>)
    ensures r.Ok? && r.value.Valid()
    ensures r.value.params[PARAM_KEY_VALUE].value == JString(Base64.UrlEncode(key))
    ensures Key(r.value) == Ok(key)
  {
    AppendedManagedParams(Base64.UrlEncode(key), params);
    Base64.UrlDecodeUrlEncode(key);
    Outcome(FromKeyParams(Base64.UrlEncode(key), params), false)
  }

  // ---------------------------------------------------------------------------
  // Properties

  /** The two appended parameters override whatever the caller passed under those names. */
  lemma AppendedManagedParams(kValue: string, params: seq<JWKParameter>)
    ensures var m := ParamMap(FromKeyParams(kValue, params));
      PARAM_KEY_TYPE in m && PARAM_KEY_VALUE in m
      && m[PARAM_KEY_TYPE].value == JString(TYPE_OCT) && m[PARAM_KEY_VALUE].value == JString(kValue)
  {
    var ps := FromKeyParams(kValue, params);
    assert ps[..|ps| - 1] == params + [JWKParameter(PARAM_KEY_TYPE, JString(TYPE_OCT))];
  }

  /** Construction fails unless both kty and k are present, naming the first one missing. */
  lemma MissingParameterReported(params: seq<JWKParameter>, missing: string)
    requires missing in MANAGED_PARAMS
    requires forall i :: 0 <= i < |params| ==> params[i].name != missing
    ensures Outcome(params, false).Err? && Outcome(params, false).error.MissingParameter?
    ensures Outcome(params, true).Err? && Outcome(params, true).error.MissingParameter?
  {
    ParamMapAbsent(params, missing);
  }

  /** A name no parameter carries is not in the parameter table. */
  lemma {:induction false} ParamMapAbsent(params: seq<JWKParameter>, n: string)
    requires forall i :: 0 <= i < |params| ==> params[i].name != n
    ensures n !in ParamMap(params)
  {
    if params != [] {
      ParamMapAbsent(params[..|params| - 1], n);
    }
  }

  /** The loose key-type test accepts kty = true; the strict one refuses it. */
  lemma KtyTrueAccepted(k: string)
    ensures var ps := [JWKParameter(PARAM_KEY_TYPE, JBool(true)), JWKParameter(PARAM_KEY_VALUE, JString(k))];
      Outcome(ps, true).Ok? && Outcome(ps, false) == Err(InvalidKeyType)
  {
    var ps := [JWKParameter(PARAM_KEY_TYPE, JBool(true)), JWKParameter(PARAM_KEY_VALUE, JString(k))];
    assert ps[..1] == [ps[0]];
    assert ParamMap(ps[..1]) == map[PARAM_KEY_TYPE := ps[0]];
  }

  /** On string key types the loose and strict tests agree. */
  lemma KtyTestsAgreeOnStrings(kty: string)
    ensures KtyAccepted(JString(kty), true) == KtyAccepted(JString(kty), false)
  {
  }

  /** The as-written fromKey stores the raw key, so key() base64url-decodes the raw key. */
  lemma KeyOfFromKeyAsWritten(key: seq<byte>, params: seq<JWKParameter>, checksEncoding: bool)
    ensures FromKeyAsWritten(key, params, checksEncoding).Ok? ==>
      Key(FromKeyAsWritten(key, params, checksEncoding).value) == Base64.UrlDecode(BytesAsString(key))
  {
  }

  /**
    A key holding a zero octet is not base64url text: when KeyValueParameter
    checks its encoding, the as-written fromKey throws; when it does not, the
    key is stored.
   */
  lemma FromKeyAsWrittenRejectsZeroOctet(key: seq<byte>, params: seq<JWKParameter>, i: nat)
    requires i < |key| && key[i] == 0
    ensures FromKeyAsWritten(key, params, true) == Err(InvalidEncoding)
    ensures FromKeyAsWritten(key, params, false).Ok?
  {
    var s := BytesAsString(key);
    assert !Base64.IsURLChar(s[i]);
    if |s| > 0 && s[|s| - 1] == '\n' {
      assert i < |s| - 1;
      assert s[..|s| - 1][i] == s[i];
    }
  }

  /** Octets that are lower-case ASCII letters read as a string over the base64url alphabet. */
  lemma LowerCaseIsURL(key: seq<byte>)
    requires forall i :: 0 <= i < |key| ==> 97 <= key[i] <= 122
    ensures Base64.IsValidURLEncoding(BytesAsString(key))
  {
    var s := BytesAsString(key);
    forall i | 0 <= i < |s| ensures Base64.IsURLChar(s[i]) {
      assert 97 <= s[i] as int <= 122;
    }
  }

  /**
    The as-written fromKey("password") does not give the key back, whether or
    not KeyValueParameter checks the encoding: "password" is base64url text,
    and key() decodes it to 6 octets.
   */
  lemma FromKeyAsWrittenLosesKey(key: seq<byte>, checksEncoding: bool)
    requires key == [112, 97, 115, 115, 119, 111, 114, 100]
    ensures FromKeyAsWritten(key, [], checksEncoding).Ok?
    ensures Key(FromKeyAsWritten(key, [], checksEncoding).value).Ok?
    ensures Key(FromKeyAsWritten(key, [], checksEncoding).value) != Ok(key)
  {
    LowerCaseIsURL(key);
    KeyOfFromKeyAsWritten(key, [], checksEncoding);
    Base64.UrlDecodeAcceptsURLAlphabet(BytesAsString(key));
  }
}
