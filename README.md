# JWX core in Dafny

A Dafny model of the core of the PHP JOSE library `jwx`. It covers the
following classes:

- `Base64`: the base64 and base64url codecs and their validity checks.
- `BigInt`: conversions between integers and decimal, hexadecimal and
  big-endian octet strings.
- `Base64UIntValue`: JWK parameters holding an unsigned integer in
  base64url.
- `JWTParameter`: a JOSE header parameter and its construction from a
  name and a JSON value.
- `ValidationContext`: the immutable claim validation context.
- `JWT`: a compact-serialised token. This covers splitting it into parts,
  classifying it as JWS or JWE, getting claims out of it, and nesting it in
  a JWE and taking it out again.
- `SymmetricKeyJWK`: the `oct` key with its required parameters.
- `RSAESKeyAlgorithm`: RSA key encryption of a content encryption key.
- `A128CBCHS256Algorithm`: the constants of the AES-128-CBC with
  HMAC-SHA-256 content encryption algorithm.

The source's classes are immutable: every `with…` method returns a modified
clone. They are therefore modelled as datatypes with functions. Two of them
work by a loop with an early exit:

- `ValidationContext::validate` is a `method` with a `while` loop, proved
  equal to a specification function.
- The `SymmetricKeyJWK` constructor is modelled the same way.

Exceptions become the `Err` case of a `Result`. `Error.Class()` gives the
PHP exception class of each error.

Some code lies outside the model: the JSON codecs of headers and claims,
`JWS` and `JWE` serialisation, signature checking, decryption, and OpenSSL.
It is passed in as functions. Each operation that calls such code returns a
`Traced` value, which records the calls it made in order. The contracts
state which calls happen before which guard. For example, the payload of a
JWS is parsed only after its signature has verified.

PHP semantics are modelled explicitly where the source depends on them:

- `base64_decode` in strict mode: whitespace is skipped, an unknown
  character is rejected, and nothing may follow padding. Padding may be
  absent, but it must be right when present. A group of one character is
  rejected.
- `Base64::urlDecode` re-pads by the length modulo 4.
- In a PCRE pattern, `$` also matches before a final newline.
- PHP 7's loose `!=` between a JSON value and a string literal.
- `gmp_init` in base 10 and `gmp_strval`.
- `gmp_export`, which drops the sign and exports 0 as the empty string.

## Model

| member | source | states |
|---|---|---|
| Base64.Encode | lib/JWX/Util/Base64.php:66-72 | the standard encoding is a multiple of four characters long and matches isValid's pattern |
| Base64.UrlEncode | lib/JWX/Util/Base64.php:18-20 | the base64url encoding uses only `A-Za-z0-9-_`, has no `=`, and its length is never 1 modulo 4 |
| Base64.Decode | lib/JWX/Util/Base64.php:82-88 | failure is the RuntimeException; an accepted input, with whitespace removed, matches isValid's pattern |
| Base64.StrictDecode | lib/JWX/Util/Base64.php:82-88 | strict base64_decode accepts exactly the inputs that, without whitespace, match isValid's pattern, do not end in a lone character and pad only to a multiple of four; the output has ⌊3n/4⌋ octets for a body of n characters |
| Base64.UrlDecode | lib/JWX/Util/Base64.php:30-45 | a length of 1 modulo 4 is the UnexpectedValueException; the only other failure is decode's |
| Base64.UrlEncodeUnpadded | lib/JWX/Util/Base64.php:18-20 | urlEncode is the standard encoding with its padding removed and `+/` mapped to `-_` |
| Base64.RTrimEncode | lib/JWX/Util/Base64.php:19 | rtrim of `=` removes exactly the padding encode appended |
| Base64.StandardURLStandard | lib/JWX/Util/Base64.php:19-31 | mapping `+/` to `-_` and back restores every standard encoding |
| Base64.EncodingLength | lib/JWX/Util/Base64.php:19-40 | an unpadded encoding's length is never 1 modulo 4, and urlDecode's re-padding is exactly the padding urlEncode removed |
| Base64.EncodeGroupsLength | lib/JWX/Util/Base64.php:66-72 | n octets encode to 4⌊n/3⌋ characters, plus n mod 3 + 1 for a partial group |
| Base64.DecodeGroupsLength | lib/JWX/Util/Base64.php:82-88 | b characters decode to 3⌊b/4⌋ octets, plus b mod 4 − 1 for a partial group |
| Base64.DecodeGroupsEncodeGroups | lib/JWX/Util/Base64.php:66-88 | decoding the unpadded groups of an encoding gives back the octets |
| Base64.PaddedEncoding | lib/JWX/Util/Base64.php:66-72 | groups plus padding form a valid encoding of a length divisible by four, from which rtrim recovers the groups |
| Base64.DecodePadded | lib/JWX/Util/Base64.php:82-88 | strict decoding of standard characters followed by correct padding yields the groups' octets |
| Base64.DecodeEncode | lib/JWX/Util/Base64.php:66-88 | decode(encode(d)) == d for every byte string |
| Base64.UrlDecodeUrlEncode | lib/JWX/Util/Base64.php:18-45 | urlDecode(urlEncode(d)) == d for every byte string |
| Base64.UrlDecodeAcceptsURLAlphabet | lib/JWX/Util/Base64.php:30-45 | every string over the base64url alphabet whose length is not 1 modulo 4 decodes, to ⌊3n/4⌋ octets |
| Base64.DecodeRejectsForeignChar | lib/JWX/Util/Base64.php:82-88 | a character that is neither base64, `=` nor whitespace makes decode throw |
| Base64.DecodeRejectsMisplacedPadding | lib/JWX/Util/Base64.php:82-88 | a base64 character after an `=` makes decode throw |
| Base64.DecodeAcceptsValid | lib/JWX/Util/Base64.php:82-99 | every string that passes isValid and has a length divisible by four decodes |
| Base64.IsValidURLEncoding | lib/JWX/Util/Base64.php:54-56 | the corrected check: every character is in `A-Za-z0-9-_`; with Base64.UrlDecodeAcceptsURLAlphabet, every such string of admissible length decodes |
| Base64.IsValid | lib/JWX/Util/Base64.php:97-99 | the corrected check: standard characters, then at most two `=`; Base64.IsValidMatchesPattern proves this agrees with the regular expression |
| Base64.IsValidMatchesPattern | lib/JWX/Util/Base64.php:97-99 | isValid holds exactly when the string splits into a body of standard characters and at most two `=` |
| Base64.IsValidURLEncodingAsWritten | lib/JWX/Util/Base64.php:54-56 | the check as written accepts whatever the corrected one accepts, and is the corrected check applied to the string without one final newline |
| Base64.IsValidAsWritten | lib/JWX/Util/Base64.php:97-99 | the check as written accepts whatever the corrected one accepts, and is the corrected check applied to the string without one final newline |
| Base64.FinalNewlineInvalid | lib/JWX/Util/Base64.php:54-99 | neither corrected check accepts a string that ends in a newline |
| Base64.IsValidAsWrittenAcceptsNewline | lib/JWX/Util/Base64.php:54-56 | the as-written checks accept "QQ\n" and "QQ==\n", which the anchored checks reject |
| Base64.EncodersPassValidity | lib/JWX/Util/Base64.php:54-99 | the encoders' outputs pass both versions of the checks, and a string ending in a newline fails the corrected ones |
| BigInt.OctetsValueOfOctets | lib/JWX/Util/BigInt.php:72-74 | the minimal big-endian export of n denotes n |
| BigInt.OctetsMinimal | lib/JWX/Util/BigInt.php:72-74 | the export has no leading zero octet and is empty exactly for 0 |
| BigInt.OctetsOfOctetsValue | lib/JWX/Util/BigInt.php:44-47 | an octet string without a leading zero is the export of its value |
| BigInt.OctetsValueBound | lib/JWX/Util/BigInt.php:44-47 | k octets denote a value below 256^k |
| BigInt.DigitsValueOfDigits | lib/JWX/Util/BigInt.php:54-65 | gmp_strval's digits in radix 10 or 16 denote the number and have no leading zero |
| BigInt.DigitsOfDigitsValue | lib/JWX/Util/BigInt.php:54-65 | a canonical digit string is the rendering of its own value |
| BigInt.ParseDecimal | lib/JWX/Util/BigInt.php:30-33 | gmp_init accepts exactly an optional `-` followed by one or more decimal digits, and only a `-` gives a negative value |
| BigInt.FromBase10 | lib/JWX/Util/BigInt.php:30-33 | an int is taken as is; a string is accepted exactly when gmp_init parses it, and then its value is the number; every failure is the TypeError |
| BigInt.FromBase256 | lib/JWX/Util/BigInt.php:44-47 | the imported number is the big-endian value of the octets, so it is non-negative and below 256^length |
| BigInt.BigInt.Base10 | lib/JWX/Util/BigInt.php:54-56 | the decimal rendering parses back to the same number |
| BigInt.BigInt.Base16 | lib/JWX/Util/BigInt.php:63-65 | a leading `-` marks exactly the negative numbers, and the remaining lowercase hexadecimal digits denote the magnitude |
| BigInt.BigInt.Base256 | lib/JWX/Util/BigInt.php:72-74 | the export denotes the magnitude, is minimal, and is empty exactly for 0 |
| BigInt.BigInt.ToString | lib/JWX/Util/BigInt.php:76-78 | the string form is the decimal rendering and parses back to the number |
| BigInt.DecimalRoundTrip | lib/JWX/Util/BigInt.php:30-56 | gmp_init reads back every signed decimal rendering |
| BigInt.FromBase256OfBase256 | lib/JWX/Util/BigInt.php:44-74 | importing the export gives the magnitude, so the sign is lost |
| BigInt.Base256OfFromBase256 | lib/JWX/Util/BigInt.php:44-74 | exporting the import gives back every octet string without a leading zero |
| BigInt.Base10OfFromBase10 | lib/JWX/Util/BigInt.php:30-56 | a canonical decimal string is accepted and rendered back unchanged |
| BigInt.Base10AndBase16Agree | lib/JWX/Util/BigInt.php:54-65 | the decimal and hexadecimal renderings have the same sign and denote the same magnitude |
| Base64UIntValue.UIntParameter.Number | lib/JWX/JWK/Parameter/Feature/Base64UIntValue.php:42-44 | the number is the big-endian value of the base64url-decoded parameter value, and a decoding failure propagates |
| Base64UIntValue.FromNumberAsWritten | lib/JWX/JWK/Parameter/Feature/Base64UIntValue.php:32-35 | fails exactly when gmp_init rejects the number, and otherwise keeps the parameter name |
| Base64UIntValue.FromNumber | lib/JWX/JWK/Parameter/Feature/Base64UIntValue.php:32-35 | the corrected encoding is a Base64urlUInt string as section 2 of RFC 7518 defines it |
| Base64UIntValue.UIntOctets | lib/JWX/Util/BigInt.php:72-74 | the corrected export denotes the magnitude, is non-empty, and starts with 0 only for zero |
| Base64UIntValue.NumberOfFromNumber | lib/JWX/JWK/Parameter/Feature/Base64UIntValue.php:32-44 | number() of fromNumber(n) is \|n\| |
| Base64UIntValue.NumberOfFromNumberAsWritten | lib/JWX/JWK/Parameter/Feature/Base64UIntValue.php:32-44 | the source's own round trip also gives \|n\| |
| Base64UIntValue.FromNumberZeroAsWritten | lib/JWX/JWK/Parameter/Feature/Base64UIntValue.php:32-35 | fromNumber(0) stores the empty string |
| Base64UIntValue.EmptyIsNotBase64UrlUInt | lib/JWX/JWK/Parameter/Feature/Base64UIntValue.php:32-35 | the empty string is not a Base64urlUInt value |
| Base64UIntValue.FromNumberZero | lib/JWX/JWK/Parameter/Feature/Base64UIntValue.php:32-35 | the corrected fromNumber(0) stores "AA" |
| Base64UIntValue.FromNumberOfInteger | lib/JWX/JWK/Parameter/Feature/Base64UIntValue.php:32-35 | fromNumber of a PHP integer stores the base64url encoding of its octets |
| Base64UIntValue.FromNumberExample | test/unit/jwk/parameter/ModulusTest.php:15 | fromNumber(123) stores "ew" |
| JWTParameter.New | lib/JWX/JWT/Parameter/JWTParameter.php:28-31 | the parameter holds the given name and value |
| JWTParameter.FromNameAndValue | lib/JWX/JWT/Parameter/JWTParameter.php:42-48 | a registered name is delegated to its class's fromJSONValue, and any other name gives a generic parameter |
| JWTParameter.FromNameAndValueKeeps | lib/JWX/JWT/Parameter/JWTParameter.php:42-66 | with a registry whose classes keep name and value, name() and value() return the inputs, and the class is a registered one exactly for registered names |
| JWTParameter.ContentType | lib/JWX/JWT/Parameter/ContentTypeParameter.php:18-20 | the `cty` parameter with the given type |
| JWTParameter.Algorithm | lib/JWX/JWE/KeyAlgorithm/RSAESKeyAlgorithm.php:140-142 | the `alg` parameter with the algorithm's identifier |
| JWTParameter.Header.WithParameter | lib/JWX/JWT/JWT.php:247-248 | the header gains the parameter under its name and keeps every other parameter |
| ValidationContext.New | lib/JWX/JWT/ValidationContext.php:40-44 | the reference time is the current time, the leeway is 60 seconds, and the constraints are as given |
| ValidationContext.ValidationContext.WithReferenceTime | lib/JWX/JWT/ValidationContext.php:52-56 | only the reference time changes, and it is set exactly when a time is given |
| ValidationContext.ValidationContext.ReferenceTime | lib/JWX/JWT/ValidationContext.php:73-78 | returns the time when one is set, and otherwise the LogicException |
| ValidationContext.ValidationContext.WithLeeway | lib/JWX/JWT/ValidationContext.php:86-90 | only the leeway changes |
| ValidationContext.ValidationContext.WithConstraint | lib/JWX/JWT/ValidationContext.php:108-112 | the named constraint is set, and every other constraint and field is kept |
| ValidationContext.ValidationContext.WithIssuer | lib/JWX/JWT/ValidationContext.php:120-122 | sets the `iss` constraint only |
| ValidationContext.ValidationContext.WithSubject | lib/JWX/JWT/ValidationContext.php:130-132 | sets the `sub` constraint only |
| ValidationContext.ValidationContext.WithAudience | lib/JWX/JWT/ValidationContext.php:140-142 | sets the `aud` constraint only |
| ValidationContext.ValidationContext.WithID | lib/JWX/JWT/ValidationContext.php:150-152 | sets the `jti` constraint only |
| ValidationContext.ValidationContext.Constraint | lib/JWX/JWT/ValidationContext.php:171-176 | returns the constraint exactly when it is set and not null, and otherwise the LogicException naming it |
| ValidationContext.ValidationContext.Outcome | lib/JWX/JWT/ValidationContext.php:185-193 | succeeds, returning the context itself, exactly when every claim validates; otherwise fails naming a claim |
| ValidationContext.ValidationContext.Validate | lib/JWX/JWT/ValidationContext.php:185-193 | the loop returns the outcome, and the first failing claim is reported as a ValidationException |
| ValidationContext.FirstInvalid | lib/JWX/JWT/ValidationContext.php:186-190 | the index of the first claim that fails, or the count when all pass |
| ValidationContext.WithConstraintThenConstraint | lib/JWX/JWT/ValidationContext.php:108-176 | a constraint just set to a non-null value is present and returned, and other constraints are unaffected |
| ValidationContext.NullConstraintIsUnset | lib/JWX/JWT/ValidationContext.php:160-176 | a constraint set to null counts as absent (isset), so constraint() throws |
| ValidationContext.ClearedReferenceTime | lib/JWX/JWT/ValidationContext.php:52-78 | a null reference time counts as unset, so referenceTime() throws |
| ValidationContext.OutcomeOfConcat | lib/JWX/JWT/ValidationContext.php:185-193 | validating a concatenation stops at the first part's failure, and otherwise validates the second part |
| JWT.Explode | lib/JWX/JWT/JWT.php:54 | explode gives at least one part, and no part contains a dot |
| JWT.ImplodeExplode | lib/JWX/JWT/JWT.php:54-190 | implode(".", explode(".", s)) == s |
| JWT.ExplodeImplode | lib/JWX/JWT/JWT.php:54-190 | exploding an implosion of dot-free parts gives back the parts |
| JWT.ExplodeCount | lib/JWX/JWT/JWT.php:54-60 | the part count is the dot count plus one |
| JWT.Parse | lib/JWX/JWT/JWT.php:53-62 | a token is accepted exactly when it has 2 or 4 dots: 2 gives a JWS and 4 a JWE. Otherwise the result is the UnexpectedValueException |
| JWT.ParseClassifies | lib/JWX/JWT/JWT.php:53-142 | an accepted token is exactly one of JWS (3 parts) and JWE (5 parts) |
| JWT.TokenString | lib/JWX/JWT/JWT.php:189-191 | exploding the token string gives the token's parts |
| JWT.TokenStringOfParse | lib/JWX/JWT/JWT.php:53-191 | token() returns the string the JWT was constructed from |
| JWT.ParseOfTokenString | lib/JWX/JWT/JWT.php:53-191 | constructing from token() gives the same JWT |
| JWT.IsJWS | lib/JWX/JWT/JWT.php:118-120 | a token is a JWS exactly when it has three parts |
| JWT.IsJWE | lib/JWX/JWT/JWT.php:140-142 | a token is a JWE exactly when it has five parts, that is, exactly when it is not a JWS |
| JWT.JWS | lib/JWX/JWT/JWT.php:128-133 | a JWE-typed token is the LogicException with no collaborator call; a JWS-typed one is JWS::fromParts of its parts |
| JWT.JWE | lib/JWX/JWT/JWT.php:150-155 | a JWS-typed token is the LogicException with no collaborator call; a JWE-typed one is JWE::fromParts of its parts |
| JWT.HeaderOf | lib/JWX/JWT/JWT.php:179-182 | the header is parsed from the base64url-decoded first part, and a decoding failure is raised before any parsing |
| JWT.IsNested | lib/JWX/JWT/JWT.php:162-172 | with the corrected strict comparison, nested exactly when the header has `cty` equal to the string "JWT" |
| JWT.IsNestedAsWritten | lib/JWX/JWT/JWT.php:162-172 | nested exactly when the header has a `cty` that PHP 7 loosely considers equal to "JWT" |
| JWT.CtyTrueCountsAsNested | lib/JWX/JWT/JWT.php:168 | a `cty` of JSON true counts as nested under the loose comparison but not under the strict one |
| JWT.CtyTestsAgreeOnStrings | lib/JWX/JWT/JWT.php:168 | for string-valued `cty` the loose and strict comparisons agree |
| JWT.ClaimsFromJWS | lib/JWX/JWT/JWT.php:202-211 | calls happen in the order fromParts, validate, Claims::fromJSON, context validation, and each failure stops the sequence and propagates. Claims are parsed only after the signature verifies, and an invalid signature is the ValidationException. Once it verifies, the result is the parsed payload when every claim validates, and otherwise the ValidationException of the failing claim |
| JWT.ClaimsFromJWE | lib/JWX/JWT/JWT.php:223-228 | calls happen in the order fromParts, decrypt, Claims::fromJSON, context validation, and each failure stops the sequence and propagates. Claims are parsed only after decryption succeeds. Once it succeeds, the result is the parsed decrypted payload when every claim validates, and otherwise the ValidationException of the failing claim |
| JWT.NestedHeader | lib/JWX/JWT/JWT.php:243-248 | the header has `cty` "JWT", and otherwise the given parameters or none |
| JWT.EncryptNested | lib/JWX/JWT/JWT.php:240-252 | the token string is encrypted under the nested header, and the compact result is parsed as a JWT |
| JWT.NestedFromJWE | lib/JWX/JWT/JWT.php:262-269 | with the nesting test as written or corrected: decrypts only a token that test calls nested, and a non-nested token is the UnexpectedValueException. A header, fromParts or decryption failure propagates; otherwise the result is the JWT parsed from the decrypted payload |
| JWT.CtyTrueDecryptedAsWritten | lib/JWX/JWT/JWT.php:262-269 | a JWE whose header has `"cty": true` is decrypted by the method as written, and rejected as not nested by the corrected one |
| SymmetricKeyJWK.ParamMap | lib/JWX/JWK/Symmetric/SymmetricKeyJWK.php:40-41 | every parameter is stored under its own name, and the last one with a name wins |
| SymmetricKeyJWK.FirstMissing | lib/JWX/JWK/Symmetric/SymmetricKeyJWK.php:42-46 | the index of the first required name that is absent |
| SymmetricKeyJWK.Outcome | lib/JWX/JWK/Symmetric/SymmetricKeyJWK.php:40-51 | construction succeeds exactly when `kty` and `k` are present and `kty` passes the comparison with "oct". `kty` is reported missing before `k`, and every failure is the UnexpectedValueException |
| SymmetricKeyJWK.Construct | lib/JWX/JWK/Symmetric/SymmetricKeyJWK.php:40-51 | the loop over the managed parameters followed by the strict `kty` test gives the outcome |
| SymmetricKeyJWK.MissingParameterReported | lib/JWX/JWK/Symmetric/SymmetricKeyJWK.php:42-46 | without a managed parameter, construction fails with a missing-parameter error |
| SymmetricKeyJWK.KtyTrueAccepted | lib/JWX/JWK/Symmetric/SymmetricKeyJWK.php:47-50 | a `kty` of JSON true passes the loose comparison but not the strict one |
| SymmetricKeyJWK.KtyTestsAgreeOnStrings | lib/JWX/JWK/Symmetric/SymmetricKeyJWK.php:47-50 | for string-valued `kty` the loose and strict comparisons agree |
| SymmetricKeyJWK.Key | lib/JWX/JWK/Symmetric/SymmetricKeyJWK.php:71-74 | the key is the base64url decoding of `k` |
| SymmetricKeyJWK.FromKeyParams | lib/JWX/JWK/Symmetric/SymmetricKeyJWK.php:60-63 | `kty` "oct" and then `k` are appended to the given parameters |
| SymmetricKeyJWK.AppendedManagedParams | lib/JWX/JWK/Symmetric/SymmetricKeyJWK.php:60-63 | the appended `kty` and `k` override any given ones |
| SymmetricKeyJWK.FromKeyAsWritten | lib/JWX/JWK/Symmetric/SymmetricKeyJWK.php:60-64 | stores the raw key as `k`. When the `k` parameter's constructor checks the base64url encoding, construction fails with the UnexpectedValueException exactly when isValidURLEncoding as written rejects the raw key; otherwise it always succeeds |
| SymmetricKeyJWK.FromKeyAsWrittenRejectsZeroOctet | lib/JWX/JWK/Symmetric/SymmetricKeyJWK.php:60-64 | a raw key containing a zero octet is rejected when the encoding is checked and accepted when it is not |
| SymmetricKeyJWK.KeyOfFromKeyAsWritten | lib/JWX/JWK/Symmetric/SymmetricKeyJWK.php:60-74 | key() of the as-written fromKey base64url-decodes the raw key |
| SymmetricKeyJWK.FromKeyAsWrittenLosesKey | lib/JWX/JWK/Symmetric/SymmetricKeyJWK.php:60-74 | for the key "password", construction succeeds whether or not the encoding is checked, and key() succeeds but does not return "password" |
| SymmetricKeyJWK.FromKey | lib/JWX/JWK/Symmetric/SymmetricKeyJWK.php:60-74 | the corrected fromKey stores the base64url encoding, so key() returns the original key |
| RSAESKeyAlgorithm.PaddingScheme.Identifier | lib/JWX/JWE/KeyAlgorithm/RSAESKeyAlgorithm.php:140-142 | the padding scheme names the algorithm RSA1_5 or RSA-OAEP |
| RSAESKeyAlgorithm.FromPublicKey | lib/JWX/JWE/KeyAlgorithm/RSAESKeyAlgorithm.php:63-65 | the algorithm has the public key and no private key |
| RSAESKeyAlgorithm.FromPrivateKey | lib/JWX/JWE/KeyAlgorithm/RSAESKeyAlgorithm.php:73-75 | the algorithm has the private key and that key's public key |
| RSAESKeyAlgorithm.RSAESKeyAlgorithm.PrivateKey | lib/JWX/JWE/KeyAlgorithm/RSAESKeyAlgorithm.php:101-106 | returns the key exactly when one is set, and otherwise the LogicException |
| RSAESKeyAlgorithm.RSAESKeyAlgorithm.Encrypt | lib/JWX/JWE/KeyAlgorithm/RSAESKeyAlgorithm.php:108-122 | the public key is loaded and then used to encrypt with the padding scheme. Each OpenSSL failure is its RuntimeException, and encryption is not attempted once loading fails. When both calls succeed, the result is the encrypted key |
| RSAESKeyAlgorithm.RSAESKeyAlgorithm.Decrypt | lib/JWX/JWE/KeyAlgorithm/RSAESKeyAlgorithm.php:124-138 | without a private key, the LogicException comes before any OpenSSL call. Otherwise the private key is loaded and then used to decrypt, and each failure is its RuntimeException. When both calls succeed, the result is the decrypted key |
| RSAESKeyAlgorithm.RSAESKeyAlgorithm.HeaderParameters | lib/JWX/JWE/KeyAlgorithm/RSAESKeyAlgorithm.php:140-142 | exactly one parameter: `alg` with the algorithm's identifier |
| RSAESKeyAlgorithm.EncryptIgnoresPrivateKey | lib/JWX/JWE/KeyAlgorithm/RSAESKeyAlgorithm.php:108-122 | encryption depends only on the public key |
| RSAESKeyAlgorithm.PublicOnlyCannotDecrypt | lib/JWX/JWE/KeyAlgorithm/RSAESKeyAlgorithm.php:63-65 | an algorithm made from a public key cannot decrypt and calls no OpenSSL function |
| RSAESKeyAlgorithm.DecryptEncrypt | lib/JWX/JWE/KeyAlgorithm/RSAESKeyAlgorithm.php:108-138 | when OpenSSL's RSA functions invert each other, decrypting what the public side encrypted gives back the content encryption key, and encryption succeeds exactly when openssl_public_encrypt does |
| A128CBCHS256Algorithm.RFC7518Parameters | lib/JWX/JWE/EncryptionAlgorithm/A128CBCHS256Algorithm.php:19-21 | exactly the three AES_CBC_HMAC_SHA2 identifiers of section 5.2 of RFC 7518 have parameters |
| A128CBCHS256Algorithm.A128CBCHS256IsConsistent | lib/JWX/JWE/EncryptionAlgorithm/A128CBCHS256Algorithm.php:15-41 | the class's key size, cipher, hash, key halves and tag length match section 5.2.3 of RFC 7518 and fit together |
| A128CBCHS256Algorithm.ConsistentIsUnique | lib/JWX/JWE/EncryptionAlgorithm/A128CBCHS256Algorithm.php:15-41 | the class's constants are the only ones consistent with its identifier |

## Left out

- Collaborators: the JSON codecs of `Header` and `Claims`, `JWS::fromParts`, `JWS::validate`, `JWE::fromParts`, `JWE::decrypt`, `JWE::encrypt` and `toCompact` are not shown. They are parameters whose behaviour is left open, and each may fail: a failure is an `Err` that the caller propagates.
- OpenSSL (`openssl_pkey_get_*`, `openssl_public_encrypt`, `openssl_private_decrypt`) is a parameter too, so RSA itself is not modelled. The padding scheme is kept as a value and passed through.
- Claim validation (`Claim::validateWithContext`) is a parameter. The registered claims and their time comparisons with the reference time and leeway are not part of this model.
- `JWT::unsecuredFromClaims`, `signedFromClaims` and `encryptedFromClaims` are not modelled. Each builds a token by `JWS::sign` or `JWE::encrypt`, both outside the model, and then calls the constructor, which is modelled as `JWT.Parse`.
- `ValidationContext::__construct` reads the clock with `time()`. The current time is a parameter of `ValidationContext.New`.
- `leeway()`, `hasReferenceTime()`, `hasConstraint()`, `publicKey()`, `hasPrivateKey()`, `name()` and `value()` are the datatypes' fields or one-line predicates, with no contract of their own.
- The contents of `RegisteredJWTParameter`'s name-to-class table are not part of this model. The registry is a parameter of `JWTParameter.FromNameAndValue`.
- `Header::has`, `get` and `withParameters`, and the JWK parent constructor with its `has` and `get`, are not part of this model. They are modelled as maps keyed by parameter name, in which a later parameter with the same name replaces an earlier one.
- `SymmetricKeyJWK.Key`: a `k` value that is not a string, which PHP would coerce or reject inside `strtr`, is reported as an error.
- `BigInt.FromBase10`: GMP's tolerance of whitespace inside the string is not modelled. Only an optional `-` followed by decimal digits is accepted.
- `BigInt.FromBase10`: a PHP float, bool or array argument is not modelled. The argument is either an int or a string.
- `BigInt.FromBase10`: the TypeError for a string gmp_init rejects is PHP 7 behaviour. Under PHP 8, gmp_init throws a ValueError instead.
- `Base64.UrlDecode`: strings are sequences of characters, while PHP's `strlen` counts bytes. For a string holding a multi-byte character such as "é", PHP pads by the byte length and base64_decode then fails with the RuntimeException; the model counts one character and reports the UnexpectedValueException.
- `SymmetricKeyJWK.FromKeyAsWritten`: the `KeyValueParameter` constructor is not part of this model. Whether it checks the base64url encoding of the raw key is a parameter, and both cases are proved.
- `Common.Json`: a JSON number with a fraction is a Dafny `real`, so PHP's NaN and INF and the rounding of floats are not modelled. The loose comparison of a float with a string literal follows PHP 7.
- Integers are unbounded. PHP's platform-sized `int` and the overflow to float are not modelled.
- `Base64.Encode`: the branch where `base64_encode` returns false cannot be reached in PHP 7, so it is not modelled.
- `RSAESKeyAlgorithm.PaddingScheme.Identifier`: the subclasses that fix `_paddingScheme` and the algorithm identifier are not part of this model. The identifiers RSA1_5 (PKCS #1 v1.5) and RSA-OAEP are taken from section 4.2 and section 4.3 of RFC 7518.
- `A128CBCHS256Algorithm.A128CBCHS256IsConsistent`: the encryption and decryption in the CBC-HMAC base class, which splits the key into its MAC and encryption halves, are not part of this model. Only the constants of the class are modelled.
- `JWT.IsNestedAsWritten`: the loose comparison follows PHP 7. PHP 8 compares a number with a non-numeric string as strings, so under PHP 8 a `cty` of 0 no longer counts as nested.
- `SymmetricKeyJWK.KtyTrueAccepted`: this lemma also assumes PHP 7's loose comparison.

## Findings

| source | as written | input that shows it | evidently intended | confidence | as-written member | corrected member |
|---|---|---|---|---|---|---|
| lib/JWX/Util/Base64.php:55 | `#^[A-Za-z0-9\-_]*$#` without the `D` modifier, so `$` also matches before a final newline | "QQ\n" is accepted | only strings over the base64url alphabet are accepted | medium, not executed | Base64.IsValidURLEncodingAsWritten | Base64.IsValidURLEncoding |
| lib/JWX/Util/Base64.php:98 | `#^[A-Za-z0-9+/]*={0,2}$#` without `D` | "QQ==\n" is accepted | only base64 characters and up to two `=` are accepted | medium, not executed | Base64.IsValidAsWritten | Base64.IsValid |
| lib/JWX/JWT/JWT.php:168 | loose `$cty != "JWT"` | a JWE whose header has `"cty": true` counts as nested and is decrypted | a token is nested only when `cty` is the string "JWT" | low, not executed | JWT.CtyTrueDecryptedAsWritten | JWT.IsNested |
| lib/JWX/JWK/Symmetric/SymmetricKeyJWK.php:47-48 | loose `kty != "oct"` | `"kty": true` is accepted as a symmetric key | only `kty` equal to "oct" is accepted | low, not executed | SymmetricKeyJWK.KtyTrueAccepted | SymmetricKeyJWK.Construct |
| lib/JWX/JWK/Symmetric/SymmetricKeyJWK.php:62 | the raw key is stored as `k`, which key() base64url-decodes | fromKey("password")->key() gives 6 other octets | `k` holds the base64url encoding, so key() returns the key | medium, not executed | SymmetricKeyJWK.FromKeyAsWrittenLosesKey | SymmetricKeyJWK.FromKey |
| lib/JWX/JWK/Parameter/Feature/Base64UIntValue.php:33 | gmp_export(0) returns "", so the stored value is empty | fromNumber(0) stores "" | "AA", the one-octet encoding that section 2 of RFC 7518 requires for zero | medium, not executed | Base64UIntValue.FromNumberZeroAsWritten | Base64UIntValue.FromNumberZero |
