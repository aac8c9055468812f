/**
  Shared vocabulary of the model: octets, the JSON values that parameters,
  claims and constraints carry, the library's exceptions as error values,
  and the trace of calls into collaborators that lies outside the model.
 */
module Common {

  /** One octet of a PHP byte string. */
  type byte = x: int | 0 <= x < 256

  datatype Option<+T> = None | Some(value: T)

  /** A decoded JSON value, as PHP's json_decode hands it to a parameter or claim. */
  datatype Json =
    | JNull
    | JBool(b: bool)
    | JInt(i: int)
    | JFloat(f: real)                       // a JSON number with a fraction or exponent
    | JString(s: string)
    | JArray(items: seq<Json>)
    | JObject(members: map<string, Json>)   // a stdClass object

  /** The PHP exception class an error is raised as. */
  datatype ExceptionClass =
    | UnexpectedValueException
    | RuntimeException
    | LogicException
    | ValidationException
    | TypeError

  /** Every way an operation of the model can fail. */
  datatype Error =
    | MalformedBase64URL                  // Base64::urlDecode, length mod 4 == 1
    | Base64DecodeFailed                  // Base64::decode, base64_decode() returned false
    | NotAJWT                             // JWT constructor, part count neither 3 nor 5
    | NotAJWS                             // JWT::JWS() on a JWE-typed token
    | NotAJWE                             // JWT::JWE() on a JWS-typed token
    | NotNested                           // JWT::nestedFromJWE on a non-nested token
    | InvalidSignature                    // JWT::claimsFromJWS, signature does not verify
    | ClaimFailed(claim: string)          // ValidationContext::validate, names the claim
    | ReferenceTimeNotSet                 // ValidationContext::referenceTime
    | ConstraintNotSet(name: string)      // ValidationContext::constraint
    | MissingParameter(param: string)     // SymmetricKeyJWK constructor
    | InvalidKeyType                      // SymmetricKeyJWK constructor
    | InvalidEncoding                     // a base64url-valued parameter's constructor
    | PrivateKeyNotSet                    // RSAESKeyAlgorithm::privateKey
    | PublicKeyLoadFailed                 // openssl_pkey_get_public returned false
    | PublicEncryptFailed                 // openssl_public_encrypt returned false
    | PrivateKeyLoadFailed                // openssl_pkey_get_private returned false
    | PrivateDecryptFailed                // openssl_private_decrypt returned false
    | NotAnInteger                        // gmp_init rejected the string; the constructor then gets false
    | CollaboratorFailed(what: string)    // raised inside code outside the model
  {
    /** The exception class the source throws for this error. */
    function Class(): ExceptionClass
    {
      match this
      case MalformedBase64URL => UnexpectedValueException
      case Base64DecodeFailed => RuntimeException
      case NotAJWT => UnexpectedValueException
      case NotAJWS => LogicException
      case NotAJWE => LogicException
      case NotNested => UnexpectedValueException
      case InvalidSignature => ValidationException
      case ClaimFailed(_) => ValidationException
      case ReferenceTimeNotSet => LogicException
      case ConstraintNotSet(_) => LogicException
      case MissingParameter(_) => UnexpectedValueException
      case InvalidKeyType => UnexpectedValueException
      case InvalidEncoding => UnexpectedValueException
      case PrivateKeyNotSet => LogicException
      case PublicKeyLoadFailed => RuntimeException
      case PublicEncryptFailed => RuntimeException
      case PrivateKeyLoadFailed => RuntimeException
      case PrivateDecryptFailed => RuntimeException
      case NotAnInteger => TypeError
      case CollaboratorFailed(_) => RuntimeException
    }
  }

  /** A value, or the exception that replaced it. */
  datatype Result<+T> = Ok(value: T) | Err(error: Error)
  {
    predicate IsFailure() { Err? }

    function PropagateFailure<U>(): Result<U>
      requires Err?
    {
      Err(error)
    }

    function Extract(): T
      requires Ok?
    {
      value
    }
  }

  /** A call into code outside the model, recorded in the order it is made. */
  datatype Call =
    | ParseHeader          // Header::fromJSON
    | JWSFromParts         // JWS::fromParts
    | VerifySignature      // JWS::validate
    | JWEFromParts         // JWE::fromParts
    | Decrypt              // JWE::decrypt
    | Encrypt              // JWE::encrypt
    | ParseClaims          // Claims::fromJSON
    | ValidateClaims       // ValidationContext::validate
    | LoadPublicKey        // openssl_pkey_get_public
    | PublicEncrypt        // openssl_public_encrypt
    | LoadPrivateKey       // openssl_pkey_get_private
    | PrivateDecrypt       // openssl_private_decrypt

  /** The outcome of an operation together with the collaborator calls it made. */
  datatype Traced<+T> = Traced(result: Result<T>, calls: seq<Call>)

  /**
    PHP 7's loose `==` between a decoded JSON value and a string literal that
    starts with a letter (so it is neither empty, "0" nor numeric).
    A boolean compares with the literal's truth value (true), an integer or a
    float with the literal converted to a number (0), null with "", and an
    array or an object never matches.
   */
  predicate LooseEqualsLiteral(v: Json, literal: string)
    requires |literal| > 0 && ('a' <= literal[0] <= 'z' || 'A' <= literal[0] <= 'Z')
  {
    match v
    case JNull => false
    case JBool(b) => b
    case JInt(i) => i == 0
    case JFloat(f) => f == 0.0
    case JString(s) => s == literal
    case JArray(_) => false
    case JObject(_) => false
  }
}
