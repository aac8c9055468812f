/**
  RSAES key management (lib/JWX/JWE/KeyAlgorithm/RSAESKeyAlgorithm.php,
  sections 4.2 and 4.3 of RFC 7518): the content encryption key is encrypted
  with the RSA public key and decrypted with the private key. The OpenSSL
  calls are outside the model and are handed in as functions that may fail.
 */
module RSAESKeyAlgorithm {
  import opened Common
  import JWTParameter

  /** The padding scheme each concrete subclass selects, and its "alg" identifier. */
  datatype PaddingScheme = PKCS1 | OAEP
  {
    function Identifier(): (id: string)
      ensures id in {"RSA1_5", "RSA-OAEP"}
    {
      match this
      case PKCS1 => "RSA1_5"
      case OAEP => "RSA-OAEP"
    }
  }

  /** An RSA public key JWK, reduced to its PEM text (toPEM()->str()). */
  datatype RSAPublicKeyJWK = RSAPublicKeyJWK(pem: string)

  /** An RSA private key JWK: its PEM text and the public key it derives (publicKey()). */
  datatype RSAPrivateKeyJWK = RSAPrivateKeyJWK(pem: string, publicKey: RSAPublicKeyJWK)

  /** A key resource returned by openssl_pkey_get_public / openssl_pkey_get_private. */
  datatype KeyHandle = KeyHandle(id: nat)

  /** The OpenSSL functions the algorithm calls; None stands for their false return. */
  datatype OpenSSL = OpenSSL(
    getPublic: string -> Option<KeyHandle>,                                  // openssl_pkey_get_public
    publicEncrypt: (seq<byte>, KeyHandle, PaddingScheme) -> Option<seq<byte>>, // openssl_public_encrypt
    getPrivate: string -> Option<KeyHandle>,                                 // openssl_pkey_get_private
    privateDecrypt: (seq<byte>, KeyHandle, PaddingScheme) -> Option<seq<byte>> // openssl_private_decrypt
  )

  /** An RSAES algorithm instance: the public key, and the private key when it was built from one. */
  datatype RSAESKeyAlgorithm = RSAESKeyAlgorithm(padding: PaddingScheme, publicKey: RSAPublicKeyJWK, privateKey: Option<RSAPrivateKeyJWK>)
  {
    /** hasPrivateKey: isset($this->_privateKey). */
    predicate HasPrivateKey()
    {
      privateKey.Some?
    }

    /** privateKey: the private key, or a LogicException when there is none. */
    function PrivateKey(): (r: Result<RSAPrivateKeyJWK>)
      ensures r.Ok? <==> HasPrivateKey()
      ensures r.Ok? ==> privateKey == Some(r.value)
      ensures r.Err? ==> r.error == PrivateKeyNotSet && r.error.Class() == LogicException
    {
      match privateKey
      case Some(k) => Ok(k)
      case None => Err(PrivateKeyNotSet)
    }

    /**
      encrypt: load the public key, then RSA-encrypt the content encryption key
      with the subclass's padding; either failure is a RuntimeException.
     */
    function Encrypt(cek: seq<byte>, ssl: OpenSSL): (r: Traced<seq<byte>>)
      ensures r.calls <= [LoadPublicKey, PublicEncrypt] && |r.calls| >= 1
      ensures ssl.getPublic(publicKey.pem).None? ==> r == Traced(Err(PublicKeyLoadFailed), [LoadPublicKey])
      ensures ssl.getPublic(publicKey.pem).Some? ==>
        var crypted := ssl.publicEncrypt(cek, ssl.getPublic(publicKey.pem).value, padding);
        && (crypted.None? ==> r == Traced(Err(PublicEncryptFailed), [LoadPublicKey, PublicEncrypt]))
        && (crypted.Some? ==> r == Traced(Ok(crypted.value), [LoadPublicKey, PublicEncrypt]))
      ensures r.result.Err? ==>
        r.result.error in {PublicKeyLoadFailed, PublicEncryptFailed} && r.result.error.Class() == RuntimeException
      ensures r.result.Ok? ==>
        ssl.getPublic(publicKey.pem).Some?
        && ssl.publicEncrypt(cek, ssl.getPublic(publicKey.pem).value, padding) == Some(r.result.value)
    {
      match ssl.getPublic(publicKey.pem)
      case None => Traced(Err(PublicKeyLoadFailed), [LoadPublicKey])
      case Some(key) =>
        match ssl.publicEncrypt(cek, key, padding)
        case None => Traced(Err(PublicEncryptFailed), [LoadPublicKey, PublicEncrypt])
        case Some(crypted) => Traced(Ok(crypted), [LoadPublicKey, PublicEncrypt])
    }

    /**
      decrypt: the privateKey() guard comes first, so an instance without a
      private key fails with a LogicException before any OpenSSL call; then
      load the private key and RSA-decrypt, either failure a RuntimeException.
     */
    function Decrypt(data: seq<byte>, ssl: OpenSSL): (r: Traced<seq<byte>>)
      ensures !HasPrivateKey() ==> r == Traced(Err(PrivateKeyNotSet), [])
      ensures HasPrivateKey() ==> r.calls <= [LoadPrivateKey, PrivateDecrypt] && |r.calls| >= 1
      ensures HasPrivateKey() && ssl.getPrivate(privateKey.value.pem).None? ==>
        r == Traced(Err(PrivateKeyLoadFailed), [LoadPrivateKey])
      ensures HasPrivateKey() && ssl.getPrivate(privateKey.value.pem).Some? ==>
        var cek := ssl.privateDecrypt(data, ssl.getPrivate(privateKey.value.pem).value, padding);
        && (cek.None? ==> r == Traced(Err(PrivateDecryptFailed), [LoadPrivateKey, PrivateDecrypt]))
        && (cek.Some? ==> r == Traced(Ok(cek.value), [LoadPrivateKey, PrivateDecrypt]))
      ensures HasPrivateKey() && r.result.Err? ==>
        r.result.error in {PrivateKeyLoadFailed, PrivateDecryptFailed} && r.result.error.Class() == RuntimeException
      ensures r.result.Ok? ==>
        HasPrivateKey() && ssl.getPrivate(privateKey.value.pem).Some?
        && ssl.privateDecrypt(data, ssl.getPrivate(privateKey.value.pem).value, padding) == Some(r.result.value)
    {
      match PrivateKey()
      case Err(e) => Traced(Err(e), [])
      case Ok(k) =>
        match ssl.getPrivate(k.pem)
        case None => Traced(Err(PrivateKeyLoadFailed), [LoadPrivateKey])
        case Some(key) =>
          match ssl.privateDecrypt(data, key, padding)
          case None => Traced(Err(PrivateDecryptFailed), [LoadPrivateKey, PrivateDecrypt])
          case Some(cek) => Traced(Ok(cek), [LoadPrivateKey, PrivateDecrypt])
    }

    /** headerParameters: exactly one parameter, "alg" with this algorithm's identifier. */
    function HeaderParameters(): (ps: seq<JWTParameter.JWTParameter>)
      ensures |ps| == 1
      ensures ps[0].name == JWTParameter.P_ALG && ps[0].value == JString(padding.Identifier())
    {
      [JWTParameter.Algorithm(padding.Identifier())]
    }
  }

  /** fromPublicKey: an instance that can only encrypt. */
  function FromPublicKey(padding: PaddingScheme, jwk: RSAPublicKeyJWK): (a: RSAESKeyAlgorithm)
    ensures !a.HasPrivateKey() && a.publicKey == jwk && a.padding == padding
    ensures a.PrivateKey() == Err(PrivateKeyNotSet)
  {
    RSAESKeyAlgorithm(padding, jwk, None)
  }

  /** fromPrivateKey: both keys, the public one derived from the private one. */
  function FromPrivateKey(padding: PaddingScheme, jwk: RSAPrivateKeyJWK): (a: RSAESKeyAlgorithm)
    ensures a.HasPrivateKey() && a.PrivateKey() == Ok(jwk)
    ensures a.publicKey == jwk.publicKey && a.padding == padding
  {
    RSAESKeyAlgorithm(padding, jwk.publicKey, Some(jwk))
  }

  // ---------------------------------------------------------------------------
  // Properties

  /** encrypt uses only the public key: the private key, present or not, makes no difference. */
  lemma EncryptIgnoresPrivateKey(a: RSAESKeyAlgorithm, other: Option<RSAPrivateKeyJWK>, cek: seq<byte>, ssl: OpenSSL)
    ensures a.(privateKey := other).Encrypt(cek, ssl) == a.Encrypt(cek, ssl)
  {
  }

  /** A public-only instance refuses to decrypt before any OpenSSL call, whatever the input. */
  lemma PublicOnlyCannotDecrypt(padding: PaddingScheme, jwk: RSAPublicKeyJWK, data: seq<byte>, ssl: OpenSSL)
    ensures FromPublicKey(padding, jwk).Decrypt(data, ssl) == Traced(Err(PrivateKeyNotSet), [])
  {
  }

  /**
    When OpenSSL loads both keys of a pair and its decryption inverts its
    encryption, a key encrypted by fromPrivateKey(k) (or by fromPublicKey of k's
    public key) is recovered by fromPrivateKey(k).
   */
  lemma DecryptEncrypt(padding: PaddingScheme, k: RSAPrivateKeyJWK, cek: seq<byte>, ssl: OpenSSL)
    requires ssl.getPublic(k.publicKey.pem).Some? && ssl.getPrivate(k.pem).Some?
    requires var pub, priv := ssl.getPublic(k.publicKey.pem).value, ssl.getPrivate(k.pem).value;
      forall m :: ssl.publicEncrypt(m, pub, padding).Some? ==> ssl.privateDecrypt(ssl.publicEncrypt(m, pub, padding).value, priv, padding) == Some(m)
    ensures FromPublicKey(padding, k.publicKey).Encrypt(cek, ssl).result.Ok? <==>
      ssl.publicEncrypt(cek, ssl.getPublic(k.publicKey.pem).value, padding).Some?
    ensures var e := FromPublicKey(padding, k.publicKey).Encrypt(cek, ssl);
      e.result.Ok? ==> FromPrivateKey(padding, k).Decrypt(e.result.value, ssl).result == Ok(cek)
  {
  }
}
