/**
  The constants of A128CBC-HS256 content encryption
  (lib/JWX/JWE/EncryptionAlgorithm/A128CBCHS256Algorithm.php), checked against
  the parameter table of section 5.2 of RFC 7518 and the key sizes of the
  OpenSSL cipher and hash it names.
 */
module A128CBCHS256Algorithm {
  import opened Common

  /** The parameters an AES_CBC_HMAC_SHA2 algorithm is defined by (section 5.2.2 of RFC 7518). */
  datatype CbcHmacParameters = CbcHmacParameters(
    identifier: string,
    keySize: nat,      // keySize(): the whole content encryption key
    encKeyLen: nat,    // _encKeyLen(): ENC_KEY_LEN, the AES key
    macKeyLen: nat,    // _macKeyLen(): MAC_KEY_LEN, the HMAC key
    tagLen: nat,       // _tagLen(): T_LEN, the truncated tag
    cipherMethod: string,  // _cipherMethod(): the OpenSSL cipher
    hashAlgo: string       // _hashAlgo(): the hash_hmac algorithm
  )

  /** What the class returns from each of its methods. */
  const A128CBC_HS256 := CbcHmacParameters("A128CBC-HS256", 32, 16, 16, 16, "AES-128-CBC", "sha256")

  /** Sections 5.2.3 to 5.2.5 of RFC 7518: key and tag lengths per algorithm, with the hash it truncates. */
  function RFC7518Parameters(identifier: string): (p: Option<(nat, nat, nat, string)>)
    ensures p.Some? <==> identifier in {"A128CBC-HS256", "A192CBC-HS384", "A256CBC-HS512"}
  {
    // (MAC_KEY_LEN, ENC_KEY_LEN, T_LEN, hash)
    if identifier == "A128CBC-HS256" then Some((16, 16, 16, "sha256"))
    else if identifier == "A192CBC-HS384" then Some((24, 24, 24, "sha384"))
    else if identifier == "A256CBC-HS512" then Some((32, 32, 32, "sha512"))
    else None
  }

  /** Key length, in octets, of the OpenSSL CBC ciphers. */
  function CipherKeyBytes(cipher: string): Option<nat>
  {
    if cipher == "AES-128-CBC" then Some(16)
    else if cipher == "AES-192-CBC" then Some(24)
    else if cipher == "AES-256-CBC" then Some(32)
    else None
  }

  /** Output length, in octets, of the SHA-2 hashes. */
  function HashOutputBytes(hash: string): Option<nat>
  {
    if hash == "sha256" then Some(32)
    else if hash == "sha384" then Some(48)
    else if hash == "sha512" then Some(64)
    else None
  }

  /** A parameter set is consistent with RFC 7518 and with the cipher and hash it names. */
  predicate Consistent(p: CbcHmacParameters)
  {
    && RFC7518Parameters(p.identifier).Some?
    && var (macLen, encLen, tLen, hash) := RFC7518Parameters(p.identifier).value;
    && p.macKeyLen == macLen && p.encKeyLen == encLen && p.tagLen == tLen && p.hashAlgo == hash
    && p.keySize == p.macKeyLen + p.encKeyLen
    && CipherKeyBytes(p.cipherMethod) == Some(p.encKeyLen)
    && HashOutputBytes(p.hashAlgo) == Some(2 * p.tagLen)
  }

  /**
    A128CBC-HS256 is consistent: a 32-octet key split into a 16-octet MAC key and a
    16-octet AES-128 key, and a tag that is the first half of a SHA-256 HMAC.
   */
  lemma A128CBCHS256IsConsistent()
    ensures Consistent(A128CBC_HS256)
    ensures A128CBC_HS256.keySize == 32 == A128CBC_HS256.encKeyLen + A128CBC_HS256.macKeyLen
    ensures A128CBC_HS256.tagLen == 16
  {
  }

  /** Consistency pins the sizes down: only these constants fit the identifier, cipher and hash. */
  lemma ConsistentIsUnique(p: CbcHmacParameters)
    requires Consistent(p) && p.identifier == "A128CBC-HS256" && p.cipherMethod == "AES-128-CBC"
    ensures p == A128CBC_HS256
  {
  }
}
