/**
 * The parts of the Web Cryptography API and of the text encoding API that Pemmican calls. The
 * engine itself is not modelled: each call is a field of `Platform`, a function the caller supplies,
 * so a property proved here holds whatever the engine returns.
 */
module WebCrypto {
  import opened Results
  import opened Base64

  /** `RsaHashedKeyGenParams`: the algorithm dictionary given to `generateKey`. */
  datatype RsaHashedKeyGenParams = RsaHashedKeyGenParams(
    name: string,
    modulusLength: nat,
    publicExponent: seq<uint8>,
    hash: string)

  /** The three arguments of `generateKey(algorithm, extractable, keyUsages)`. */
  datatype KeyGenRequest = KeyGenRequest(
    algorithm: RsaHashedKeyGenParams,
    extractable: bool,
    keyUsages: seq<string>)

  /** The five arguments of `importKey(format, keyData, algorithm, extractable, keyUsages)`. */
  datatype ImportRequest = ImportRequest(
    format: string,
    keyData: seq<uint8>,
    algorithm: string,
    hash: string,
    extractable: bool,
    keyUsages: seq<string>)

  /** The algorithm dictionary of `sign`, `verify`, `encrypt` and `decrypt`. */
  datatype OperationParams = OperationParams(name: string, saltLength: Option<nat>)

  /** A `CryptoKey` is a handle held by the engine; the model keeps only its identity. */
  datatype CryptoKey = CryptoKey(handle: nat)

  datatype CryptoKeyPair = CryptoKeyPair(publicKey: CryptoKey, privateKey: CryptoKey)

  /**
   * The engine calls, each with its success value or rejection: `crypto.subtle` and
   * `TextEncoder.encode` / `TextDecoder.decode`.
   */
  datatype Platform = Platform(
    generateKey: KeyGenRequest -> Result<CryptoKeyPair>,
    exportKey: (string, CryptoKey) -> Result<seq<uint8>>,
    importKey: ImportRequest -> Result<CryptoKey>,
    sign: (OperationParams, CryptoKey, seq<uint8>) -> Result<seq<uint8>>,
    verify: (OperationParams, CryptoKey, seq<uint8>, seq<uint8>) -> Result<bool>,
    encrypt: (OperationParams, CryptoKey, seq<uint8>) -> Result<seq<uint8>>,
    decrypt: (OperationParams, CryptoKey, seq<uint8>) -> Result<seq<uint8>>,
    utf8Encode: string -> seq<uint8>,
    utf8Decode: seq<uint8> -> string)

  /**
   * The key usages the W3C Web Cryptography API accepts when generating a key pair for each RSA
   * algorithm it registers: RSASSA-PKCS1-v1_5 and RSA-PSS sign and verify, RSA-OAEP encrypts,
   * decrypts, wraps and unwraps.
   */
  predicate PermittedUsage(algorithm: string, usage: string) {
    if algorithm == "RSA-OAEP" then usage in ["encrypt", "decrypt", "wrapKey", "unwrapKey"]
    else if algorithm == "RSA-PSS" || algorithm == "RSASSA-PKCS1-v1_5" then usage in ["sign", "verify"]
    else false
  }

  /** A public exponent is an unsigned big-endian integer. */
  function BigEndian(bytes: seq<uint8>): nat {
    if bytes == [] then 0 else BigEndian(bytes[..|bytes| - 1]) * 256 + bytes[|bytes| - 1]
  }
}
