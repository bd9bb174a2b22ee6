/**
 * `signData`, `verifySignature`, `encryptWithPublicKey` and `decryptWithPrivateKey`: each reads a
 * PEM key, imports it into the engine, runs one engine operation, and carries signatures and
 * ciphertexts as base64 text. The engine is a `Platform` argument; the clock reading of `signData`
 * is a parameter.
 */
module Operations {
  import opened Results
  import opened Base64
  import opened Pem
  import opened WebCrypto

  const PssParams: OperationParams := OperationParams("RSA-PSS", Some(32))
  const OaepParams: OperationParams := OperationParams("RSA-OAEP", None)

  /** Reads a PEM key of the given keyType and imports it, not extractable, for the given usages. */
  function ImportPem(p: Platform, pem: string, keyType: string, format: string, algorithm: string, usages: seq<string>)
    : (r: Result<CryptoKey>)
    ensures DecodePem(pem, keyType).Failure? ==> r == Failure(DecodePem(pem, keyType).error)
    ensures DecodePem(pem, keyType).Success? ==>
      r == p.importKey(ImportRequest(format, DecodePem(pem, keyType).value, algorithm, "SHA-256", false, usages))
  {
    var keyData :- DecodePem(pem, keyType);
    p.importKey(ImportRequest(format, keyData, algorithm, "SHA-256", false, usages))
  }

  function ImportPrivateSigningKey(p: Platform, privateKeyPem: string): Result<CryptoKey> {
    ImportPem(p, privateKeyPem, "PRIVATE", "pkcs8", "RSA-PSS", ["sign"])
  }

  function ImportPublicVerifyingKey(p: Platform, publicKeyPem: string): Result<CryptoKey> {
    ImportPem(p, publicKeyPem, "PUBLIC", "spki", "RSA-PSS", ["verify"])
  }

  function ImportPublicEncryptionKey(p: Platform, publicKeyPem: string): Result<CryptoKey> {
    ImportPem(p, publicKeyPem, "PUBLIC", "spki", "RSA-OAEP", ["encrypt"])
  }

  function ImportPrivateDecryptionKey(p: Platform, privateKeyPem: string): Result<CryptoKey> {
    ImportPem(p, privateKeyPem, "PRIVATE", "pkcs8", "RSA-OAEP", ["decrypt"])
  }

  // ---------------------------------------------------------------------------------------------
  // Signing and verifying

  /** What `signData` resolves to. */
  datatype SignedData = SignedData(signatureBase64: string, timeStampISO: string)

  /** The signature octets `crypto.subtle.sign` returns for the UTF-8 octets of `data`. */
  function Signature(p: Platform, data: string, privateKeyPem: string): Result<seq<uint8>> {
    var key :- ImportPrivateSigningKey(p, privateKeyPem);
    p.sign(PssParams, key, p.utf8Encode(data))
  }

  /** `signData`: the signature as base64, with the time of signing. */
  function SignData(p: Platform, data: string, privateKeyPem: string, now: string): (r: Result<SignedData>)
    ensures r.Success? <==> Signature(p, data, privateKeyPem).Success?
    ensures r.Success? ==>
      && r.value.signatureBase64 == Encode(Signature(p, data, privateKeyPem).value)
      && r.value.timeStampISO == now
    ensures r.Failure? ==> r.error == Signature(p, data, privateKeyPem).error
  {
    var signature :- Signature(p, data, privateKeyPem);
    var signatureBase64 := BytesToBase64(signature).value;
    Success(SignedData(signatureBase64, now))
  }

  /** The check `verifySignature` makes once it holds the signature octets. */
  function VerifyOctets(p: Platform, data: string, signature: seq<uint8>, publicKeyPem: string): Result<bool> {
    var key :- ImportPublicVerifyingKey(p, publicKeyPem);
    p.verify(PssParams, key, signature, p.utf8Encode(data))
  }

  /**
   * `verifySignature`: the base64 signature is decoded first, so a malformed signature is reported
   * before the key is read.
   */
  function VerifySignature(p: Platform, data: string, signatureBase64: string, publicKeyPem: string)
    : (r: Result<bool>)
    ensures Base64ToBytes(signatureBase64).Failure? ==> r == Failure(InvalidCharacterError)
    ensures Base64ToBytes(signatureBase64).Success? ==>
      r == VerifyOctets(p, data, Base64ToBytes(signatureBase64).value, publicKeyPem)
  {
    var signature :- Base64ToBytes(signatureBase64);
    VerifyOctets(p, data, signature, publicKeyPem)
  }

  /** The base64 a signer emits hands the verifier exactly the octets the engine signed. */
  lemma SignThenVerify(p: Platform, data: string, privateKeyPem: string, now: string, publicKeyPem: string)
    requires SignData(p, data, privateKeyPem, now).Success?
    ensures VerifySignature(p, data, SignData(p, data, privateKeyPem, now).value.signatureBase64, publicKeyPem)
         == VerifyOctets(p, data, Signature(p, data, privateKeyPem).value, publicKeyPem)
  {
    BytesRoundTrip(Signature(p, data, privateKeyPem).value);
  }

  // ---------------------------------------------------------------------------------------------
  // Encrypting and decrypting

  /** The ciphertext `crypto.subtle.encrypt` returns for the UTF-8 octets of `data`. */
  function Ciphertext(p: Platform, data: string, publicKeyPem: string): Result<seq<uint8>> {
    var key :- ImportPublicEncryptionKey(p, publicKeyPem);
    p.encrypt(OaepParams, key, p.utf8Encode(data))
  }

  /** `encryptWithPublicKey`: the ciphertext as base64. */
  function EncryptWithPublicKey(p: Platform, data: string, publicKeyPem: string): (r: Result<string>)
    ensures r.Success? <==> Ciphertext(p, data, publicKeyPem).Success?
    ensures r.Success? ==> r.value == Encode(Ciphertext(p, data, publicKeyPem).value)
    ensures r.Failure? ==> r.error == Ciphertext(p, data, publicKeyPem).error
  {
    var ciphertext :- Ciphertext(p, data, publicKeyPem);
    BytesToBase64(ciphertext)
  }

  /** The plaintext `decryptWithPrivateKey` returns once it holds the ciphertext octets. */
  function DecryptOctets(p: Platform, ciphertext: seq<uint8>, privateKeyPem: string): Result<string> {
    var key :- ImportPrivateDecryptionKey(p, privateKeyPem);
    var plaintext :- p.decrypt(OaepParams, key, ciphertext);
    Success(p.utf8Decode(plaintext))
  }

  /**
   * `decryptWithPrivateKey`: the base64 ciphertext is decoded first, so a malformed ciphertext is
   * reported before the key is read.
   */
  function DecryptWithPrivateKey(p: Platform, encryptedData: string, privateKeyPem: string): (r: Result<string>)
    ensures Base64ToBytes(encryptedData).Failure? ==> r == Failure(InvalidCharacterError)
    ensures Base64ToBytes(encryptedData).Success? ==>
      r == DecryptOctets(p, Base64ToBytes(encryptedData).value, privateKeyPem)
  {
    var ciphertext :- Base64ToBytes(encryptedData);
    DecryptOctets(p, ciphertext, privateKeyPem)
  }

  /** The base64 an encrypter emits hands the decrypter exactly the octets the engine produced. */
  lemma EncryptThenDecrypt(p: Platform, data: string, publicKeyPem: string, privateKeyPem: string)
    requires EncryptWithPublicKey(p, data, publicKeyPem).Success?
    ensures DecryptWithPrivateKey(p, EncryptWithPublicKey(p, data, publicKeyPem).value, privateKeyPem)
         == DecryptOctets(p, Ciphertext(p, data, publicKeyPem).value, privateKeyPem)
  {
    BytesRoundTrip(Ciphertext(p, data, publicKeyPem).value);
  }

  /**
   * With a key the encoder wrote, the engine is handed exactly the exported octets: the PEM layer
   * is transparent between `generateKeyPair` and the operations.
   */
  lemma ImportOfEncodedKey(p: Platform, key: seq<uint8>, keyType: string, format: string, algorithm: string,
                           usages: seq<string>)
    requires |key| > 0
    ensures ImportPem(p, ArrayBufferToPem(key, keyType).value, keyType, format, algorithm, usages)
         == p.importKey(ImportRequest(format, key, algorithm, "SHA-256", false, usages))
  {
    RoundTrip(key, keyType);
  }

  /**
   * End to end over the PEM and base64 layers: if the engine decrypts what it encrypted, a message
   * encrypted under a PEM public key comes back from decryption under the PEM private key.
   */
  lemma EncryptDecryptRoundTrip(p: Platform, data: string, spki: seq<uint8>, pkcs8: seq<uint8>,
                                pub: CryptoKey, priv: CryptoKey)
    requires |spki| > 0 && |pkcs8| > 0
    requires p.importKey(ImportRequest("spki", spki, "RSA-OAEP", "SHA-256", false, ["encrypt"])) == Success(pub)
    requires p.importKey(ImportRequest("pkcs8", pkcs8, "RSA-OAEP", "SHA-256", false, ["decrypt"])) == Success(priv)
    requires forall m :: p.encrypt(OaepParams, pub, m).Success? ==>
      p.decrypt(OaepParams, priv, p.encrypt(OaepParams, pub, m).value) == Success(m)
    requires forall s :: p.utf8Decode(p.utf8Encode(s)) == s
    requires EncryptWithPublicKey(p, data, ArrayBufferToPem(spki, "PUBLIC").value).Success?
    ensures DecryptWithPrivateKey(p, EncryptWithPublicKey(p, data, ArrayBufferToPem(spki, "PUBLIC").value).value,
                                  ArrayBufferToPem(pkcs8, "PRIVATE").value) == Success(data)
  {
    var publicKeyPem, privateKeyPem := ArrayBufferToPem(spki, "PUBLIC").value, ArrayBufferToPem(pkcs8, "PRIVATE").value;
    ImportOfEncodedKey(p, spki, "PUBLIC", "spki", "RSA-OAEP", ["encrypt"]);
    ImportOfEncodedKey(p, pkcs8, "PRIVATE", "pkcs8", "RSA-OAEP", ["decrypt"]);
    EncryptThenDecrypt(p, data, publicKeyPem, privateKeyPem);
  }
}
