/**
 * `generateKeyPair`: the choice of algorithm and key usages from the intended usage, the calls to
 * the engine, and the PEM labelling of the exported keys. Also the older generator, which takes no
 * argument and always asks for an RSASSA-PKCS1-v1_5 signing pair.
 */
module KeyGen {
  import opened Results
  import opened Base64
  import opened Pem
  import opened WebCrypto

  /** The public exponent 65537, as the three octets 01 00 01. */
  const F4: seq<uint8> := [1, 0, 1]

  function RsaParams(name: string): RsaHashedKeyGenParams {
    RsaHashedKeyGenParams(name, 2048, F4, "SHA-256")
  }

  /**
   * The request `generateKeyPair(usage)` sends to `generateKey`: RSA-OAEP for encrypting and
   * decrypting when the usage is "encryption", RSA-PSS for signing and verifying when it is
   * "signing", an error for anything else; the key is 2048 bits, exponent 65537, SHA-256, extractable.
   */
  function SelectKeyGenRequest(usage: string): (r: Result<KeyGenRequest>)
    ensures r.Success? <==> usage == "encryption" || usage == "signing"
    ensures r.Failure? ==> r.error == InvalidUsage
    ensures r.Success? ==>
      && r.value.algorithm.modulusLength == 2048
      && BigEndian(r.value.algorithm.publicExponent) == 65537
      && r.value.algorithm.hash == "SHA-256"
      && r.value.extractable
      && forall u :: u in r.value.keyUsages ==> PermittedUsage(r.value.algorithm.name, u)
    ensures usage == "encryption" ==>
      r.value.algorithm.name == "RSA-OAEP" && r.value.keyUsages == ["encrypt", "decrypt"]
    ensures usage == "signing" ==>
      r.value.algorithm.name == "RSA-PSS" && r.value.keyUsages == ["sign", "verify"]
  {
    ExponentIsF4();
    var algorithm :-
      if usage == "encryption" then Success(RsaParams("RSA-OAEP"))
      else if usage == "signing" then Success(RsaParams("RSA-PSS"))
      else Failure(InvalidUsage);
    Success(KeyGenRequest(algorithm, true,
      if usage == "encryption" then ["encrypt", "decrypt"] else ["sign", "verify"]))
  }

  lemma ExponentIsF4()
    ensures BigEndian(F4) == 65537
  {
    assert F4[..2] == [1, 0];
    assert F4[..2][..1] == [1];
    assert F4[..2][..1][..0] == [];
    assert BigEndian([1]) == 1;
    assert BigEndian([1, 0]) == 256;
  }

  /** The label of the public key's PEM; the usage is consulted but both branches say "PUBLIC". */
  function PublicLabel(usage: string): (t: string)
    ensures t == "PUBLIC"
  {
    if usage == "encryption" then "PUBLIC" else "PUBLIC"
  }

  /** The label of the private key's PEM; both branches say "PRIVATE". */
  function PrivateLabel(usage: string): (t: string)
    ensures t == "PRIVATE"
  {
    if usage == "encryption" then "PRIVATE" else "PRIVATE"
  }

  /** The two PEM strings `generateKeyPair` resolves to. */
  datatype PemKeyPair = PemKeyPair(publicKeyPem: string, privateKeyPem: string)

  /** The exported public key (SPKI) and private key (PKCS #8) of a generated pair. */
  datatype ExportedPair = ExportedPair(spki: seq<uint8>, pkcs8: seq<uint8>)

  /** `generateKey`, then `exportKey('spki')` of the public and `exportKey('pkcs8')` of the private key. */
  function Export(p: Platform, request: KeyGenRequest): Result<ExportedPair> {
    var pair :- p.generateKey(request);
    var spki :- p.exportKey("spki", pair.publicKey);
    var pkcs8 :- p.exportKey("pkcs8", pair.privateKey);
    Success(ExportedPair(spki, pkcs8))
  }

  /** The two exported keys in PEM form, under the given labels. */
  function Armor(e: ExportedPair, publicLabel: string, privateLabel: string): Result<PemKeyPair> {
    var publicKeyPem :- ArrayBufferToPem(e.spki, publicLabel);
    var privateKeyPem :- ArrayBufferToPem(e.pkcs8, privateLabel);
    Success(PemKeyPair(publicKeyPem, privateKeyPem))
  }

  /**
   * `generateKeyPair(usage)`: an invalid usage is rejected before the engine is called; a valid one
   * succeeds exactly when the engine generates and exports the pair and neither export is empty.
   */
  function GenerateKeyPair(p: Platform, usage: string): (r: Result<PemKeyPair>)
    ensures !(usage == "encryption" || usage == "signing") ==> r == Failure(InvalidUsage)
    ensures (usage == "encryption" || usage == "signing") ==>
      (r.Success? <==> var e := Export(p, SelectKeyGenRequest(usage).value);
                       e.Success? && |e.value.spki| > 0 && |e.value.pkcs8| > 0)
  {
    var request :- SelectKeyGenRequest(usage);
    var exported :- Export(p, request);
    ArmorRoundTrip(exported, PublicLabel(usage), PrivateLabel(usage));
    Armor(exported, PublicLabel(usage), PrivateLabel(usage))
  }

  /**
   * Armoring succeeds exactly when both exported keys are non-empty, and then each PEM is labelled
   * by its role and decodes back to the exported octets.
   */
  lemma ArmorRoundTrip(e: ExportedPair, publicLabel: string, privateLabel: string)
    ensures Armor(e, publicLabel, privateLabel).Success? <==> |e.spki| > 0 && |e.pkcs8| > 0
    ensures Armor(e, publicLabel, privateLabel).Success? ==>
      && DecodePem(Armor(e, publicLabel, privateLabel).value.publicKeyPem, publicLabel) == Success(e.spki)
      && DecodePem(Armor(e, publicLabel, privateLabel).value.privateKeyPem, privateLabel) == Success(e.pkcs8)
  {
    if |e.spki| > 0 && |e.pkcs8| > 0 {
      RoundTrip(e.spki, publicLabel);
      RoundTrip(e.pkcs8, privateLabel);
    }
  }

  /**
   * A pair `generateKeyPair` returns is the engine's exported pair in PEM form: the public key
   * labelled PUBLIC, the private key PRIVATE, whatever the usage, each decoding to its export.
   */
  lemma GeneratedPairDecodes(p: Platform, usage: string)
    requires GenerateKeyPair(p, usage).Success?
    ensures usage == "encryption" || usage == "signing"
    ensures Export(p, SelectKeyGenRequest(usage).value).Success?
    ensures var e := Export(p, SelectKeyGenRequest(usage).value).value;
      && GenerateKeyPair(p, usage).value
         == PemKeyPair(ArrayBufferToPem(e.spki, "PUBLIC").value, ArrayBufferToPem(e.pkcs8, "PRIVATE").value)
      && DecodePem(GenerateKeyPair(p, usage).value.publicKeyPem, "PUBLIC") == Success(e.spki)
      && DecodePem(GenerateKeyPair(p, usage).value.privateKeyPem, "PRIVATE") == Success(e.pkcs8)
  {
    var e := Export(p, SelectKeyGenRequest(usage).value).value;
    ArmorRoundTrip(e, "PUBLIC", "PRIVATE");
  }

  /** The request of the older generator: RSASSA-PKCS1-v1_5, 2048 bits, exponent 65537, SHA-256, sign and verify. */
  function LegacyKeyGenRequest(): (r: KeyGenRequest)
    ensures r.algorithm.name == "RSASSA-PKCS1-v1_5" && r.algorithm.hash == "SHA-256"
    ensures r.algorithm.modulusLength == 2048 && BigEndian(r.algorithm.publicExponent) == 65537
    ensures r.extractable && r.keyUsages == ["sign", "verify"]
    ensures forall u :: u in r.keyUsages ==> PermittedUsage(r.algorithm.name, u)
  {
    ExponentIsF4();
    KeyGenRequest(RsaParams("RSASSA-PKCS1-v1_5"), true, ["sign", "verify"])
  }

  /** The older `generateKeyPair()`: no usage argument, labels PUBLIC and PRIVATE. */
  function GenerateLegacyKeyPair(p: Platform): (r: Result<PemKeyPair>)
    ensures r.Success? <==> var e := Export(p, LegacyKeyGenRequest());
                            e.Success? && |e.value.spki| > 0 && |e.value.pkcs8| > 0
  {
    var exported :- Export(p, LegacyKeyGenRequest());
    ArmorRoundTrip(exported, "PUBLIC", "PRIVATE");
    Armor(exported, "PUBLIC", "PRIVATE")
  }

  /** The older generator's pair is likewise the exported pair, labelled PUBLIC and PRIVATE. */
  lemma LegacyPairDecodes(p: Platform)
    requires GenerateLegacyKeyPair(p).Success?
    ensures Export(p, LegacyKeyGenRequest()).Success?
    ensures var e := Export(p, LegacyKeyGenRequest()).value;
      && GenerateLegacyKeyPair(p).value
         == PemKeyPair(ArrayBufferToPem(e.spki, "PUBLIC").value, ArrayBufferToPem(e.pkcs8, "PRIVATE").value)
      && DecodePem(GenerateLegacyKeyPair(p).value.publicKeyPem, "PUBLIC") == Success(e.spki)
      && DecodePem(GenerateLegacyKeyPair(p).value.privateKeyPem, "PRIVATE") == Success(e.pkcs8)
  {
    ArmorRoundTrip(Export(p, LegacyKeyGenRequest()).value, "PUBLIC", "PRIVATE");
  }
}
