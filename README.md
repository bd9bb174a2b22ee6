# Pemmican PEM codec in Dafny

Pemmican is a small JavaScript/TypeScript utility class over the Web Cryptography API. Its
logic is a PEM codec:

- `arrayBufferToPem` encodes key octets. It produces base64 through `btoa`, cuts it into lines of up
  to 64 characters with `match(/.{1,64}/g)`, and wraps these in `-----BEGIN <type> KEY-----` and
  `-----END <type> KEY-----` lines. This is the textual encoding of section 2 of RFC 7468.
- `pemToArrayBuffer` decodes. It removes the first BEGIN and the first END marker of the type, then
  all whitespace, decodes with `atob`, and copies the character codes into a fresh `Uint8Array` in
  a loop.

Around the codec sit the following pieces:

- the usage-to-algorithm selection of `generateKeyPair`, with the PEM labelling of the exported keys;
- the older generator, which always uses RSASSA-PKCS1-v1_5;
- `signData`, `verifySignature`, `encryptWithPublicKey` and `decryptWithPrivateKey`. These carry
  signatures and ciphertexts as base64.

The three revisions (`mod.js`, `mod.ts`, `dist/mod.js`) share one codec. One model serves all
three, and each row below cites the `mod.js` lines and names the matching lines of the other
revisions.

Files and modules:

- `results.dfy` (`Results`): the `Result` and `Option` types. A JavaScript exception becomes a
  `Failure` with one of the errors the code raises.
- `base64.dfy` (`Base64`):
  - `btoa` over Latin-1 strings, which is section 4 of RFC 4648 with padding;
  - `atob`, the forgiving-base64 decode of the WHATWG Infra standard;
  - the byte/character conversions `String.fromCharCode` and `charCodeAt` into a `Uint8Array`,
    which reduces modulo 256;
  - the base64 round trip.
- `text.dfy` (`Text`): the JavaScript string operations the codec uses:
  - `replace` with a string pattern, which removes the first occurrence only;
  - `replace(/\s/g, '')`, over the full ECMAScript WhiteSpace and LineTerminator sets;
  - `match(/.{1,64}/g)`, which skips line terminators and yields null when nothing matches;
  - `join('\n')`.
- `pem.dfy` (`Pem`): the encoder and the decoder. The decoder is an imperative method with its
  copy loop, proved equal to a specification function. The file also holds the round trip and the
  decoder's edge cases.
- `webcrypto.dfy` (`WebCrypto`): the request dictionaries of the Web Cryptography API, and a
  `Platform` value whose function fields stand for the engine's calls and for UTF-8
  encoding/decoding. It also has a reference table of the key usages each RSA algorithm permits.
- `keygen.dfy` (`KeyGen`): `generateKeyPair` in both its forms.
- `operations.dfy` (`Operations`): signing, verifying, encrypting and decrypting.

Three behaviours of the code worth stating plainly:

- **Empty input.** The encoder is not total: for no octets `match` returns null and reading
  `join` of it throws a TypeError (the `!` in `mod.ts` does not change this). So
  `Pem.ArrayBufferToPem` returns `Failure(TypeError)` exactly when there are no octets.
- **Missing markers.** Text that keeps a `-` after the marker removal fails in `atob`, which
  rejects the `-` characters. Text without markers and without `-` is decoded as bare base64
  (`Pem.LeftoverDashFails`, `Pem.BareBase64Accepted`).
- **OAEP plaintext limit.** The code checks none; any limit is the engine's.

## Model

| member | source | states |
|---|---|---|
| Base64.AlphabetIsBijection | mod.js:56 | The digit map and the value map are inverse bijections between 0..63 and the 64 characters of the RFC 4648 alphabet that `btoa` and `atob` use. |
| Base64.Latin1 | mod.js:56 | `String.fromCharCode(...bytes)` gives one character per octet, whose code is that octet (also mod.ts:16, dist/mod.js:8). |
| Base64.Codes | mod.js:70-73 | `charCodeAt` stored into a Uint8Array keeps each code modulo 256, one octet per character. |
| Base64.SextetValues | mod.js:56 | The 6-bit groups of the input: four per three octets, and 2 or 3 for a final group of one or two octets, in division/remainder form. The bits past the end of the input are zero: the last sextet is a multiple of 16 after one final octet and of 4 after two. |
| Base64.SextetValuesCarryBits | mod.js:56 | The four sextets of every full group spell the 24 bits of its three octets, most significant first. |
| Base64.SextetValuesFinalBits | mod.js:56 | The final two sextets spell the 8 bits of a lone last octet followed by four zero bits; the final three spell the last two octets followed by two zero bits. |
| Base64.Encode | mod.js:56 | The padded base64 text has length 4 * ceil(n / 3). Every character is in the alphabet or is `=`. It is empty exactly for no octets. |
| Base64.Btoa | mod.js:56 | `btoa` throws InvalidCharacterError exactly when a character is above U+00FF. |
| Base64.BtoaOfLatin1 | mod.js:56 | `btoa` of `String.fromCharCode(...b)` never throws and is exactly the RFC 4648 encoding of `b` (also mod.ts:16, dist/mod.js:8). |
| Base64.StripAsciiWhitespace | mod.js:69 | The first step of `atob` leaves no ASCII whitespace, keeps exactly the other characters, and changes nothing in text that has none. |
| Base64.StripAsciiWhitespaceAppend | mod.js:69 | The ASCII whitespace removal distributes over concatenation, so the kept characters stay in their order. |
| Base64.StripPadding | mod.js:69 | Only trailing `=` characters are dropped, at most two. Something is dropped exactly when the length is a multiple of four and the last character is `=`, and two are dropped exactly when the last two both are. |
| Base64.DecodeValues | mod.js:69 | Decoding sextets gives three octets per four sextets, and 1 or 2 octets for a final run of 2 or 3. |
| Base64.Atob | mod.js:69 | `atob` either returns a string of Latin-1 characters or throws InvalidCharacterError. |
| Base64.Base64ToBytes | mod.js:177 | `Uint8Array.from(atob(s), c => c.charCodeAt(0))` succeeds exactly when `atob` does. Its octets are then exactly the decoded characters: turned back into characters they give the decoded string (also mod.js:240, dist/mod.js:64). |
| Base64.Base64ToBytesOfEmpty | mod.js:69 | Empty text decodes to no octets. |
| Base64.BytesToBase64 | mod.js:156 | Encoding the octets of a signature or ciphertext always succeeds with the RFC 4648 text of those octets (also mod.js:223, dist/mod.js:57). |
| Base64.DecodeValuesOfSextetValues | mod.js:56 | Decoding the sextets of any octet sequence gives that sequence back. |
| Base64.GroupStep | mod.js:56 | A leading group of three octets decodes back from its four sextets, ahead of the rest. |
| Base64.StripPaddingOfEncode | mod.js:69 | Removing the padding of an encoding leaves exactly the unpadded alphabet characters. |
| Base64.AtobOfEncode | mod.js:69 | `atob` inverts the encoder: the decoded string is `String.fromCharCode` of the original octets. |
| Base64.BytesRoundTrip | mod.js:177 | The signature and ciphertext codec round-trips: decoding the base64 of any octets gives exactly those octets (mod.js:156 with 177, mod.js:223 with 240, dist/mod.js:57 with 64). |
| Base64.AtobRejectsForeignChar | mod.js:69 | Any character outside the alphabet that is not ASCII whitespace and not `=` makes `atob` throw. |
| Base64.Base64ToBytesRejectsDash | mod.js:69 | Text containing `-` does not decode. |
| Text.IndexOf | mod.js:68 | Finds the least index where the pattern occurs, or reports that it occurs nowhere. |
| Text.RemoveFirst | mod.js:68 | `replace` with a string pattern deletes exactly the first occurrence and leaves text without one unchanged (also mod.ts:29, dist/mod.js:13). |
| Text.RemoveFirstAfter | mod.js:68 | When the pattern's first character is absent from `x`, removing it from `x + pat + y` gives `x + y`. |
| Text.RemoveFirstAtStart | mod.js:68 | Text that starts with the pattern loses exactly that prefix. |
| Text.RemoveFirstKeepsPrefix | mod.js:68 | If the pattern occurs nowhere before position k, the first k characters survive the removal. |
| Text.RemoveWhitespace | mod.js:68 | `replace(/\s/g, '')` leaves no whitespace. A character survives exactly when it was present and is not whitespace. |
| Text.RemoveWhitespaceAppend | mod.js:68 | The whitespace removal distributes over concatenation. |
| Text.RemoveWhitespaceIgnoresInsertion | mod.js:68 | Inserting whitespace anywhere does not change the result of the removal. |
| Text.LeadingRun | mod.js:57 | The greedy match `.{1,64}` stops at 64 characters or at the first line terminator. |
| Text.MatchAll64 | mod.js:57 | Every match of `/.{1,64}/g` has 1 to 64 characters. |
| Text.MatchAll64OfBlank | mod.js:57 | `/.{1,64}/g` finds no match exactly in text made only of line terminators, the empty text included. |
| Text.Match64 | mod.js:57 | `match` gives exactly the array of all matches when there is one, and null exactly when there are none, which is when the text holds nothing but line terminators. |
| Text.MatchAll64OfPlain | mod.js:57 | For text with no line terminator, the matches are lines of 64 characters with a shorter last line. They concatenate back to the text, and there are none only for empty text (also mod.ts:17, dist/mod.js:9). |
| Text.RemoveWhitespaceOfJoin | mod.js:68 | Removing whitespace from lines joined by `\n` gives their concatenation with whitespace removed. |
| Text.NotInJoin | mod.js:57 | A character found neither in the lines nor in the separator is not in their join. |
| Text.Join | mod.js:57 | `join` puts one separator between neighbouring lines: its length is that of the lines plus one separator per gap, and with an empty separator it is their concatenation. |
| Text.RemoveWhitespaceOfSurrounded | mod.js:68 | Whitespace before and after a string is removed along with the rest. |
| Pem.EncodeHasNoLineTerminator | mod.js:56-57 | Base64 text holds no line terminator, no whitespace and no `-`. |
| Pem.FramedLayout | mod.js:57 | The template of the encoder: the BEGIN line, then the body, then the END line, each line ended by `\n` (also mod.ts:17, dist/mod.js:9). |
| Pem.ArrayBufferToPem | mod.js:54-59 | The encoder fails, with a TypeError, exactly when there are no octets (also mod.ts:14-19, dist/mod.js:6-11). |
| Pem.PemLayout | mod.js:57 | For non-empty octets the PEM is the BEGIN line, the wrapped lines joined by `\n`, the END line and a final newline, and nothing else. The lines have 1 to 64 characters, all but the last exactly 64, and concatenate to the base64 of the octets, of length 4 * ceil(n / 3) (also mod.ts:17, dist/mod.js:9). |
| Pem.PemBase64 | mod.js:68 | The text handed to `atob` holds no whitespace, and every character in it comes from the PEM (also mod.ts:29, dist/mod.js:13). |
| Pem.DecodePem | mod.js:68-69 | Decoding succeeds exactly when `atob` accepts the unframed text, and otherwise fails with InvalidCharacterError (also mod.ts:29-30, dist/mod.js:13-14). |
| Pem.CopyCharCodes | mod.js:70-73 | The copy loop fills a fresh array as long as the decoded string. Byte i is the code of character i modulo 256, and that code itself for Latin-1 text (also mod.ts:31-34, dist/mod.js:15-18). |
| Pem.PemToArrayBuffer | mod.js:67-75 | The decoder method returns exactly the specification `DecodePem`: both first markers removed, whitespace removed, `atob`, then the copied codes (also mod.ts:28-36, dist/mod.js:12-20). |
| Pem.FramedDecode | mod.js:68 | When the text before the BEGIN marker and the text between the markers hold no `-`, the marker removal cuts out exactly the two markers. |
| Pem.FramedDecodeAtStart | mod.js:68 | The same, for a PEM that starts with its BEGIN marker. |
| Pem.PemBase64OfEncoded | mod.js:57-68 | Removing the markers and the whitespace from an encoded PEM recovers exactly the base64 text the encoder wrapped. |
| Pem.PemBase64OfFramed | mod.js:57-68 | Unframing lines joined by `\n` gives their concatenation whenever it holds no `-` and no whitespace. |
| Pem.RoundTrip | mod.js:54-75 | For non-empty octets and any type label, decoding the encoder's output with the same label gives the octets back (also mod.ts:14-36, dist/mod.js:6-20). |
| Pem.WhitespaceTolerance | mod.js:68 | Extra whitespace inserted anywhere between the markers does not change what is decoded. |
| Pem.WhitespaceToleranceBase64 | mod.js:68 | The same, stated on the text handed to `atob`. |
| Pem.SurroundingWhitespaceBase64 | mod.js:68 | Whitespace before the BEGIN marker and at the end of the text, such as blank lines or CRLF endings around the PEM, leaves the text handed to `atob` unchanged. |
| Pem.SurroundedBase64 | mod.js:57-68 | An encoded PEM with whitespace around it still unframes to exactly the base64 of its octets. |
| Pem.SurroundedRoundTrip | mod.js:54-75 | An encoded PEM with whitespace around it still decodes to its octets. |
| Pem.LeftoverDashFails | mod.js:68-69 | If a `-` remains after the two marker removals, decoding fails. |
| Pem.MissingMarkersFail | mod.js:68-69 | Text containing `-` but neither marker of the requested type is rejected. |
| Pem.LeadingDashSurvives | mod.js:68 | Text opening with `-----B` that does not start with the requested BEGIN marker keeps its first `-` through both removals. |
| Pem.OpeningSurvivesBegin | mod.js:68 | The BEGIN marker cannot start within the first six characters of text opening with `-----B`, so those characters survive its removal. |
| Pem.OpeningSurvivesEnd | mod.js:68 | The END marker does not match `-----B`, so the first `-` survives its removal. |
| Pem.WrongTypeFails | mod.js:68-69 | A private key's PEM read as PUBLIC is rejected, and so is a public key's PEM read as PRIVATE. |
| Pem.OtherTypeFails | mod.js:68-69 | A PEM the encoder wrote for one type is rejected when read as a type whose name differs in its second character. |
| Pem.OpeningOfFramed | mod.js:57 | An encoded PEM opens with `-----B`, and a BEGIN marker whose type differs in its second character does not match at its start. |
| Pem.BareBase64Accepted | mod.js:68-69 | The markers are not checked: bare base64 without any marker decodes to its octets. |
| Pem.EmptyBodyBase64 | mod.js:68 | After the markers and whitespace are removed, nothing is left of a PEM whose body is only whitespace. |
| Pem.EmptyBodyAccepted | mod.js:68-75 | Markers with only whitespace between them decode to no octets, which no encoder output is. |
| KeyGen.SelectKeyGenRequest | mod.js:88-109 | `encryption` selects RSA-OAEP with usages encrypt and decrypt. `signing` selects RSA-PSS with sign and verify. Both are 2048 bits, exponent 65537, SHA-256 and extractable, and every requested usage is one the algorithm permits. Any other usage fails with the invalid-usage error. |
| KeyGen.ExponentIsF4 | mod.js:92 | The octets 1, 0, 1 are the exponent 65537. |
| KeyGen.PublicLabel | mod.js:118 | The public PEM is labelled PUBLIC whatever the usage. |
| KeyGen.PrivateLabel | mod.js:119 | The private PEM is labelled PRIVATE whatever the usage. |
| KeyGen.GenerateKeyPair | mod.js:82-124 | An invalid usage fails before any engine call. A valid usage succeeds exactly when generation and both exports succeed with non-empty keys. |
| KeyGen.ArmorRoundTrip | mod.js:118-120 | Armoring succeeds exactly for two non-empty exports, and each PEM then decodes under its label to its export. |
| KeyGen.GeneratedPairDecodes | mod.js:107-120 | A returned pair is exactly the encoder's PEM of the exported SPKI key labelled PUBLIC and of the PKCS #8 key labelled PRIVATE, whatever the usage; each decodes under its label to its export. |
| KeyGen.LegacyKeyGenRequest | dist/mod.js:22-34 | The older generator asks for RSASSA-PKCS1-v1_5 with SHA-256, 2048 bits and exponent 65537, extractable, with the usages sign and verify, each of which the algorithm permits (also mod.ts:44-53). |
| KeyGen.GenerateLegacyKeyPair | dist/mod.js:21-43 | The older generator succeeds exactly when generation and both exports succeed with non-empty keys. mod.ts:43-62 asks for the same request, but as written it never resolves to a pair (see "## Left out"). |
| KeyGen.LegacyPairDecodes | dist/mod.js:35-38 | The older generator's pair is exactly the encoder's PEM of the SPKI export labelled PUBLIC and of the PKCS #8 export labelled PRIVATE, each decoding to its export. These are the labels mod.ts:58-59 intends; as written, mod.ts rejects there instead. |
| Operations.ImportPem | mod.js:139-145 | Reading a key PEM fails with the decoder's error, or imports exactly the decoded octets, not extractable, with SHA-256. |
| Operations.SignData | mod.js:131-162 | Signing succeeds exactly when import and signing do. The result is the RFC 4648 base64 of the engine's signature, stamped with the given time. |
| Operations.VerifySignature | mod.js:169-195 | A malformed base64 signature fails with InvalidCharacterError before the key is read. Otherwise the decoded octets go to the verification unchanged. |
| Operations.SignThenVerify | mod.js:156-191 | The base64 a signer emits hands the verifier exactly the octets the engine signed. |
| Operations.EncryptWithPublicKey | mod.js:202-227 | Encryption succeeds exactly when import and encryption do. The result is the base64 of the engine's ciphertext. |
| Operations.DecryptWithPrivateKey | mod.js:234-258 | A malformed base64 ciphertext fails before the key is read. Otherwise the decoded octets go to decryption unchanged. |
| Operations.EncryptThenDecrypt | mod.js:223-250 | The base64 an encrypter emits hands the decrypter exactly the octets the engine produced. |
| Operations.ImportOfEncodedKey | mod.js:139-145 | For a key PEM the encoder wrote, the engine is asked to import exactly the exported octets. |
| Operations.EncryptDecryptRoundTrip | mod.js:202-258 | Suppose the engine decrypts what it encrypts, and UTF-8 decoding inverts encoding. Then a message encrypted under a PEM public key comes back from decryption under the matching PEM private key. |

## Left out

- The cryptographic engine. `generateKey`, `exportKey`, `importKey`, `sign`, `verify`, `encrypt`
  and `decrypt` are function fields of `WebCrypto.Platform`, and nothing is assumed about them.
  `Operations.EncryptDecryptRoundTrip` states its assumptions as preconditions. RSA, SPKI and
  PKCS #8 are not modelled.
- Randomness in the engine. `generateKey`, RSA-PSS `sign` (random salt) and RSA-OAEP `encrypt`
  are randomized. The model fixes each engine call's outcome as a function of its arguments, so
  each lemma describes one run: for example, `Operations.SignThenVerify` speaks of the signature
  octets of that run.
- The promise machinery (`async`/`await`, `__awaiter`, `__generator`). Each call is a function of
  its inputs, and a rejected promise is a `Failure`.
- The clock. `new Date().toISOString()` is the parameter `now` of `Operations.SignData`.
- `TextEncoder` and `TextDecoder`. They are the `utf8Encode` and `utf8Decode` fields of the
  platform.
- UTF-16. A JavaScript string is a sequence of UTF-16 code units, while a Dafny `char` is a
  Unicode scalar value. A character outside the Basic Multilingual Plane is one Dafny `char` but
  two UTF-16 code units. This changes no outcome of the codec: in neither form is it whitespace,
  `-` or a base64 character, so the marker removal, the whitespace removal and `atob` treat it the
  same way. Lone surrogates, which a JavaScript string can hold, have no Dafny counterpart.
- The `RangeError` that `String.fromCharCode.apply` (or the spread in `mod.ts` and `dist/mod.js`)
  throws when the argument is too large for the engine's argument limit. Inputs of any length
  succeed in the model.
- The RSA-OAEP plaintext-length limit. The code never checks one.
- The sign and verify operations of `dist/mod.js` and `mod.ts` (RSASSA-PKCS1-v1_5). Only their
  signature base64 encode and decode, which match `mod.js`, are covered. Their PEM calls go through
  the same codec.
- `mod.ts` calls the class `CryptoUtils`, which is not defined, in `generateKeyPair` and `signData`
  (mod.ts:58-59, 77). As written, its `generateKeyPair` generates and exports both keys and then
  rejects with a ReferenceError at mod.ts:58, so it never resolves to a pair; its `signData`
  rejects with a ReferenceError at mod.ts:77, before the key is imported. These rejections are not
  modelled. The older generator is modelled from `dist/mod.js` instead. That file is the bundle
  of a neighbouring revision: it calls `Pemmican` where mod.ts calls `CryptoUtils`, and it adds
  `verifySignature` (dist/mod.js:61-73).
- `types/mod.d.ts` (declarations only) and `test.ts` (needs a real engine).
- Pem.ArrayBufferToPem: its contract states only when it fails. What it returns is stated by
  `Pem.PemLayout` and `Pem.RoundTrip`.
