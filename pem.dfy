/**
 * The PEM codec of Pemmican: `arrayBufferToPem` and `pemToArrayBuffer`, the textual encoding of
 * section 2 of RFC 7468 with the labels "PUBLIC KEY" and "PRIVATE KEY".
 */
module Pem {
  import opened Results
  import opened Base64
  import opened Text

  /** The encapsulation boundaries for a key of type `t` ("PUBLIC" or "PRIVATE"). */
  function BeginMarker(t: string): string { "-----BEGIN " + t + " KEY-----" }
  function EndMarker(t: string): string { "-----END " + t + " KEY-----" }

  /** The text the encoder emits around the wrapped base64 lines. */
  function Framed(t: string, body: string): string {
    BeginMarker(t) + ("\n" + body + "\n") + EndMarker(t) + "\n"
  }

  /**
   * The layout of the frame: the BEGIN line, the body on lines of its own, and the END line, each
   * line ended by "\n".
   */
  lemma FramedLayout(t: string, body: string)
    ensures var r, n := Framed(t, body), |BeginMarker(t)| + 1;
      && |r| == n + |body| + |EndMarker(t)| + 2
      && r[..n] == BeginMarker(t) + "\n"
      && r[n..n + |body|] == body
      && r[n + |body|..] == "\n" + EndMarker(t) + "\n"
  {
  }

  /** Base64 text holds no line terminator, so the 64-character match splits it without gaps. */
  lemma EncodeHasNoLineTerminator(b: seq<uint8>)
    ensures NoLineTerminator(Encode(b))
    ensures NoWhitespace(Encode(b))
    ensures '-' !in Encode(b)
  {
    var e := Encode(b);
    assert forall i :: 0 <= i < |e| ==> e[i] != '-';
  }

  /**
   * `arrayBufferToPem`: base64 of the octets, cut into lines by `match(/.{1,64}/g)`, joined with
   * "\n" and framed by the BEGIN and END lines. For no octets `match` gives null and reading `join`
   * of it throws a TypeError.
   */
  function ArrayBufferToPem(b: seq<uint8>, t: string): (r: Result<string>)
    ensures r.Failure? <==> |b| == 0
    ensures r.Failure? ==> r.error == TypeError
  {
    BtoaOfLatin1(b);
    EncodeHasNoLineTerminator(b);
    MatchAll64OfPlain(Encode(b));
    match Btoa(Latin1(b))
    case Failure(e) => Failure(e)
    case Success(base64) =>
      match Match64(base64)
      case None => Failure(TypeError)
      case Some(lines) => Success(Framed(t, Join(lines, "\n")))
  }

  /**
   * The layout of a PEM: the BEGIN line, lines of 1 to 64 characters of which all but the last have
   * exactly 64, that together are the base64 of `b` (4 * ceil(|b| / 3) characters), the END line
   * and a final newline.
   */
  lemma PemLayout(b: seq<uint8>, t: string)
    requires |b| > 0
    ensures var lines := MatchAll64(Encode(b));
      && ArrayBufferToPem(b, t) == Success(Framed(t, Join(lines, "\n")))
      && WrappedAt64(lines)
      && Concat(lines) == Encode(b)
      && |Concat(lines)| == 4 * ((|b| + 2) / 3)
  {
    BtoaOfLatin1(b);
    EncodeHasNoLineTerminator(b);
    MatchAll64OfPlain(Encode(b));
  }

  // ---------------------------------------------------------------------------------------------
  // Decoding

  /**
   * What `pemToArrayBuffer` hands to `atob`: the first BEGIN and the first END marker removed, then
   * all whitespace. Nothing is added: every character left comes from the PEM.
   */
  function PemBase64(pem: string, t: string): (r: string)
    ensures NoWhitespace(r)
    ensures forall c :: c in r ==> c in pem
  {
    var unmarked := RemoveFirst(RemoveFirst(pem, BeginMarker(t)), EndMarker(t));
    RemoveWhitespace(unmarked)
  }

  /**
   * The result of `pemToArrayBuffer(pem, t)`: the octets `atob` decodes from `PemBase64`. It fails
   * only as `atob` does, with InvalidCharacterError.
   */
  function DecodePem(pem: string, t: string): (r: Result<seq<uint8>>)
    ensures r.Success? <==> Atob(PemBase64(pem, t)).Success?
    ensures r.Failure? ==> r.error == InvalidCharacterError
  {
    Base64ToBytes(PemBase64(pem, t))
  }

  /**
   * The copy loop of `pemToArrayBuffer`: a fresh Uint8Array as long as the string, whose byte `i`
   * is `charCodeAt(i)` (kept modulo 256 by the array).
   */
  method CopyCharCodes(byteString: string) returns (bytes: seq<uint8>)
    ensures |bytes| == |byteString|
    ensures forall i :: 0 <= i < |bytes| ==> bytes[i] == (byteString[i] as int) % 256
    ensures IsLatin1(byteString) ==> forall i :: 0 <= i < |bytes| ==> bytes[i] == byteString[i] as int
  {
    var byteArray := new uint8[|byteString|];
    var i := 0;
    while i < |byteString|
      invariant 0 <= i <= |byteString|
      invariant forall k :: 0 <= k < i ==> byteArray[k] == (byteString[k] as int) % 256
    {
      byteArray[i] := (byteString[i] as int) % 256;
      i := i + 1;
    }
    bytes := byteArray[..];
  }

  /**
   * `pemToArrayBuffer`: strips the markers and the whitespace, decodes with `atob`, and copies the
   * character codes of the decoded string into a fresh Uint8Array.
   */
  method PemToArrayBuffer(pem: string, t: string) returns (r: Result<seq<uint8>>)
    ensures r == DecodePem(pem, t)
  {
    var base64 := RemoveWhitespace(RemoveFirst(RemoveFirst(pem, BeginMarker(t)), EndMarker(t)));
    var decoded := Atob(base64);
    if decoded.Failure? {
      return Failure(decoded.error);
    }
    var bytes := CopyCharCodes(decoded.value);
    assert bytes == Codes(decoded.value);
    r := Success(bytes);
  }

  /**
   * A PEM whose text before the BEGIN marker and between the markers holds no '-' decodes exactly
   * as the base64 of everything else with whitespace removed.
   */
  lemma FramedDecode(w: string, u: string, v: string, t: string)
    requires '-' !in w && '-' !in u
    ensures PemBase64(w + BeginMarker(t) + u + EndMarker(t) + v, t) == RemoveWhitespace(w + u + v)
  {
    var bm, em := BeginMarker(t), EndMarker(t);
    assert bm[0] == '-' && em[0] == '-';
    var pem := w + bm + u + em + v;
    var x := (w + u) + em + v;
    assert pem == w + bm + (u + em + v) && w + (u + em + v) == x;
    RemoveFirstAfter(w, bm, u + em + v);
    assert '-' !in w + u;
    RemoveFirstAfter(w + u, em, v);
    assert RemoveFirst(RemoveFirst(pem, bm), em) == w + u + v;
  }

  /** The same when the PEM starts with its BEGIN marker. */
  lemma FramedDecodeAtStart(u: string, v: string, t: string)
    requires '-' !in u
    ensures PemBase64(BeginMarker(t) + u + EndMarker(t) + v, t) == RemoveWhitespace(u + v)
  {
    var bm, em := BeginMarker(t), EndMarker(t);
    assert bm[0] == '-' && em[0] == '-';
    assert bm + u + em + v == bm + (u + em + v);
    RemoveFirstAtStart(bm, u + em + v);
    RemoveFirstAfter(u, em, v);
  }

  /** Decoding what the encoder produced gives the octets back, whatever the type label. */
  lemma RoundTrip(b: seq<uint8>, t: string)
    requires |b| > 0
    ensures ArrayBufferToPem(b, t).Success?
    ensures DecodePem(ArrayBufferToPem(b, t).value, t) == Success(b)
  {
    PemBase64OfEncoded(b, t);
    BytesRoundTrip(b);
  }

  /** The marker and whitespace removal recovers exactly the base64 text the encoder wrapped. */
  lemma PemBase64OfEncoded(b: seq<uint8>, t: string)
    requires |b| > 0
    ensures ArrayBufferToPem(b, t).Success?
    ensures PemBase64(ArrayBufferToPem(b, t).value, t) == Encode(b)
  {
    PemLayout(b, t);
    EncodeHasNoLineTerminator(b);
    PemBase64OfFramed(MatchAll64(Encode(b)), t);
  }

  /** Unframing lines joined by "\n" gives their concatenation when it holds no '-' and no whitespace. */
  lemma PemBase64OfFramed(lines: seq<string>, t: string)
    requires '-' !in Concat(lines) && NoWhitespace(Concat(lines))
    ensures PemBase64(Framed(t, Join(lines, "\n")), t) == Concat(lines)
  {
    var body := Join(lines, "\n");
    NotInJoin(lines, "\n", '-');
    FramedDecodeAtStart("\n" + body + "\n", "\n", t);
    RemoveWhitespaceAroundLine(body);
    RemoveWhitespaceOfJoin(lines);
    RemoveWhitespaceOfPlain(Concat(lines));
  }

  /** Extra whitespace anywhere between the markers does not change what is decoded. */
  lemma WhitespaceTolerance(u: string, p: nat, ws: string, v: string, t: string)
    requires '-' !in u && p <= |u|
    requires forall i :: 0 <= i < |ws| ==> IsJsWhitespace(ws[i])
    ensures DecodePem(BeginMarker(t) + (u[..p] + ws + u[p..]) + EndMarker(t) + v, t)
         == DecodePem(BeginMarker(t) + u + EndMarker(t) + v, t)
  {
    WhitespaceToleranceBase64(u, p, ws, v, t);
  }

  lemma WhitespaceToleranceBase64(u: string, p: nat, ws: string, v: string, t: string)
    requires '-' !in u && p <= |u|
    requires forall i :: 0 <= i < |ws| ==> IsJsWhitespace(ws[i])
    ensures PemBase64(BeginMarker(t) + (u[..p] + ws + u[p..]) + EndMarker(t) + v, t)
         == PemBase64(BeginMarker(t) + u + EndMarker(t) + v, t)
  {
    assert forall i :: 0 <= i < |ws| ==> ws[i] != '-';
    assert '-' !in u[..p] + ws + u[p..];
    FramedDecodeAtStart(u[..p] + ws + u[p..], v, t);
    FramedDecodeAtStart(u, v, t);
    RemoveWhitespaceIgnoresSplitInsertion(u, p, ws, v);
  }

  /**
   * Whitespace before the BEGIN marker and after the end of the text is ignored as well, so a PEM
   * with extra blank lines or indentation around it decodes the same.
   */
  lemma SurroundingWhitespaceBase64(w1: string, u: string, v: string, w2: string, t: string)
    requires '-' !in u
    requires forall i :: 0 <= i < |w1| ==> IsJsWhitespace(w1[i])
    requires forall i :: 0 <= i < |w2| ==> IsJsWhitespace(w2[i])
    ensures PemBase64(w1 + (BeginMarker(t) + u + EndMarker(t) + v) + w2, t)
         == PemBase64(BeginMarker(t) + u + EndMarker(t) + v, t)
  {
    assert forall i :: 0 <= i < |w1| ==> w1[i] != '-';
    var bm, em := BeginMarker(t), EndMarker(t);
    assert w1 + (bm + u + em + v) + w2 == w1 + bm + u + em + (v + w2);
    FramedDecode(w1, u, v + w2, t);
    FramedDecodeAtStart(u, v, t);
    RemoveWhitespaceOfSurrounded(w1, u, v, w2);
  }

  /** Whitespace around the encoder's output, such as a blank line before it, does not stop it decoding. */
  lemma SurroundedRoundTrip(w1: string, b: seq<uint8>, w2: string, t: string)
    requires |b| > 0
    requires forall i :: 0 <= i < |w1| ==> IsJsWhitespace(w1[i])
    requires forall i :: 0 <= i < |w2| ==> IsJsWhitespace(w2[i])
    ensures ArrayBufferToPem(b, t).Success?
    ensures DecodePem(w1 + ArrayBufferToPem(b, t).value + w2, t) == Success(b)
  {
    SurroundedBase64(w1, b, w2, t);
    BytesRoundTrip(b);
  }

  lemma SurroundedBase64(w1: string, b: seq<uint8>, w2: string, t: string)
    requires |b| > 0
    requires forall i :: 0 <= i < |w1| ==> IsJsWhitespace(w1[i])
    requires forall i :: 0 <= i < |w2| ==> IsJsWhitespace(w2[i])
    ensures ArrayBufferToPem(b, t).Success?
    ensures PemBase64(w1 + ArrayBufferToPem(b, t).value + w2, t) == Encode(b)
  {
    PemLayout(b, t);
    var lines := MatchAll64(Encode(b));
    var u := "\n" + Join(lines, "\n") + "\n";
    EncodeHasNoLineTerminator(b);
    NotInJoin(lines, "\n", '-');
    SurroundingWhitespaceBase64(w1, u, "\n", w2, t);
    PemBase64OfEncoded(b, t);
  }

  /** A '-' left over after the marker removal (markers missing or of another type) makes decoding fail. */
  lemma LeftoverDashFails(pem: string, t: string)
    requires '-' in RemoveFirst(RemoveFirst(pem, BeginMarker(t)), EndMarker(t))
    ensures DecodePem(pem, t).Failure?
  {
    var unmarked := RemoveFirst(RemoveFirst(pem, BeginMarker(t)), EndMarker(t));
    assert !IsJsWhitespace('-');
    var base64 := RemoveWhitespace(unmarked);
    assert '-' in base64;
    Base64ToBytesRejectsDash(base64);
  }

  /** Text that contains '-' but neither marker of type `t` is rejected. */
  lemma MissingMarkersFail(pem: string, t: string)
    requires '-' in pem
    requires forall j: nat :: !OccursAt(pem, BeginMarker(t), j)
    requires forall j: nat :: !OccursAt(pem, EndMarker(t), j)
    ensures DecodePem(pem, t).Failure?
  {
    LeftoverDashFails(pem, t);
  }

  /** The markers are not checked: the bare base64 of `b`, without any marker, decodes to `b`. */
  lemma BareBase64Accepted(b: seq<uint8>, t: string)
    ensures DecodePem(Encode(b), t) == Success(b)
  {
    var e := Encode(b);
    EncodeHasNoLineTerminator(b);
    NoOccurrenceWithoutFirstChar(e, BeginMarker(t));
    NoOccurrenceWithoutFirstChar(e, EndMarker(t));
    RemoveWhitespaceOfPlain(e);
    BytesRoundTrip(b);
  }

  /** Markers with nothing but whitespace between them decode to no octets, which the encoder never emits. */
  lemma EmptyBodyAccepted(ws: string, t: string)
    requires forall i :: 0 <= i < |ws| ==> IsJsWhitespace(ws[i])
    ensures DecodePem(BeginMarker(t) + ws + EndMarker(t) + "\n", t) == Success([])
    ensures forall b :: ArrayBufferToPem(b, t).Success? ==> |b| > 0
  {
    EmptyBodyBase64(ws, t);
    Base64ToBytesOfEmpty();
  }

  lemma EmptyBodyBase64(ws: string, t: string)
    requires forall i :: 0 <= i < |ws| ==> IsJsWhitespace(ws[i])
    ensures PemBase64(BeginMarker(t) + ws + EndMarker(t) + "\n", t) == ""
  {
    assert forall i :: 0 <= i < |ws| ==> ws[i] != '-';
    FramedDecodeAtStart(ws, "\n", t);
    RemoveWhitespaceOfBlank(ws);
    RemoveWhitespaceOfBlank("\n");
    RemoveWhitespaceAppend(ws, "\n");
  }

  /**
   * Text that opens with "-----B" but not with the BEGIN marker of type `t` keeps its first '-' through
   * both marker removals: no marker can start at any of the first five positions, and the END marker
   * cannot match "-----B".
   */
  lemma LeadingDashSurvives(pem: string, t: string)
    requires |pem| >= 6 && pem[..6] == "-----B"
    requires !OccursAt(pem, BeginMarker(t), 0)
    ensures '-' in RemoveFirst(RemoveFirst(pem, BeginMarker(t)), EndMarker(t))
  {
    OpeningSurvivesBegin(pem, t);
    OpeningSurvivesEnd(RemoveFirst(pem, BeginMarker(t)), t);
  }

  /** The BEGIN marker cannot start within the first six characters, so these survive its removal. */
  lemma OpeningSurvivesBegin(pem: string, t: string)
    requires |pem| >= 6 && pem[..6] == "-----B"
    requires !OccursAt(pem, BeginMarker(t), 0)
    ensures var s := RemoveFirst(pem, BeginMarker(t)); |s| >= 6 && s[..6] == "-----B"
  {
    var bm := BeginMarker(t);
    assert pem[5] == 'B' by { assert pem[..6][5] == 'B'; }
    forall i: nat | 1 <= i < 6 ensures !OccursAt(pem, bm, i) {
      assert i + |bm| <= |pem| ==> pem[i..i + |bm|][5 - i] == pem[5] != bm[5 - i];
    }
    RemoveFirstKeepsPrefix(pem, bm, 6);
  }

  /** The END marker does not match "-----B", so the first '-' survives its removal. */
  lemma OpeningSurvivesEnd(s: string, t: string)
    requires |s| >= 6 && s[..6] == "-----B"
    ensures '-' in RemoveFirst(s, EndMarker(t))
  {
    var em := EndMarker(t);
    assert s[5] == 'B' by { assert s[..6][5] == 'B'; }
    assert |em| <= |s| ==> s[..|em|][5] == s[5] != em[5];
    RemoveFirstKeepsPrefix(s, em, 1);
    assert s[..6][0] == '-';
    assert RemoveFirst(s, em)[..1][0] == '-';
  }

  /** A private key's PEM read as a public key, or the other way round, is rejected. */
  lemma WrongTypeFails(b: seq<uint8>)
    requires |b| > 0
    ensures DecodePem(ArrayBufferToPem(b, "PRIVATE").value, "PUBLIC").Failure?
    ensures DecodePem(ArrayBufferToPem(b, "PUBLIC").value, "PRIVATE").Failure?
  {
    OtherTypeFails(b, "PRIVATE", "PUBLIC");
    OtherTypeFails(b, "PUBLIC", "PRIVATE");
  }

  /** A PEM of type `t` read as a type whose second character differs is rejected. */
  lemma OtherTypeFails(b: seq<uint8>, t: string, other: string)
    requires |b| > 0
    requires |t| >= 2 && |other| >= 2 && t[1] != other[1]
    ensures DecodePem(ArrayBufferToPem(b, t).value, other).Failure?
  {
    PemLayout(b, t);
    var pem := Framed(t, Join(MatchAll64(Encode(b)), "\n"));
    OpeningOfFramed(Join(MatchAll64(Encode(b)), "\n"), t, other);
    LeadingDashSurvives(pem, other);
    LeftoverDashFails(pem, other);
  }

  /**
   * A framed PEM opens with "-----B", and the BEGIN marker of a type whose second character differs
   * does not match at its start.
   */
  lemma OpeningOfFramed(body: string, t: string, other: string)
    requires |t| >= 2 && |other| >= 2 && t[1] != other[1]
    ensures var pem := Framed(t, body);
      |pem| >= 6 && pem[..6] == "-----B" && !OccursAt(pem, BeginMarker(other), 0)
  {
    var pem := Framed(t, body);
    var bm := BeginMarker(t);
    assert pem == bm + (("\n" + body + "\n") + EndMarker(t) + "\n");
    assert pem[..6] == bm[..6];
    assert pem[12] == bm[12] == t[1];
    assert BeginMarker(other)[12] == other[1];
    if |BeginMarker(other)| <= |pem| {
      assert pem[..|BeginMarker(other)|][12] == pem[12];
    }
  }
}
