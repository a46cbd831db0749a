/**
 TLS 1.3 AES-GCM records (libs/rustls-corecrypto-provider/src/tls13.rs).

 The inner plaintext is payload || type || zeros (sections 5.2 to 5.4 of RFC 8446); the
 associated data is the five-byte record header with the length of the protected body.
 Removing the padding is done by the record layer the decrypter hands its plaintext to.
 */
module Tls13 {
  import opened Bytes
  import opened Common
  import opened Records
  import Ordering
  import Aead

  const TAG_LEN: nat := Aead.TAG_LEN
  const MAX_FRAGMENT_LEN: nat := 16384
  const APPLICATION_DATA: byte := 0x17

  function Aad(bodyLen: nat): Bytes {
    [APPLICATION_DATA, 0x03, 0x03] + LengthField(bodyLen)
  }

  function Seal(g: Aead.Gcm, key: Bytes, iv: Bytes, msg: Plain, seqNo: nat): Opaque
    requires |iv| == 12 && seqNo < U64_LIMIT
  {
    Opaque(APPLICATION_DATA, (0x03, 0x03), Protect(g, key, iv, msg.payload + [msg.typ], seqNo))
  }

  /** An inner plaintext under protection: ciphertext and tag. */
  function Protect(g: Aead.Gcm, key: Bytes, iv: Bytes, inner: Bytes, seqNo: nat): Bytes
    requires |iv| == 12 && seqNo < U64_LIMIT
  {
    var nonce := Nonce(iv, seqNo);
    var ct := g.encipher(key, nonce, inner);
    ct + g.tag(key, nonce, Aad(|inner| + TAG_LEN), ct)
  }

  /** The protected bytes of a record before the padding is removed. */
  function OpenInner(g: Aead.Gcm, key: Bytes, iv: Bytes, body: Bytes, seqNo: nat): Result<Bytes, RecordError>
    requires |iv| == 12 && seqNo < U64_LIMIT
  {
    if |body| < TAG_LEN || !Aead.ValidKey(key) then Err(DecryptError)
    else
      var nonce := Nonce(iv, seqNo);
      var ct := body[..|body| - TAG_LEN];
      if g.tag(key, nonce, Aad(|body|), ct) == body[|body| - TAG_LEN..] then
        Ok(g.decipher(key, nonce, ct))
      else Err(DecryptError)
  }

  /** Drops zero bytes from the end. */
  function StripZeros(s: Bytes): (r: Bytes)
    ensures |r| <= |s| && (r != [] ==> r[|r| - 1] != 0)
  {
    if s == [] || s[|s| - 1] != 0 then s else StripZeros(s[..|s| - 1])
  }

  /** Splits an inner plaintext at its last non-zero byte, which is the content type. */
  function Unpad(inner: Bytes): Result<Plain, RecordError> {
    if |inner| > MAX_FRAGMENT_LEN + 1 then Err(PeerSentOversizedRecord)
    else
      var kept := StripZeros(inner);
      if kept == [] then Err(IllegalInnerPlaintext)
      else if |kept| - 1 > MAX_FRAGMENT_LEN then Err(PeerSentOversizedRecord)
      else Ok(Plain(kept[|kept| - 1], (0x03, 0x04), kept[..|kept| - 1]))
  }

  function Open(g: Aead.Gcm, key: Bytes, iv: Bytes, body: Bytes, seqNo: nat): Result<Plain, RecordError>
    requires |iv| == 12 && seqNo < U64_LIMIT
  {
    match OpenInner(g, key, iv, body, seqNo)
    case Err(e) => Err(e)
    case Ok(inner) => Unpad(inner)
  }

  function EncryptedPayloadLen(payloadLen: nat): nat {
    payloadLen + 1 + TAG_LEN
  }

  lemma {:induction false} StripZerosPadded(s: Bytes, typ: byte, n: nat)
    requires typ != 0
    ensures StripZeros(s + [typ] + Zeros(n)) == s + [typ]
  {
    var padded := s + [typ] + Zeros(n);
    if n > 0 {
      assert padded[..|padded| - 1] == s + [typ] + Zeros(n - 1);
      StripZerosPadded(s, typ, n - 1);
    } else {
      assert padded == s + [typ];
    }
  }

  /** Padding of any length that still fits is removed exactly: zero bytes at the end of the
      payload survive, because the type byte stands between them and the padding. */
  lemma UnpadPadded(payload: Bytes, typ: byte, n: nat)
    requires typ != 0 && |payload| + 1 + n <= MAX_FRAGMENT_LEN + 1
    ensures Unpad(payload + [typ] + Zeros(n)) == Ok(Plain(typ, (0x03, 0x04), payload))
  {
    StripZerosPadded(payload, typ, n);
  }

  /** The receiver cuts a protected body back into ciphertext and tag and builds the same header. */
  lemma OpenInnerOfProtect(g: Aead.Gcm, key: Bytes, iv: Bytes, inner: Bytes, seqNo: nat)
    requires Aead.Lawful(g) && Aead.ValidKey(key) && |iv| == 12 && seqNo < U64_LIMIT
    ensures var body := Protect(g, key, iv, inner, seqNo);
            |body| == |inner| + TAG_LEN && OpenInner(g, key, iv, body, seqNo) == Ok(inner)
  {
    var nonce := Nonce(iv, seqNo);
    var ct := g.encipher(key, nonce, inner);
    var body := Protect(g, key, iv, inner, seqNo);
    assert body[..|body| - TAG_LEN] == ct;
    assert body[|body| - TAG_LEN..] == g.tag(key, nonce, Aad(|inner| + TAG_LEN), ct);
  }

  /** The five bytes of associated data: application data, TLS 1.2 as the legacy version, the length. */
  lemma AadFields(len: nat)
    ensures Aad(len) == [23, 3, 3, len / 256 % 256, len % 256]
  {
    TwoDigits(len);
  }

  /** What goes on the wire: the ciphertext of payload and type, and its tag, under the nonce that XORed with the
      IV is the sequence number. */
  lemma SealedUnder(g: Aead.Gcm, key: Bytes, iv: Bytes, msg: Plain, seqNo: nat)
    requires Aead.Lawful(g) && |iv| == 12 && seqNo < U64_LIMIT
    ensures var rec := Seal(g, key, iv, msg, seqNo);
            && rec.typ == 23 && rec.version == (3, 3)
            && exists nonce ::
                 var ct := g.encipher(key, nonce, msg.payload + [msg.typ]);
                 NonceFor(iv, seqNo, nonce) && rec.body == ct + g.tag(key, nonce, Aad(|msg.payload| + 17), ct)
  {
    NonceIs(iv, seqNo);
    assert |msg.payload + [msg.typ]| + TAG_LEN == |msg.payload| + 17;
  }

  /** A body gives an inner plaintext exactly when it protects it. */
  lemma OpensInnerIff(g: Aead.Gcm, key: Bytes, iv: Bytes, body: Bytes, inner: Bytes, seqNo: nat)
    requires Aead.Lawful(g) && Aead.ValidKey(key) && |iv| == 12 && seqNo < U64_LIMIT
    ensures OpenInner(g, key, iv, body, seqNo) == Ok(inner) <==> body == Protect(g, key, iv, inner, seqNo)
  {
    OpenInnerOfProtect(g, key, iv, inner, seqNo);
    if OpenInner(g, key, iv, body, seqNo) == Ok(inner) {
      var ct := body[..|body| - TAG_LEN];
      assert g.encipher(key, Nonce(iv, seqNo), inner) == ct;
      assert body == ct + body[|body| - TAG_LEN..];
    }
  }

  lemma {:induction false} StrippedZeros(s: Bytes)
    ensures s == StripZeros(s) + Zeros(|s| - |StripZeros(s)|)
  {
    if s != [] && s[|s| - 1] == 0 {
      StrippedZeros(s[..|s| - 1]);
      var kept := StripZeros(s);
      assert s == s[..|s| - 1] + [0];
      assert Zeros(|s| - |kept|) == Zeros(|s| - 1 - |kept|) + [0];
    } else {
      assert s + Zeros(0) == s;
    }
  }

  /** payload || type || n zeros. */
  function Padded(payload: Bytes, typ: byte, n: nat): Bytes {
    payload + [typ] + Zeros(n)
  }

  /** The record layer accepts exactly the padded plaintexts within the limit, with a non-zero type. */
  lemma UnpadsIff(inner: Bytes, typ: byte, payload: Bytes)
    ensures Unpad(inner) == Ok(Plain(typ, (0x03, 0x04), payload))
            <==> typ != 0 && |inner| <= 16385 && exists n: nat :: inner == Padded(payload, typ, n)
  {
    var kept := StripZeros(inner);
    if Unpad(inner) == Ok(Plain(typ, (0x03, 0x04), payload)) {
      StrippedZeros(inner);
      assert kept == payload + [typ];
      assert inner == Padded(payload, typ, |inner| - |kept|);
    }
    if n: nat :| typ != 0 && |inner| <= MAX_FRAGMENT_LEN + 1 && inner == Padded(payload, typ, n) {
      UnpadPadded(payload, typ, n);
    }
  }

  /** The body protects payload || type || zeros, within the limit. */
  ghost predicate Protects(g: Aead.Gcm, key: Bytes, iv: Bytes, body: Bytes, typ: byte, payload: Bytes, seqNo: nat)
    requires |iv| == 12 && seqNo < U64_LIMIT
  {
    && typ != 0
    && exists n: nat :: |Padded(payload, typ, n)| <= 16385
                        && body == Protect(g, key, iv, Padded(payload, typ, n), seqNo)
  }

  /** A body opens to a type and a payload exactly when it protects them with some padding within the limit. */
  lemma OpensIff(g: Aead.Gcm, key: Bytes, iv: Bytes, body: Bytes, typ: byte, payload: Bytes, seqNo: nat)
    requires Aead.Lawful(g) && Aead.ValidKey(key) && |iv| == 12 && seqNo < U64_LIMIT
    ensures Open(g, key, iv, body, seqNo) == Ok(Plain(typ, (0x03, 0x04), payload))
            <==> Protects(g, key, iv, body, typ, payload, seqNo)
  {
    if Open(g, key, iv, body, seqNo) == Ok(Plain(typ, (0x03, 0x04), payload)) {
      var inner := OpenInner(g, key, iv, body, seqNo).value;
      OpensInnerIff(g, key, iv, body, inner, seqNo);
      UnpadsIff(inner, typ, payload);
    }
    if Protects(g, key, iv, body, typ, payload, seqNo) {
      var n: nat :| |Padded(payload, typ, n)| <= MAX_FRAGMENT_LEN + 1
                    && body == Protect(g, key, iv, Padded(payload, typ, n), seqNo);
      OpensInnerIff(g, key, iv, body, Padded(payload, typ, n), seqNo);
      UnpadsIff(Padded(payload, typ, n), typ, payload);
    }
  }

  /** A sealed record has the announced length and gives its inner plaintext back. */
  lemma OpenInnerOfSeal(g: Aead.Gcm, key: Bytes, iv: Bytes, msg: Plain, seqNo: nat)
    requires Aead.Lawful(g) && Aead.ValidKey(key) && |iv| == 12 && seqNo < U64_LIMIT
    ensures var body := Seal(g, key, iv, msg, seqNo).body;
            && |body| == EncryptedPayloadLen(|msg.payload|)
            && OpenInner(g, key, iv, body, seqNo) == Ok(msg.payload + [msg.typ])
  {
    OpenInnerOfProtect(g, key, iv, msg.payload + [msg.typ], seqNo);
  }

  /** A sealed record opens to the message it was made from exactly when the payload is within
      2^14 bytes and the content type is not zero. */
  lemma RoundTripExactly(g: Aead.Gcm, key: Bytes, iv: Bytes, msg: Plain, seqNo: nat)
    requires Aead.Lawful(g) && Aead.ValidKey(key) && |iv| == 12 && seqNo < U64_LIMIT
    ensures Open(g, key, iv, Seal(g, key, iv, msg, seqNo).body, seqNo)
            == Ok(Plain(msg.typ, (0x03, 0x04), msg.payload))
            <==> |msg.payload| <= 16384 && msg.typ != 0
  {
    OpenInnerOfSeal(g, key, iv, msg, seqNo);
    var inner := msg.payload + [msg.typ];
    assert inner[..|inner| - 1] == msg.payload;
    if msg.typ != 0 && |msg.payload| <= MAX_FRAGMENT_LEN {
      UnpadPadded(msg.payload, msg.typ, 0);
      assert inner + Zeros(0) == inner;
    }
  }

  /** Over any run of one encrypter with distinct sequence numbers, the nonces are distinct. */
  lemma NoncesNeverRepeat(iv: Bytes, seqNos: seq<nat>)
    requires |iv| == 12 && Ordering.Distinct(seqNos)
    requires forall i :: 0 <= i < |seqNos| ==> seqNos[i] < U64_LIMIT
    ensures forall i, j :: 0 <= i < j < |seqNos| ==> Nonce(iv, seqNos[i]) != Nonce(iv, seqNos[j])
  {
    forall i, j | 0 <= i < j < |seqNos|
      ensures Nonce(iv, seqNos[i]) != Nonce(iv, seqNos[j])
    {
      if Nonce(iv, seqNos[i]) == Nonce(iv, seqNos[j]) {
        NonceInjective(iv, seqNos[i], seqNos[j]);
      }
    }
  }

  // ----- tls13.rs -----------------------------------------------------------------------------

  class Encrypter {
    const key: Bytes
    const iv: Bytes

    constructor (key: Bytes, iv: Bytes)
      ensures this.key == key && this.iv == iv
    {
      this.key := key;
      this.iv := iv;
    }

    /** The sealed record, or an error if the key has the wrong length or a library call fails. */
    method Encrypt(g: Aead.Gcm, msg: Plain, seqNo: nat, calls: Aead.Calls) returns (r: Result<Opaque, RecordError>)
      requires Aead.Lawful(g) && |iv| == 12 && seqNo < U64_LIMIT
      ensures r == if Aead.ValidKey(key) && !Aead.Broken(calls, true, true)
                   then Ok(Seal(g, key, iv, msg, seqNo)) else Err(GeneralError)
    {
      var pt := msg.payload;
      pt := pt + [msg.typ];
      var nonce := Nonce(iv, seqNo);
      var aad := Aad(|pt| + TAG_LEN);
      var ct := new byte[|pt|];
      if Aead.ValidKey(key) {
        Aead.FailsIffBroken(calls, key, nonce, aad, |pt|, |pt|);
      }
      var sealed := Aead.Encrypt(g, key, nonce, aad, pt, ct, calls);
      if sealed.Err? {
        return Err(GeneralError);
      }
      assert ct[..] == g.encipher(key, nonce, pt);
      var payload := ct[..];
      payload := payload + sealed.value;
      return Ok(Opaque(APPLICATION_DATA, (0x03, 0x03), payload));
    }
  }

  class Decrypter {
    const key: Bytes
    const iv: Bytes

    constructor (key: Bytes, iv: Bytes)
      ensures this.key == key && this.iv == iv
    {
      this.key := key;
      this.iv := iv;
    }

    /** Decrypts in place, then removes the padding. A record that fails authentication leaves
        the buffer unchanged; otherwise the buffer starts with the inner plaintext. */
    method Decrypt(g: Aead.Gcm, payload: array<byte>, seqNo: nat, calls: Aead.Calls)
      returns (r: Result<Plain, RecordError>)
      requires Aead.Lawful(g) && |iv| == 12 && seqNo < U64_LIMIT
      modifies payload
      ensures Aead.Broken(calls, true, payload.Length > TAG_LEN)
              ==> r == Err(DecryptError) && payload[..] == old(payload[..])
      ensures !Aead.Broken(calls, true, payload.Length > TAG_LEN) ==> r == old(Open(g, key, iv, payload[..], seqNo))
      ensures !Aead.Broken(calls, true, payload.Length > TAG_LEN) ==>
              match old(OpenInner(g, key, iv, payload[..], seqNo))
              case Err(_) => payload[..] == old(payload[..])
              case Ok(inner) =>
                |inner| + TAG_LEN == payload.Length && payload[..] == inner + old(payload[|inner|..])
    {
      if payload.Length < TAG_LEN {
        return Err(DecryptError);
      }
      ghost var body := payload[..];
      var nonce := Nonce(iv, seqNo);
      var aad := Aad(payload.Length);
      var ctLen := payload.Length - TAG_LEN;
      var ct, tag := payload[..ctLen], payload[ctLen..];
      assert ct == body[..|body| - TAG_LEN] && tag == body[|body| - TAG_LEN..];
      var pt := new byte[ctLen];
      if Aead.ValidKey(key) {
        Aead.FailsIffBroken(calls, key, nonce, aad, |ct|, |ct|);
      }
      var verdict := Aead.Decrypt(g, key, nonce, aad, ct, pt, tag, calls);
      if verdict.Err? {
        return Err(DecryptError);
      }
      assert pt[..] == g.decipher(key, nonce, ct);
      CopyInto(payload, 0, pt[..]);
      assert payload[..ctLen] == pt[..];
      r := Unpad(payload[..ctLen]);
    }
  }

  /** Both objects together, through their buffers: a message comes back exactly when it is within the limits. */
  method SendAndReceive(g: Aead.Gcm, key: Bytes, iv: Bytes, msg: Plain, seqNo: nat, calls: Aead.Calls)
    returns (r: Result<Plain, RecordError>)
    requires Aead.Lawful(g) && Aead.ValidKey(key) && |iv| == 12 && seqNo < U64_LIMIT
    ensures Aead.Broken(calls, true, true) ==> r == Err(GeneralError)
    ensures !Aead.Broken(calls, true, true) ==>
              (r == Ok(Plain(msg.typ, (0x03, 0x04), msg.payload))
               <==> |msg.payload| <= 16384 && msg.typ != 0)
  {
    var sender := new Encrypter(key, iv);
    var receiver := new Decrypter(key, iv);
    var sealed := sender.Encrypt(g, msg, seqNo, calls);
    if sealed.Err? {
      return Err(sealed.error);
    }
    var body := sealed.value.body;
    var buffer := new byte[|body|](i requires 0 <= i < |body| => body[i]);
    assert buffer[..] == body;
    OpenInnerOfSeal(g, key, iv, msg, seqNo);
    RoundTripExactly(g, key, iv, msg, seqNo);
    r := receiver.Decrypt(g, buffer, seqNo, calls);
  }
}
