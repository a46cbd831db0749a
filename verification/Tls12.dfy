/**
 TLS 1.2 AES-GCM records (libs/rustls-corecrypto-provider/src/tls12.rs).

 The body of a record is explicit_nonce(8) || ciphertext || tag(16) (section 3 of RFC 5288);
 the associated data is seq(8) || type || version || length (section 6.2.3.3 of RFC 5246).
 */
module Tls12 {
  import opened Bytes
  import opened Common
  import opened Records
  import Ordering
  import Aead

  const EXPLICIT_NONCE_LEN: nat := 8
  const IMPLICIT_IV_LEN: nat := 4
  const TAG_LEN: nat := Aead.TAG_LEN

  function Aad(seqNo: nat, typ: byte, version: (byte, byte), len: nat): Bytes {
    BigEndian(seqNo, 8) + [typ] + [version.0, version.1] + LengthField(len)
  }

  /** The record protecting `msg`, as one expression over the message. */
  function Seal(g: Aead.Gcm, key: Bytes, fullIv: Bytes, msg: Plain, seqNo: nat): Opaque
    requires |fullIv| == 12 && seqNo < U64_LIMIT
  {
    var nonce := Nonce(fullIv, seqNo);
    var ct := g.encipher(key, nonce, msg.payload);
    var tag := g.tag(key, nonce, Aad(seqNo, msg.typ, msg.version, |msg.payload|), ct);
    Opaque(msg.typ, msg.version, nonce[IMPLICIT_IV_LEN..] + ct + tag)
  }

  /** The message in a record, or why there is none. */
  function Open(g: Aead.Gcm, key: Bytes, implicitIv: Bytes, rec: Opaque, seqNo: nat)
    : Result<Plain, RecordError>
  {
    if |rec.body| < EXPLICIT_NONCE_LEN + TAG_LEN || !Aead.ValidKey(key) then Err(DecryptError)
    else
      var nonce := implicitIv + rec.body[..EXPLICIT_NONCE_LEN];
      var ct := rec.body[EXPLICIT_NONCE_LEN..|rec.body| - TAG_LEN];
      var aad := Aad(seqNo, rec.typ, rec.version, |ct|);
      if g.tag(key, nonce, aad, ct) == rec.body[|rec.body| - TAG_LEN..] then
        Ok(Plain(rec.typ, rec.version, g.decipher(key, nonce, ct)))
      else Err(DecryptError)
  }

  function EncryptedPayloadLen(payloadLen: nat): nat {
    EXPLICIT_NONCE_LEN + payloadLen + TAG_LEN
  }

  /** The three fields of a sealed record, as the receiver cuts them out of the body. */
  lemma SealFields(g: Aead.Gcm, key: Bytes, fullIv: Bytes, msg: Plain, seqNo: nat)
    requires Aead.Lawful(g) && |fullIv| == 12 && seqNo < U64_LIMIT
    ensures var body := Seal(g, key, fullIv, msg, seqNo).body;
            var nonce := Nonce(fullIv, seqNo);
            var ct := g.encipher(key, nonce, msg.payload);
            && |body| == EncryptedPayloadLen(|msg.payload|)
            && fullIv[..4] + body[..8] == nonce
            && body[8..|body| - 16] == ct
            && body[|body| - 16..] == g.tag(key, nonce, Aad(seqNo, msg.typ, msg.version, |ct|), ct)
  {
  }

  /** The thirteen bytes of associated data read back as sequence number, type, version and length. */
  lemma AadFields(seqNo: nat, typ: byte, version: (byte, byte), len: nat)
    requires seqNo < U64_LIMIT
    ensures var aad := Aad(seqNo, typ, version, len);
            && |aad| == 13 && FromBigEndian(aad[..8]) == seqNo && aad[8] == typ && (aad[9], aad[10]) == version
            && aad[11] == len / 256 % 256 && aad[12] == len % 256
  {
    U64Digits();
    BigEndianRoundTrip(seqNo, 8);
    TwoDigits(len);
    assert Aad(seqNo, typ, version, len)[..8] == BigEndian(seqNo, 8);
  }

  /** What goes on the wire: the explicit nonce, which XORed with the extra bytes is the sequence number; the
      ciphertext and the tag under the nonce it completes. */
  lemma SealedUnder(g: Aead.Gcm, key: Bytes, iv: Bytes, extra: Bytes, msg: Plain, seqNo: nat)
    requires Aead.Lawful(g) && |iv| == 4 && |extra| == 8 && seqNo < U64_LIMIT
    ensures var rec := Seal(g, key, iv + extra, msg, seqNo);
            var nonce := iv + rec.body[..8];
            var ct := g.encipher(key, nonce, msg.payload);
            && rec.typ == msg.typ && rec.version == msg.version
            && FromBigEndian(XorBytes(rec.body[..8], extra)) == seqNo
            && rec.body == rec.body[..8] + ct + g.tag(key, nonce, Aad(seqNo, msg.typ, msg.version, |msg.payload|), ct)
  {
    SealFields(g, key, iv + extra, msg, seqNo);
    NonceIs(iv + extra, seqNo);
    var rec, nonce := Seal(g, key, iv + extra, msg, seqNo), Nonce(iv + extra, seqNo);
    assert (iv + extra)[..4] == iv && (iv + extra)[4..] == extra;
    assert rec.body[..8] == nonce[4..];
  }

  /** Opening a sealed record gives the message back, for every message, key, IV and number. */
  lemma RoundTrip(g: Aead.Gcm, key: Bytes, iv: Bytes, extra: Bytes, msg: Plain, seqNo: nat)
    requires Aead.Lawful(g) && Aead.ValidKey(key) && |iv| == 4 && |extra| == 8 && seqNo < U64_LIMIT
    ensures Open(g, key, iv, Seal(g, key, iv + extra, msg, seqNo), seqNo) == Ok(msg)
  {
    SealFields(g, key, iv + extra, msg, seqNo);
    assert (iv + extra)[..4] == iv;
  }

  /** The records that open to `msg` under the sender's nonce are exactly the sealed one. */
  lemma OpensExactlySealed(g: Aead.Gcm, key: Bytes, fullIv: Bytes, rec: Opaque, msg: Plain, seqNo: nat)
    requires Aead.Lawful(g) && Aead.ValidKey(key) && |fullIv| == 12 && seqNo < U64_LIMIT
    ensures rec == Seal(g, key, fullIv, msg, seqNo)
            <==> && Open(g, key, fullIv[..4], rec, seqNo) == Ok(msg)
                 && rec.body[..8] == Nonce(fullIv, seqNo)[4..]
  {
    if rec == Seal(g, key, fullIv, msg, seqNo) {
      RoundTrip(g, key, fullIv[..4], fullIv[4..], msg, seqNo);
      assert fullIv[..4] + fullIv[4..] == fullIv;
      SealFields(g, key, fullIv, msg, seqNo);
    }
    if Open(g, key, fullIv[..4], rec, seqNo) == Ok(msg) && rec.body[..8] == Nonce(fullIv, seqNo)[4..] {
      var nonce := Nonce(fullIv, seqNo);
      assert fullIv[..4] + rec.body[..8] == nonce;
      var ct := rec.body[8..|rec.body| - 16];
      assert g.encipher(key, nonce, msg.payload) == ct;
      assert rec.body == rec.body[..8] + ct + rec.body[|rec.body| - 16..];
    }
  }

  /** Over any run of one encrypter with distinct sequence numbers, the nonces are distinct, and
      so are the explicit nonces at the front of the record bodies. */
  lemma NoncesNeverRepeat(g: Aead.Gcm, key: Bytes, fullIv: Bytes, msgs: seq<Plain>, seqNos: seq<nat>)
    requires |fullIv| == 12 && |msgs| == |seqNos| && Ordering.Distinct(seqNos)
    requires forall i :: 0 <= i < |seqNos| ==> seqNos[i] < U64_LIMIT
    ensures forall i, j :: 0 <= i < j < |seqNos| ==>
              && Nonce(fullIv, seqNos[i]) != Nonce(fullIv, seqNos[j])
              && Seal(g, key, fullIv, msgs[i], seqNos[i]).body[..8]
                 != Seal(g, key, fullIv, msgs[j], seqNos[j]).body[..8]
  {
    forall i, j | 0 <= i < j < |seqNos|
      ensures Nonce(fullIv, seqNos[i]) != Nonce(fullIv, seqNos[j])
      ensures Seal(g, key, fullIv, msgs[i], seqNos[i]).body[..8]
           != Seal(g, key, fullIv, msgs[j], seqNos[j]).body[..8]
    {
      var m, n := Nonce(fullIv, seqNos[i]), Nonce(fullIv, seqNos[j]);
      if m[4..] == n[4..] {
        NonceInjective(fullIv, seqNos[i], seqNos[j]);
      }
      assert Seal(g, key, fullIv, msgs[i], seqNos[i]).body[..8] == m[4..];
      assert Seal(g, key, fullIv, msgs[j], seqNos[j]).body[..8] == n[4..];
    }
  }

  // ----- tls12.rs -----------------------------------------------------------------------------

  class Encrypter {
    const key: Bytes
    const fullIv: Bytes

    /** The nonce template is implicit_iv(4) || extra(8); other lengths abort in the source. */
    constructor (key: Bytes, iv: Bytes, extra: Bytes)
      requires |iv| == IMPLICIT_IV_LEN && |extra| == EXPLICIT_NONCE_LEN
      ensures this.key == key && fullIv == iv + extra
    {
      this.key := key;
      fullIv := iv + extra;
    }

    method DeriveNonce(seqNo: nat) returns (nonce: array<byte>)
      requires |fullIv| == 12 && seqNo < U64_LIMIT
      ensures fresh(nonce) && nonce[..] == Nonce(fullIv, seqNo) && NonceFor(fullIv, seqNo, nonce[..])
    {
      NonceIs(fullIv, seqNo);
      nonce := new byte[12](i requires 0 <= i < 12 => fullIv[i]);
      var seqBe := BigEndian(seqNo, 8);
      for i := 0 to EXPLICIT_NONCE_LEN
        invariant forall k :: 0 <= k < 12 ==>
                    nonce[k] == if 4 <= k < 4 + i then Xor(fullIv[k], seqBe[k - 4]) else fullIv[k]
      {
        nonce[IMPLICIT_IV_LEN + i] := Xor(nonce[IMPLICIT_IV_LEN + i], seqBe[i]);
      }
    }

    /** The sealed record, or an error if the key has the wrong length or a library call fails. */
    method Encrypt(g: Aead.Gcm, msg: Plain, seqNo: nat, calls: Aead.Calls) returns (r: Result<Opaque, RecordError>)
      requires Aead.Lawful(g) && |fullIv| == 12 && seqNo < U64_LIMIT
      ensures r == if Aead.ValidKey(key) && !Aead.Broken(calls, true, msg.payload != [])
                   then Ok(Seal(g, key, fullIv, msg, seqNo)) else Err(GeneralError)
    {
      var nonceBuf := DeriveNonce(seqNo);
      var nonce := nonceBuf[..];
      var aad := Aad(seqNo, msg.typ, msg.version, |msg.payload|);
      var ct := new byte[|msg.payload|];
      if Aead.ValidKey(key) {
        Aead.FailsIffBroken(calls, key, nonce, aad, |msg.payload|, |msg.payload|);
      }
      var sealed := Aead.Encrypt(g, key, nonce, aad, msg.payload, ct, calls);
      if sealed.Err? {
        return Err(GeneralError);
      }
      assert ct[..] == g.encipher(key, nonce, msg.payload);
      var payload: Bytes := nonce[IMPLICIT_IV_LEN..];
      payload := payload + ct[..];
      payload := payload + sealed.value;
      return Ok(Opaque(msg.typ, msg.version, payload));
    }
  }

  class Decrypter {
    const key: Bytes
    const implicitIv: Bytes

    constructor (key: Bytes, iv: Bytes)
      requires |iv| == IMPLICIT_IV_LEN
      ensures this.key == key && implicitIv == iv
    {
      this.key := key;
      implicitIv := iv;
    }

    /** Decrypts in place: on success the first `r.value` bytes of `payload` are the plaintext,
        on an error of any kind the buffer is unchanged. */
    method Decrypt(g: Aead.Gcm, typ: byte, version: (byte, byte), payload: array<byte>, seqNo: nat, calls: Aead.Calls)
      returns (r: Result<nat, RecordError>)
      requires Aead.Lawful(g) && |implicitIv| == 4 && seqNo < U64_LIMIT
      modifies payload
      ensures Aead.Broken(calls, true, payload.Length > EXPLICIT_NONCE_LEN + TAG_LEN)
              ==> r == Err(DecryptError) && payload[..] == old(payload[..])
      ensures !Aead.Broken(calls, true, payload.Length > EXPLICIT_NONCE_LEN + TAG_LEN) ==>
              match old(Open(g, key, implicitIv, Opaque(typ, version, payload[..]), seqNo))
              case Err(e) => r == Err(e) && payload[..] == old(payload[..])
              case Ok(p) =>
                && r == Ok(|p.payload|)
                && p.typ == typ && p.version == version
                && |p.payload| + EXPLICIT_NONCE_LEN + TAG_LEN == payload.Length
                && payload[..] == p.payload + old(payload[|p.payload|..])
    {
      if payload.Length < EXPLICIT_NONCE_LEN + TAG_LEN {
        return Err(DecryptError);
      }
      ghost var body := payload[..];
      var ctLen := payload.Length - EXPLICIT_NONCE_LEN - TAG_LEN;
      var nonce := implicitIv + payload[..EXPLICIT_NONCE_LEN];
      var aad := Aad(seqNo, typ, version, ctLen);
      var tagStart := payload.Length - TAG_LEN;
      var tag := payload[tagStart..];
      var ct := payload[EXPLICIT_NONCE_LEN..tagStart];
      assert tag == body[|body| - TAG_LEN..] && ct == body[EXPLICIT_NONCE_LEN..|body| - TAG_LEN];
      assert nonce == implicitIv + body[..EXPLICIT_NONCE_LEN];
      var pt := new byte[ctLen];
      if Aead.ValidKey(key) {
        Aead.FailsIffBroken(calls, key, nonce, aad, |ct|, |ct|);
      }
      var verdict := Aead.Decrypt(g, key, nonce, aad, ct, pt, tag, calls);
      if verdict.Err? {
        return Err(DecryptError);
      }
      assert pt[..] == g.decipher(key, nonce, ct);
      CopyInto(payload, 0, pt[..]);
      return Ok(ctLen);
    }
  }

  /** Both objects together, through their buffers: what was encrypted comes back in place. */
  method SendAndReceive(g: Aead.Gcm, key: Bytes, iv: Bytes, extra: Bytes, msg: Plain, seqNo: nat, calls: Aead.Calls)
    returns (r: Result<Plain, RecordError>)
    requires Aead.Lawful(g) && Aead.ValidKey(key) && |iv| == 4 && |extra| == 8 && seqNo < U64_LIMIT
    ensures r == if Aead.Broken(calls, true, msg.payload != []) then Err(GeneralError) else Ok(msg)
  {
    var sender := new Encrypter(key, iv, extra);
    var receiver := new Decrypter(key, iv);
    var sealed := sender.Encrypt(g, msg, seqNo, calls);
    if sealed.Err? {
      return Err(sealed.error);
    }
    var body := sealed.value.body;
    var buffer := new byte[|body|](i requires 0 <= i < |body| => body[i]);
    assert buffer[..] == body;
    SealFields(g, key, iv + extra, msg, seqNo);
    RoundTrip(g, key, iv, extra, msg, seqNo);
    var verdict := receiver.Decrypt(g, sealed.value.typ, sealed.value.version, buffer, seqNo, calls);
    r := Ok(Plain(sealed.value.typ, sealed.value.version, buffer[..verdict.value]));
  }
}
