/** What TLS 1.2 and TLS 1.3 records share: per-record nonces and record-layer messages. */
module Records {
  import opened Bytes

  /** A record in the clear: content type, protocol version, payload. */
  datatype Plain = Plain(typ: byte, version: (byte, byte), payload: Bytes)

  /** A protected record as it goes on the wire, without the five header bytes. */
  datatype Opaque = Opaque(typ: byte, version: (byte, byte), body: Bytes)

  datatype RecordError = DecryptError | GeneralError | PeerSentOversizedRecord | IllegalInnerPlaintext

  /** The two length bytes of associated data: the length is cast to u16. */
  function LengthField(len: nat): Bytes {
    BigEndian(len, 2)
  }

  /** The template with the big-endian sequence number XORed into its last eight bytes. */
  function Nonce(template: Bytes, seqNo: nat): (n: Bytes)
    requires |template| == 12 && seqNo < U64_LIMIT
    ensures |n| == 12
  {
    template[..4] + XorBytes(template[4..], BigEndian(seqNo, 8))
  }

  /** The first four bytes are the template's; XOR with the rest of the template gives the sequence number. */
  ghost predicate NonceFor(template: Bytes, seqNo: nat, nonce: Bytes)
    requires |template| == 12
  {
    |nonce| == 12 && nonce[..4] == template[..4] && FromBigEndian(XorBytes(nonce[4..], template[4..])) == seqNo
  }

  lemma NonceIs(template: Bytes, seqNo: nat)
    requires |template| == 12 && seqNo < U64_LIMIT
    ensures NonceFor(template, seqNo, Nonce(template, seqNo))
  {
    var tail, digits := template[4..], BigEndian(seqNo, 8);
    assert Nonce(template, seqNo)[4..] == XorBytes(tail, digits);
    UnmaskedAgain(tail, digits);
    U64Digits();
    BigEndianRoundTrip(seqNo, 8);
  }

  lemma UnmaskedAgain(mask: Bytes, s: Bytes)
    requires |mask| == |s|
    ensures XorBytes(XorBytes(mask, s), mask) == s
  {
    forall i | 0 <= i < |s|
      ensures Xor(Xor(mask[i], s[i]), mask[i]) == s[i]
    {
      XorBitsCommutes(mask[i], s[i], 8);
      XorInvolutive(s[i], mask[i]);
    }
  }

  /** Distinct sequence numbers give distinct nonces, already in their last eight bytes. */
  lemma NonceInjective(template: Bytes, m: nat, n: nat)
    requires |template| == 12 && m < U64_LIMIT && n < U64_LIMIT
    requires Nonce(template, m)[4..] == Nonce(template, n)[4..]
    ensures m == n
  {
    assert Nonce(template, m)[4..] == XorBytes(template[4..], BigEndian(m, 8));
    assert Nonce(template, n)[4..] == XorBytes(template[4..], BigEndian(n, 8));
    XorBytesInjective(template[4..], BigEndian(m, 8), BigEndian(n, 8));
    U64BytesInjective(m, n);
  }
}
