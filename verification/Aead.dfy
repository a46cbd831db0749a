/**
 AES-GCM at the level of caller buffers (libs/rustls-corecrypto-provider/src/aead.rs).

 The cipher itself is a parameter: a keystream transform in each direction and an
 authentication tag computed over the associated data and the ciphertext.
 */
module Aead {
  import opened Bytes
  import opened Common

  const NONCE_LEN: nat := 12
  const TAG_LEN: nat := 16
  const AES128_KEY_LEN: nat := 16
  const AES256_KEY_LEN: nat := 32

  /** The cipher operations: key, nonce and text (and associated data for the tag). */
  datatype Gcm = Gcm(
    encipher: (Bytes, Bytes, Bytes) -> Bytes,
    decipher: (Bytes, Bytes, Bytes) -> Bytes,
    tag: (Bytes, Bytes, Bytes, Bytes) -> Bytes)

  /** What GCM guarantees: both directions keep the length and undo each other; tags have 16 bytes. */
  ghost predicate Lawful(g: Gcm) {
    && (forall k: Bytes, n: Bytes, p: Bytes :: |g.encipher(k, n, p)| == |p|)
    && (forall k: Bytes, n: Bytes, c: Bytes :: |g.decipher(k, n, c)| == |c|)
    && (forall k: Bytes, n: Bytes, p: Bytes :: g.decipher(k, n, g.encipher(k, n, p)) == p)
    && (forall k: Bytes, n: Bytes, c: Bytes :: g.encipher(k, n, g.decipher(k, n, c)) == c)
    && (forall k: Bytes, n: Bytes, a: Bytes, c: Bytes :: |g.tag(k, n, a, c)| == TAG_LEN)
  }

  datatype AeadError =
    | CommonCrypto(status: int)
    | OutputTooSmall(needed: nat, have: nat)
    | InvalidKeyLen(keyLen: nat)
    | InvalidNonceLen(nonceLen: nat)
    | TagMismatch

  const SUCCESS: int := 0
  const PARAM_ERROR: int := -4300
  const UNSPECIFIED_ERROR: int := -4308

  /** How the library calls of one operation turn out: their status codes, whether an update moved all bytes
      and what it left in the output if it failed, and whether the tag came out at full length. */
  datatype Calls = Calls(create: int, addIv: int, addAad: int, update: int, allMoved: bool, partial: Bytes,
                         final: int, fullTag: bool)

  predicate ValidKey(key: Bytes) {
    |key| == AES128_KEY_LEN || |key| == AES256_KEY_LEN
  }

  /** A call that is made fails; the calls for empty associated data and for empty input are not made. */
  predicate Broken(calls: Calls, withAad: bool, withInput: bool) {
    || calls.create != SUCCESS || calls.addIv != SUCCESS || (withAad && calls.addAad != SUCCESS)
    || (withInput && (calls.update != SUCCESS || !calls.allMoved))
    || calls.final != SUCCESS || !calls.fullTag
  }

  /** What goes wrong before any byte is written, in the order of the checks. */
  function SetupError(calls: Calls, key: Bytes, iv: Bytes, aad: Bytes, inputLen: nat, outputLen: nat)
    : Option<AeadError>
  {
    if !ValidKey(key) then Some(InvalidKeyLen(|key|))
    else if |iv| != NONCE_LEN then Some(InvalidNonceLen(|iv|))
    else if calls.create != SUCCESS then Some(CommonCrypto(calls.create))
    else if calls.addIv != SUCCESS then Some(CommonCrypto(calls.addIv))
    else if aad != [] && calls.addAad != SUCCESS then Some(CommonCrypto(calls.addAad))
    else if outputLen < inputLen then Some(OutputTooSmall(inputLen, outputLen))
    else None
  }

  function UpdateError(calls: Calls, inputLen: nat): Option<AeadError> {
    if inputLen == 0 then None
    else if calls.update != SUCCESS then Some(CommonCrypto(calls.update))
    else if !calls.allMoved then Some(CommonCrypto(UNSPECIFIED_ERROR))
    else None
  }

  function FinalError(calls: Calls): Option<AeadError> {
    if calls.final != SUCCESS then Some(CommonCrypto(calls.final))
    else if !calls.fullTag then Some(CommonCrypto(PARAM_ERROR))
    else None
  }

  /** Which error comes first: key length, nonce length, the three set-up calls, the size of the output. */
  lemma SetupErrorIs(calls: Calls, key: Bytes, iv: Bytes, aad: Bytes, inputLen: nat, outputLen: nat)
    ensures var e := SetupError(calls, key, iv, aad, inputLen, outputLen);
            var sized := (|key| == 16 || |key| == 32) && |iv| == 12;
            var created := sized && calls.create == 0 && calls.addIv == 0;
            var ready := created && (aad == [] || calls.addAad == 0);
            && (|key| != 16 && |key| != 32 ==> e == Some(InvalidKeyLen(|key|)))
            && ((|key| == 16 || |key| == 32) && |iv| != 12 ==> e == Some(InvalidNonceLen(|iv|)))
            && (sized && calls.create != 0 ==> e == Some(CommonCrypto(calls.create)))
            && (sized && calls.create == 0 && calls.addIv != 0 ==> e == Some(CommonCrypto(calls.addIv)))
            && (created && aad != [] && calls.addAad != 0 ==> e == Some(CommonCrypto(calls.addAad)))
            && (ready && outputLen < inputLen ==> e == Some(OutputTooSmall(inputLen, outputLen)))
            && (ready && outputLen >= inputLen ==> e == None)
  {
  }

  /** The later errors: of an update with input, its status or else a short write; of the end, its status or else a
      short tag. */
  lemma LateErrorsAre(calls: Calls, inputLen: nat)
    ensures UpdateError(calls, inputLen).Some? <==> inputLen > 0 && (calls.update != 0 || !calls.allMoved)
    ensures inputLen > 0 && calls.update != 0 ==> UpdateError(calls, inputLen) == Some(CommonCrypto(calls.update))
    ensures inputLen > 0 && calls.update == 0 && !calls.allMoved
            ==> UpdateError(calls, inputLen) == Some(CommonCrypto(-4308))
    ensures calls.final != 0 ==> FinalError(calls) == Some(CommonCrypto(calls.final))
    ensures calls.final == 0 ==> FinalError(calls) == if calls.fullTag then None else Some(CommonCrypto(-4300))
  {
  }

  /** With arguments of the right sizes, an operation fails exactly when a call does. */
  lemma FailsIffBroken(calls: Calls, key: Bytes, iv: Bytes, aad: Bytes, inputLen: nat, outputLen: nat)
    requires ValidKey(key) && |iv| == NONCE_LEN && inputLen <= outputLen
    ensures Broken(calls, aad != [], inputLen > 0)
            <==> || SetupError(calls, key, iv, aad, inputLen, outputLen).Some?
                 || UpdateError(calls, inputLen).Some? || FinalError(calls).Some?
  {
  }

  /** A buffer whose front has been written over, as far as it goes. */
  function Over(front: Bytes, buffer: Bytes): (r: Bytes)
    ensures |r| == |buffer|
  {
    if |front| <= |buffer| then front + buffer[|front|..] else front[..|buffer|]
  }

  lemma OverAt(front: Bytes, buffer: Bytes, i: nat)
    requires i < |buffer|
    ensures Over(front, buffer)[i] == if i < |front| then front[i] else buffer[i]
  {
  }

  method CreateCryptor(key: Bytes, iv: Bytes, calls: Calls) returns (e: Option<AeadError>)
    ensures e == SetupError(calls, key, iv, [], 0, 0)
  {
    if |key| != AES128_KEY_LEN && |key| != AES256_KEY_LEN {
      return Some(InvalidKeyLen(|key|));
    }
    if |iv| != NONCE_LEN {
      return Some(InvalidNonceLen(|iv|));
    }
    if calls.create != SUCCESS {
      return Some(CommonCrypto(calls.create));
    }
    if calls.addIv != SUCCESS {
      return Some(CommonCrypto(calls.addIv));
    }
    return None;
  }

  /** One update call: `text` is what the library makes of the whole input. */
  method RunUpdate(calls: Calls, input: Bytes, text: Bytes, out: array<byte>) returns (e: Option<AeadError>)
    requires |text| == |input|
    modifies out
    ensures out.Length < |input| ==> e == Some(OutputTooSmall(|input|, out.Length)) && out[..] == old(out[..])
    ensures out.Length >= |input| ==> e == UpdateError(calls, |input|)
    ensures out.Length >= |input| ==> out[..] == old(Over(if UpdateError(calls, |input|).Some? then calls.partial else text, out[..]))
  {
    if out.Length < |input| {
      return Some(OutputTooSmall(|input|, out.Length));
    }
    if input == [] {
      return None;
    }
    if calls.update != SUCCESS || !calls.allMoved {
      CopyInto(out, 0, if |calls.partial| <= out.Length then calls.partial else calls.partial[..out.Length]);
      return Some(CommonCrypto(if calls.update != SUCCESS then calls.update else UNSPECIFIED_ERROR));
    }
    CopyInto(out, 0, text);
    return None;
  }

  /** Enciphers into the front of `out`; bytes beyond the plaintext length are untouched. A failed update leaves
      what the library wrote, and an earlier failure nothing. */
  method Encrypt(g: Gcm, key: Bytes, iv: Bytes, aad: Bytes, plaintext: Bytes, out: array<byte>, calls: Calls)
    returns (r: Result<Bytes, AeadError>)
    requires Lawful(g)
    modifies out
    ensures var setup := SetupError(calls, key, iv, aad, |plaintext|, out.Length);
            var update, final := UpdateError(calls, |plaintext|), FinalError(calls);
            var ct := g.encipher(key, iv, plaintext);
            if setup.Some? then r == Err(setup.value) && out[..] == old(out[..])
            else if update.Some? then r == Err(update.value) && out[..] == old(Over(calls.partial, out[..]))
            else && out[..] == ct + old(out[|plaintext|..])
                 && r == if final.Some? then Err(final.value) else Ok(g.tag(key, iv, aad, ct))
  {
    var created := CreateCryptor(key, iv, calls);
    if created.Some? {
      return Err(created.value);
    }
    if aad != [] && calls.addAad != SUCCESS {
      return Err(CommonCrypto(calls.addAad));
    }
    var ct := g.encipher(key, iv, plaintext);
    var updated := RunUpdate(calls, plaintext, ct, out);
    if updated.Some? {
      return Err(updated.value);
    }
    var final := FinalError(calls);
    if final.Some? {
      return Err(final.value);
    }
    return Ok(g.tag(key, iv, aad, ct));
  }

  /** Deciphers into the front of `out`, then compares tags; on a mismatch that front part is overwritten with
      zeros. If the library cannot finish the tag, the text stays in the buffer. */
  method Decrypt(g: Gcm, key: Bytes, iv: Bytes, aad: Bytes, ciphertext: Bytes, out: array<byte>,
                 expectedTag: Bytes, calls: Calls)
    returns (r: Result<(), AeadError>)
    requires Lawful(g)
    modifies out
    ensures var setup := SetupError(calls, key, iv, aad, |ciphertext|, out.Length);
            var update, final := UpdateError(calls, |ciphertext|), FinalError(calls);
            var pt := g.decipher(key, iv, ciphertext);
            if setup.Some? then r == Err(setup.value) && out[..] == old(out[..])
            else if update.Some? then r == Err(update.value) && out[..] == old(Over(calls.partial, out[..]))
            else if final.Some? then r == Err(final.value) && out[..] == pt + old(out[|ciphertext|..])
            else if g.tag(key, iv, aad, ciphertext) == expectedTag then
              r == Ok(()) && out[..] == pt + old(out[|ciphertext|..])
            else r == Err(TagMismatch) && out[..] == Zeros(|ciphertext|) + old(out[|ciphertext|..])
  {
    var created := CreateCryptor(key, iv, calls);
    if created.Some? {
      return Err(created.value);
    }
    if aad != [] && calls.addAad != SUCCESS {
      return Err(CommonCrypto(calls.addAad));
    }
    var updated := RunUpdate(calls, ciphertext, g.decipher(key, iv, ciphertext), out);
    if updated.Some? {
      return Err(updated.value);
    }
    var final := FinalError(calls);
    if final.Some? {
      return Err(final.value);
    }
    var computed := g.tag(key, iv, aad, ciphertext);
    if computed == expectedTag {
      return Ok(());
    }
    CopyInto(out, 0, Zeros(|ciphertext|));
    return Err(TagMismatch);
  }

  // ----- The laws can be met ------------------------------------------------------------------

  function Shift(s: Bytes, amount: nat): (r: Bytes)
    ensures |r| == |s|
  {
    seq(|s|, i requires 0 <= i < |s| => (s[i] + amount) % 256)
  }

  /** A toy cipher: add one to every byte; its tag repeats the ciphertext length. */
  const TOY: Gcm := Gcm(
    (k: Bytes, n: Bytes, p: Bytes) => Shift(p, 1),
    (k: Bytes, n: Bytes, c: Bytes) => Shift(c, 255),
    (k: Bytes, n: Bytes, a: Bytes, c: Bytes) => BigEndian(|c|, TAG_LEN))

  /** Every theorem over lawful ciphers has an instance. */
  lemma ToyIsLawful()
    ensures Lawful(TOY)
  {
    forall k: Bytes, n: Bytes, s: Bytes
      ensures TOY.decipher(k, n, TOY.encipher(k, n, s)) == s
      ensures TOY.encipher(k, n, TOY.decipher(k, n, s)) == s
    {
      assert Shift(Shift(s, 1), 255) == s;
      assert Shift(Shift(s, 255), 1) == s;
    }
  }
}
