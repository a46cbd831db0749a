/**
 Keyed HMAC objects (libs/rustls-corecrypto-provider/src/hmac.rs) over the SHA-2 contexts.

 The library context is the inner hash state after the masked key block, together with the
 outer key block; a signing call works on a copy of it. The reference is section 2 of RFC 2104.
 */
module Hmac {
  import opened Bytes
  import opened Sha2

  /** The key as one block: hashed when longer than a block, then zero-filled on the right. */
  function KeyBlock(alg: Alg, key: Bytes): (k: Bytes)
    requires Valid(alg)
    ensures |k| == alg.blockLen
  {
    var short := if |key| > alg.blockLen then Hash(alg, key) else key;
    short + Zeros(alg.blockLen - |short|)
  }

  function Mask(k: Bytes, m: byte): (r: Bytes)
    ensures |r| == |k|
  {
    seq(|k|, i requires 0 <= i < |k| => Xor(k[i], m))
  }

  const IPAD: byte := 0x36
  const OPAD: byte := 0x5c

  /** HMAC(K, m) = H(K xor opad || H(K xor ipad || m)). */
  function Mac(alg: Alg, key: Bytes, m: Bytes): (t: Bytes)
    requires Valid(alg)
    ensures |t| == alg.digestLen
  {
    var k := KeyBlock(alg, key);
    Hash(alg, Mask(k, OPAD) + Hash(alg, Mask(k, IPAD) + m))
  }

  /** Byte `i` of the key as one block. */
  function KeyByte(alg: Alg, key: Bytes, i: nat): byte
    requires Valid(alg)
  {
    if |key| <= alg.blockLen then (if i < |key| then key[i] else 0)
    else if i < alg.digestLen then Hash(alg, key)[i] else 0
  }

  /** Section 2 of RFC 2104, byte by byte: the outer block is the key XOR 0x5c, the inner one the key XOR 0x36. */
  lemma MacIs(alg: Alg, key: Bytes, m: Bytes, outer: Bytes, inner: Bytes)
    requires Valid(alg) && |outer| == |inner| == alg.blockLen
    requires forall i :: 0 <= i < alg.blockLen ==> outer[i] == Xor(KeyByte(alg, key, i), 0x5c)
    requires forall i :: 0 <= i < alg.blockLen ==> inner[i] == Xor(KeyByte(alg, key, i), 0x36)
    ensures Mac(alg, key, m) == Hash(alg, outer + Hash(alg, inner + m))
  {
    hide Hash;
    hide Xor;
    var k := KeyBlock(alg, key);
    assert forall i :: 0 <= i < alg.blockLen ==> k[i] == KeyByte(alg, key, i);
    assert Mask(k, OPAD) == outer && Mask(k, IPAD) == inner;
  }

  // ----- The library's streaming calls ------------------------------------------------------

  datatype MacCtx = MacCtx(inner: Ctx, outerKey: Bytes)

  function MacInit(alg: Alg, key: Bytes): (c: MacCtx)
    requires Valid(alg)
    ensures |c.inner.buffer| < alg.blockLen
  {
    var k := KeyBlock(alg, key);
    MacCtx(Absorb(alg, Init(alg), Mask(k, IPAD)), Mask(k, OPAD))
  }

  function MacUpdate(alg: Alg, c: MacCtx, data: Bytes): (r: MacCtx)
    requires |c.inner.buffer| < alg.blockLen
    ensures |r.inner.buffer| < alg.blockLen
  {
    c.(inner := Absorb(alg, c.inner, data))
  }

  function MacFinal(alg: Alg, c: MacCtx): Bytes
    requires Valid(alg) && |c.inner.buffer| < alg.blockLen
  {
    Final(alg, Absorb(alg, Absorb(alg, Init(alg), c.outerKey), Final(alg, c.inner)))
  }

  /** The context reached from the keyed template by feeding it `m` in any pieces. */
  ghost predicate Fed(alg: Alg, key: Bytes, c: MacCtx, m: Bytes)
    requires Valid(alg)
  {
    && |c.inner.buffer| < alg.blockLen
    && c == MacUpdate(alg, MacInit(alg, key), m)
  }

  lemma FedMore(alg: Alg, key: Bytes, c: MacCtx, m: Bytes, more: Bytes)
    requires Valid(alg) && Fed(alg, key, c, m)
    ensures Fed(alg, key, MacUpdate(alg, c, more), m + more)
  {
    AbsorbAppend(alg, MacInit(alg, key).inner, m, more);
  }

  /** Streaming refines RFC 2104: the final call returns the MAC of all bytes fed. */
  lemma MacFinalIsMac(alg: Alg, key: Bytes, c: MacCtx, m: Bytes)
    requires Valid(alg) && Fed(alg, key, c, m)
    ensures MacFinal(alg, c) == Mac(alg, key, m)
  {
    var k := KeyBlock(alg, key);
    AbsorbAppend(alg, Init(alg), Mask(k, IPAD), m);
    FinalIsHash(alg, Mask(k, IPAD) + m);
    var innerHash := Final(alg, c.inner);
    AbsorbAppend(alg, Init(alg), Mask(k, OPAD), innerHash);
    FinalIsHash(alg, Mask(k, OPAD) + innerHash);
  }

  /** Keys that differ only by trailing zeros within one block are the same HMAC key. */
  lemma TrailingZerosDoNotMatter(alg: Alg, key: Bytes, n: nat, m: Bytes)
    requires Valid(alg) && |key| + n <= alg.blockLen
    ensures Mac(alg, key + Zeros(n), m) == Mac(alg, key, m)
  {
    assert KeyBlock(alg, key + Zeros(n)) == KeyBlock(alg, key);
  }

  // ----- HmacKey -----------------------------------------------------------------------------

  /** Width of the stack buffer a digest is written to before it is cut to the tag length. */
  const MAX_HMAC_DIGEST: nat := 64

  /** One signing request: the three argument groups of `sign_concat`. */
  datatype Request = Request(first: Bytes, middle: seq<Bytes>, last: Bytes)

  class HmacKey {
    const alg: Alg
    const tagLen: nat
    var template: MacCtx
    ghost var key: Bytes

    /** The template is the freshly keyed context, never one that has seen message bytes. */
    ghost predicate Ok()
      reads this
    {
      && Valid(alg)
      && tagLen == alg.digestLen
      && template == MacInit(alg, key)
    }

    constructor (alg: Alg, key: Bytes)
      requires Valid(alg)
      ensures Ok() && this.alg == alg && this.key == key
    {
      this.alg := alg;
      this.tagLen := alg.digestLen;
      template := MacInit(alg, key);
      this.key := key;
    }

    /** Signs first || middle... || last. The object is not modified, so a key can sign again;
        the tag does not depend on how the message is cut or on empty pieces. */
    method SignConcat(first: Bytes, middle: seq<Bytes>, last: Bytes) returns (tag: Bytes)
      requires Ok()
      ensures tag == Mac(alg, key, first + Concat(middle) + last)
    {
      var ctx := template;
      var out := Zeros(MAX_HMAC_DIGEST);
      assert ctx.inner == Absorb(alg, ctx.inner, []) by {
        assert ctx.inner.buffer + [] == ctx.inner.buffer;
      }
      ghost var fed: Bytes := [];
      if first != [] {
        FedMore(alg, key, ctx, fed, first);
        ctx := MacUpdate(alg, ctx, first);
        fed := fed + first;
      }
      assert fed == first + Concat(middle[..0]);
      for i := 0 to |middle|
        invariant Fed(alg, key, ctx, fed)
        invariant fed == first + Concat(middle[..i])
      {
        assert middle[..i + 1] == middle[..i] + [middle[i]];
        ConcatSnoc(middle[..i], middle[i]);
        if middle[i] == [] {
          continue;
        }
        FedMore(alg, key, ctx, fed, middle[i]);
        ctx := MacUpdate(alg, ctx, middle[i]);
        fed := fed + middle[i];
      }
      assert middle[..|middle|] == middle;
      if last != [] {
        FedMore(alg, key, ctx, fed, last);
        ctx := MacUpdate(alg, ctx, last);
        fed := fed + last;
      }
      assert fed == first + Concat(middle) + last;
      MacFinalIsMac(alg, key, ctx, fed);
      var digest := MacFinal(alg, ctx);
      out := digest + out[|digest|..];
      tag := out[..tagLen];
    }

    /** The default `sign`: every slice goes into the middle. */
    method Sign(chunks: seq<Bytes>) returns (tag: Bytes)
      requires Ok()
      ensures tag == Mac(alg, key, Concat(chunks))
    {
      tag := SignConcat([], chunks, []);
      assert [] + Concat(chunks) + [] == Concat(chunks);
    }

    /** A key is a pure function over its whole life: the i-th tag of any run of requests is the
        MAC of the i-th message, whatever was signed before it. */
    method SignAll(requests: seq<Request>) returns (tags: seq<Bytes>)
      requires Ok()
      ensures |tags| == |requests|
      ensures forall i :: 0 <= i < |tags| ==>
                tags[i] == Mac(alg, key, requests[i].first + Concat(requests[i].middle) + requests[i].last)
    {
      tags := [];
      for i := 0 to |requests|
        invariant |tags| == i
        invariant forall j :: 0 <= j < i ==>
                    tags[j] == Mac(alg, key, requests[j].first + Concat(requests[j].middle) + requests[j].last)
      {
        var tag := SignConcat(requests[i].first, requests[i].middle, requests[i].last);
        tags := tags + [tag];
      }
    }
  }
}
