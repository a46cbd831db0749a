/**
 HKDF (libs/rustls-corecrypto-provider/src/hkdf.rs): extract, and expand with its u8 counter,
 against section 2 of RFC 5869.
 */
module Hkdf {
  import opened Bytes
  import opened Common
  import opened Sha2
  import opened Hmac

  datatype OutputLengthError = OutputLengthError

  // ----- Reference: section 2.3 of RFC 5869 ---------------------------------------------------

  /** T(0) is empty; T(i) = HMAC(PRK, T(i-1) || info || i). */
  function T(alg: Alg, prk: Bytes, info: Bytes, i: nat): (t: Bytes)
    requires Valid(alg) && i < 256
    ensures |t| == if i == 0 then 0 else alg.digestLen
  {
    if i == 0 then [] else Mac(alg, prk, T(alg, prk, info, i - 1) + info + [i])
  }

  /** What is signed: the info and the byte 1 for the first block; for every other one the block before it, the
      info and its number. */
  lemma BlockIs(alg: Alg, prk: Bytes, info: Bytes, i: nat)
    requires Valid(alg) && 1 <= i < 256
    ensures i == 1 ==> T(alg, prk, info, i) == Mac(alg, prk, info + [1])
    ensures i > 1 ==> T(alg, prk, info, i) == Mac(alg, prk, T(alg, prk, info, i - 1) + info + [i])
  {
    hide Mac;
    if i == 1 {
      assert [] + info + [1] == info + [1];
    }
  }

  /** The length of `n` blocks. */
  function Span(alg: Alg, n: nat): nat {
    if n == 0 then 0 else Span(alg, n - 1) + alg.digestLen
  }

  lemma {:induction false} SpanIsProduct(alg: Alg, n: nat)
    ensures Span(alg, n) == n * alg.digestLen
  {
    if n > 0 {
      SpanIsProduct(alg, n - 1);
    }
  }

  lemma {:induction false} SpanMonotone(alg: Alg, m: nat, n: nat)
    requires m <= n
    ensures Span(alg, m) <= Span(alg, n)
  {
    if m < n {
      SpanMonotone(alg, m, n - 1);
    }
  }

  /** T(1) || ... || T(n). */
  function Stream(alg: Alg, prk: Bytes, info: Bytes, n: nat): (s: Bytes)
    requires Valid(alg) && n < 256
    ensures |s| == Span(alg, n)
  {
    if n == 0 then [] else Stream(alg, prk, info, n - 1) + T(alg, prk, info, n)
  }

  /** The least n with n * HashLen >= len. */
  function Blocks(alg: Alg, len: nat): nat
    requires Valid(alg)
  {
    if len == 0 then 0
    else if len <= alg.digestLen then 1
    else 1 + Blocks(alg, len - alg.digestLen)
  }

  lemma {:induction false} BlocksBound(alg: Alg, len: nat, n: nat)
    requires Valid(alg)
    ensures Blocks(alg, len) <= n <==> len <= Span(alg, n)
    decreases n
  {
    if len > alg.digestLen && n > 0 {
      BlocksBound(alg, len - alg.digestLen, n - 1);
    }
  }

  /** Output keying material: the first `len` bytes of the stream. */
  function Okm(alg: Alg, prk: Bytes, info: Bytes, len: nat): (o: Bytes)
    requires Valid(alg) && len <= 255 * alg.digestLen
    ensures |o| == len
  {
    SpanIsProduct(alg, 255);
    BlocksBound(alg, len, 255);
    BlocksBound(alg, len, Blocks(alg, len));
    Stream(alg, prk, info, Blocks(alg, len))[..len]
  }

  lemma {:induction false} StreamPrefix(alg: Alg, prk: Bytes, info: Bytes, m: nat, n: nat)
    requires Valid(alg) && m <= n < 256
    ensures Stream(alg, prk, info, m) <= Stream(alg, prk, info, n)
    decreases n - m
  {
    if m < n {
      StreamPrefix(alg, prk, info, m, n - 1);
    }
  }

  /** Okm is a prefix of the stream of any number of blocks long enough to hold it. */
  lemma OkmOfStream(alg: Alg, prk: Bytes, info: Bytes, len: nat, n: nat)
    requires Valid(alg) && n < 256 && len <= Span(alg, n)
    ensures len <= 255 * alg.digestLen
    ensures Okm(alg, prk, info, len) == Stream(alg, prk, info, n)[..len]
  {
    SpanMonotone(alg, n, 255);
    SpanIsProduct(alg, 255);
    var m := Blocks(alg, len);
    BlocksBound(alg, len, n);
    BlocksBound(alg, len, m);
    StreamPrefix(alg, prk, info, m, n);
    var short, long := Stream(alg, prk, info, m), Stream(alg, prk, info, n);
    assert short == long[..|short|];
    assert short[..len] == long[..len];
  }

  /** The output, block by block: bytes of block `i` stand behind `i - 1` full blocks. */
  lemma OkmBlock(alg: Alg, prk: Bytes, info: Bytes, len: nat, i: nat)
    requires Valid(alg) && 1 <= i < 256 && len <= 255 * alg.digestLen && i * alg.digestLen <= len
    ensures (i - 1) * alg.digestLen + alg.digestLen == i * alg.digestLen
    ensures Okm(alg, prk, info, len)[(i - 1) * alg.digestLen..i * alg.digestLen] == T(alg, prk, info, i)
  {
    hide T;
    hide Mac;
    SpanIsProduct(alg, i);
    SpanIsProduct(alg, i - 1);
    SpanIsProduct(alg, 255);
    OkmOfStream(alg, prk, info, len, 255);
    StreamPrefix(alg, prk, info, i, 255);
    var all, front := Stream(alg, prk, info, 255), Stream(alg, prk, info, i);
    assert front == all[..|front|];
    assert front == Stream(alg, prk, info, i - 1) + T(alg, prk, info, i);
    assert all[..len][Span(alg, i - 1)..Span(alg, i)] == front[Span(alg, i - 1)..];
  }

  /** A shorter output is a prefix of a longer one. */
  lemma ShorterIsPrefix(alg: Alg, prk: Bytes, info: Bytes, m: nat, n: nat)
    requires Valid(alg) && m <= n <= 255 * alg.digestLen
    ensures Okm(alg, prk, info, m) <= Okm(alg, prk, info, n)
  {
    SpanIsProduct(alg, 255);
    OkmOfStream(alg, prk, info, m, 255);
    OkmOfStream(alg, prk, info, n, 255);
  }

  // ----- hkdf.rs ------------------------------------------------------------------------------

  /** The pseudo-random key; a missing salt stands for HashLen zero bytes. */
  method Extract(alg: Alg, salt: Option<Bytes>, secret: Bytes) returns (prk: Bytes)
    requires Valid(alg)
    ensures prk == Mac(alg, if salt.Some? then salt.value else Zeros(alg.digestLen), secret)
    // section 2.2 of RFC 5869: no salt, an all-zero salt and an empty salt agree
    ensures salt == None ==> prk == Mac(alg, [], secret)
  {
    var saltBytes := match salt case Some(s) => s case None => Zeros(alg.digestLen);
    var key := new HmacKey(alg, saltBytes);
    prk := key.Sign([secret]);
    ConcatSnoc([], secret);
    TrailingZerosDoNotMatter(alg, [], alg.digestLen, secret);
    assert [] + Zeros(alg.digestLen) == Zeros(alg.digestLen);
    assert [] + [secret] == [secret] && [] + secret == secret;
  }

  /** The slices signed for block i concatenate to T(i-1) || info || i. */
  lemma ChunksConcat(prev: Bytes, info: seq<Bytes>, counter: byte, chunks: seq<Bytes>)
    requires chunks == (if prev == [] then [] else [prev]) + info + [[counter]]
    ensures Concat(chunks) == prev + Concat(info) + [counter]
  {
    var front := if prev == [] then [] else [prev];
    ConcatSnoc(front + info, [counter]);
    ConcatAppend(front, info);
    ConcatSnoc([], prev);
    assert [] + [prev] == [prev] && [] + prev == prev;
  }

  /** One turn of the loop: sign T(i-1), the info slices and the counter byte. */
  method NextBlock(key: HmacKey, prev: Bytes, info: seq<Bytes>, counter: byte) returns (block: Bytes)
    requires key.Ok() && counter >= 1
    requires prev == T(key.alg, key.key, Concat(info), counter - 1)
    ensures block == T(key.alg, key.key, Concat(info), counter)
  {
    var chunks := (if prev == [] then [] else [prev]) + info + [[counter]];
    ChunksConcat(prev, info, counter, chunks);
    block := key.Sign(chunks);
  }

  /**
   Fills `output` in place, one block per turn.

   The guard admits L <= 255 * HashLen, but the wrap test after block 255 turns that last block
   into an error, so the call succeeds exactly when L <= 254 * HashLen. When the error comes
   from the wrap test the buffer already holds the right bytes; when it comes from the guard
   the buffer is untouched.
   */
  method Expand(alg: Alg, prk: Bytes, info: seq<Bytes>, output: array<byte>)
    returns (r: Result<(), OutputLengthError>)
    requires Valid(alg)
    modifies output
    ensures r.Ok? <==> output.Length <= 254 * alg.digestLen
    ensures output.Length <= 255 * alg.digestLen
            ==> output[..] == Okm(alg, prk, Concat(info), output.Length)
    ensures output.Length > 255 * alg.digestLen ==> output[..] == old(output[..])
  {
    hide Mac;
    var n := alg.digestLen;
    if output.Length > 255 * n {
      return Err(OutputLengthError);
    }
    ghost var context, blocks: nat := Concat(info), 0;
    var key := new HmacKey(alg, prk);
    var prev: Bytes := [];
    var written := 0;
    var counter: byte := 1;
    while written < output.Length
      invariant key.Ok() && key.alg == alg && key.key == prk && fresh(key)
      invariant counter == blocks + 1
      invariant prev == T(alg, prk, context, blocks)
      invariant written <= output.Length
      invariant Written(Stream(alg, prk, context, blocks), written, output[..])
      decreases output.Length - written
    {
      var block := NextBlock(key, prev, info, counter);
      blocks := blocks + 1;
      assert Stream(alg, prk, context, blocks) == Stream(alg, prk, context, blocks - 1) + block;
      written := Store(output, written, block, Stream(alg, prk, context, blocks - 1));
      prev := block;
      counter := if counter == 255 then 0 else counter + 1;  // wrapping_add(1)
      if counter == 0 {
        SpanIsProduct(alg, 254);
        WrittenAll(alg, prk, context, blocks, written, output[..]);
        return Err(OutputLengthError);
      }
    }
    SpanMonotone(alg, blocks, 254);
    SpanIsProduct(alg, 254);
    WrittenAll(alg, prk, context, blocks, written, output[..]);
    r := Ok(());
  }

  /** The buffer's first `written` bytes are the stream's; unless full, the whole stream is in. */
  ghost predicate Written(stream: Bytes, written: nat, output: Bytes) {
    && written <= |output|
    && written <= |stream|
    && output[..written] == stream[..written]
    && (written < |output| ==> written == |stream|)
  }

  /** Copies as much of `block` as fits and moves the write position past it. */
  method Store(output: array<byte>, written: nat, block: Bytes, ghost stream: Bytes) returns (next: nat)
    requires written < output.Length && Written(stream, written, output[..])
    modifies output
    ensures next == if written + |block| < output.Length then written + |block| else output.Length
    ensures Written(stream + block, next, output[..])
  {
    var take := if |block| < output.Length - written then |block| else output.Length - written;
    CopyInto(output, written, block[..take]);
    next := written + take;
  }

  /** A full buffer holds the output keying material, and its length is bounded by its blocks. */
  lemma WrittenAll(alg: Alg, prk: Bytes, info: Bytes, blocks: nat, written: nat, output: Bytes)
    requires Valid(alg) && blocks < 256 && written == |output|
    requires Written(Stream(alg, prk, info, blocks), written, output)
    ensures |output| <= Span(alg, blocks) && |output| <= 255 * alg.digestLen
    ensures output == Okm(alg, prk, info, |output|)
  {
    assert output == output[..|output|];
    OkmOfStream(alg, prk, info, |output|, blocks);
  }

  /** The longest output RFC 5869 allows: all of it is computed, and then refused. */
  method ExpandLongest(alg: Alg, prk: Bytes, info: seq<Bytes>)
    returns (r: Result<(), OutputLengthError>, filled: Bytes)
    requires Valid(alg)
    ensures r.Err? && filled == Okm(alg, prk, Concat(info), 255 * alg.digestLen)
  {
    assert 255 * alg.digestLen == 254 * alg.digestLen + alg.digestLen;
    var buf := new byte[255 * alg.digestLen];
    r := Expand(alg, prk, info, buf);
    filled := buf[..];
  }

  /** `expand_block`: exactly one hash length, which never hits the limit and is T(1). */
  method ExpandBlock(alg: Alg, prk: Bytes, info: seq<Bytes>) returns (block: Bytes)
    requires Valid(alg)
    ensures block == T(alg, prk, Concat(info), 1) == Mac(alg, prk, Concat(info) + [1])
  {
    BlockIs(alg, prk, Concat(info), 1);
    var buf := new byte[alg.digestLen];
    var r := Expand(alg, prk, info, buf);
    assert Stream(alg, prk, Concat(info), 1) == T(alg, prk, Concat(info), 1);
    assert r.Ok?;
    block := buf[..];
  }
}
