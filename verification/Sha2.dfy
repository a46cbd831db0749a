/**
 SHA-256 and SHA-384 hash contexts (libs/rustls-corecrypto-provider/src/hash.rs).

 The compression function is a parameter. Everything around it is modelled: the block buffer
 and chaining value of a context, the padding of sections 5.1.1 and 5.1.2 of FIPS 180-4, the
 cutting of one `update` into calls of at most u32::MAX bytes, and forks that copy a context.
 */
module Sha2 {
  import opened Bytes
  import opened Common

  /** A chaining value: the eight words carried from block to block. */
  type Chain = seq<int>

  /** One hash algorithm: block and length-field sizes, and the uninterpreted primitives. */
  datatype Alg = Alg(
    blockLen: nat,
    lengthLen: nat,
    digestLen: nat,
    initial: Chain,
    compress: (Chain, Bytes) -> Chain,
    digest: Chain -> Bytes)

  /** SHA-256 or SHA-384, with any compression function and any digest of the right width. */
  ghost predicate Valid(alg: Alg) {
    && (|| (alg.blockLen == 64 && alg.lengthLen == 8 && alg.digestLen == 32)
        || (alg.blockLen == 128 && alg.lengthLen == 16 && alg.digestLen == 48))
    && forall v: Chain :: |alg.digest(v)| == alg.digestLen
  }

  /** The sizes of FIPS 180-4: blocks of 64 bytes with an 8-byte length for SHA-256, of 128 with 16 for SHA-384. */
  lemma SizesAre(alg: Alg)
    requires Valid(alg)
    ensures alg.digestLen == 32 || alg.digestLen == 48
    ensures alg.digestLen == 32 ==> alg.blockLen == 64 && alg.lengthLen == 8
    ensures alg.digestLen == 48 ==> alg.blockLen == 128 && alg.lengthLen == 16
  {
  }

  // ----- Reference: the hash of one complete message -------------------------------------

  /** The remainder of `n` by `b`, by repeated subtraction. */
  function Rem(n: nat, b: nat): (r: nat)
    requires b > 0
    ensures r < b && r <= n
  {
    if n < b then n else Rem(n - b, b)
  }

  lemma {:induction false} RemIsMod(n: nat, b: nat)
    requires b > 0
    ensures Rem(n, b) == n % b
  {
    if n >= b {
      RemIsMod(n - b, b);
      ModAdd(n - b, b);
    }
  }

  lemma ModAdd(n: nat, b: nat)
    requires b > 0
    ensures (n + b) % b == n % b
  {
    var q, r, p, s := n / b, n % b, (n + b) / b, (n + b) % b;
    assert n == b * q + r && n + b == b * p + s;
    assert b * (p - q - 1) == b * p - b * q - b == r - s;
    LargeMultiple(b, p - q - 1);
  }

  /** A multiple of `b` is zero, or at least `b` away from it. */
  lemma LargeMultiple(b: nat, d: int)
    ensures d >= 1 ==> b * d >= b
    ensures d <= -1 ==> b * d + b <= 0
  {
  }

  lemma {:induction false} RemWhole(n: nat, b: nat)
    requires b > 0
    ensures Rem(n - Rem(n, b), b) == 0
  {
    if n >= b {
      RemWhole(n - b, b);
    }
  }

  lemma {:induction false} RemAdd(n: nat, x: nat, b: nat)
    requires b > 0
    ensures Rem(n + x, b) == Rem(Rem(n, b) + x, b)
  {
    if n >= b {
      RemAdd(n - b, x, b);
    }
  }

  /** Number of zero bytes between the 0x80 marker and the length field. */
  function ZeroCount(alg: Alg, len: nat): nat
    requires alg.blockLen > 0
  {
    var over := Rem(len + 1 + alg.lengthLen, alg.blockLen);
    if over == 0 then 0 else alg.blockLen - over
  }

  /** What follows a message of `len` bytes: marker, zeros, big-endian bit length. */
  function Padding(alg: Alg, len: nat): Bytes
    requires alg.blockLen > 0
  {
    [0x80] + Zeros(ZeroCount(alg, len)) + BigEndian(8 * len, alg.lengthLen)
  }

  /** The padded length is a whole number of blocks, with fewer than one block of zeros. */
  lemma PaddingCompletesBlock(alg: Alg, len: nat)
    requires alg.blockLen > 0
    ensures (len + |Padding(alg, len)|) % alg.blockLen == 0 && ZeroCount(alg, len) < alg.blockLen
  {
    RemIsMod(len + |Padding(alg, len)|, alg.blockLen);
    RemAdd(len + 1 + alg.lengthLen, ZeroCount(alg, len), alg.blockLen);
  }

  /** The padding, part by part: the byte 0x80, zeros, and the number of bits in the last bytes. */
  lemma PaddingIs(alg: Alg, len: nat)
    requires alg.blockLen > 0 && 8 * len < Pow256(alg.lengthLen)
    ensures var p := Padding(alg, len);
            && |p| > alg.lengthLen && p[0] == 0x80
            && (forall i :: 0 < i < |p| - alg.lengthLen ==> p[i] == 0)
            && FromBigEndian(p[|p| - alg.lengthLen..]) == 8 * len
  {
    BigEndianRoundTrip(8 * len, alg.lengthLen);
    var p := Padding(alg, len);
    assert p[|p| - alg.lengthLen..] == BigEndian(8 * len, alg.lengthLen);
  }

  /** Chains the whole blocks of `s` into `v`; a final partial block is ignored. */
  function Fold(alg: Alg, v: Chain, s: Bytes): Chain
    requires alg.blockLen > 0
    decreases |s|
  {
    if |s| < alg.blockLen then v
    else Fold(alg, alg.compress(v, s[..alg.blockLen]), s[alg.blockLen..])
  }

  /** The hash of `m`: pad, split into blocks, chain, truncate. */
  function Hash(alg: Alg, m: Bytes): (h: Bytes)
    requires Valid(alg)
    ensures |h| == alg.digestLen
  {
    alg.digest(Fold(alg, alg.initial, m + Padding(alg, |m|)))
  }

  // ----- The streaming context ------------------------------------------------------------

  /** A context: chaining value, bytes waiting for a full block, bytes taken in so far. */
  datatype Ctx = Ctx(chain: Chain, buffer: Bytes, count: nat)

  function Init(alg: Alg): Ctx {
    Ctx(alg.initial, [], 0)
  }

  /** One library update call: fill the buffer and compress each time a block is complete. */
  function Absorb(alg: Alg, c: Ctx, data: Bytes): (r: Ctx)
    requires |c.buffer| < alg.blockLen
    ensures |r.buffer| < alg.blockLen
    decreases |data|
  {
    if |c.buffer| + |data| < alg.blockLen then
      Ctx(c.chain, c.buffer + data, c.count + |data|)
    else
      var take := alg.blockLen - |c.buffer|;
      Absorb(alg, Ctx(alg.compress(c.chain, c.buffer + data[..take]), [], c.count + take), data[take..])
  }

  /** The library's final call: one padding block, or two when the length field does not fit. */
  function Final(alg: Alg, c: Ctx): Bytes
    requires Valid(alg) && |c.buffer| < alg.blockLen
  {
    var length := BigEndian(8 * c.count, alg.lengthLen);
    var used := |c.buffer| + 1;
    if used + alg.lengthLen <= alg.blockLen then
      alg.digest(alg.compress(c.chain,
                              c.buffer + [0x80] + Zeros(alg.blockLen - alg.lengthLen - used) + length))
    else
      var v := alg.compress(c.chain, c.buffer + [0x80] + Zeros(alg.blockLen - used));
      alg.digest(alg.compress(v, Zeros(alg.blockLen - alg.lengthLen) + length))
  }

  /** Two updates in a row are one update with the concatenated data. */
  lemma {:induction false} AbsorbAppend(alg: Alg, c: Ctx, a: Bytes, b: Bytes)
    requires |c.buffer| < alg.blockLen
    ensures Absorb(alg, Absorb(alg, c, a), b) == Absorb(alg, c, a + b)
    decreases |a|
  {
    var take := alg.blockLen - |c.buffer|;
    if |a| >= take {
      CutInFirst(a, b, take);
      var next := Ctx(alg.compress(c.chain, c.buffer + a[..take]), [], c.count + take);
      AbsorbAppend(alg, next, a[take..], b);
    } else if |a| + |b| < take {
      AppendAssoc(c.buffer, a, b);
    } else {
      CutInSecond(a, b, take);
      AppendAssoc(c.buffer, a, b[..take - |a|]);
    }
  }

  lemma CutInFirst(a: Bytes, b: Bytes, n: nat)
    requires n <= |a|
    ensures (a + b)[..n] == a[..n] && (a + b)[n..] == a[n..] + b
  {
  }

  lemma CutInSecond(a: Bytes, b: Bytes, n: nat)
    requires |a| <= n <= |a| + |b|
    ensures (a + b)[..n] == a + b[..n - |a|] && (a + b)[n..] == b[n - |a|..]
  {
  }

  /** What a context is after absorbing `m`: the blocks of `m` chained, its remainder buffered. */
  lemma {:induction false} AbsorbShape(alg: Alg, v: Chain, n: nat, m: Bytes)
    requires alg.blockLen > 0
    ensures var rest := Rem(|m|, alg.blockLen);
            Absorb(alg, Ctx(v, [], n), m)
            == Ctx(Fold(alg, v, m), m[|m| - rest..], n + |m|)
    decreases |m|
  {
    if |m| >= alg.blockLen {
      var tail := m[alg.blockLen..];
      assert [] + m[..alg.blockLen] == m[..alg.blockLen];
      AbsorbShape(alg, alg.compress(v, m[..alg.blockLen]), n + alg.blockLen, tail);
      assert Rem(|tail|, alg.blockLen) == Rem(|m|, alg.blockLen);
      assert tail[|tail| - Rem(|m|, alg.blockLen)..] == m[|m| - Rem(|m|, alg.blockLen)..];
    } else {
      assert [] + m == m == m[0..];
    }
  }

  /** Chaining can stop and resume at any block boundary. */
  lemma {:induction false} FoldAppend(alg: Alg, v: Chain, a: Bytes, b: Bytes)
    requires alg.blockLen > 0
    requires Rem(|a|, alg.blockLen) == 0
    ensures Fold(alg, v, a + b) == Fold(alg, Fold(alg, v, a), b)
    decreases |a|
  {
    if a == [] {
      assert a + b == b;
    } else {
      assert (a + b)[..alg.blockLen] == a[..alg.blockLen];
      assert (a + b)[alg.blockLen..] == a[alg.blockLen..] + b;
      FoldAppend(alg, alg.compress(v, a[..alg.blockLen]), a[alg.blockLen..], b);
    }
  }

  /** Chaining ignores a trailing partial block. */
  lemma FoldIgnoresPartial(alg: Alg, v: Chain, a: Bytes, b: Bytes)
    requires alg.blockLen > 0
    requires Rem(|a|, alg.blockLen) == 0 && |b| < alg.blockLen
    ensures Fold(alg, v, a + b) == Fold(alg, v, a)
  {
    FoldAppend(alg, v, a, b);
  }

  lemma FoldOne(alg: Alg, v: Chain, s: Bytes)
    requires 0 < alg.blockLen == |s|
    ensures Fold(alg, v, s) == alg.compress(v, s)
  {
    assert s[..alg.blockLen] == s;
  }

  /** The final call on any context chains exactly the padding of the bytes it took in. */
  lemma FinalPads(alg: Alg, c: Ctx)
    requires Valid(alg) && |c.buffer| < alg.blockLen
    requires Rem(c.count, alg.blockLen) == |c.buffer|
    ensures Final(alg, c) == alg.digest(Fold(alg, c.chain, c.buffer + Padding(alg, c.count)))
  {
    var zeros := ZeroCount(alg, c.count);
    var length := BigEndian(8 * c.count, alg.lengthLen);
    var used := |c.buffer| + 1;
    RemAdd(c.count, 1 + alg.lengthLen, alg.blockLen);
    var padded := c.buffer + [0x80] + Zeros(zeros) + length;
    assert padded == c.buffer + Padding(alg, c.count);
    if used + alg.lengthLen <= alg.blockLen {
      assert zeros == alg.blockLen - alg.lengthLen - used;
      FoldOne(alg, c.chain, padded);
    } else {
      assert zeros == 2 * alg.blockLen - alg.lengthLen - used;
      var first := c.buffer + [0x80] + Zeros(alg.blockLen - used);
      var second := Zeros(alg.blockLen - alg.lengthLen) + length;
      assert padded == first + second;
      FoldAppend(alg, c.chain, first, second);
      FoldOne(alg, c.chain, first);
      FoldOne(alg, Fold(alg, c.chain, first), second);
    }
  }

  /** Streaming refines one-shot: initialise, absorb, finish is the hash of the message. */
  lemma FinalIsHash(alg: Alg, m: Bytes)
    requires Valid(alg)
    ensures Final(alg, Absorb(alg, Init(alg), m)) == Hash(alg, m)
  {
    AbsorbShape(alg, alg.initial, 0, m);
    var c := Absorb(alg, Init(alg), m);
    FinalPads(alg, c);
    RemWhole(|m|, alg.blockLen);
    FoldSplit(alg, m[..|m| - |c.buffer|], c.buffer, m, Padding(alg, |m|));
  }

  /** Chaining `m` and then its padding: the whole blocks of `m` first, the remainder with the padding. */
  lemma FoldSplit(alg: Alg, blocks: Bytes, rest: Bytes, m: Bytes, padding: Bytes)
    requires alg.blockLen > 0 && Rem(|blocks|, alg.blockLen) == 0 && |rest| < alg.blockLen
    requires m == blocks + rest
    ensures Fold(alg, alg.initial, m + padding) == Fold(alg, Fold(alg, alg.initial, m), rest + padding)
  {
    hide Fold;
    FoldIgnoresPartial(alg, alg.initial, blocks, rest);
    FoldAppend(alg, alg.initial, blocks, rest + padding);
    AppendAssoc(blocks, rest, padding);
  }

  /** A message that fits one block with its padding is compressed once, from the initial value. */
  lemma ShortHash(alg: Alg, m: Bytes)
    requires Valid(alg) && |m| + 1 + alg.lengthLen <= alg.blockLen
    ensures |m + Padding(alg, |m|)| == alg.blockLen
    ensures Hash(alg, m) == alg.digest(alg.compress(alg.initial, m + Padding(alg, |m|)))
  {
    FoldOne(alg, alg.initial, m + Padding(alg, |m|));
  }

  /** A first block is compressed before everything behind it. */
  lemma FoldFirst(alg: Alg, v: Chain, first: Bytes, rest: Bytes)
    requires 0 < alg.blockLen == |first|
    ensures Fold(alg, v, first + rest) == Fold(alg, alg.compress(v, first), rest)
  {
    var all := first + rest;
    assert all[..alg.blockLen] == first && all[alg.blockLen..] == rest;
  }

  // ----- hash.rs ---------------------------------------------------------------------------

  /** The length argument of one library update call is a u32. */
  const CC_UPDATE_MAX: nat := 0xFFFF_FFFF

  /** Feeds `data` in pieces of at most CC_UPDATE_MAX bytes; the cut never shows in the result. */
  method UpdateAll(alg: Alg, ctx: Ctx, data: Bytes) returns (r: Ctx)
    requires |ctx.buffer| < alg.blockLen
    ensures r == Absorb(alg, ctx, data)
  {
    r := ctx;
    var rest := data;
    assert Absorb(alg, ctx, data) == Absorb(alg, r, rest);
    while rest != []
      invariant |r.buffer| < alg.blockLen
      invariant Absorb(alg, ctx, data) == Absorb(alg, r, rest)
      decreases |rest|
    {
      var take := if |rest| < CC_UPDATE_MAX then |rest| else CC_UPDATE_MAX;
      AbsorbAppend(alg, r, rest[..take], rest[take..]);
      assert rest[..take] + rest[take..] == rest;
      r := Absorb(alg, r, rest[..take]);
      rest := rest[take..];
    }
    assert r.buffer + [] == r.buffer;
  }

  /** The one-shot entry point: initialise, chunked update, finish. */
  method OneShot(alg: Alg, data: Bytes) returns (out: Bytes)
    requires Valid(alg)
    ensures out == Hash(alg, data)
  {
    var ctx := UpdateAll(alg, Init(alg), data);
    FinalIsHash(alg, data);
    out := Final(alg, ctx);
  }

  /** A hash context object. `history` is the byte string its owner has fed it since `start`. */
  class Context {
    const alg: Alg
    var ctx: Ctx
    ghost var history: Bytes

    ghost predicate Ok()
      reads this
    {
      Valid(alg) && ctx == Absorb(alg, Init(alg), history)
    }

    constructor Start(alg: Alg)
      requires Valid(alg)
      ensures Ok() && this.alg == alg && history == []
    {
      this.alg := alg;
      ctx := Init(alg);
      history := [];
    }

    /** A fork's private copy of the state. */
    constructor Clone(alg: Alg, ctx: Ctx, ghost history: Bytes)
      requires Valid(alg) && ctx == Absorb(alg, Init(alg), history)
      ensures Ok() && this.alg == alg && this.ctx == ctx && this.history == history
    {
      this.alg := alg;
      this.ctx := ctx;
      this.history := history;
    }

    method Update(data: Bytes)
      requires Ok()
      modifies this
      ensures Ok() && history == old(history) + data
    {
      ctx := UpdateAll(alg, ctx, data);
      AbsorbAppend(alg, Init(alg), history, data);
      history := history + data;
    }

    method Fork() returns (f: Context)
      requires Ok()
      ensures fresh(f) && f.Ok() && f.alg == alg && f.history == history
    {
      f := new Context.Clone(alg, ctx, history);
    }

    /** Finishing a copy leaves this context usable: nothing is modified. */
    method ForkFinish() returns (out: Bytes)
      requires Ok()
      ensures out == Hash(alg, history)
    {
      var clone := ctx;
      FinalIsHash(alg, history);
      out := Final(alg, clone);
    }
  }

  // ----- Whole runs ------------------------------------------------------------------------

  /** One call on context number `i`; `fork` adds a context, `finish` consumes one. */
  datatype Op = Update(i: nat, data: Bytes) | Fork(i: nat) | ForkFinish(i: nat) | Finish(i: nat)

  datatype Slot<+T> = Live(value: T) | Consumed

  predicate Enabled<T>(live: seq<Slot<T>>, op: Op) {
    op.i < |live| && live[op.i].Live?
  }

  /** The contexts after one call and the digests it produced. */
  function Step(alg: Alg, cs: seq<Slot<Ctx>>, op: Op): (seq<Slot<Ctx>>, seq<Bytes>)
    requires Valid(alg) && Enabled(cs, op)
    requires forall i :: 0 <= i < |cs| && cs[i].Live? ==> |cs[i].value.buffer| < alg.blockLen
  {
    var c := cs[op.i].value;
    match op
    case Update(i, data) => (cs[i := Live(Absorb(alg, c, data))], [])
    case Fork(i) => (cs + [Live(c)], [])
    case ForkFinish(i) => (cs, [Final(alg, c)])
    case Finish(i) => (cs[i := Consumed], [Final(alg, c)])
  }

  /** The same calls on bare byte histories, hashing each history from scratch. */
  function SpecStep(alg: Alg, hs: seq<Slot<Bytes>>, op: Op): (seq<Slot<Bytes>>, seq<Bytes>)
    requires Valid(alg) && Enabled(hs, op)
  {
    var h := hs[op.i].value;
    match op
    case Update(i, data) => (hs[i := Live(h + data)], [])
    case Fork(i) => (hs + [Live(h)], [])
    case ForkFinish(i) => (hs, [Hash(alg, h)])
    case Finish(i) => (hs[i := Consumed], [Hash(alg, h)])
  }

  ghost predicate Tracks(alg: Alg, cs: seq<Slot<Ctx>>, hs: seq<Slot<Bytes>>)
    requires Valid(alg)
  {
    && |cs| == |hs|
    && forall i :: 0 <= i < |cs| ==>
         match hs[i]
         case Consumed => cs[i] == Consumed
         case Live(h) => cs[i] == Live(Absorb(alg, Init(alg), h))
  }

  lemma StepTracks(alg: Alg, cs: seq<Slot<Ctx>>, hs: seq<Slot<Bytes>>, op: Op)
    requires Valid(alg) && Tracks(alg, cs, hs) && Enabled(hs, op)
    ensures Tracks(alg, Step(alg, cs, op).0, SpecStep(alg, hs, op).0)
    ensures Step(alg, cs, op).1 == SpecStep(alg, hs, op).1
  {
    var h := hs[op.i].value;
    FinalIsHash(alg, h);
    if op.Update? {
      AbsorbAppend(alg, Init(alg), h, op.data);
    }
  }

  /** The digests of a run of calls; a call on a missing or consumed context ends the run. */
  function Run(alg: Alg, cs: seq<Slot<Ctx>>, ops: seq<Op>): seq<Bytes>
    requires Valid(alg)
    requires forall i :: 0 <= i < |cs| && cs[i].Live? ==> |cs[i].value.buffer| < alg.blockLen
    decreases |ops|
  {
    if ops == [] || !Enabled(cs, ops[0]) then []
    else var (next, out) := Step(alg, cs, ops[0]); out + Run(alg, next, ops[1..])
  }

  function SpecRun(alg: Alg, hs: seq<Slot<Bytes>>, ops: seq<Op>): seq<Bytes>
    requires Valid(alg)
    decreases |ops|
  {
    if ops == [] || !Enabled(hs, ops[0]) then []
    else var (next, out) := SpecStep(alg, hs, ops[0]); out + SpecRun(alg, next, ops[1..])
  }

  lemma {:induction false} RunTracks(alg: Alg, cs: seq<Slot<Ctx>>, hs: seq<Slot<Bytes>>, ops: seq<Op>)
    requires Valid(alg) && Tracks(alg, cs, hs)
    ensures Run(alg, cs, ops) == SpecRun(alg, hs, ops)
    decreases |ops|
  {
    if ops != [] && Enabled(hs, ops[0]) {
      StepTracks(alg, cs, hs, ops[0]);
      RunTracks(alg, Step(alg, cs, ops[0]).0, SpecStep(alg, hs, ops[0]).0, ops[1..]);
    }
  }

  /** In every run of calls on a fresh context and its forks, each digest that comes out is the
      one-shot hash of the bytes fed along that branch and no other. */
  lemma EveryBranchHashesItsHistory(alg: Alg, ops: seq<Op>)
    requires Valid(alg)
    ensures Run(alg, [Live(Init(alg))], ops) == SpecRun(alg, [Live([])], ops)
  {
    RunTracks(alg, [Live(Init(alg))], [Live([])], ops);
  }

  /** A fork goes its own way: for any bytes, the original and the fork hash what was fed before the fork and what
      each was fed after it. */
  lemma ForkedRun(alg: Alg, a: Bytes, b: Bytes, c: Bytes)
    requires Valid(alg)
    ensures var ops := [Update(0, a), Fork(0), Update(1, b), ForkFinish(0), Update(0, c), Finish(1), Finish(0)];
            Run(alg, [Live(Init(alg))], ops) == [Hash(alg, a), Hash(alg, a + b), Hash(alg, a + c)]
  {
    hide Hash;
    hide SpecStep;
    hide SpecRun;
    hide Run;
    var ops := [Update(0, a), Fork(0), Update(1, b), ForkFinish(0), Update(0, c), Finish(1), Finish(0)];
    EveryBranchHashesItsHistory(alg, ops);
    assert [] + a == a;
    UpdateRuns(alg, [Live([])], [Live(a)], 0, a, ops);
    ForkRuns(alg, [Live(a)], ops[1..]);
    assert [Live(a)] + [Live(a)] == [Live(a), Live(a)];
    UpdateRuns(alg, [Live(a), Live(a)], [Live(a), Live(a + b)], 1, b, ops[2..]);
    assert ops[1..][1..] == ops[2..] && ops[2..][1..] == ops[3..] && ops[3..][1..] == ops[4..];
    UpdateRuns(alg, [Live(a), Live(a + b)], [Live(a + c), Live(a + b)], 0, c, ops[4..]);
    assert ops[4..][1..] == ops[5..] && ops[5..][1..] == ops[6..] && ops[6..][1..] == [];
    FinishRuns(alg, [Live(a + c), Live(a + b)], [Live(a + c), Consumed], 1, ops[5..]);
    FinishRuns(alg, [Live(a + c), Consumed], [Consumed, Consumed], 0, ops[6..]);
    ForkFinishRuns(alg, [Live(a), Live(a + b)], 0, ops[3..]);
    NothingRuns(alg, [Consumed, Consumed]);
  }

  lemma NothingRuns(alg: Alg, hs: seq<Slot<Bytes>>)
    requires Valid(alg)
    ensures SpecRun(alg, hs, []) == []
  {
  }

  lemma UpdateRuns(alg: Alg, hs: seq<Slot<Bytes>>, more: seq<Slot<Bytes>>, i: nat, data: Bytes, ops: seq<Op>)
    requires Valid(alg) && i < |hs| && hs[i].Live? && more == hs[i := Live(hs[i].value + data)]
    requires ops != [] && ops[0] == Update(i, data)
    ensures SpecRun(alg, hs, ops) == SpecRun(alg, more, ops[1..])
  {
  }

  lemma ForkRuns(alg: Alg, hs: seq<Slot<Bytes>>, ops: seq<Op>)
    requires Valid(alg) && |hs| > 0 && hs[0].Live? && ops != [] && ops[0] == Fork(0)
    ensures SpecRun(alg, hs, ops) == SpecRun(alg, hs + [hs[0]], ops[1..])
  {
  }

  lemma ForkFinishRuns(alg: Alg, hs: seq<Slot<Bytes>>, i: nat, ops: seq<Op>)
    requires Valid(alg) && i < |hs| && hs[i].Live? && ops != [] && ops[0] == ForkFinish(i)
    ensures SpecRun(alg, hs, ops) == [Hash(alg, hs[i].value)] + SpecRun(alg, hs, ops[1..])
  {
  }

  lemma FinishRuns(alg: Alg, hs: seq<Slot<Bytes>>, rest: seq<Slot<Bytes>>, i: nat, ops: seq<Op>)
    requires Valid(alg) && i < |hs| && hs[i].Live? && rest == hs[i := Consumed] && ops != [] && ops[0] == Finish(i)
    ensures SpecRun(alg, hs, ops) == [Hash(alg, hs[i].value)] + SpecRun(alg, rest, ops[1..])
  {
  }
}
