/** The streaming and the one-shot 32-bit Murmur3 of common/murmur3.

    The block buffering is the same for every mixing function, so the theory takes one as a
    parameter; `Mix` and `Finish` are those of murmur32.go. */
module Murmur3 {
  import opened Bytes

  const SIZE: nat := 4

  // ------------------------------------------------------------ block buffering

  type Mixer<!S> = (S, seq<byte>) -> S

  /** All whole blocks of p mixed into h. */
  function Blocks<S>(mix: Mixer<S>, h: S, p: seq<byte>): S
    decreases |p|
  {
    if |p| < SIZE then h else Blocks(mix, mix(h, p[..SIZE]), p[SIZE..])
  }

  /** The bytes after the last whole block. */
  function Tail(p: seq<byte>): (t: seq<byte>)
    ensures |t| < SIZE && |t| == |p| % SIZE
  {
    if |p| < SIZE then p else Tail(p[SIZE..])
  }

  lemma {:induction false} WholeBlocksFirst<S>(mix: Mixer<S>, h: S, a: seq<byte>, b: seq<byte>)
    requires |a| % SIZE == 0
    ensures Blocks(mix, h, a + b) == Blocks(mix, Blocks(mix, h, a), b) && Tail(a + b) == Tail(b)
    decreases |a|
  {
    if a == [] {
      assert a + b == b;
    } else {
      WholeBlocksFirst(mix, mix(h, a[..SIZE]), a[SIZE..], b);
      assert (a + b)[..SIZE] == a[..SIZE] && (a + b)[SIZE..] == a[SIZE..] + b;
    }
  }

  /** Data is whole blocks followed by its tail. */
  lemma {:induction false} WholeAndTail<S>(mix: Mixer<S>, h: S, data: seq<byte>) returns (whole: seq<byte>)
    ensures data == whole + Tail(data) && |whole| % SIZE == 0 && Blocks(mix, h, whole) == Blocks(mix, h, data)
  {
    var n := |data| - |Tail(data)|;
    whole := data[..n];
    TailIsSuffix(data);
    WholeBlocksFirst(mix, h, whole, Tail(data));
  }

  lemma {:induction false} TailIsSuffix(data: seq<byte>)
    ensures data == data[..|data| - |Tail(data)|] + Tail(data)
  {
    if |data| >= SIZE {
      TailIsSuffix(data[SIZE..]);
      var t := Tail(data);
      assert t == data[SIZE..][|data| - SIZE - |t|..] == data[|data| - |t|..];
    }
  }

  /** The running digest: hash of the whole blocks so far, pending bytes, and length. */
  datatype Digest<S> = Digest(h1: S, tail: seq<byte>, clen: nat)

  /** The digest of all of `data`. */
  function Of<S>(mix: Mixer<S>, seed: S, data: seq<byte>): Digest<S> {
    Digest(Blocks(mix, seed, data), Tail(data), |data|)
  }

  /** What Write makes of the digest: fill up the pending block, or add to it, and keep what is left. */
  function Written<S>(mix: Mixer<S>, d: Digest<S>, p: seq<byte>): Digest<S>
    requires |d.tail| < SIZE
  {
    var nfree := SIZE - |d.tail|;
    if |d.tail| > 0 && nfree < |p| then
      var h1 := Blocks(mix, d.h1, d.tail + p[..nfree]);
      Digest(Blocks(mix, h1, p[nfree..]), Tail(p[nfree..]), d.clen + |p|)
    else
      Digest(Blocks(mix, d.h1, d.tail + p), Tail(d.tail + p), d.clen + |p|)
  }

  /** Writing more data to the digest of some data gives the digest of both together. */
  lemma {:induction false} WriteExtends<S>(mix: Mixer<S>, seed: S, data: seq<byte>, p: seq<byte>)
    ensures Written(mix, Of(mix, seed, data), p) == Of(mix, seed, data + p)
  {
    var whole := WholeAndTail(mix, seed, data);
    var t := Tail(data);
    assert data + p == whole + (t + p);
    WholeBlocksFirst(mix, seed, whole, t + p);
    if |t| > 0 && SIZE - |t| < |p| {
      FillsUp(mix, Blocks(mix, seed, data), t, p);
    }
  }

  /** Filling up the pending block first makes no difference. */
  lemma {:induction false} FillsUp<S>(mix: Mixer<S>, h: S, t: seq<byte>, p: seq<byte>)
    requires |t| < SIZE && SIZE - |t| < |p|
    ensures var block, rest := t + p[..SIZE - |t|], p[SIZE - |t|..];
            Blocks(mix, h, t + p) == Blocks(mix, Blocks(mix, h, block), rest) && Tail(t + p) == Tail(rest)
  {
    var block, rest := t + p[..SIZE - |t|], p[SIZE - |t|..];
    assert t + p == block + rest;
    WholeBlocksFirst(mix, h, block, rest);
  }

  function Concat(pieces: seq<seq<byte>>): seq<byte> {
    if pieces == [] then [] else Concat(pieces[..|pieces| - 1]) + pieces[|pieces| - 1]
  }

  /** The digest after writing the pieces one by one. */
  function WriteAll<S>(mix: Mixer<S>, seed: S, pieces: seq<seq<byte>>): (d: Digest<S>)
    ensures |d.tail| < SIZE
  {
    if pieces == [] then Digest(seed, [], 0)
    else Written(mix, WriteAll(mix, seed, pieces[..|pieces| - 1]), pieces[|pieces| - 1])
  }

  /** However the data is cut, the digest is that of the whole. */
  lemma {:induction false} PiecesDoNotMatter<S>(mix: Mixer<S>, seed: S, pieces: seq<seq<byte>>)
    ensures WriteAll(mix, seed, pieces) == Of(mix, seed, Concat(pieces))
  {
    if pieces != [] {
      PiecesDoNotMatter(mix, seed, pieces[..|pieces| - 1]);
      WriteExtends(mix, seed, Concat(pieces[..|pieces| - 1]), pieces[|pieces| - 1]);
    }
  }

  // ------------------------------------------------------------ the 32-bit hash

  const C1: bv32 := 0xcc9e2d51
  const C2: bv32 := 0x1b873593

  function RotateLeft15(x: bv32): bv32 {
    (x << 15) | (x >> 17)
  }

  function RotateLeft13(x: bv32): bv32 {
    (x << 13) | (x >> 19)
  }

  /** Four bytes as a little-endian number. */
  function Word(b: seq<byte>): bv32 {
    if |b| < SIZE then 0
    else (b[0] as bv32) | ((b[1] as bv32) << 8) | ((b[2] as bv32) << 16) | ((b[3] as bv32) << 24)
  }

  function Scramble(k: bv32): bv32 {
    RotateLeft15(k * C1) * C2
  }

  function Mix(h: bv32, block: seq<byte>): bv32 {
    var h1 := RotateLeft13(h ^ Scramble(Word(block)));
    h1 * 4 + h1 + 0xe6546b64
  }

  /** The pending bytes as a little-endian number. */
  function TailWord(t: seq<byte>): bv32 {
    if |t| == 3 then ((t[2] as bv32) << 16) ^ ((t[1] as bv32) << 8) ^ (t[0] as bv32)
    else if |t| == 2 then ((t[1] as bv32) << 8) ^ (t[0] as bv32)
    else if |t| == 1 then t[0] as bv32
    else 0
  }

  function Length(n: nat): bv32 {
    (n % 0x1_0000_0000) as bv32
  }

  function Avalanche(h: bv32): bv32 {
    var b := (h ^ (h >> 16)) * 0x85ebca6b;
    var c := (b ^ (b >> 13)) * 0xc2b2ae35;
    c ^ (c >> 16)
  }

  /** Sum32: the pending bytes, the length and the final mixing. */
  function Finish(d: Digest<bv32>): bv32 {
    FinishBy(Avalanche, d)
  }

  function FinishBy(mix: bv32 -> bv32, d: Digest<bv32>): bv32 {
    var h := if |d.tail| == 0 then d.h1 else d.h1 ^ Scramble(TailWord(d.tail));
    mix(h ^ Length(d.clen))
  }

  /** The hash of the data, as a function of the data alone. */
  function Hash(seed: bv32, data: seq<byte>): bv32 {
    Finish(Of(Mix, seed, data))
  }

  /** However the data is cut into writes, the streaming hash is the one-shot hash of the data. */
  lemma {:induction false} StreamingIsOneShot(seed: bv32, pieces: seq<seq<byte>>)
    ensures Finish(WriteAll(Mix, seed, pieces)) == Hash(seed, Concat(pieces))
  {
    PiecesDoNotMatter(Mix, seed, pieces);
  }

  lemma {:induction false} ShortLength(n: nat)
    requires n < 0x1_0000_0000
    ensures Length(n) == n as bv32
  {
    assert n % 0x1_0000_0000 == n;
  }

  lemma {:induction false} KnownEmpty()
    ensures Hash(1, []) == 0x514e28b7
  {
    assert Of(Mix, 1, []) == Digest(1, [], 0);
  }

  lemma {:induction false} FinishWithTail(mix: bv32 -> bv32, d: Digest<bv32>, k: bv32, n: bv32)
    requires |d.tail| > 0 && Scramble(TailWord(d.tail)) == k && Length(d.clen) == n
    ensures FinishBy(mix, d) == mix((d.h1 ^ k) ^ n)
  {
  }

  lemma {:induction false} KnownOne()
    ensures Hash(0, [0x21]) == 0x72661cf4
  {
    assert Of(Mix, 0, [0x21]) == Digest(0, [0x21], 1);
    TailOne();
    ShortLength(1);
    assert Avalanche(0xac5e5122) == 0x72661cf4;
    FinishWithTail(Avalanche, Digest(0, [0x21], 1), 0xac5e5123, 1);
  }

  lemma {:induction false} TailOne()
    ensures Scramble(TailWord([0x21])) == 0xac5e5123
  {
    assert TailWord([0x21]) == 0x21;
  }

  lemma {:induction false} KnownTwo()
    ensures Hash(0, [0x21, 0x43]) == 0xa0f7b07a
  {
    assert Of(Mix, 0, [0x21, 0x43]) == Digest(0, [0x21, 0x43], 2);
    TailTwo();
    ShortLength(2);
    assert Avalanche(0xec900b62) == 0xa0f7b07a;
    FinishWithTail(Avalanche, Digest(0, [0x21, 0x43], 2), 0xec900b60, 2);
  }

  lemma {:induction false} TailTwo()
    ensures Scramble(TailWord([0x21, 0x43])) == 0xec900b60
  {
    assert TailWord([0x21, 0x43]) == 0x4321;
  }

  lemma {:induction false} KnownThree()
    ensures Hash(0, [0x21, 0x43, 0x65]) == 0x7e4a8634
  {
    assert Of(Mix, 0, [0x21, 0x43, 0x65]) == Digest(0, [0x21, 0x43, 0x65], 3);
    TailThree();
    ShortLength(3);
    assert Avalanche(0x17a6636d) == 0x7e4a8634;
    FinishWithTail(Avalanche, Digest(0, [0x21, 0x43, 0x65], 3), 0x17a6636e, 3);
  }

  lemma {:induction false} TailThree()
    ensures Scramble(TailWord([0x21, 0x43, 0x65])) == 0x17a6636e
  {
    assert TailWord([0x21, 0x43, 0x65]) == 0x654321;
  }

  lemma {:induction false} KnownBlock()
    ensures Mix(0, [0x21, 0x43, 0x65, 0x87]) == 0xbb095db4
  {
    assert Word([0x21, 0x43, 0x65, 0x87]) == 0x87654321;
    assert Scramble(0x87654321) == 0x5082edee;
  }

  lemma {:induction false} KnownFour()
    ensures Hash(0, [0x21, 0x43, 0x65, 0x87]) == 0xf55b516b
  {
    KnownBlock();
    OneBlock(Mix, 0, [0x21, 0x43, 0x65, 0x87]);
    FinishFour();
  }

  lemma {:induction false} FinishFour()
    ensures Finish(Digest(0xbb095db4, [], 4)) == 0xf55b516b
  {
    ShortLength(4);
    AvalancheFour();
    FinishIs(Avalanche, Digest(0xbb095db4, [], 4), 4);
  }

  lemma {:induction false} FinishIs(mix: bv32 -> bv32, d: Digest<bv32>, n: bv32)
    requires d.tail == [] && Length(d.clen) == n
    ensures FinishBy(mix, d) == mix(d.h1 ^ n)
  {
  }

  lemma {:induction false} KnownSeeded()
    ensures Hash(0x5082edee, [0x21, 0x43, 0x65, 0x87]) == 0x2362f9de
  {
    SeededBlock();
    OneBlock(Mix, 0x5082edee, [0x21, 0x43, 0x65, 0x87]);
    FinishSeeded();
  }

  lemma {:induction false} SeededBlock()
    ensures Mix(0x5082edee, [0x21, 0x43, 0x65, 0x87]) == 0xe6546b64
  {
    assert Word([0x21, 0x43, 0x65, 0x87]) == 0x87654321;
    assert Scramble(0x87654321) == 0x5082edee;
  }

  lemma {:induction false} FinishSeeded()
    ensures Finish(Digest(0xe6546b64, [], 4)) == 0x2362f9de
  {
    ShortLength(4);
    AvalancheSeeded();
    FinishIs(Avalanche, Digest(0xe6546b64, [], 4), 4);
  }

  lemma {:induction false} AvalancheSeeded()
    ensures Avalanche(0xe6546b60) == 0x2362f9de
  {
  }

  lemma {:induction false} AvalancheFour()
    ensures Avalanche(0xbb095db0) == 0xf55b516b
  {
  }

  lemma {:induction false} OneBlock<S>(mix: Mixer<S>, h: S, p: seq<byte>)
    requires |p| == SIZE
    ensures Of(mix, h, p) == Digest(mix(h, p), [], SIZE)
  {
    assert p[..SIZE] == p && p[SIZE..] == [];
    assert Blocks(mix, mix(h, p), []) == mix(h, p) && Tail([]) == [];
  }

  /** Values published for MurmurHash3_x86_32: one for each length of the tail, and one block with and without a seed. */
  lemma {:induction false} KnownValues()
    ensures Hash(1, []) == 0x514e28b7
    ensures Hash(0, [0x21]) == 0x72661cf4
    ensures Hash(0, [0x21, 0x43]) == 0xa0f7b07a
    ensures Hash(0, [0x21, 0x43, 0x65]) == 0x7e4a8634
    ensures Hash(0, [0x21, 0x43, 0x65, 0x87]) == 0xf55b516b
    ensures Hash(0x5082edee, [0x21, 0x43, 0x65, 0x87]) == 0x2362f9de
  {
    KnownEmpty();
    KnownOne();
    KnownTwo();
    KnownThree();
    KnownFour();
    KnownSeeded();
  }

  /** The loop over the whole blocks, in the digest and in the one-shot hash. */
  method MixBlocks(mix: Mixer<bv32>, h: bv32, p: seq<byte>) returns (h1: bv32, tail: seq<byte>)
    ensures h1 == Blocks(mix, h, p) && tail == Tail(p)
  {
    h1 := h;
    var nblocks := |p| / SIZE;
    assert p[0..] == p;
    for i := 0 to nblocks
      invariant Blocks(mix, h, p) == Blocks(mix, h1, p[i * SIZE..]) && Tail(p) == Tail(p[i * SIZE..])
    {
      var block := p[i * SIZE..i * SIZE + SIZE];
      NextBlock(mix, h1, p, i);
      h1 := mix(h1, block);
    }
    tail := p[nblocks * SIZE..];
  }

  lemma {:induction false} NextBlock<S>(mix: Mixer<S>, h: S, p: seq<byte>, i: nat)
    requires i * SIZE + SIZE <= |p|
    ensures Blocks(mix, h, p[i * SIZE..]) == Blocks(mix, mix(h, p[i * SIZE..i * SIZE + SIZE]), p[(i + 1) * SIZE..])
    ensures Tail(p[i * SIZE..]) == Tail(p[(i + 1) * SIZE..])
  {
    var q := p[i * SIZE..];
    assert q[..SIZE] == p[i * SIZE..i * SIZE + SIZE] && q[SIZE..] == p[(i + 1) * SIZE..];
  }

  method Sum32WithSeed(data: seq<byte>, seed: bv32) returns (h: bv32)
    ensures h == Hash(seed, data)
  {
    var h1, tail := MixBlocks(Mix, seed, data);
    h := Finish(Digest(h1, tail, |data|));
  }

  /** copy and append into the array from place `at` on. */
  method CopyInto(a: array<byte>, at: nat, s: seq<byte>)
    requires at + |s| <= a.Length
    modifies a
    ensures a[..at] == old(a[..at]) && a[at..at + |s|] == s
  {
    for i := 0 to |s|
      invariant a[..at] == old(a[..at])
      invariant a[at..at + i] == s[..i]
    {
      a[at + i] := s[i];
      assert a[at..at + i + 1] == a[at..at + i] + [s[i]];
    }
    assert s[..|s|] == s;
  }

  /** digest32 with its block mixer: the hash after the writes so far is that of all their bytes. */
  class Digest32 {
    const mix: Mixer<bv32>
    const seed: bv32
    var h1: bv32
    /** The pending bytes are the first `pending` ones of `buf`. */
    const buf: array<byte>
    var pending: nat
    var clen: nat
    /** What has been written since the last reset. */
    ghost var data: seq<byte>

    ghost predicate Valid()
      reads this, buf
    {
      buf.Length == 16 && pending < SIZE && Abs() == Of(mix, seed, data)
    }

    ghost function Abs(): Digest<bv32>
      requires pending <= buf.Length
      reads this, buf
    {
      Digest(h1, buf[..pending], clen)
    }

    constructor (seed: bv32)
      ensures Valid() && mix == Mix && this.seed == seed && data == [] && fresh(buf)
    {
      mix, this.seed, h1, pending, clen, data := Mix, seed, seed, 0, 0, [];
      buf := new byte[16];
    }

    method Reset()
      requires Valid()
      modifies this
      ensures Valid() && data == []
    {
      clen, pending, h1, data := 0, 0, seed, [];
    }

    method Write(b: seq<byte>) returns (n: nat)
      requires Valid()
      modifies this, buf
      ensures Valid() && data == old(data) + b && n == |b|
    {
      WriteExtends(mix, seed, data, b);
      Absorb(b);
      n := |b|;
      data := data + b;
    }

    /** What Write does to the digest itself. */
    method Absorb(b: seq<byte>)
      requires buf.Length == 16 && pending < SIZE
      modifies this`h1, this`pending, this`clen, buf
      ensures pending < SIZE && Abs() == Written(mix, old(Abs()), b)
    {
      ghost var d := Written(mix, Abs(), b);
      clen := clen + |b|;
      var p, rest := b, [];
      if pending > 0 {
        p := StickBack(b, d);
      } else {
        assert buf[..0] + b == b;
      }
      h1, rest := MixBlocks(mix, h1, p);
      Keep(rest);
    }

    /** Puts the block that the pending bytes begin together in `buf`; what is left to mix in is p. */
    method StickBack(b: seq<byte>, ghost d: Digest<bv32>) returns (p: seq<byte>)
      requires buf.Length == 16 && 0 < pending < SIZE
      requires var was := Written(mix, Abs(), b); d.h1 == was.h1 && d.tail == was.tail
      modifies this`h1, buf
      ensures Blocks(mix, h1, p) == d.h1 && Tail(p) == d.tail
    {
      ghost var tail := buf[..pending];
      if SIZE - pending < |b| {
        FillBlock(b[..SIZE - pending]);
        p := b[SIZE - pending..];
      } else {
        CopyInto(buf, pending, b);
        p := buf[..pending + |b|];
        assert p == tail + b;
      }
    }

    method FillBlock(b: seq<byte>)
      requires buf.Length == 16 && pending + |b| == SIZE
      modifies this`h1, buf
      ensures h1 == Blocks(mix, old(h1), old(buf[..pending]) + b)
    {
      ghost var tail := buf[..pending];
      CopyInto(buf, pending, b);
      assert buf[..SIZE] == tail + b;
      var none;
      h1, none := MixBlocks(mix, h1, buf[..SIZE]);
    }

    method Keep(rest: seq<byte>)
      requires buf.Length == 16 && |rest| < SIZE
      modifies this`pending, buf
      ensures pending == |rest| && buf[..pending] == rest
    {
      CopyInto(buf, 0, rest);
      pending := |rest|;
    }

    method Sum32() returns (h: bv32)
      requires Valid()
      ensures h == Finish(Of(mix, seed, data)) && (mix == Mix ==> h == Hash(seed, data))
    {
      h := Finish(Digest(h1, buf[..pending], clen));
    }
  }
}
