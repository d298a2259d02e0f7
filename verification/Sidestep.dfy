/** A destination that changes its proxy when a dead one is added: the witness against stability under growth, from
    the destination's key to the proxies chosen. */
module Sidestep {
  import opened Bytes
  import opened Murmur3
  import opened LoadBalance

  /** "1.0.0.1", the key of a connection to that address. */
  const KEY: seq<byte> := [49, 46, 48, 46, 48, 46, 49]

  const SUM: nat := 1825755168

  // ------------------------------------------------------------ its hash

  lemma {:induction false} BlockAndTail<S>(mix: Mixer<S>, h: S, block: seq<byte>, tail: seq<byte>)
    requires |block| == SIZE && |tail| < SIZE
    ensures Of(mix, h, block + tail) == Digest(mix(h, block), tail, SIZE + |tail|)
  {
    var p := block + tail;
    assert p[..SIZE] == block && p[SIZE..] == tail;
    assert Blocks(mix, h, p) == Blocks(mix, mix(h, block), tail) == mix(h, block);
    assert Tail(p) == Tail(tail) == tail;
  }

  lemma {:induction false} KeyBlock()
    ensures Mix(0, [49, 46, 48, 46]) == 0xb867677c
  {
    assert Word([49, 46, 48, 46]) == 0x2e302e31;
    assert Scramble(0x2e302e31) == 0xf9c2e9b7;
  }

  lemma {:induction false} KeyTail()
    ensures Scramble(TailWord([48, 46, 49])) == 0x9c3a0a65
  {
    assert TailWord([48, 46, 49]) == 0x312e30;
  }

  lemma {:induction false} KeyEnd()
    ensures Avalanche(0x245d6d1e) == 0x6cd2d020
  {
  }

  lemma {:induction false} KeyDigest()
    ensures Of(Mix, 0, KEY) == Digest(0xb867677c, [48, 46, 49], 7)
  {
    assert KEY == [49, 46, 48, 46] + [48, 46, 49];
    KeyBlock();
    BlockAndTail(Mix, 0, [49, 46, 48, 46], [48, 46, 49]);
  }

  lemma {:induction false} KeyFinish()
    ensures Finish(Digest(0xb867677c, [48, 46, 49], 7)) == 0x6cd2d020
  {
    KeyTail();
    ShortLength(7);
    KeyEnd();
    FinishWithTail(Avalanche, Digest(0xb867677c, [48, 46, 49], 7), 0x9c3a0a65, 7);
  }

  lemma {:induction false} KeyHash()
    ensures Hash(0, KEY) == 0x6cd2d020
  {
    KeyDigest();
    KeyFinish();
  }

  // ------------------------------------------------------------ its tries

  /** The key after this one is a, and d the divisor of its factor. */
  predicate Follows(key: Key, a: Key, d: real) {
    NextKey(key) == a && d == (a / TWO33 + 1) as real
  }

  /** The key after this one is a, and a leaps from b to j, as its factor lies between lo and hi. */
  lemma {:induction false} LeapIs(m: Machine, rnd: real -> real, key: Key, a: Key, b: nat, j: nat, x: real, d: real, lo: real, hi: real)
    requires Rounds(rnd) && Precise(rnd) && m.Floats(rnd) && b < TWO31 && Follows(key, a, d) && x == (b + 1) as real
    requires 0.0 <= lo && lo * d <= 2147483648.0 <= hi * d
    requires j as real <= 0.999998 * (x * lo) && 1.000003 * (x * hi) < (j + 1) as real
    ensures m.next(key) == a && m.leap(a, b) == j
  {
    JumpIs(rnd, b, a / TWO33, j, x, d, lo, hi);
  }

  /** A key that leaps from 0 to 1 and from there to 2. */
  lemma {:induction false} StepByStep(m: Machine, key: Key, a: Key, b: Key)
    requires m.Valid() && m.next(key) == a && m.leap(a, 0) == 1 && m.next(a) == b && m.leap(b, 1) == 2
    ensures m.Bucket(key, 2) == 1 && m.Bucket(key, 3) == 2
  {
    assert m.Last(a, 0, 1, 2) == m.Last(b, 1, 2, 2) == 1;
    assert m.Last(a, 0, 1, 3) == m.Last(b, 1, 2, 3) == 2;
  }

  // The keys after the sum and its successors.
  const A: Key := 14401109372131192737
  const AA: Key := 12447588816805773854
  const B: Key := 17264042927909134494
  const BB: Key := 17105092836271987751
  const C: Key := 1680232409977524635

  lemma {:induction false} Keys()
    ensures Follows(SUM, A, 1676509783.0) && Follows(A, AA, 1449090059.0)
    ensures Follows(SUM + 1, B, 2009799114.0) && Follows(B, BB, 1991294888.0)
    ensures Follows(SUM + 2, C, 195604797.0)
  {
  }

  lemma {:induction false} FirstLeaps(m: Machine, rnd: real -> real)
    requires Rounds(rnd) && Precise(rnd) && m.Floats(rnd)
    ensures m.next(SUM) == A && m.leap(A, 0) == 1 && m.next(A) == AA && m.leap(AA, 1) == 2
  {
    Keys();
    LeapIs(m, rnd, SUM, A, 0, 1, 1.0, 1676509783.0, 1.28, 1.29);
    LeapIs(m, rnd, A, AA, 1, 2, 2.0, 1449090059.0, 1.48, 1.49);
  }

  lemma {:induction false} SecondLeaps(m: Machine, rnd: real -> real)
    requires Rounds(rnd) && Precise(rnd) && m.Floats(rnd)
    ensures m.next(SUM + 1) == B && m.leap(B, 0) == 1 && m.next(B) == BB && m.leap(BB, 1) == 2
  {
    Keys();
    LeapIs(m, rnd, SUM + 1, B, 0, 1, 1.0, 2009799114.0, 1.06, 1.07);
    LeapIs(m, rnd, B, BB, 1, 2, 2.0, 1991294888.0, 1.07, 1.08);
  }

  lemma {:induction false} ThirdLeap(m: Machine, rnd: real -> real)
    requires Rounds(rnd) && Precise(rnd) && m.Floats(rnd)
    ensures m.next(SUM + 2) == C && m.leap(C, 0) == 10
  {
    Keys();
    LeapIs(m, rnd, SUM + 2, C, 0, 10, 1.0, 195604797.0, 10.9, 10.98);
  }

  lemma {:induction false} Buckets(m: Machine)
    requires m.Valid() && m.next(SUM) == A && m.leap(A, 0) == 1 && m.next(A) == AA && m.leap(AA, 1) == 2
    requires m.next(SUM + 1) == B && m.leap(B, 0) == 1 && m.next(B) == BB && m.leap(BB, 1) == 2
    requires m.next(SUM + 2) == C && m.leap(C, 0) == 10
    ensures m.Bucket(SUM, 2) == 1 && m.Bucket(SUM, 3) == 2 && m.Bucket(SUM + 1, 3) == 2 && m.Bucket(SUM + 2, 3) == 0
  {
    StepByStep(m, SUM, A, AA);
    StepByStep(m, SUM + 1, B, BB);
    assert m.Last(C, 0, 10, 3) == 0;
  }

  lemma {:induction false} Tries(m: Machine)
    requires m.Valid() && m.Bucket(SUM, 2) == 1 && m.Bucket(SUM, 3) == 2 && m.Bucket(SUM + 1, 3) == 2 && m.Bucket(SUM + 2, 3) == 0
    ensures Chosen(m, SUM, [true, true]) == 1 && Chosen(m, SUM, [true, true, false]) == 0
  {
    var alive := [true, true, false];
    assert Probe(m, SUM, 0, 2) == 1;
    assert Probe(m, SUM, 0, 3) == 2 && Probe(m, SUM, 1, 3) == 2 && Probe(m, SUM, 2, 3) == 0;
    assert FirstLiving(m, SUM, alive, 2) == 2;
    assert FirstLiving(m, SUM, alive, 1) == 2;
  }

  /** With two living proxies the destination has the second. When a dead third one is added it gets the first: under
      every rounding as precise as float64's, and far less precise ones. */
  lemma {:induction false} DestinationSidesteps(m: Machine, rnd: real -> real)
    requires Rounds(rnd) && Precise(rnd) && m.Floats(rnd)
    ensures Hash(0, KEY) as nat == SUM && m.Valid()
    ensures Chosen(m, SUM, [true, true]) == 1 && Chosen(m, SUM, [true, true, false]) == 0
    ensures Sidesteps(m, SUM, [true, true, false], 2)
  {
    KeySum();
    SumSidesteps(m, rnd);
  }

  lemma {:induction false} KeySum()
    ensures Hash(0, KEY) as nat == SUM
  {
    KeyHash();
  }

  lemma {:induction false} SumSidesteps(m: Machine, rnd: real -> real)
    requires Rounds(rnd) && Precise(rnd) && m.Floats(rnd)
    ensures m.Valid() && Sidesteps(m, SUM, [true, true, false], 2)
    ensures Chosen(m, SUM, [true, true]) == 1 && Chosen(m, SUM, [true, true, false]) == 0
  {
    FloatsIsValid(m, rnd);
    FirstLeaps(m, rnd);
    SecondLeaps(m, rnd);
    ThirdLeap(m, rnd);
    Buckets(m);
    Tries(m);
    MovesAside(m);
  }

  lemma {:induction false} MovesAside(m: Machine)
    requires m.Valid() && Chosen(m, SUM, [true, true]) == 1 && Chosen(m, SUM, [true, true, false]) == 0
    ensures Sidesteps(m, SUM, [true, true, false], 2)
  {
    ChosenGrowsIff(m, SUM, [true, true, false], 2);
    assert [true, true, false][..2] == [true, true];
  }
}
