/** The two strategies of adapter/outboundgroup/loadbalance.go: consistent hashing and round robin.

    A proxy list is given by which of its proxies are alive; a choice is an index into it. */
module LoadBalance {

  const TWO31: nat := 0x8000_0000
  const MIN32: int := -0x8000_0000
  const TWO32: nat := 0x1_0000_0000
  const TWO33: nat := 0x2_0000_0000
  const TWO64: nat := 0x1_0000_0000_0000_0000

  // ------------------------------------------------------------ one jump

  /** Rounding leaves n and 2^31 times n alone. */
  predicate Fixes(rnd: real -> real, n: nat) {
    rnd(n as real) == n as real && rnd(n as real * 2147483648.0) == n as real * 2147483648.0
  }

  /** What is used of rounding to a float64: it is monotone, and exact on the integers of up to 32
      bits and on those times 2^31. */
  ghost predicate Rounds(rnd: real -> real) {
    && (forall x: real, y: real :: x <= y ==> rnd(x) <= rnd(y))
    && (forall n: nat :: n <= TWO31 ==> Fixes(rnd, n))
  }

  /** The factor by which a key whose upper bits are k jumps. */
  function Ratio(rnd: real -> real, k: nat): real
    requires Rounds(rnd) && k < TWO31
  {
    assert Fixes(rnd, k + 1);
    rnd(2147483648.0 / rnd((k + 1) as real))
  }

  function JumpBy(rnd: real -> real, b: nat, q: real): int {
    rnd(rnd((b + 1) as real) * q).Floor
  }

  /** Where such a key jumps to from bucket b. */
  function Jump(rnd: real -> real, b: nat, k: nat): int
    requires Rounds(rnd) && k < TWO31
  {
    JumpBy(rnd, b, Ratio(rnd, k))
  }

  lemma {:induction false} RatioBounds(rnd: real -> real, k: nat)
    requires Rounds(rnd) && k < TWO31
    ensures 1.0 <= Ratio(rnd, k) <= 2147483648.0
  {
    assert Fixes(rnd, k + 1);
    assert Fixes(rnd, 1);
    assert 1.0 <= 2147483648.0 / (k + 1) as real <= 2147483648.0;
  }

  lemma {:induction false} Monotone(rnd: real -> real, x: real, y: real)
    requires Rounds(rnd) && x <= y
    ensures rnd(x) <= rnd(y)
  {
  }

  lemma {:induction false} Grows(x: real, y: real, z: real)
    requires 0.0 < x && y <= z
    ensures x * y <= x * z
  {
    var d := z - y;
    assert x * (y + d) == x * y + x * d;
    assert x * d >= 0.0;
  }

  lemma {:induction false} Scaled(x: real, y: real, z: real)
    requires 0.0 < x && 1.0 <= y <= z
    ensures x <= x * y <= x * z
  {
    Grows(x, 1.0, y);
    Grows(x, y, z);
  }

  lemma {:induction false} Product(rnd: real -> real, b: nat, q: real)
    requires Rounds(rnd) && b < TWO31 && 1.0 <= q <= 2147483648.0
    ensures b + 1 <= JumpBy(rnd, b, q) <= (b + 1) * TWO31
  {
    var x := (b + 1) as real;
    assert Fixes(rnd, b + 1);
    JumpAt(rnd, b, q, x);
    RoundedProduct(rnd, x, q);
    FloorBetween(rnd(x * q), b + 1);
  }

  lemma {:induction false} RoundedProduct(rnd: real -> real, x: real, q: real)
    requires Rounds(rnd) && 0.0 < x && 1.0 <= q <= 2147483648.0
    requires rnd(x) == x && rnd(x * 2147483648.0) == x * 2147483648.0
    ensures x <= rnd(x * q) <= x * 2147483648.0
  {
    Scaled(x, q, 2147483648.0);
    Monotone(rnd, x, x * q);
    Monotone(rnd, x * q, x * 2147483648.0);
  }

  lemma {:induction false} FloorBetween(v: real, n: nat)
    requires n as real <= v <= n as real * 2147483648.0
    ensures n <= v.Floor <= n * TWO31
  {
    assert n as real * 2147483648.0 == (n * TWO31) as real;
  }

  /** A jump goes forward, and not so far that 64 bits could not hold it. */
  lemma {:induction false} JumpBounds(rnd: real -> real, b: nat, k: nat)
    requires Rounds(rnd) && b < TWO31 && k < TWO31
    ensures b + 1 <= Jump(rnd, b, k) <= (b + 1) * TWO31
  {
    RatioBounds(rnd, k);
    Product(rnd, b, Ratio(rnd, k));
  }

  // ------------------------------------------------------------ jump hash

  type Key = k: nat | k < TWO64

  function NextKey(key: Key): Key {
    (key * 2862933555777941757 + 1) % TWO64
  }

  /** How the next key comes from a key, and where a key leaps to from a bucket. */
  datatype Machine = Machine(next: Key -> Key, leap: (Key, nat) -> nat) {
    ghost predicate Valid() {
      forall key: Key, b: nat :: b < TWO31 ==> b < leap(key, b) <= TWO31 * TWO31
    }

    /** The machine of the source, with float64 rounding as given. */
    ghost predicate Floats(rnd: real -> real)
      requires Rounds(rnd)
    {
      && (forall key: Key :: next(key) == NextKey(key))
      && (forall key: Key, b: nat :: b < TWO31 ==> leap(key, b) == Jump(rnd, b, key / TWO33))
    }

    /** The last bucket below n on the way of the key, which has come from b to j. */
    function Last(key: Key, b: nat, j: nat, n: int): (r: nat)
      requires Valid() && n < TWO31
      ensures if j < n then j <= r < n else r == b
      decreases n - j
    {
      if j >= n then b else Last(next(key), j, leap(next(key), j), n)
    }

    /** The bucket of a key among n. */
    function Bucket(key: Key, n: int): (r: nat)
      requires Valid() && n < TWO31
      ensures if n <= 0 then r == 0 else r < n
    {
      Last(key, 0, 0, n)
    }
  }

  /** With float64 rounding every leap is forward and fits 64 bits, so that what is proved of all
      valid machines holds of the source's. */
  lemma {:induction false} FloatsIsValid(m: Machine, rnd: real -> real)
    requires Rounds(rnd) && m.Floats(rnd)
    ensures m.Valid()
  {
    forall key: Key, b: nat | b < TWO31 ensures b < m.leap(key, b) <= TWO31 * TWO31 {
      JumpBounds(rnd, b, key / TWO33);
    }
  }

  method JumpHash(m: Machine, key: Key, buckets: int) returns (r: nat)
    requires m.Valid() && MIN32 <= buckets < TWO31
    ensures r == m.Bucket(key, buckets)
  {
    var k: Key, b: nat, j: nat := key, 0, 0;
    while j < buckets
      invariant m.Last(k, b, j, buckets) == m.Bucket(key, buckets)
      invariant j <= TWO31 * TWO31
    {
      b := j;
      k := m.next(k);
      j := m.leap(k, b);
    }
    r := b;
  }

  lemma {:induction false} LastGrows(m: Machine, key: Key, b: nat, j: nat, n: int, n': int)
    requires m.Valid() && n <= n' < TWO31
    ensures m.Last(key, b, j, n') == m.Last(key, b, j, n) || n <= m.Last(key, b, j, n')
    decreases n - j
  {
    if j < n {
      LastGrows(m, m.next(key), j, m.leap(m.next(key), j), n, n');
    }
  }

  /** When buckets are added, a key stays where it is or moves to an added bucket. */
  lemma {:induction false} BucketGrows(m: Machine, key: Key, n: int, n': int)
    requires m.Valid() && n <= n' < TWO31
    ensures m.Bucket(key, n') == m.Bucket(key, n) || n <= m.Bucket(key, n')
  {
    LastGrows(m, key, 0, 0, n, n');
  }

  /** Adding one bucket moves keys to that bucket only. */
  lemma {:induction false} OneMoreBucket(m: Machine, key: Key, n: nat)
    requires m.Valid() && n + 1 < TWO31
    ensures m.Bucket(key, n + 1) in {m.Bucket(key, n), n}
  {
    BucketGrows(m, key, n, n + 1);
  }

  // ------------------------------------------------------------ consistent hashing

  const MAX_RETRY: nat := 5

  /** The conversion of a length to int32. */
  function Int32(n: nat): (r: int)
    ensures MIN32 <= r < TWO31 && r <= n && (n < TWO31 ==> r == n)
  {
    var w := n % TWO32;
    if w < TWO31 then w else w - TWO32
  }

  /** The key of try i for a 32-bit hash sum. */
  function TryKey(sum: nat, i: nat): Key
    requires sum < TWO32 && i < MAX_RETRY
  {
    sum + i
  }

  /** The bucket that try i looks at. */
  function Probe(m: Machine, sum: nat, i: nat, n: nat): (p: nat)
    requires m.Valid() && sum < TWO32 && i < MAX_RETRY && n > 0
    ensures p < n
  {
    m.Bucket(TryKey(sum, i), Int32(n))
  }

  /** The first try from i on that finds a proxy alive, if there is one. */
  function FirstLiving(m: Machine, sum: nat, alive: seq<bool>, i: nat): (t: nat)
    requires m.Valid() && sum < TWO32 && |alive| > 0 && i <= MAX_RETRY
    ensures i <= t <= MAX_RETRY && (t < MAX_RETRY ==> alive[Probe(m, sum, t, |alive|)])
    ensures forall j :: i <= j < t ==> !alive[Probe(m, sum, j, |alive|)]
    decreases MAX_RETRY - i
  {
    if i == MAX_RETRY || alive[Probe(m, sum, i, |alive|)] then i else FirstLiving(m, sum, alive, i + 1)
  }

  /** Where the tries from i on end: at the proxy that the first of them finds alive, or else at the first proxy. */
  function Landing(m: Machine, sum: nat, alive: seq<bool>, i: nat): (p: nat)
    requires m.Valid() && sum < TWO32 && |alive| > 0 && i <= MAX_RETRY
    ensures p < |alive|
  {
    var t := FirstLiving(m, sum, alive, i);
    if t < MAX_RETRY then Probe(m, sum, t, |alive|) else 0
  }

  function Chosen(m: Machine, sum: nat, alive: seq<bool>): (p: nat)
    requires m.Valid() && sum < TWO32 && |alive| > 0
    ensures p < |alive|
  {
    Landing(m, sum, alive, 0)
  }

  method ConsistentHashing(m: Machine, sum: nat, alive: seq<bool>) returns (p: nat)
    requires m.Valid() && sum < TWO32 && |alive| > 0
    ensures p == Chosen(m, sum, alive) && p < |alive|
  {
    var i := 0;
    while i < MAX_RETRY
      invariant i <= MAX_RETRY
      invariant FirstLiving(m, sum, alive, 0) == FirstLiving(m, sum, alive, i)
    {
      var idx := JumpHash(m, TryKey(sum, i), Int32(|alive|));
      if alive[idx] { return idx; }
      i := i + 1;
    }
    p := 0;
  }

  /** The proxy of the first of the keys sum, sum + 1, ..., sum + 4 whose bucket holds a living one; the first proxy if
      there is none. */
  lemma {:induction false} ChosenIs(m: Machine, sum: nat, alive: seq<bool>)
    requires m.Valid() && sum < TWO32 && 0 < |alive| < TWO31
    ensures forall k: Key :: sum <= k < sum + 5 && alive[m.Bucket(k, |alive|)] && AllDead(m, sum, k, alive)
              ==> Chosen(m, sum, alive) == m.Bucket(k, |alive|)
    ensures AllDead(m, sum, sum + 5, alive) ==> Chosen(m, sum, alive) == 0
  {
    var t := FirstLiving(m, sum, alive, 0);
    assert forall i :: 0 <= i < 5 ==> Probe(m, sum, i, |alive|) == m.Bucket(TryKey(sum, i), |alive|);
    forall k: Key | sum <= k < sum + 5 && alive[m.Bucket(k, |alive|)] && AllDead(m, sum, k, alive)
      ensures t == k - sum
    {
      assert TryKey(sum, k - sum) == k;
      assert t < 5 ==> TryKey(sum, t) == sum + t;
    }
  }

  /** No key from a up to b finds a living proxy. */
  ghost predicate AllDead(m: Machine, a: nat, b: nat, alive: seq<bool>)
    requires m.Valid() && |alive| < TWO31 && |alive| > 0
  {
    forall k: Key :: a <= k < b ==> !alive[m.Bucket(k, |alive|)]
  }

  /** The try that decided the choice among the first n proxies now finds a dead one that was added, as no try
      before it finds a living one, and those after it end at yet another old proxy. */
  ghost predicate Sidesteps(m: Machine, sum: nat, alive: seq<bool>, n: nat)
    requires m.Valid() && sum < TWO32 && 0 < n <= |alive|
  {
    var t := FirstLiving(m, sum, alive[..n], 0);
    && t < MAX_RETRY
    && (forall j :: 0 <= j <= t ==> !alive[Probe(m, sum, j, |alive|)])
    && n <= Probe(m, sum, t, |alive|)
    && Landing(m, sum, alive, t + 1) < n && Landing(m, sum, alive, t + 1) != Probe(m, sum, t, n)
  }

  lemma {:induction false} ProbeGrows(m: Machine, sum: nat, i: nat, n: nat, n': nat)
    requires m.Valid() && sum < TWO32 && i < MAX_RETRY && 0 < n <= n' < TWO31
    ensures Probe(m, sum, i, n') == Probe(m, sum, i, n) || n <= Probe(m, sum, i, n')
  {
    BucketGrows(m, TryKey(sum, i), n, n');
  }

  lemma {:induction false} SkipsDead(m: Machine, sum: nat, alive: seq<bool>, t: nat)
    requires m.Valid() && sum < TWO32 && |alive| > 0 && t < FirstLiving(m, sum, alive, 0)
    ensures FirstLiving(m, sum, alive, t + 1) == FirstLiving(m, sum, alive, 0)
  {
  }

  /** When proxies are added at the end of the list, a destination keeps its proxy or moves to an added one,
      exactly if it does not sidestep. */
  lemma {:induction false} ChosenGrowsIff(m: Machine, sum: nat, alive: seq<bool>, n: nat)
    requires m.Valid() && sum < TWO32 && 0 < n <= |alive| < TWO31
    ensures Chosen(m, sum, alive) == Chosen(m, sum, alive[..n]) || n <= Chosen(m, sum, alive)
            <==> !Sidesteps(m, sum, alive, n)
  {
    var t, t' := FirstLiving(m, sum, alive[..n], 0), FirstLiving(m, sum, alive, 0);
    if t < MAX_RETRY {
      ProbeGrows(m, sum, t, n, |alive|);
    }
    if t < t' {
      SkipsDead(m, sum, alive, t);
    } else if t' < MAX_RETRY {
      ProbeGrows(m, sum, t', n, |alive|);
      if t' < t {
        assert !alive[..n][Probe(m, sum, t', n)];
      }
    }
  }

  // ------------------------------------------------------------ a destination that sidesteps

  /** Rounding changes a number by at most a millionth of it. */
  ghost predicate Precise(rnd: real -> real) {
    forall x: real :: 0.0 <= x ==> 0.999999 * x <= rnd(x) <= 1.000001 * x
  }

  /** Any such rounding gives the jump that exact arithmetic gives, if that is not too close to another: j, if the
      factor lies between lo and hi. */
  lemma {:induction false} JumpIs(rnd: real -> real, b: nat, k: nat, j: nat, x: real, d: real, lo: real, hi: real)
    requires Rounds(rnd) && Precise(rnd) && b < TWO31 && k < TWO31 && x == (b + 1) as real && d == (k + 1) as real
    requires 0.0 <= lo && lo * d <= 2147483648.0 <= hi * d
    requires j as real <= 0.999998 * (x * lo) && 1.000003 * (x * hi) < (j + 1) as real
    ensures Jump(rnd, b, k) == j
  {
    var q := Ratio(rnd, k);
    RatioNear(rnd, k, d, lo, hi);
    JumpAt(rnd, b, q, x);
    JumpNear(rnd, x, q, lo, hi, j);
  }

  lemma {:induction false} JumpAt(rnd: real -> real, b: nat, q: real, x: real)
    requires Rounds(rnd) && b < TWO31 && x == (b + 1) as real
    ensures JumpBy(rnd, b, q) == rnd(x * q).Floor
  {
    assert Fixes(rnd, b + 1);
  }

  lemma {:induction false} RatioNear(rnd: real -> real, k: nat, d: real, lo: real, hi: real)
    requires Rounds(rnd) && Precise(rnd) && k < TWO31 && d == (k + 1) as real
    requires 0.0 <= lo && lo * d <= 2147483648.0 <= hi * d
    ensures 0.999999 * lo <= Ratio(rnd, k) <= 1.000001 * hi
  {
    assert Fixes(rnd, k + 1);
    Between(2147483648.0, d, lo, hi);
    assert Ratio(rnd, k) == rnd(2147483648.0 / d);
  }

  lemma {:induction false} Between(a: real, d: real, lo: real, hi: real)
    requires d > 0.0 && lo * d <= a <= hi * d
    ensures lo <= a / d <= hi
  {
    var r := a / d;
    assert r * d == a;
    Cancels(d, lo, r);
    Cancels(d, r, hi);
  }

  lemma {:induction false} JumpNear(rnd: real -> real, x: real, q: real, lo: real, hi: real, j: nat)
    requires Precise(rnd) && x > 0.0 && 0.0 <= lo && 0.999999 * lo <= q <= 1.000001 * hi
    requires j as real <= 0.999998 * (x * lo) && 1.000003 * (x * hi) < (j + 1) as real
    ensures rnd(x * q).Floor == j
  {
    var y, l, h := x * q, x * lo, x * hi;
    NearProduct(x, q, lo, hi, y, l, h);
    FloorNear(rnd, y, l, h, j);
  }

  lemma {:induction false} NearProduct(x: real, q: real, lo: real, hi: real, y: real, l: real, h: real)
    requires x > 0.0 && 0.0 <= lo && 0.999999 * lo <= q <= 1.000001 * hi && y == x * q && l == x * lo && h == x * hi
    ensures 0.999999 * l <= y <= 1.000001 * h && 0.0 <= l
  {
    Grows(x, 0.0, lo);
    Grows(x, 0.999999 * lo, q);
    Grows(x, q, 1.000001 * hi);
    assert x * (0.999999 * lo) == 0.999999 * l && x * (1.000001 * hi) == 1.000001 * h;
  }

  lemma {:induction false} FloorNear(rnd: real -> real, y: real, lo: real, hi: real, j: nat)
    requires Precise(rnd) && 0.0 <= lo && 0.999999 * lo <= y <= 1.000001 * hi
    requires j as real <= 0.999998 * lo && 1.000003 * hi < (j + 1) as real
    ensures rnd(y).Floor == j
  {
    assert 0.999999 * y <= rnd(y) <= 1.000001 * y;
  }

  lemma {:induction false} Cancels(d: real, a: real, b: real)
    requires d > 0.0 && a * d <= b * d
    ensures a <= b
  {
    assert (b - a) * d >= 0.0;
  }

  function Exact(x: real): real {
    x
  }

  lemma {:induction false} ExactRounds()
    ensures Rounds(Exact) && Precise(Exact)
  {
  }

  function ExactLeap(key: Key, b: nat): nat {
    if b < TWO31 then
      ExactRounds();
      JumpBounds(Exact, b, key / TWO33);
      Jump(Exact, b, key / TWO33)
    else b
  }

  /** Exact arithmetic is one of them. */
  lemma {:induction false} ExactFloats()
    ensures Rounds(Exact) && Precise(Exact) && Machine(NextKey, ExactLeap).Floats(Exact)
  {
    ExactRounds();
  }

  // ------------------------------------------------------------ round robin

  /** The index d places after i, going round. */
  function Around(i: nat, d: nat, n: nat): (r: nat)
    requires n > 0
    ensures r < n
  {
    (i + d) % n
  }

  /** The next proxy alive after i is d places on. */
  ghost predicate NextAlive(alive: seq<bool>, i: nat, d: nat)
    requires |alive| > 0
  {
    && 1 <= d <= |alive|
    && alive[Around(i, d, |alive|)]
    && forall e :: 1 <= e < d ==> !alive[Around(i, e, |alive|)]
  }

  class RoundRobin {
    var idx: nat

    constructor ()
      ensures idx == 0
    {
      idx := 0;
    }

    method Pick(alive: seq<bool>) returns (p: nat)
      requires |alive| > 0
      modifies this
      ensures p < |alive|
      ensures true in alive ==> p == idx && Follows(alive, old(idx), idx)
      ensures true !in alive ==> p == 0 && idx == Around(old(idx), |alive|, |alive|)
    {
      var length := |alive|;
      ghost var start := idx;
      var i := 0;
      while i < length
        invariant i <= length
        invariant if i == 0 then idx == start else idx == Around(start, i, length)
        invariant forall e :: 1 <= e <= i ==> !alive[Around(start, e, length)]
      {
        AroundTwice(start, i, 1, length);
        idx := (idx + 1) % length;
        if alive[idx] {
          assert NextAlive(alive, start, i + 1);
          return idx;
        }
        i := i + 1;
      }
      AllVisited(alive, start);
      p := 0;
    }
  }

  /** Going d places and then e more is going d + e places. */
  lemma {:induction false} AroundTwice(i: nat, d: nat, e: nat, n: nat)
    requires n > 0
    ensures Around(Around(i, d, n), e, n) == Around(i, d + e, n)
  {
    FirstRemainder(i + d, e, n);
  }

  lemma {:induction false} FirstRemainder(x: nat, e: nat, n: nat)
    requires n > 0
    ensures (x % n + e) % n == (x + e) % n
  {
    var y, q := x % n + e, x / n;
    Parts(x, n);
    Parts(y, n);
    Sum(q, y / n, n);
    Remainder(x + e, q + y / n, y % n, n);
  }

  lemma {:induction false} Parts(x: nat, n: nat)
    requires n > 0
    ensures x == (x / n) * n + x % n
  {
  }

  lemma {:induction false} Sum(q: nat, p: nat, n: nat)
    ensures (q + p) * n == q * n + p * n
  {
  }

  lemma {:induction false} Distributes(q: nat, p: nat, n: nat)
    ensures q > p ==> q * n >= p * n + n
  {
    if q > p {
      assert q * n - p * n == (q - p) * n;
      assert (q - p) * n == (q - p - 1) * n + n;
    }
  }

  lemma {:induction false} Remainder(x: nat, q: nat, r: nat, n: nat)
    requires 0 <= r < n && x == q * n + r
    ensures x % n == r
  {
    var p := x / n;
    assert x == p * n + x % n;
    Distributes(q, p, n);
    Distributes(p, q, n);
  }

  /** Every proxy is at most one round away. */
  lemma {:induction false} Distance(i: nat, p: nat, n: nat) returns (d: nat)
    requires p < n
    ensures 1 <= d <= n && Around(i, d, n) == p
  {
    var q, r := i / n, i % n;
    if r < p {
      d := p - r;
      Remainder(i + d, q, p, n);
    } else {
      d := p + n - r;
      Remainder(i + d, q + 1, p, n);
    }
  }

  lemma {:induction false} AllVisited(alive: seq<bool>, i: nat)
    requires |alive| > 0 && forall d :: 1 <= d <= |alive| ==> !alive[Around(i, d, |alive|)]
    ensures true !in alive
  {
    forall p | 0 <= p < |alive| ensures !alive[p] {
      var d := Distance(i, p, |alive|);
    }
  }

  ghost predicate Follows(alive: seq<bool>, i: nat, j: nat)
    requires |alive| > 0
  {
    exists d :: NextAlive(alive, i, d) && j == Around(i, d, |alive|)
  }

  /** The indices after successive picks while the same proxies are alive. */
  ghost predicate Picks(alive: seq<bool>, run: seq<nat>)
    requires |alive| > 0
  {
    forall t :: 0 <= t < |run| - 1 ==> Follows(alive, run[t], run[t + 1])
  }

  lemma {:induction false} RestPicks(alive: seq<bool>, run: seq<nat>)
    requires |alive| > 0 && |run| > 0 && Picks(alive, run)
    ensures Picks(alive, run[1..])
  {
    forall t | 0 <= t < |run[1..]| - 1 ensures Follows(alive, run[1..][t], run[1..][t + 1]) {
      assert Follows(alive, run[t + 1], run[t + 1 + 1]);
    }
  }

  lemma {:induction false} PickedWithin(alive: seq<bool>, run: seq<nat>, p: nat, e: nat) returns (t: nat)
    requires p < |alive| && alive[p] && Picks(alive, run)
    requires 1 <= e < |run| && e <= |alive| && Around(run[0], e, |alive|) == p
    ensures 1 <= t <= e && run[t] == p
    decreases e
  {
    assert Follows(alive, run[0], run[0 + 1]);
    var d: nat :| NextAlive(alive, run[0], d) && run[1] == Around(run[0], d, |alive|);
    assert d <= e;
    if d == e {
      return 1;
    }
    AroundTwice(run[0], d, e - d, |alive|);
    RestPicks(alive, run);
    t := PickedWithin(alive, run[1..], p, e - d);
    t := t + 1;
  }

  /** Round robin starves nobody: in as many picks as there are proxies, each proxy alive is picked. */
  lemma {:induction false} NobodyStarves(alive: seq<bool>, run: seq<nat>, p: nat) returns (t: nat)
    requires p < |alive| && alive[p] && Picks(alive, run) && |run| > |alive|
    ensures 1 <= t <= |alive| && run[t] == p
  {
    var e := Distance(run[0], p, |alive|);
    t := PickedWithin(alive, run, p, e);
  }
}
