/** What every run of the fake-IP pool keeps (component/fakeip/pool.go).

    As long as an offset is free for each new host, the cache is a sequence of
    adjacent entry pairs, one pair per binding of a host to an offset, and the pool
    behaves as a least-recently-used cache of bindings. */
module FakeIpRuns {
  import opened Collections
  import opened Lru
  import opened Bytes
  import opened FakeIp

  /** A host and its slot; `hostFirst` tells which of the two entries is the older one. */
  datatype Binding = Binding(host: string, slot: nat, hostFirst: bool)

  function HostEntry(min: nat, b: Binding): Entry<Key, Value> {
    Entry(Host(b.host), Address(AddressAt(min, b.slot)), 0)
  }

  function SlotEntry(b: Binding): Entry<Key, Value> {
    Entry(Offset(b.slot), Name(b.host), 0)
  }

  function Pair(min: nat, b: Binding): Entries {
    if b.hostFirst then [HostEntry(min, b), SlotEntry(b)] else [SlotEntry(b), HostEntry(min, b)]
  }

  function Flatten(min: nat, bs: seq<Binding>): (s: Entries)
    ensures |s| == 2 * |bs|
  {
    if bs == [] then [] else Pair(min, bs[0]) + Flatten(min, bs[1..])
  }

  ghost predicate Good(bs: seq<Binding>, slots: int) {
    && (forall i :: 0 <= i < |bs| ==> bs[i].slot < slots)
    && (forall i, j :: 0 <= i < j < |bs| ==> bs[i].host != bs[j].host && bs[i].slot != bs[j].slot)
  }

  /** The cache of `st` is the sequence of pairs of `bs`. */
  ghost predicate Paired(st: State, bs: seq<Binding>) {
    st.entries == Flatten(st.min, bs) && Good(bs, st.Slots())
  }

  // ------------------------------------------------------------ pairs in a list

  lemma {:induction false} FlattenConcat(min: nat, a: seq<Binding>, b: seq<Binding>)
    ensures Flatten(min, a + b) == Flatten(min, a) + Flatten(min, b)
  {
    if a == [] {
      assert a + b == b;
    } else {
      FlattenConcat(min, a[1..], b);
      assert (a + b)[1..] == a[1..] + b;
      Associates(Pair(min, a[0]), Flatten(min, a[1..]), Flatten(min, b));
    }
  }

  lemma {:induction false} FlattenSplit(min: nat, bs: seq<Binding>, i: nat)
    requires i < |bs|
    ensures Flatten(min, bs) == Flatten(min, bs[..i]) + Pair(min, bs[i]) + Flatten(min, bs[i + 1..])
  {
    assert bs == bs[..i] + ([bs[i]] + bs[i + 1..]);
    FlattenConcat(min, bs[..i], [bs[i]] + bs[i + 1..]);
    FlattenConcat(min, [bs[i]], bs[i + 1..]);
    assert Flatten(min, [bs[i]]) == Pair(min, bs[i]);
  }

  lemma {:induction false} FlattenAppend(min: nat, bs: seq<Binding>, b: Binding)
    ensures Flatten(min, bs + [b]) == Flatten(min, bs) + Pair(min, b)
  {
    FlattenConcat(min, bs, [b]);
    assert Flatten(min, [b]) == Pair(min, b);
  }

  ghost predicate Mentions(bs: seq<Binding>, key: Key) {
    exists i :: 0 <= i < |bs| && (key == Offset(bs[i].slot) || key == Host(bs[i].host))
  }

  lemma {:induction false} FlattenKeys(min: nat, bs: seq<Binding>, key: Key)
    ensures key in Keys(Flatten(min, bs)) <==> Mentions(bs, key)
  {
    if bs != [] {
      FlattenKeys(min, bs[1..], key);
      KeysConcat(Pair(min, bs[0]), Flatten(min, bs[1..]));
      var two := Keys(Pair(min, bs[0]));
      assert two == [two[0], two[1]];
      assert key in two <==> key == Offset(bs[0].slot) || key == Host(bs[0].host);
      if Mentions(bs, key) {
        var i :| 0 <= i < |bs| && (key == Offset(bs[i].slot) || key == Host(bs[i].host));
        if i > 0 {
          assert bs[1..][i - 1] == bs[i];
          assert Mentions(bs[1..], key);
        }
      }
      if Mentions(bs[1..], key) {
        var i :| 0 <= i < |bs[1..]| && (key == Offset(bs[1..][i].slot) || key == Host(bs[1..][i].host));
        assert bs[i + 1] == bs[1..][i];
      }
    }
  }

  lemma {:induction false} FindAt(p: Entries, e: Entry<Key, Value>, q: Entries)
    requires e.key !in Keys(p)
    ensures Find(p + [e] + q, e.key) == |p|
  {
    var s := p + [e] + q;
    assert s[|p|] == e;
    assert forall j :: 0 <= j < |p| ==> s[j] == p[j] && Keys(p)[j] == p[j].key;
  }

  lemma {:induction false} GetAt(c: Config, p: Entries, e: Entry<Key, Value>, q: Entries)
    requires c.maxAge == 0 && e.key !in Keys(p)
    ensures GetEntry(c, p + [e] + q, e.key, 0, 0) == (Outcome(p + q + [e], []), Some(e))
  {
    FindAt(p, e, q);
    assert Drop(p + [e] + q, |p|) == p + q;
  }

  lemma {:induction false} GetPair(c: Config, p: Entries, e: Entry<Key, Value>, f: Entry<Key, Value>, q: Entries)
    requires c.maxAge == 0 && e.key !in Keys(p) && f.key !in Keys(p)
    ensures GetEntry(c, p + [e, f] + q, e.key, 0, 0) == (Outcome(p + [f] + (q + [e]), []), Some(e))
    ensures GetEntry(c, p + [f] + (q + [e]), f.key, 0, 0).0.kept == p + q + [e, f]
  {
    GetAt(c, p, e, [f] + q);
    assert p + [e, f] + q == p + [e] + ([f] + q);
    assert p + ([f] + q) + [e] == p + [f] + (q + [e]);
    GetAt(c, p, f, q + [e]);
    assert p + (q + [e]) + [f] == p + q + [e, f];
  }

  lemma {:induction false} GetPairSwapped(c: Config, p: Entries, e: Entry<Key, Value>, f: Entry<Key, Value>, q: Entries)
    requires c.maxAge == 0 && e.key != f.key && e.key !in Keys(p) && f.key !in Keys(p)
    ensures GetEntry(c, p + [f, e] + q, e.key, 0, 0) == (Outcome(p + [f] + (q + [e]), []), Some(e))
    ensures GetEntry(c, p + [f] + (q + [e]), f.key, 0, 0).0.kept == p + q + [e, f]
  {
    KeysConcat(p, [f]);
    assert Keys([f]) == [f.key];
    GetAt(c, p + [f], e, q);
    assert p + [f, e] + q == (p + [f]) + [e] + q;
    assert (p + [f]) + q + [e] == p + [f] + (q + [e]);
    GetAt(c, p, f, q + [e]);
    assert p + (q + [e]) + [f] == p + q + [e, f];
  }

  /** Getting both keys of the i-th pair, in either order, moves it to the back in that order. */
  lemma {:induction false} TouchPair(st: State, bs: seq<Binding>, i: nat, hostFirst: bool)
    requires st.Typed() && Paired(st, bs) && i < |bs|
    ensures var b := bs[i].(hostFirst := hostFirst);
            var (e, f) := (Pair(st.min, b)[0], Pair(st.min, b)[1]);
            var (o, hit) := GetEntry(st.CacheConfig(), st.entries, e.key, 0, 0);
            && hit == Some(e)
            && GetEntry(st.CacheConfig(), o.kept, f.key, 0, 0).0.kept == Flatten(st.min, Drop(bs, i) + [b])
  {
    var b, c := bs[i].(hostFirst := hostFirst), st.CacheConfig();
    var e, f := Pair(st.min, b)[0], Pair(st.min, b)[1];
    var p, q := Flatten(st.min, bs[..i]), Flatten(st.min, bs[i + 1..]);
    FlattenSplit(st.min, bs, i);
    FlattenKeys(st.min, bs[..i], e.key);
    FlattenKeys(st.min, bs[..i], f.key);
    if bs[i].hostFirst == hostFirst {
      GetPair(c, p, e, f, q);
    } else {
      GetPairSwapped(c, p, e, f, q);
    }
    FlattenConcat(st.min, bs[..i], bs[i + 1..]);
    FlattenAppend(st.min, Drop(bs, i), b);
    assert Pair(st.min, b) == [e, f];
  }

  // ------------------------------------------------------------ allocation

  lemma {:induction false} ProbedAll(s: Entries, slots: nat, current: nat, k: nat, j: nat)
    requires current < slots && k < j <= slots
    requires Taken(s, Probe(s, slots, current, k))
    ensures Taken(s, (current + j) % slots)
    decreases slots - k
  {
    if k + 1 < j {
      ProbedAll(s, slots, current, k + 1, j);
    }
  }

  lemma {:induction false} ModUnique(x: int, m: nat, q: int, r: nat)
    requires r < m && x == m * q + r
    ensures x % m == r
  {
    var d := x / m - q;
    assert m * (x / m) == m * q + m * d;
    assert m * d == r - x % m;
    MultipleFar(m, d);
  }

  lemma {:induction false} MultipleFar(m: int, d: int)
    requires m > 0
    ensures (d >= 1 ==> m * d >= m) && (d <= -1 ==> m * d <= -m)
  {
  }

  lemma {:induction false} ModOnce(n: nat, m: nat)
    requires n < m
    ensures n % m == n && (n + m) % m == n
  {
    ModUnique(n, m, 0, n);
    ModUnique(n + m, m, 1, n);
  }

  /** `get` overwrites an offset only if every offset is taken. */
  lemma {:induction false} OverwritesLast(s: Entries, slots: nat, current: nat, n: nat)
    requires current < slots && n < slots
    requires Taken(s, Probe(s, slots, current, 0))
    ensures Taken(s, n)
  {
    var j := if n > current then n - current else n + slots - current;
    ModOnce(n, slots);
    assert current + j == n || current + j == n + slots;
    ProbedAll(s, slots, current, 0, j);
  }

  lemma {:induction false} SlotSet(bs: seq<Binding>, slots: int) returns (used: set<nat>)
    requires Good(bs, slots)
    ensures |used| == |bs| && forall n: nat :: n in used <==> exists i :: 0 <= i < |bs| && bs[i].slot == n
  {
    if bs == [] {
      used := {};
    } else {
      var rest := SlotSet(bs[1..], slots);
      used := rest + {bs[0].slot};
      assert forall i :: 0 < i < |bs| ==> bs[i] == bs[1..][i - 1];
    }
  }

  lemma {:induction false} TakenIff(min: nat, bs: seq<Binding>, n: nat)
    ensures Taken(Flatten(min, bs), n) <==> exists i :: 0 <= i < |bs| && bs[i].slot == n
  {
    FlattenKeys(min, bs, Offset(n));
    AbsentKey(Flatten(min, bs), Offset(n));
    if i :| 0 <= i < |bs| && bs[i].slot == n {
      assert Mentions(bs, Offset(n));
    }
  }

  lemma {:induction false} RangeSize(n: nat) returns (r: set<nat>)
    ensures |r| == n && forall i: nat :: i in r <==> i < n
  {
    if n == 0 {
      r := {};
    } else {
      r := RangeSize(n - 1);
      r := r + {n - 1};
    }
  }

  /** With fewer bindings than slots the allocator finds a free slot. */
  lemma {:induction false} FreeSlot(st: State, bs: seq<Binding>)
    requires st.Typed() && Paired(st, bs) && |bs| < st.Slots()
    ensures !Taken(st.entries, Probe(st.entries, st.Slots(), st.offset, 0))
  {
    var slots := st.Slots();
    if Taken(st.entries, Probe(st.entries, slots, st.offset, 0)) {
      var used := SlotSet(bs, slots);
      var all := RangeSize(slots);
      forall n | n in all
        ensures n in used
      {
        OverwritesLast(st.entries, slots, st.offset, n);
        TakenIff(st.min, bs, n);
      }
      SubsetSize(all, used);
    }
  }

  // ------------------------------------------------------------ simulation

  /** A most-recently-used list of at most `size` bindings (unbounded if size <= 0) after the use of `b`. */
  function Use(bs: seq<Binding>, size: int, b: Binding): seq<Binding> {
    var i := PlaceOf(bs, b.host);
    (if i < |bs| then Drop(bs, i) else if 0 < size <= |bs| then bs[1..] else bs) + [b]
  }

  function PlaceOf(bs: seq<Binding>, host: string): (i: nat)
    ensures i <= |bs|
    ensures i < |bs| ==> bs[i].host == host
    ensures forall j :: 0 <= j < i ==> bs[j].host != host
  {
    if bs == [] || bs[0].host == host then 0 else 1 + PlaceOf(bs[1..], host)
  }

  lemma {:induction false} PlaceIs(bs: seq<Binding>, slots: int, i: nat)
    requires Good(bs, slots) && i < |bs|
    ensures PlaceOf(bs, bs[i].host) == i
  {
  }

  lemma {:induction false} GoodAfterDrop(bs: seq<Binding>, slots: int, i: nat, b: Binding)
    requires Good(bs, slots) && i < |bs| && b.slot < slots
    requires (b.host == bs[i].host && b.slot == bs[i].slot) ||
             (forall j :: 0 <= j < |bs| ==> bs[j].host != b.host && (j != i ==> bs[j].slot != b.slot))
    ensures Good(Drop(bs, i) + [b], slots)
  {
    var d := Drop(bs, i) + [b];
    assert forall j :: 0 <= j < |d| - 1 ==> d[j] == bs[if j < i then j else j + 1];
  }

  /** A hit on the i-th binding, from either side. */
  lemma {:induction false} TouchSimulates(st: State, bs: seq<Binding>, i: nat, hostFirst: bool)
    requires st.Typed() && Paired(st, bs) && i < |bs|
    ensures var b := bs[i].(hostFirst := hostFirst);
            && Use(bs, st.size, b) == Drop(bs, i) + [b]
            && Good(Use(bs, st.size, b), st.Slots())
  {
    PlaceIs(bs, st.Slots(), i);
    GoodAfterDrop(bs, st.Slots(), i, bs[i].(hostFirst := hostFirst));
  }

  lemma {:induction false} LookupHit(st: State, bs: seq<Binding>, i: nat)
    requires st.Typed() && Paired(st, bs) && i < |bs|
    ensures var b := bs[i].(hostFirst := true);
            var (st', ip) := Lookup(st, b.host);
            && Paired(st', Use(bs, st.size, b)) && st'.offset == st.offset && ip == AddressAt(st.min, b.slot)
  {
    SlotOfAddress(st.min, bs[i].slot);
    TouchPair(st, bs, i, true);
    TouchSimulates(st, bs, i, true);
  }

  lemma {:induction false} LookBackHit(st: State, bs: seq<Binding>, ip: seq<byte>, i: nat)
    requires st.Typed() && Paired(st, bs) && i < |bs| && To4(ip) == Some(AddressAt(st.min, bs[i].slot))
    ensures var b := bs[i].(hostFirst := false);
            var (st', host) := LookBack(st, ip);
            && Paired(st', Use(bs, st.size, b)) && host == Some(b.host)
  {
    SlotOfAddress(st.min, bs[i].slot);
    TouchPair(st, bs, i, false);
    TouchSimulates(st, bs, i, false);
  }

  lemma {:induction false} LookBackMiss(st: State, bs: seq<Binding>, ip: seq<byte>)
    requires st.Typed() && Paired(st, bs)
    requires To4(ip).Some? ==> forall i :: 0 <= i < |bs| ==> To4(ip).value != AddressAt(st.min, bs[i].slot)
    ensures LookBack(st, ip) == (st, None) && !Exist(st, ip)
  {
    if To4(ip).Some? {
      var slot := SlotOf(st.min, To4(ip).value);
      AddressOfSlot(st.min, To4(ip).value);
      TakenIff(st.min, bs, slot);
    }
  }

  lemma {:induction false} PushOne(c: Config, s: Entries, e: Entry<Key, Value>)
    requires e.key !in Keys(s)
    ensures Store(c, s, e).kept == (if 0 < c.maxSize <= |s| then s[1..] else s) + [e]
  {
    AbsentKey(s, e.key);
  }

  lemma {:induction false} StoreAbsent(c: Config, s: Entries, e: Entry<Key, Value>, key: Key)
    requires e.key !in Keys(s) && key !in Keys(s) && e.key != key
    ensures key !in Keys(Store(c, s, e).kept)
  {
    PushOne(c, s, e);
    KeysConcat(s, [e]);
    assert Keys([e]) == [e.key];
    assert s != [] ==> Keys(s[1..]) == Keys(s)[1..];
    if s != [] {
      KeysConcat(s[1..], [e]);
    }
  }

  lemma {:induction false} PushTwo(c: Config, s: Entries, o: Entry<Key, Value>, h: Entry<Key, Value>, size: int, n: nat)
    requires o.key !in Keys(s) && h.key !in Keys(s) && o.key != h.key
    requires c.maxSize == 2 * size && |s| == 2 * n && (size > 0 ==> n <= size)
    ensures Store(c, Store(c, s, o).kept, h).kept == (if 0 < c.maxSize <= |s| then s[2..] else s) + [o, h]
  {
    var named := Store(c, s, o).kept;
    PushOne(c, s, o);
    StoreAbsent(c, s, o, h.key);
    PushOne(c, named, h);
    PushedTwice(size, n, s, o, h);
  }

  lemma {:induction false} PushedTwice<T>(size: int, n: nat, s: seq<T>, o: T, h: T)
    requires |s| == 2 * n && (size > 0 ==> n <= size)
    ensures var max := 2 * size;
            var named := (if 0 < max <= |s| then s[1..] else s) + [o];
            (if 0 < max <= |named| then named[1..] else named) + [h] == (if 0 < max <= |s| then s[2..] else s) + [o, h]
  {
    if 0 < size <= n {
      assert (s[1..] + [o])[1..] == s[2..] + [o];
    }
  }

  lemma {:induction false} PushedPairs(min: nat, slots: int, size: int, bs: seq<Binding>, b: Binding)
    requires Good(bs, slots) && b.slot < slots && PlaceOf(bs, b.host) == |bs|
    requires forall i :: 0 <= i < |bs| ==> bs[i].slot != b.slot
    ensures var s := Flatten(min, bs);
            && Flatten(min, Use(bs, size, b)) == (if 0 < size <= |bs| then s[2..] else s) + Pair(min, b)
            && Good(Use(bs, size, b), slots)
  {
    if 0 < size <= |bs| {
      FlattenSplit(min, bs, 0);
      assert Drop(bs, 0) == bs[1..];
      GoodAfterDrop(bs, slots, 0, b);
      FlattenAppend(min, bs[1..], b);
    } else {
      FlattenAppend(min, bs, b);
    }
  }

  lemma {:induction false} NewKeys(st: State, bs: seq<Binding>, host: string)
    requires st.Typed() && Paired(st, bs) && PlaceOf(bs, host) == |bs| && |bs| < st.Slots()
    ensures var slot := Probe(st.entries, st.Slots(), st.offset, 0);
            && Host(host) !in Keys(st.entries) && Offset(slot) !in Keys(st.entries)
            && forall i :: 0 <= i < |bs| ==> bs[i].slot != slot
  {
    var slot := Probe(st.entries, st.Slots(), st.offset, 0);
    FreeSlot(st, bs);
    TakenIff(st.min, bs, slot);
    AbsentHost(st.min, bs, host);
    AbsentKey(st.entries, Offset(slot));
  }

  /** The state after a new pair has gone in. */
  function Pushed(st: State, b: Binding): State {
    var s := st.entries;
    st.(offset := b.slot, entries := (if 0 < 2 * st.size <= |s| then s[2..] else s) + Pair(st.min, b))
  }

  lemma {:induction false} LookupPushes(st: State, host: string, n: nat)
    requires st.Typed() && |st.entries| == 2 * n && (st.size > 0 ==> n <= st.size)
    requires Host(host) !in Keys(st.entries)
    requires Offset(Probe(st.entries, st.Slots(), st.offset, 0)) !in Keys(st.entries)
    ensures var slot := Probe(st.entries, st.Slots(), st.offset, 0);
            Lookup(st, host) == (Pushed(st, Binding(host, slot, false)), AddressAt(st.min, slot))
  {
    var b := Binding(host, Probe(st.entries, st.Slots(), st.offset, 0), false);
    AbsentKey(st.entries, Host(host));
    PushTwo(st.CacheConfig(), st.entries, SlotEntry(b), HostEntry(st.min, b), st.size, n);
  }

  /** A new host when a slot is free: both entries go in, and a full cache loses its two oldest ones. */
  lemma {:induction false} LookupMiss(st: State, bs: seq<Binding>, host: string)
    requires st.Typed() && Paired(st, bs) && PlaceOf(bs, host) == |bs|
    requires |bs| < st.Slots() && (st.size > 0 ==> |bs| <= st.size)
    ensures var slot := Probe(st.entries, st.Slots(), st.offset, 0);
            var b := Binding(host, slot, false);
            && Lookup(st, host) == (Pushed(st, b), AddressAt(st.min, slot))
            && Paired(Pushed(st, b), Use(bs, st.size, b)) && Pushed(st, b).offset == slot
  {
    var slot := Probe(st.entries, st.Slots(), st.offset, 0);
    var b := Binding(host, slot, false);
    NewKeys(st, bs, host);
    LookupPushes(st, host, |bs|);
    PushedState(st, bs, b);
  }

  lemma {:induction false} PushedState(st: State, bs: seq<Binding>, b: Binding)
    requires st.Typed() && Paired(st, bs) && PlaceOf(bs, b.host) == |bs| && b.slot < st.Slots()
    requires st.size > 0 ==> |bs| <= st.size
    requires forall i :: 0 <= i < |bs| ==> bs[i].slot != b.slot
    ensures Paired(Pushed(st, b), Use(bs, st.size, b)) && Pushed(st, b).offset == b.slot
  {
    PushedPairs(st.min, st.Slots(), st.size, bs, b);
  }

  lemma {:induction false} AbsentHost(min: nat, bs: seq<Binding>, host: string)
    ensures PlaceOf(bs, host) == |bs| <==> Host(host) !in Keys(Flatten(min, bs))
  {
    FlattenKeys(min, bs, Host(host));
    if PlaceOf(bs, host) < |bs| {
      assert Mentions(bs, Host(host));
    }
  }

  /** With a single slot and room for a single binding the overwritten host is also the evicted one. */
  lemma {:induction false} LookupReplaces(st: State, b: Binding, host: string)
    requires st.Typed() && Paired(st, [b]) && st.size == 1 == st.Slots() && b.host != host
    ensures var (st', ip) := Lookup(st, host);
            && Paired(st', [Binding(host, 0, false)]) && ip == AddressAt(st.min, 0)
  {
    var n, stale := Binding(host, 0, false), HostEntry(st.min, b);
    var o, h := SlotEntry(n), HostEntry(st.min, n);
    assert Flatten(st.min, [b]) == Pair(st.min, b) && Flatten(st.min, [n]) == [o, h];
    assert Probe(st.entries, 1, 0, 0) == 0;
    assert Find(st.entries, Host(host)) == 2;
    StoresOver(st.CacheConfig(), st.entries, SlotEntry(b), stale, o, h);
  }

  /** In a full cache of two entries. */
  lemma {:induction false} StoresOver(c: Config, s: Entries, was: Entry<Key, Value>, stale: Entry<Key, Value>,
                                      o: Entry<Key, Value>, h: Entry<Key, Value>)
    requires c.maxSize == 2 && was.key == o.key != stale.key && h.key !in [o.key, stale.key]
    requires s == [was, stale] || s == [stale, was]
    ensures Store(c, Store(c, s, o).kept, h).kept == [o, h]
  {
    assert Store(c, s, o).kept == [stale, o];
    assert Find([stale, o], h.key) == 2;
    assert [stale, o] + [h] == [stale, o, h];
  }

  /** The cache sizes for which the two directions always agree. */
  predicate Regime(size: int, slots: int) {
    1 <= size < slots || size == slots == 1
  }

  ghost predicate Simulates(st: State, bs: seq<Binding>) {
    Paired(st, bs) && |bs| <= st.size && Regime(st.size, st.Slots())
  }

  lemma {:induction false} LookupSimulates(st: State, bs: seq<Binding>, host: string) returns (b: Binding)
    requires st.Typed() && Simulates(st, bs)
    ensures b.host == host && (PlaceOf(bs, host) < |bs| ==> b.slot == bs[PlaceOf(bs, host)].slot)
    ensures Simulates(Lookup(st, host).0, Use(bs, st.size, b)) && Lookup(st, host).1 == AddressAt(st.min, b.slot)
  {
    var i := PlaceOf(bs, host);
    if i < |bs| {
      b := bs[i].(hostFirst := true);
      LookupHit(st, bs, i);
    } else if |bs| < st.Slots() {
      b := Binding(host, Probe(st.entries, st.Slots(), st.offset, 0), false);
      LookupMiss(st, bs, host);
    } else {
      assert bs == [bs[0]];
      b := Binding(host, 0, false);
      LookupReplaces(st, bs[0], host);
    }
  }

  /** The host that an operation uses: by Lookup, or by a LookBack that finds it. */
  function UsedBy(st: State, op: PoolOp): Option<string>
    requires st.Typed()
  {
    match op
    case LookupOp(host) => Some(host)
    case LookBackOp(ip) => LookBack(st, ip).1
    case ExistOp(_) => None
  }

  lemma {:induction false} StepSimulates(st: State, bs: seq<Binding>, op: PoolOp) returns (b: Binding)
    requires st.Typed() && Simulates(st, bs)
    ensures UsedBy(st, op).None? ==> Step(st, op) == st
    ensures UsedBy(st, op).Some? ==>
              && b.host == UsedBy(st, op).value
              && (PlaceOf(bs, b.host) < |bs| ==> b.slot == bs[PlaceOf(bs, b.host)].slot)
              && Simulates(Step(st, op), Use(bs, st.size, b))
  {
    b := Binding("", 0, false);
    match op {
      case LookupOp(host) =>
        b := LookupSimulates(st, bs, host);
      case LookBackOp(ip) =>
        if i :| 0 <= i < |bs| && To4(ip) == Some(AddressAt(st.min, bs[i].slot)) {
          b := bs[i].(hostFirst := false);
          LookBackHit(st, bs, ip, i);
          PlaceIs(bs, st.Slots(), i);
        } else {
          LookBackMiss(st, bs, ip);
        }
      case ExistOp(ip) =>
    }
  }

  lemma {:induction false} RunSimulates(st: State, bs: seq<Binding>, ops: seq<PoolOp>) returns (bs': seq<Binding>)
    requires st.Typed() && Simulates(st, bs)
    ensures Simulates(Steps(st, ops), bs')
  {
    bs' := bs;
    if ops != [] {
      var prefix, op := ops[..|ops| - 1], ops[|ops| - 1];
      bs' := RunSimulates(st, bs, prefix);
      var b := StepSimulates(Steps(st, prefix), bs', op);
      if UsedBy(Steps(st, prefix), op).Some? {
        bs' := Use(bs', st.size, b);
      }
    }
  }

  // ------------------------------------------------------------ the bijection

  function Bound(s: Entries, key: Key): Option<Value> {
    var i := Find(s, key);
    if i < |s| then Some(s[i].value) else None
  }

  /** A host is cached with an address exactly when the address leads back to the host. */
  ghost predicate Bijective(st: State) {
    forall host, ip :: Bound(st.entries, Host(host)) == Some(Address(ip))
                       <==> Bound(st.entries, Offset(SlotOf(st.min, ip))) == Some(Name(host))
  }

  lemma {:induction false} BoundAt(min: nat, bs: seq<Binding>, slots: int, i: nat)
    requires Good(bs, slots) && i < |bs|
    ensures Bound(Flatten(min, bs), Host(bs[i].host)) == Some(Address(AddressAt(min, bs[i].slot)))
    ensures Bound(Flatten(min, bs), Offset(bs[i].slot)) == Some(Name(bs[i].host))
  {
    var p, q := Flatten(min, bs[..i]), Flatten(min, bs[i + 1..]);
    var e, f := Pair(min, bs[i])[0], Pair(min, bs[i])[1];
    FlattenSplit(min, bs, i);
    FlattenKeys(min, bs[..i], e.key);
    FlattenKeys(min, bs[..i], f.key);
    assert Pair(min, bs[i]) == [e, f];
    FindPair(p, e, f, q);
  }

  lemma {:induction false} FindPair(p: Entries, e: Entry<Key, Value>, f: Entry<Key, Value>, q: Entries)
    requires e.key !in Keys(p) && f.key !in Keys(p) && e.key != f.key
    ensures var s := p + [e, f] + q;
            Find(s, e.key) == |p| && Find(s, f.key) == |p| + 1 && s[|p|] == e && s[|p| + 1] == f
  {
    FindAt(p, e, [f] + q);
    assert p + [e] + ([f] + q) == p + [e, f] + q;
    KeysConcat(p, [e]);
    assert Keys([e]) == [e.key];
    FindAt(p + [e], f, q);
    assert (p + [e]) + [f] + q == p + [e, f] + q;
  }

  lemma {:induction false} BoundHost(min: nat, bs: seq<Binding>, slots: int, host: string)
    requires Good(bs, slots)
    ensures var i := PlaceOf(bs, host);
            Bound(Flatten(min, bs), Host(host)) == if i < |bs| then Some(Address(AddressAt(min, bs[i].slot))) else None
  {
    AbsentHost(min, bs, host);
    AbsentKey(Flatten(min, bs), Host(host));
    if PlaceOf(bs, host) < |bs| {
      BoundAt(min, bs, slots, PlaceOf(bs, host));
    }
  }

  lemma {:induction false} PairedIsBijective(st: State, bs: seq<Binding>)
    requires st.Typed() && Paired(st, bs)
    ensures Bijective(st)
  {
    forall host, ip
      ensures Bound(st.entries, Host(host)) == Some(Address(ip))
              <==> Bound(st.entries, Offset(SlotOf(st.min, ip))) == Some(Name(host))
    {
      Agree(st.min, bs, st.Slots(), host, ip);
    }
  }

  lemma {:induction false} BoundSlot(min: nat, bs: seq<Binding>, slots: int, slot: nat, host: string)
    requires Good(bs, slots)
    ensures Bound(Flatten(min, bs), Offset(slot)) == Some(Name(host))
            <==> PlaceOf(bs, host) < |bs| && bs[PlaceOf(bs, host)].slot == slot
  {
    TakenIff(min, bs, slot);
    if i :| 0 <= i < |bs| && bs[i].slot == slot {
      BoundAt(min, bs, slots, i);
      PlaceIs(bs, slots, i);
    }
  }

  lemma {:induction false} Agree(min: nat, bs: seq<Binding>, slots: int, host: string, ip: Ip)
    requires Good(bs, slots) && slots <= TWO32
    ensures Bound(Flatten(min, bs), Host(host)) == Some(Address(ip))
            <==> Bound(Flatten(min, bs), Offset(SlotOf(min, ip))) == Some(Name(host))
  {
    BoundHost(min, bs, slots, host);
    BoundSlot(min, bs, slots, SlotOf(min, ip), host);
    AddressOfSlot(min, ip);
    if PlaceOf(bs, host) < |bs| {
      SlotOfAddress(min, bs[PlaceOf(bs, host)].slot);
    }
  }

  // ------------------------------------------------------------ the limit of the bijection

  /** The i-th of an endless supply of hosts. */
  function HostNo(i: nat): (h: string)
    ensures |h| == i
  {
    seq(i, _ => 'a')
  }

  function Filling(n: nat): seq<PoolOp> {
    if n == 0 then [] else Filling(n - 1) + [LookupOp(HostNo(n - 1))]
  }

  /** The slot of the i-th host, counting from one: 1, 2, ..., slots - 1, 0. */
  function SlotNo(i: nat, slots: nat): nat {
    if i < slots then i else 0
  }

  function FillingBinding(i: nat, slots: nat): Binding {
    Binding(HostNo(i), SlotNo(i + 1, slots), false)
  }

  /** The bindings of the hosts from lo up to k. */
  function Range(lo: nat, k: nat, slots: nat): (bs: seq<Binding>)
    requires lo <= k
    ensures |bs| == k - lo && forall i :: 0 <= i < |bs| ==> bs[i] == FillingBinding(lo + i, slots)
  {
    seq(k - lo, i requires 0 <= i < k - lo => FillingBinding(lo + i, slots))
  }

  lemma {:induction false} NextSlot(k: nat, slots: nat)
    requires k < slots
    ensures (k + 1) % slots == SlotNo(k + 1, slots)
  {
    if k + 1 == slots {
      ModOnce(0, slots);
    } else {
      ModOnce(k + 1, slots);
    }
  }

  lemma {:induction false} RangeIsGood(lo: nat, k: nat, slots: nat)
    requires lo <= k <= slots && 0 < slots
    ensures Good(Range(lo, k, slots), slots) && PlaceOf(Range(lo, k, slots), HostNo(k)) == k - lo
  {
    var bs := Range(lo, k, slots);
    assert forall i :: 0 <= i < k - lo ==> |bs[i].host| == lo + i;
  }

  lemma {:induction false} RangeGrows(lo: nat, k: nat, slots: nat)
    requires lo <= k
    ensures Range(lo, k, slots) + [FillingBinding(k, slots)] == Range(lo, k + 1, slots)
    ensures lo < k ==> Range(lo, k, slots)[1..] == Range(lo + 1, k, slots)
  {
  }

  /** What a cache of the given size holds of the first k: all, or the last ones. */
  function Window(size: int, k: nat, slots: nat): seq<Binding> {
    Range(First(size, k), k, slots)
  }

  function First(size: int, k: nat): (lo: nat)
    ensures lo <= k
  {
    if 0 < size < k then k - size else 0
  }

  /** None of them has the next slot. */
  lemma {:induction false} RangeFree(min: nat, lo: nat, k: nat, slots: nat)
    requires lo <= k < slots
    ensures !Taken(Flatten(min, Range(lo, k, slots)), SlotNo(k + 1, slots))
  {
    TakenIff(min, Range(lo, k, slots), SlotNo(k + 1, slots));
  }

  /** The state of a pool in which k hosts have been looked up and no slot has been reused. */
  function Filled(st: State, k: nat): State
    requires st.min < st.max
  {
    st.(offset := SlotNo(k, st.Slots()), entries := Flatten(st.min, Window(st.size, k, st.Slots())))
  }

  lemma {:induction false} FillStep(st: State, k: nat)
    requires st.min < st.max && Filled(st, k).Typed() && k < st.Slots()
    ensures Lookup(Filled(st, k), HostNo(k)) == (Filled(st, k + 1), AddressAt(st.min, SlotNo(k + 1, st.Slots())))
  {
    var mid, bs := Filled(st, k), Window(st.size, k, st.Slots());
    FillReady(mid, k, bs);
    FillUse(st.size, k, st.Slots());
    LookupFree(mid, bs, HostNo(k), SlotNo(k + 1, st.Slots()), Window(st.size, k + 1, st.Slots()));
  }

  lemma {:induction false} FillReady(st: State, k: nat, bs: seq<Binding>)
    requires st.Typed() && st.offset == SlotNo(k, st.Slots()) && k < st.Slots()
    requires st.entries == Flatten(st.min, bs) && bs == Window(st.size, k, st.Slots())
    ensures Paired(st, bs) && PlaceOf(bs, HostNo(k)) == |bs| < st.Slots() && (st.size > 0 ==> |bs| <= st.size)
    ensures Probe(st.entries, st.Slots(), st.offset, 0) == SlotNo(k + 1, st.Slots())
  {
    RangeIsGood(First(st.size, k), k, st.Slots());
    FillProbe(st.min, First(st.size, k), k, st.Slots());
  }

  lemma {:induction false} LookupFree(st: State, bs: seq<Binding>, host: string, slot: nat, used: seq<Binding>)
    requires st.Typed() && Paired(st, bs) && PlaceOf(bs, host) == |bs| < st.Slots() && (st.size > 0 ==> |bs| <= st.size)
    requires Probe(st.entries, st.Slots(), st.offset, 0) == slot && Use(bs, st.size, Binding(host, slot, false)) == used
    ensures Lookup(st, host) == (st.(offset := slot, entries := Flatten(st.min, used)), AddressAt(st.min, slot))
  {
    LookupMiss(st, bs, host);
  }

  lemma {:induction false} FillUse(size: int, k: nat, slots: nat)
    requires 0 < slots && k <= slots
    ensures Use(Window(size, k, slots), size, FillingBinding(k, slots)) == Window(size, k + 1, slots)
  {
    var lo := First(size, k);
    RangeIsGood(lo, k, slots);
    UseAbsent(Range(lo, k, slots), size, FillingBinding(k, slots));
    RangeGrows(lo, k, slots);
    if 0 < size <= k - lo {
      RangeGrows(lo + 1, k, slots);
    }
  }

  lemma {:induction false} UseAbsent(bs: seq<Binding>, size: int, b: Binding)
    requires PlaceOf(bs, b.host) == |bs|
    ensures Use(bs, size, b) == (if 0 < size <= |bs| then bs[1..] else bs) + [b]
  {
  }

  lemma {:induction false} FillProbe(min: nat, lo: nat, k: nat, slots: nat)
    requires lo <= k < slots
    ensures Probe(Flatten(min, Range(lo, k, slots)), slots, SlotNo(k, slots), 0) == SlotNo(k + 1, slots)
  {
    NextSlot(k, slots);
    RangeFree(min, lo, k, slots);
  }

  lemma {:induction false} StepsLast(st: State, ops: seq<PoolOp>, op: PoolOp)
    requires st.Typed()
    ensures Steps(st, ops + [op]) == Step(Steps(st, ops), op)
  {
    assert (ops + [op])[..|ops|] == ops;
  }

  lemma {:induction false} FilledWithNone(st: State)
    requires st.Typed() && st.offset == 0 && st.entries == []
    ensures Steps(st, Filling(0)) == Filled(st, 0)
  {
    assert Range(0, 0, st.Slots()) == [];
  }

  /** Until every slot has been given out, distinct hosts get the slots 1, 2, ..., 0 in turn. */
  lemma {:induction false} Fills(st: State, k: nat)
    requires st.Typed() && st.offset == 0 && st.entries == [] && k <= st.Slots()
    ensures Steps(st, Filling(k)) == Filled(st, k)
  {
    if k == 0 {
      FilledWithNone(st);
    } else {
      var j := k - 1;
      Fills(st, j);
      FillOp(st, j, k);
      FillsOneMore(st, j, k, Filled(st, j), Filled(st, k));
    }
  }

  lemma {:induction false} FillsOneMore(st: State, j: nat, k: nat, mid: State, next: State)
    requires st.Typed() && k == j + 1 && Steps(st, Filling(j)) == mid && Step(mid, LookupOp(HostNo(j))) == next
    ensures Steps(st, Filling(k)) == next
  {
    StepsLast(st, Filling(j), LookupOp(HostNo(j)));
  }

  lemma {:induction false} FillOp(st: State, j: nat, k: nat)
    requires st.min < st.max && j < st.Slots() && k == j + 1 && Filled(st, j).Typed()
    ensures Step(Filled(st, j), LookupOp(HostNo(j))) == Filled(st, k)
  {
    FillStep(st, j);
  }

  lemma {:induction false} ProbeFull(s: Entries, slots: nat, current: nat, k: nat)
    requires current < slots && k < slots
    requires forall n: nat :: n < slots ==> Taken(s, n)
    ensures Probe(s, slots, current, k) == current
    decreases slots - k
  {
    if k + 1 == slots {
      ModOnce(current, slots);
    } else {
      ProbeFull(s, slots, current, k + 1);
    }
  }

  /** Storing a taken slot again, and then a new host: the entry of the slot's former host stays behind. */
  lemma {:induction false} Orphan(c: Config, p: Entries, o: Entry<Key, Value>, h: Entry<Key, Value>,
                                  o': Entry<Key, Value>, h': Entry<Key, Value>) returns (q: Entries)
    requires o.key == o'.key && o.key !in Keys(p) && h'.key !in Keys(p + [o, h])
    requires c.maxSize > 0 ==> |p| + 2 <= c.maxSize && (p == [] ==> 2 < c.maxSize)
    ensures Store(c, Store(c, p + [o, h], o').kept, h').kept == q + [h, o', h']
    ensures q == p || (p != [] && q == p[1..])
  {
    var t := p + [h, o'];
    StoreAgain(c, p, o, h, o');
    SwappedKeys(p, o, h, o', h'.key);
    PushOne(c, t, h');
    q := if 0 < c.maxSize <= |t| then p[1..] else p;
    assert q + [h, o', h'] == (if 0 < c.maxSize <= |t| then t[1..] else t) + [h'];
  }

  lemma {:induction false} SwappedKeys(p: Entries, o: Entry<Key, Value>, h: Entry<Key, Value>, o': Entry<Key, Value>, key: Key)
    requires o.key == o'.key && key !in Keys(p + [o, h])
    ensures key !in Keys(p + [h, o'])
  {
    KeysConcat(p, [o, h]);
    KeysConcat(p, [h, o']);
    assert Keys([h, o']) == [h.key, o.key] && Keys([o, h]) == [o.key, h.key];
  }

  lemma {:induction false} StoreAgain(c: Config, p: Entries, o: Entry<Key, Value>, h: Entry<Key, Value>, o': Entry<Key, Value>)
    requires o.key == o'.key && o.key !in Keys(p)
    ensures Store(c, p + [o, h], o').kept == p + [h, o']
  {
    FindAt(p, o, [h]);
    assert p + [o] + [h] == p + [o, h];
  }

  /** The slot of h now leads to another host. */
  lemma {:induction false} OrphanBound(q: Entries, h: Entry<Key, Value>, o: Entry<Key, Value>, e: Entry<Key, Value>)
    requires h.key !in Keys(q) && o.key !in Keys(q) && h.key != o.key
    ensures Bound(q + [h, o, e], h.key) == Some(h.value) && Bound(q + [h, o, e], o.key) == Some(o.value)
  {
    FindPair(q, h, o, [e]);
    assert q + [h, o] + [e] == q + [h, o, e];
  }

  /** Looking up a host and its address back, in its four-byte or its 16-byte form, leads to the host. */
  ghost predicate LeadsBack(st: State, host: string)
    requires st.Typed()
  {
    var (st', ip) := Lookup(st, host);
    LookBack(st', ip).1 == LookBack(st', [0, 0, 0, 0, 0, 0, 0, 0, 0, 0, 255, 255] + ip).1 == Some(host)
  }

  ghost predicate RoundTrips(st: State)
    requires st.Typed()
  {
    forall host :: LeadsBack(st, host)
  }

  lemma {:induction false} OrphanLooksBack(st: State, q: Entries, h: Entry<Key, Value>, o: Entry<Key, Value>, e: Entry<Key, Value>)
    requires st.Typed() && st.entries == q + [h, o, e]
    requires h.key !in Keys(q) && o.key !in Keys(q) && h.key != o.key && e.key != o.key
    requires h.key.Host? && h.value.Address? && o.key == Offset(SlotOf(st.min, h.value.ip)) && o.value.Name? && o.value.name != h.key.name
    ensures !RoundTrips(st)
  {
    var c, host := st.CacheConfig(), h.key.name;
    GetAt(c, q, h, [o, e]);
    assert q + [h] + [o, e] == st.entries;
    GetAt(c, q, o, [e, h]);
    assert q + [o, e] + [h] == q + [o] + [e, h];
    var (st', ip) := Lookup(st, host);
    assert st'.entries == q + [e, h] + [o] && ip == h.value.ip;
    KeysConcat(q, [e, h]);
    assert Keys([e, h]) == [e.key, h.key];
    GetAt(c, q + [e, h], o, []);
    assert q + [e, h] + [o] + [] == st'.entries;
    assert LookBack(st', ip).1 != Some(host);
    assert !LeadsBack(st, host);
  }

  lemma {:induction false} OverfillsList(st: State, p: Entries, last: Binding, host: string)
    requires st.Typed() && Probe(st.entries, st.Slots(), st.offset, 0) == last.slot
    requires st.entries == p + Pair(st.min, last) && !last.hostFirst && last.host != host
    requires Offset(last.slot) !in Keys(p) && Host(last.host) !in Keys(p) && Host(host) !in Keys(st.entries)
    requires st.size > 0 ==> |p| + 2 <= 2 * st.size && (p == [] ==> 1 < st.size)
    ensures !Bijective(Lookup(st, host).0) && !RoundTrips(Lookup(st, host).0)
  {
    var n, c := Binding(host, last.slot, false), st.CacheConfig();
    var o, h, o', h' := SlotEntry(last), HostEntry(st.min, last), SlotEntry(n), HostEntry(st.min, n);
    AbsentKey(st.entries, Host(host));
    var s := Lookup(st, host).0.entries;
    assert s == Store(c, Store(c, st.entries, o').kept, h').kept;
    var q := Orphan(c, p, o, h, o', h');
    assert p != [] ==> Keys(p[1..]) == Keys(p)[1..];
    OrphanBound(q, h, o', h');
    SlotOfAddress(st.min, last.slot);
    OrphanLooksBack(Lookup(st, host).0, q, h, o', h');
  }

  lemma {:induction false} FilledTakesAll(min: nat, slots: nat)
    ensures forall n: nat :: n < slots ==> Taken(Flatten(min, Range(0, slots, slots)), n)
  {
    var bs := Range(0, slots, slots);
    forall n: nat | n < slots
      ensures Taken(Flatten(min, bs), n)
    {
      assert bs[if n == 0 then slots - 1 else n - 1].slot == n;
      TakenIff(min, bs, n);
    }
  }

  /** One host more than there are slots: the slot of the last host is given away, and that host keeps its address. */
  lemma {:induction false} Overfills(st: State)
    requires st.Typed() && st.offset == 0 && st.entries == Flatten(st.min, Range(0, st.Slots(), st.Slots()))
    requires st.size <= 0 || st.size > st.Slots() || st.size == st.Slots() > 1
    ensures var st' := Lookup(st, HostNo(st.Slots())).0;
            !Bijective(st') && !RoundTrips(st')
  {
    var slots: nat := st.Slots();
    var bs := Range(0, slots, slots);
    RangeIsGood(0, slots, slots);
    FilledTakesAll(st.min, slots);
    ProbeFull(st.entries, slots, 0, 0);
    AbsentHost(st.min, bs, HostNo(slots));
    LastPair(st.min, bs, slots);
    OverfillsList(st, Flatten(st.min, bs[..slots - 1]), bs[slots - 1], HostNo(slots));
  }

  lemma {:induction false} LastPair(min: nat, bs: seq<Binding>, slots: int)
    requires Good(bs, slots) && bs != []
    ensures var (p, b) := (Flatten(min, bs[..|bs| - 1]), bs[|bs| - 1]);
            Flatten(min, bs) == p + Pair(min, b) && Offset(b.slot) !in Keys(p) && Host(b.host) !in Keys(p)
  {
    var b := bs[|bs| - 1];
    FlattenAppend(min, bs[..|bs| - 1], b);
    assert bs == bs[..|bs| - 1] + [b];
    FlattenKeys(min, bs[..|bs| - 1], Offset(b.slot));
    FlattenKeys(min, bs[..|bs| - 1], Host(b.host));
  }

  lemma {:induction false} BoundLookup(st: State, bs: seq<Binding>, host: string)
    requires st.Typed() && Simulates(st, bs)
    ensures var (st', ip) := Lookup(st, host);
            && LookBack(st', ip).1 == Some(host) && Exist(st', ip)
            && Lookup(st', host).1 == ip && Lookup(LookBack(st', ip).0, host).1 == ip
  {
    var (st', ip) := Lookup(st, host);
    var b := LookupSimulates(st, bs, host);
    var bs' := Use(bs, st.size, b);
    var i := |bs'| - 1;
    PlaceIs(bs', st'.Slots(), i);
    LookBackHit(st', bs', ip, i);
    LookupHit(st', bs', i);
    TakenIff(st'.min, bs', b.slot);
    SlotOfAddress(st.min, b.slot);
    LookupAgain(st', bs', ip, i);
  }

  lemma {:induction false} LookupAgain(st: State, bs: seq<Binding>, ip: seq<byte>, i: nat)
    requires st.Typed() && Paired(st, bs) && i < |bs| && To4(ip) == Some(AddressAt(st.min, bs[i].slot))
    ensures Lookup(LookBack(st, ip).0, bs[i].host).1 == AddressAt(st.min, bs[i].slot)
  {
    var b := bs[i].(hostFirst := false);
    LookBackHit(st, bs, ip, i);
    TouchSimulates(st, bs, i, false);
    var bs' := Use(bs, st.size, b);
    LookupHit(LookBack(st, ip).0, bs', |bs'| - 1);
  }

  lemma {:induction false} RegimeSuffices(st: State, ops: seq<PoolOp>)
    requires st.Typed() && Simulates(st, [])
    ensures Bijective(Steps(st, ops)) && RoundTrips(Steps(st, ops))
  {
    var r := Steps(st, ops);
    var bs := RunSimulates(st, [], ops);
    PairedIsBijective(r, bs);
    forall host
      ensures LeadsBack(r, host)
    {
      BoundLookup(r, bs, host);
      SixteenBytes(Lookup(r, host).0, Lookup(r, host).1);
    }
  }

  lemma {:induction false} RegimeNeeded(st: State) returns (ops: seq<PoolOp>)
    requires st.Typed() && st.offset == 0 && st.entries == [] && !Regime(st.size, st.Slots())
    ensures !Bijective(Steps(st, ops)) && !RoundTrips(Steps(st, ops))
  {
    var fill, more := Filling(st.Slots()), LookupOp(HostNo(st.Slots()));
    Fills(st, st.Slots());
    Overfills(Filled(st, st.Slots()));
    StepsLast(st, fill, more);
    ops := fill + [more];
  }

  /** The two directions agree in every reachable state, and every lookup can be undone,
      exactly for these cache sizes. */
  lemma {:induction false} BijectionIff(ipnet: IPNet, size: int)
    requires ipnet.Valid() && New(ipnet, size).Some?
    ensures var st := New(ipnet, size).value;
            && ((forall ops :: Bijective(Steps(st, ops))) <==> Regime(size, st.Slots()))
            && ((forall ops :: RoundTrips(Steps(st, ops))) <==> Regime(size, st.Slots()))
  {
    var st := New(ipnet, size).value;
    if Regime(size, st.Slots()) {
      forall ops
        ensures Bijective(Steps(st, ops)) && RoundTrips(Steps(st, ops))
      {
        RegimeSuffices(st, ops);
      }
    } else {
      var ops := RegimeNeeded(st);
    }
  }

  /** Two cached hosts never share an address where the two directions agree. */
  lemma {:induction false} NoSharedAddress(st: State, host: string, other: string, ip: Ip)
    requires Bijective(st)
    requires Bound(st.entries, Host(host)) == Some(Address(ip)) && Bound(st.entries, Host(other)) == Some(Address(ip))
    ensures host == other
  {
    assert Bound(st.entries, Offset(SlotOf(st.min, ip))) == Some(Name(host));
  }

  // ------------------------------------------------------------ retention

  /** The hosts that a run uses. */
  function Used(st: State, ops: seq<PoolOp>): set<string>
    requires st.Typed()
  {
    if ops == [] then {}
    else
      var prefix := ops[..|ops| - 1];
      Used(st, prefix) +
      match UsedBy(Steps(st, prefix), ops[|ops| - 1])
      case Some(host) => {host}
      case None => {}
  }

  /** The hosts more recent than the one at place i. */
  function Behind(bs: seq<Binding>, i: nat): set<string> {
    set j | i < j < |bs| :: bs[j].host
  }

  /** Since its last use `since` were used: the host holds its slot with just those behind it,
      or they are too many and it is gone. */
  ghost predicate Tracked(bs: seq<Binding>, size: int, host: string, slot: nat, since: set<string>) {
    var i := PlaceOf(bs, host);
    if i < |bs| then bs[i].slot == slot && Behind(bs, i) == since else |since| >= size
  }

  lemma {:induction false} BehindSize(bs: seq<Binding>, slots: int, i: nat)
    requires Good(bs, slots) && i < |bs|
    ensures |Behind(bs, i)| == |bs| - 1 - i
    decreases |bs| - i
  {
    if i + 1 == |bs| {
      assert Behind(bs, i) == {};
    } else {
      BehindSize(bs, slots, i + 1);
      assert Behind(bs, i) == Behind(bs, i + 1) + {bs[i + 1].host};
    }
  }

  lemma {:induction false} BehindDropped(bs: seq<Binding>, k: nat, i: nat)
    requires k < |bs| && i < |bs| && i != k
    ensures var i' := if i < k then i else i - 1;
            && Drop(bs, k)[i'] == bs[i]
            && Behind(bs, i) == Behind(Drop(bs, k), i') + if i < k then {bs[k].host} else {}
  {
    var d, i' := Drop(bs, k), if i < k then i else i - 1;
    forall host | host in Behind(bs, i)
      ensures host in Behind(d, i') || (i < k && host == bs[k].host)
    {
      var j :| i < j < |bs| && bs[j].host == host;
      assert j != k ==> bs[j] == d[if j < k then j else j - 1];
    }
    forall host | host in Behind(d, i')
      ensures host in Behind(bs, i)
    {
      var j :| i' < j < |d| && d[j].host == host;
      assert d[j] == bs[if j < k then j else j + 1];
    }
  }

  /** Moving the binding at k to the back, or a new one for the front. */
  lemma {:induction false} BehindMoved(bs: seq<Binding>, k: nat, b: Binding, i: nat)
    requires k < |bs| && i < |bs| && i != k && (b.host == bs[k].host || k == 0)
    ensures var (bs', i') := (Drop(bs, k) + [b], if i < k then i else i - 1);
            bs'[i'] == bs[i] && Behind(bs', i') == Behind(bs, i) + {b.host}
  {
    BehindDropped(bs, k, i);
    BehindPushed(Drop(bs, k), b, if i < k then i else i - 1);
  }

  lemma {:induction false} BehindPushed(bs: seq<Binding>, b: Binding, i: nat)
    requires i < |bs|
    ensures Behind(bs + [b], i) == Behind(bs, i) + {b.host}
  {
    var bs' := bs + [b];
    assert bs'[|bs|] == b;
    assert forall j :: i < j < |bs| ==> bs'[j] == bs[j];
  }

  lemma {:induction false} AbsentPlace(bs: seq<Binding>, host: string)
    ensures PlaceOf(bs, host) == |bs| <==> forall i :: 0 <= i < |bs| ==> bs[i].host != host
  {
  }

  lemma {:induction false} TrackedPresent(bs: seq<Binding>, slots: int, size: int, b: Binding, i: nat)
    requires Good(bs, slots) && Good(Use(bs, size, b), slots) && |bs| <= size && i < |bs| && bs[i].host != b.host
    ensures Tracked(Use(bs, size, b), size, bs[i].host, bs[i].slot, Behind(bs, i) + {b.host})
  {
    var k := PlaceOf(bs, b.host);
    if k < |bs| {
      TrackedMoved(bs, slots, size, b, k, i);
    } else if size <= |bs| {
      assert Use(bs, size, b) == Drop(bs, 0) + [b];
      if i == 0 {
        TrackedOut(bs, slots, size, b);
      } else {
        TrackedMoved(bs, slots, size, b, 0, i);
      }
    } else {
      BehindPushed(bs, b, i);
      PlaceIs(Use(bs, size, b), slots, i);
    }
  }

  lemma {:induction false} TrackedMoved(bs: seq<Binding>, slots: int, size: int, b: Binding, k: nat, i: nat)
    requires Good(bs, slots) && k < |bs| <= size && i < |bs| && i != k && bs[i].host != b.host && Good(Drop(bs, k) + [b], slots)
    requires b.host == bs[k].host || k == 0
    ensures Tracked(Drop(bs, k) + [b], size, bs[i].host, bs[i].slot, Behind(bs, i) + {b.host})
  {
    BehindMoved(bs, k, b, i);
    PlaceIs(Drop(bs, k) + [b], slots, if i < k then i else i - 1);
  }

  /** The oldest binding goes when a full cache takes a new one. */
  lemma {:induction false} TrackedOut(bs: seq<Binding>, slots: int, size: int, b: Binding)
    requires Good(bs, slots) && 0 < |bs| == size && PlaceOf(bs, b.host) == |bs|
    ensures Tracked(Drop(bs, 0) + [b], size, bs[0].host, bs[0].slot, Behind(bs, 0) + {b.host})
  {
    var bs' := Drop(bs, 0) + [b];
    BehindSize(bs, slots, 0);
    assert forall j :: 0 <= j < |bs'| - 1 ==> bs'[j] == bs[j + 1];
    AbsentPlace(bs', bs[0].host);
    AbsentPlace(bs, b.host);
  }

  lemma {:induction false} TrackedUse(bs: seq<Binding>, slots: int, size: int, b: Binding, host: string, slot: nat, since: set<string>)
    requires Good(bs, slots) && Good(Use(bs, size, b), slots) && |bs| <= size && host != b.host
    requires Tracked(bs, size, host, slot, since)
    ensures Tracked(Use(bs, size, b), size, host, slot, since + {b.host})
  {
    var i, bs' := PlaceOf(bs, host), Use(bs, size, b);
    if i < |bs| {
      TrackedPresent(bs, slots, size, b, i);
    } else {
      StaysAbsent(bs, size, b, host);
      SubsetSize(since, since + {b.host});
    }
  }

  lemma {:induction false} StaysAbsent(bs: seq<Binding>, size: int, b: Binding, host: string)
    requires PlaceOf(bs, host) == |bs| && host != b.host
    ensures PlaceOf(Use(bs, size, b), host) == |Use(bs, size, b)|
  {
    var bs' := Use(bs, size, b);
    AbsentPlace(bs, host);
    AbsentPlace(bs', host);
    var i := PlaceOf(bs, b.host);
    forall j | 0 <= j < |bs'|
      ensures bs'[j].host != host
    {
      if j < |bs'| - 1 {
        assert bs'[j] == bs[if i < |bs| then (if j < i then j else j + 1) else if 0 < size <= |bs| then j + 1 else j];
      }
    }
  }

  lemma {:induction false} TrackedRun(st: State, bs: seq<Binding>, host: string, slot: nat, ops: seq<PoolOp>) returns (bs': seq<Binding>)
    requires st.Typed() && Simulates(st, bs) && Tracked(bs, st.size, host, slot, {}) && host !in Used(st, ops)
    ensures Simulates(Steps(st, ops), bs') && Tracked(bs', st.size, host, slot, Used(st, ops))
  {
    bs' := bs;
    if ops != [] {
      var prefix, op := ops[..|ops| - 1], ops[|ops| - 1];
      bs' := TrackedRun(st, bs, host, slot, prefix);
      var r := Steps(st, prefix);
      var b := StepSimulates(r, bs', op);
      if UsedBy(r, op).Some? {
        TrackedUse(bs', st.Slots(), st.size, b, host, slot, Used(st, prefix));
        bs' := Use(bs', st.size, b);
      }
    }
  }

  /** A host keeps its address exactly as long as fewer than `size` other hosts have been used
      since its own last use; after that it is gone from the cache. */
  lemma {:induction false} RetentionIff(ipnet: IPNet, size: int, before: seq<PoolOp>, op: PoolOp, after: seq<PoolOp>)
    requires ipnet.Valid() && New(ipnet, size).Some? && Regime(size, New(ipnet, size).value.Slots())
    ensures var st := Steps(New(ipnet, size).value, before);
            UsedBy(st, op).Some? ==>
              var (host, st') := (UsedBy(st, op).value, Step(st, op));
              host !in Used(st', after) ==>
                Bound(Steps(st', after).entries, Host(host))
                == if |Used(st', after)| < size then Some(Address(Lookup(st', host).1)) else None
  {
    var st := Steps(New(ipnet, size).value, before);
    if UsedBy(st, op).Some? && UsedBy(st, op).value !in Used(Step(st, op), after) {
      Retained(New(ipnet, size).value, before, op, after);
    }
  }

  lemma {:induction false} Retained(st0: State, before: seq<PoolOp>, op: PoolOp, after: seq<PoolOp>)
    requires st0.Typed() && Simulates(st0, []) && UsedBy(Steps(st0, before), op).Some?
    requires UsedBy(Steps(st0, before), op).value !in Used(Step(Steps(st0, before), op), after)
    ensures var st := Steps(st0, before);
            var (host, st') := (UsedBy(st, op).value, Step(st, op));
            Bound(Steps(st', after).entries, Host(host))
            == if |Used(st', after)| < st0.size then Some(Address(Lookup(st', host).1)) else None
  {
    var size := st0.size;
    var st := Steps(st0, before);
    var bs := RunSimulates(st0, [], before);
    var b := StepSimulates(st, bs, op);
    var st', used := Step(st, op), Use(bs, size, b);
    var last := |used| - 1;
    PlaceIs(used, st.Slots(), last);
    LookupHit(st', used, last);
    assert Behind(used, last) == {};
    var bs' := TrackedRun(st', used, b.host, b.slot, after);
    BoundHost(st.min, bs', st.Slots(), b.host);
    if PlaceOf(bs', b.host) < |bs'| {
      BehindSize(bs', st.Slots(), PlaceOf(bs', b.host));
    }
  }

  /** Every address handed out lies strictly inside the network, whatever the cache size. */
  lemma {:induction false} AddressInRange(ipnet: IPNet, size: int, ops: seq<PoolOp>, host: string)
    requires ipnet.Valid() && New(ipnet, size).Some?
    ensures var base := IpToUint(ipnet.ip);
            var n := IpToUint(Lookup(Steps(New(ipnet, size).value, ops), host).1);
            base + 1 <= n <= base + Pow2(ipnet.HostBits()) - 3
  {
    NewShape(ipnet, size);
    var st := Steps(New(ipnet, size).value, ops);
    SlotInRange(st.min, st.max, Lookup(st, host).1);
  }

  /** The address after the base, which is stored as the gateway, is handed out too: for every cache size, to the last
      of as many hosts as there are slots. */
  lemma {:induction false} GatewayHandedOut(ipnet: IPNet, size: int) returns (ops: seq<PoolOp>, host: string)
    requires ipnet.Valid() && New(ipnet, size).Some?
    ensures IpToUint(Lookup(Steps(New(ipnet, size).value, ops), host).1) == IpToUint(ipnet.ip) + 1
  {
    var st := New(ipnet, size).value;
    NewShape(ipnet, size);
    NetFits(ipnet);
    var k := st.Slots() - 1;
    ops, host := Filling(k), HostNo(k);
    Fills(st, k);
    FillStep(st, k);
    AddressNumber(st.min, 0);
  }

  /** The first host looked up gets the address after the gateway. */
  lemma {:induction false} FirstAddress(ipnet: IPNet, size: int, host: string)
    requires ipnet.Valid() && New(ipnet, size).Some? && New(ipnet, size).value.Slots() > 1
    ensures IpToUint(Lookup(New(ipnet, size).value, host).1) == IpToUint(ipnet.ip) + 2
  {
    var st := New(ipnet, size).value;
    NewShape(ipnet, size);
    NetFits(ipnet);
    TakenIff(st.min, [], 1);
    ModOnce(1, st.Slots());
    assert Probe(st.entries, st.Slots(), 0, 0) == 1;
    AddressNumber(st.min, 1);
  }

  lemma {:induction false} SlotInRange(min: nat, max: nat, ip: Ip)
    requires 2 <= min < max < TWO32 && SlotOf(min, ip) < max - min
    ensures min - 1 <= IpToUint(ip) <= max - 2
  {
    AddressOfSlot(min, ip);
    AddressNumber(min, SlotOf(min, ip));
  }

  lemma {:induction false} AddressNumber(min: nat, slot: nat)
    requires 2 <= min && min + slot <= TWO32
    ensures IpToUint(AddressAt(min, slot)) == min + slot - 1
  {
    WrapIs(min + slot - 1);
    IpOfUint(min + slot - 1);
  }
}
