/** The least-recently-used cache of common/cache/lrucache.go.

    The recency list is a sequence of entries, front least recent.  The functions
    on sequences say what each operation keeps and what it removes; the class
    `LruCache` holds the map and the list of shared entries and refines them. */
module Lru {
  import opened Collections

  datatype Entry<K, V> = Entry(key: K, value: V, expires: int)

  /** The options fixed at construction.  Times are whole seconds. */
  datatype Config = Config(maxAge: int, maxSize: int, updateAgeOnGet: bool, staleReturn: bool)
  {
    predicate Expires() {
      !staleReturn && maxAge > 0
    }
  }

  /** What an operation leaves in the list, and what it deleted, in order of deletion. */
  datatype Outcome<K, V> = Outcome(kept: seq<Entry<K, V>>, removed: seq<Entry<K, V>>)

  function Find<K(==), V>(s: seq<Entry<K, V>>, key: K): (i: nat)
    ensures i <= |s|
    ensures i < |s| ==> s[i].key == key
    ensures forall j :: 0 <= j < i ==> s[j].key != key
  {
    if s == [] || s[0].key == key then 0
    else
      var i := Find(s[1..], key);
      assert forall j :: 0 < j < i + 1 ==> s[j] == s[1..][j - 1];
      i + 1
  }

  function Prune<K, V>(c: Config, s: seq<Entry<K, V>>, now: int): Outcome<K, V> {
    if c.Expires() && s != [] && s[0].expires <= now then
      var rest := Prune(c, s[1..], now);
      Outcome(rest.kept, [s[0]] + rest.removed)
    else
      Outcome(s, [])
  }

  function Push<K, V>(c: Config, s: seq<Entry<K, V>>, e: Entry<K, V>): Outcome<K, V> {
    var t := s + [e];
    if 0 < c.maxSize < |t| then Outcome(t[1..], [t[0]]) else Outcome(t, [])
  }

  function Store<K(==), V>(c: Config, s: seq<Entry<K, V>>, e: Entry<K, V>): Outcome<K, V> {
    var i := Find(s, e.key);
    if i < |s| then Outcome(Drop(s, i) + [e], []) else Push(c, s, e)
  }

  function SetEntry<K(==), V>(c: Config, s: seq<Entry<K, V>>, e: Entry<K, V>, now: int): Outcome<K, V> {
    var stored := Store(c, s, e);
    var pruned := Prune(c, stored.kept, now);
    Outcome(pruned.kept, stored.removed + pruned.removed)
  }

  function Refreshed<K, V>(c: Config, e: Entry<K, V>, now: int): Entry<K, V> {
    if c.maxAge > 0 && c.updateAgeOnGet then e.(expires := now + c.maxAge) else e
  }

  /** `now` is the clock reading of the expiry test, `later` the one that follows it. */
  function GetEntry<K(==), V>(c: Config, s: seq<Entry<K, V>>, key: K, now: int, later: int)
    : (Outcome<K, V>, Option<Entry<K, V>>)
  {
    var i := Find(s, key);
    if i == |s| then (Outcome(s, []), None)
    else if c.Expires() && s[i].expires <= now then
      var pruned := Prune(c, Drop(s, i), later);
      (Outcome(pruned.kept, [s[i]] + pruned.removed), None)
    else
      var e := Refreshed(c, s[i], later);
      (Outcome(Drop(s, i) + [e], []), Some(e))
  }

  function DeleteKey<K(==), V>(s: seq<Entry<K, V>>, key: K): Outcome<K, V> {
    var i := Find(s, key);
    if i < |s| then Outcome(Drop(s, i), [s[i]]) else Outcome(s, [])
  }

  // ---------------------------------------------------------------- runs

  datatype Op<K, V> =
    | Set(entry: Entry<K, V>, now: int)
    | Get(key: K, now: int, later: int)
    | Delete(key: K)

  function Apply<K(==), V>(c: Config, s: seq<Entry<K, V>>, op: Op<K, V>): Outcome<K, V> {
    match op
    case Set(e, now) => SetEntry(c, s, e, now)
    case Get(key, now, later) => GetEntry(c, s, key, now, later).0
    case Delete(key) => DeleteKey(s, key)
  }

  function Run<K(==), V>(c: Config, ops: seq<Op<K, V>>): Outcome<K, V> {
    if ops == [] then Outcome([], [])
    else
      var before := Run(c, ops[..|ops| - 1]);
      var step := Apply(c, before.kept, ops[|ops| - 1]);
      Outcome(step.kept, before.removed + step.removed)
  }

  function Keys<K, V>(s: seq<Entry<K, V>>): (ks: seq<K>)
    ensures |ks| == |s|
    ensures forall i :: 0 <= i < |s| ==> ks[i] == s[i].key
  {
    seq(|s|, i requires 0 <= i < |s| => s[i].key)
  }

  /** The keys that a run inserted as new, in order. */
  function Inserted<K(==), V>(c: Config, ops: seq<Op<K, V>>): seq<K> {
    if ops == [] then []
    else
      var prefix := ops[..|ops| - 1];
      Inserted(c, prefix) + Added(Run(c, prefix).kept, ops[|ops| - 1])
  }

  ghost predicate WithinBound<K, V>(c: Config, s: seq<Entry<K, V>>) {
    c.maxSize > 0 ==> |s| <= c.maxSize
  }

  lemma {:induction false} KeysConcat<K, V>(a: seq<Entry<K, V>>, b: seq<Entry<K, V>>)
    ensures Keys(a + b) == Keys(a) + Keys(b)
  {
  }

  lemma {:induction false} KeysDrop<K, V>(s: seq<Entry<K, V>>, i: nat)
    requires i < |s|
    ensures Keys(Drop(s, i)) == Drop(Keys(s), i)
  {
  }

  lemma {:induction false} PruneSplits<K, V>(c: Config, s: seq<Entry<K, V>>, now: int)
    ensures var r := Prune(c, s, now);
            && r.removed + r.kept == s
            && (forall e :: e in r.removed ==> e.expires <= now)
            && (c.Expires() && r.kept != [] ==> now < r.kept[0].expires)
            && (!c.Expires() ==> r.kept == s)
  {
    if c.Expires() && s != [] && s[0].expires <= now {
      PruneSplits(c, s[1..], now);
    }
  }

  /** `after` is what is left of the keys `before` once those of `removed` are gone and `extra` has been added. */
  ghost predicate Accounts<K>(before: seq<K>, extra: seq<K>, removed: seq<K>, after: seq<K>) {
    multiset(removed) + multiset(after) == multiset(before) + multiset(extra)
  }

  lemma {:induction false} AccountsThen<K>(before: seq<K>, extra: seq<K>, removed: seq<K>, middle: seq<K>,
                        extra': seq<K>, removed': seq<K>, after: seq<K>)
    requires Accounts(before, extra, removed, middle)
    requires Accounts(middle, extra', removed', after)
    ensures Accounts(before, extra + extra', removed + removed', after)
  {
    var r, r', a := multiset(removed), multiset(removed'), multiset(after);
    assert (r + r') + a == r + (r' + a);
    assert r + (multiset(middle) + multiset(extra')) == (r + multiset(middle)) + multiset(extra');
  }

  lemma {:induction false} PruneKeeps<K, V>(c: Config, s: seq<Entry<K, V>>, now: int)
    requires Distinct(Keys(s))
    ensures var r := Prune(c, s, now);
            Distinct(Keys(r.kept)) && |r.kept| <= |s| && Accounts(Keys(s), [], Keys(r.removed), Keys(r.kept))
  {
    var r := Prune(c, s, now);
    PruneSplits(c, s, now);
    KeysConcat(r.removed, r.kept);
    SuffixDistinct(Keys(r.removed), Keys(r.kept));
  }

  lemma {:induction false} MoveKeeps<K, V>(s: seq<Entry<K, V>>, i: nat, e: Entry<K, V>)
    requires i < |s| && e.key == s[i].key && Distinct(Keys(s))
    ensures var t := Drop(s, i) + [e];
            Distinct(Keys(t)) && Accounts(Keys(s), [], [], Keys(t))
  {
    KeysConcat(Drop(s, i), [e]);
    assert Keys([e]) == [e.key];
    KeysDrop(s, i);
    DropDistinct(Keys(s), i);
    DropOne(Keys(s), i);
    AppendDistinct(Drop(Keys(s), i), e.key);
  }

  lemma {:induction false} RemoveKeeps<K, V>(s: seq<Entry<K, V>>, i: nat)
    requires i < |s| && Distinct(Keys(s))
    ensures Distinct(Keys(Drop(s, i))) && Accounts(Keys(s), [], Keys([s[i]]), Keys(Drop(s, i)))
  {
    assert Keys([s[i]]) == [s[i].key];
    KeysDrop(s, i);
    DropDistinct(Keys(s), i);
    DropOne(Keys(s), i);
  }

  lemma {:induction false} PushKeeps<K, V>(c: Config, s: seq<Entry<K, V>>, e: Entry<K, V>)
    requires Distinct(Keys(s)) && e.key !in Keys(s)
    ensures var r := Push(c, s, e);
            && Distinct(Keys(r.kept)) && Accounts(Keys(s), [e.key], Keys(r.removed), Keys(r.kept))
            && (WithinBound(c, s) ==> WithinBound(c, r.kept))
  {
    var t := s + [e];
    KeysConcat(s, [e]);
    assert Keys(t) == Keys(s) + [e.key];
    AppendDistinct(Keys(s), e.key);
    if 0 < c.maxSize < |t| {
      RemoveKeeps(t, 0);
      assert Drop(t, 0) == t[1..];
      AccountsThen(Keys(s), [e.key], [], Keys(t), [], Keys([t[0]]), Keys(t[1..]));
    }
  }

  lemma {:induction false} AbsentKey<K, V>(s: seq<Entry<K, V>>, key: K)
    ensures Find(s, key) == |s| <==> key !in Keys(s)
  {
    var i := Find(s, key);
    if i < |s| {
      assert Keys(s)[i] == key;
    }
  }

  function Added<K(==), V>(s: seq<Entry<K, V>>, op: Op<K, V>): seq<K> {
    if op.Set? && Find(s, op.entry.key) == |s| then [op.entry.key] else []
  }

  lemma {:induction false} SetKeeps<K, V>(c: Config, s: seq<Entry<K, V>>, e: Entry<K, V>, now: int)
    requires Distinct(Keys(s)) && WithinBound(c, s)
    ensures var r := SetEntry(c, s, e, now);
            && Distinct(Keys(r.kept)) && WithinBound(c, r.kept)
            && Accounts(Keys(s), Added(s, Set(e, now)), Keys(r.removed), Keys(r.kept))
  {
    var stored := Store(c, s, e);
    AbsentKey(s, e.key);
    if Find(s, e.key) < |s| {
      MoveKeeps(s, Find(s, e.key), e);
    } else {
      PushKeeps(c, s, e);
    }
    PruneKeeps(c, stored.kept, now);
    var pruned := Prune(c, stored.kept, now);
    KeysConcat(stored.removed, pruned.removed);
    var added := Added(s, Set(e, now));
    AccountsThen(Keys(s), added, Keys(stored.removed), Keys(stored.kept), [], Keys(pruned.removed), Keys(pruned.kept));
    assert added + [] == added;
  }

  lemma {:induction false} StepKeeps<K, V>(c: Config, s: seq<Entry<K, V>>, op: Op<K, V>)
    requires Distinct(Keys(s)) && WithinBound(c, s)
    ensures var r := Apply(c, s, op);
            && Distinct(Keys(r.kept)) && WithinBound(c, r.kept)
            && Accounts(Keys(s), Added(s, op), Keys(r.removed), Keys(r.kept))
  {
    match op
    case Set(e, now) =>
      SetKeeps(c, s, e, now);
    case Get(key, now, later) =>
      var i := Find(s, key);
      if i < |s| {
        if c.Expires() && s[i].expires <= now {
          RemoveKeeps(s, i);
          PruneKeeps(c, Drop(s, i), later);
          var pruned := Prune(c, Drop(s, i), later);
          KeysConcat([s[i]], pruned.removed);
          AccountsThen(Keys(s), [], Keys([s[i]]), Keys(Drop(s, i)), [], Keys(pruned.removed), Keys(pruned.kept));
        } else {
          MoveKeeps(s, i, Refreshed(c, s[i], later));
        }
      }
    case Delete(key) =>
      var i := Find(s, key);
      if i < |s| {
        RemoveKeeps(s, i);
      }
  }

  /** In every run keys stay distinct, a positive maxSize is respected, and every
      insertion is accounted for exactly once: by an entry still in the list, or by
      one deletion (and so by one call of the eviction callback). */
  lemma {:induction false} RunConservesKeys<K, V>(c: Config, ops: seq<Op<K, V>>)
    ensures var r := Run(c, ops);
            && Distinct(Keys(r.kept)) && WithinBound(c, r.kept)
            && Accounts([], Inserted(c, ops), Keys(r.removed), Keys(r.kept))
  {
    if ops != [] {
      var prefix := ops[..|ops| - 1];
      RunConservesKeys(c, prefix);
      var before := Run(c, prefix);
      var step := Apply(c, before.kept, ops[|ops| - 1]);
      StepKeeps(c, before.kept, ops[|ops| - 1]);
      KeysConcat(before.removed, step.removed);
      AccountsThen([], Inserted(c, prefix), Keys(before.removed), Keys(before.kept),
                   Added(before.kept, ops[|ops| - 1]), Keys(step.removed), Keys(step.kept));
    }
  }

  /** With a positive age and stale returns off, no hit is an expired entry. */
  lemma {:induction false} GetIsFresh<K, V>(c: Config, s: seq<Entry<K, V>>, key: K, now: int, later: int)
    ensures var (o, hit) := GetEntry(c, s, key, now, later);
            && (hit.Some? ==> hit.value.key == key && exists e :: e in s && e.key == key && e.value == hit.value.value
                                                                 && (c.Expires() ==> now < e.expires))
            && (hit.None? && Distinct(Keys(s)) ==> key !in Keys(o.kept))
  {
    var i := Find(s, key);
    if i < |s| {
      assert s[i] in s;
      if Distinct(Keys(s)) && GetEntry(c, s, key, now, later).1.None? {
        KeysDrop(s, i);
        DropDistinct(Keys(s), i);
        PruneSplits(c, Drop(s, i), later);
        var p := Prune(c, Drop(s, i), later);
        KeysConcat(p.removed, p.kept);
      }
    }
  }

  /** A Get hits exactly if there is an entry of the key that may still be given out. The hit is that entry, with a new
      expiry date where the options ask for one. */
  lemma {:induction false} GetIff<K, V>(c: Config, s: seq<Entry<K, V>>, key: K, now: int, later: int)
    requires Distinct(Keys(s))
    ensures var hit := GetEntry(c, s, key, now, later).1;
            && (hit.Some? <==> exists e :: e in s && e.key == key && (!c.staleReturn && c.maxAge > 0 ==> now < e.expires))
            && forall e :: hit.Some? && e in s && e.key == key ==>
                 hit.value == Entry(key, e.value, if c.maxAge > 0 && c.updateAgeOnGet then later + c.maxAge else e.expires)
  {
    var i := Find(s, key);
    forall e | e in s && e.key == key
      ensures i < |s| && e == s[i]
    {
      var j :| 0 <= j < |s| && s[j] == e;
      assert Keys(s)[j] == key && Keys(s)[i] == key;
    }
    if i < |s| {
      assert s[i] in s;
    }
  }

  // ------------------------------------------------- what survives in a run

  /** The keys a run touched: every Set, and every Get that hit. */
  function Touches<K(==), V>(c: Config, ops: seq<Op<K, V>>): seq<K> {
    if ops == [] then []
    else
      var prefix := ops[..|ops| - 1];
      Touches(c, prefix) + TouchOf(Run(c, prefix).kept, ops[|ops| - 1])
  }

  /** The keys touched since the last touch of `key`. */
  function Since<K(==)>(h: seq<K>, key: K): set<K> {
    if h == [] || h[|h| - 1] == key then {}
    else Since(h[..|h| - 1], key) + {h[|h| - 1]}
  }

  ghost predicate Ordered<K>(h: seq<K>, ks: seq<K>, m: nat) {
    && Distinct(ks) && |ks| <= m
    && (forall p :: 0 <= p < |ks| ==> ks[p] in h && Since(h, ks[p]) == ToSet(ks[p + 1..]))
    && (forall k :: k in h && k !in ks ==> |Since(h, k)| >= m)
  }

  /** The recency order after a touch of `key`: the key moves from place i to the back, or is
      appended (i is the length), or is appended and pushes the front out (i is 0). */
  ghost predicate Touched<K>(ks: seq<K>, m: nat, key: K, i: nat, ks': seq<K>) {
    if i == |ks| then key !in ks && |ks| < m && ks' == ks + [key]
    else i < |ks| && ks' == Drop(ks, i) + [key] && (ks[i] == key || (i == 0 && key !in ks && |ks| == m))
  }

  lemma {:induction false} TouchKeepsOrder<K>(h: seq<K>, ks: seq<K>, m: nat, key: K, i: nat, ks': seq<K>)
    requires Ordered(h, ks, m) && Touched(ks, m, key, i, ks')
    ensures Ordered(h + [key], ks', m)
  {
    var h' := h + [key];
    if i < |ks| {
      DropDistinct(ks, i);
      AppendDistinct(Drop(ks, i), key);
    }
    TouchedHave(h, ks, m, key, i, ks');
    forall k | k in h' && k !in ks'
      ensures |Since(h', k)| >= m
    {
      TouchedLack(h, ks, m, key, i, ks', k);
    }
  }

  lemma {:induction false} TouchedHave<K>(h: seq<K>, ks: seq<K>, m: nat, key: K, i: nat, ks': seq<K>)
    requires Ordered(h, ks, m) && Touched(ks, m, key, i, ks')
    ensures forall p :: 0 <= p < |ks'| ==> ks'[p] in h + [key] && Since(h + [key], ks'[p]) == ToSet(ks'[p + 1..])
  {
    var h' := h + [key];
    forall p | 0 <= p < |ks'|
      ensures ks'[p] in h' && Since(h', ks'[p]) == ToSet(ks'[p + 1..])
    {
      SinceTouch(h, key, ks'[p]);
      if p < |ks'| - 1 {
        SuffixAfterTouch(ks, m, key, i, ks', p);
      }
    }
  }

  lemma {:induction false} TouchedLack<K>(h: seq<K>, ks: seq<K>, m: nat, key: K, i: nat, ks': seq<K>, k: K)
    requires Ordered(h, ks, m) && Touched(ks, m, key, i, ks') && k in h + [key] && k !in ks'
    ensures |Since(h + [key], k)| >= m
  {
    assert ks'[|ks'| - 1] == key;
    SinceTouch(h, key, k);
    if k in ks {
      LeaverIsFront(ks, m, key, i, ks', k);
      DistinctSize(ks[1..]);
    } else {
      SubsetSize(Since(h, k), Since(h + [key], k));
    }
  }

  lemma {:induction false} SinceTouch<K>(h: seq<K>, key: K, k: K)
    ensures Since(h + [key], k) == if k == key then {} else Since(h, k) + {key}
  {
    assert (h + [key])[..|h|] == h;
  }

  /** Only the front of a full list can leave it, and only when a new key comes in. */
  lemma {:induction false} LeaverIsFront<K>(ks: seq<K>, m: nat, key: K, i: nat, ks': seq<K>, k: K)
    requires Distinct(ks) && Touched(ks, m, key, i, ks') && k in ks && k !in ks'
    ensures i == 0 && k == ks[0] && |ks| == m && key !in ks && k != key
    ensures Distinct(ks[1..]) && key !in ToSet(ks[1..])
  {
    assert ks'[|ks'| - 1] == key;
    var q :| 0 <= q < |ks| && ks[q] == k;
    assert q == i;
    assert ks == [ks[0]] + ks[1..];
    SuffixDistinct([ks[0]], ks[1..]);
  }

  /** Whoever stays sees, behind it, the keys it saw before and the touched key. */
  lemma {:induction false} SuffixAfterTouch<K>(ks: seq<K>, m: nat, key: K, i: nat, ks': seq<K>, p: nat)
    requires Distinct(ks) && Touched(ks, m, key, i, ks') && p < |ks'| - 1
    ensures var q := if p < i then p else p + 1;
            q < |ks| && ks'[p] == ks[q] != key && ToSet(ks'[p + 1..]) == ToSet(ks[q + 1..]) + {key}
  {
    var q := if p < i then p else p + 1;
    BehindBefore(ks, m, key, i, ks', p, q);
    BehindAfter(ks, m, key, i, ks', p, q);
    assert ks'[p + 1..][|ks'| - p - 2] == key;
  }

  lemma {:induction false} BehindBefore<K>(ks: seq<K>, m: nat, key: K, i: nat, ks': seq<K>, p: nat, q: nat)
    requires Touched(ks, m, key, i, ks') && p < |ks'| - 1 && q == (if p < i then p else p + 1) && q < |ks|
    ensures ToSet(ks[q + 1..]) <= ToSet(ks'[p + 1..]) + {key}
  {
    var a, b := ks'[p + 1..], ks[q + 1..];
    forall x | x in b
      ensures x in a || x == key
    {
      var j :| 0 <= j < |b| && b[j] == x;
      var r := q + 1 + j;
      if r != i {
        assert x == a[(if r < i then r else r - 1) - p - 1];
      } else {
        assert ks[r] == key || i == 0;
      }
    }
  }

  lemma {:induction false} BehindAfter<K>(ks: seq<K>, m: nat, key: K, i: nat, ks': seq<K>, p: nat, q: nat)
    requires Touched(ks, m, key, i, ks') && p < |ks'| - 1 && q == (if p < i then p else p + 1) && q < |ks|
    ensures ToSet(ks'[p + 1..]) <= ToSet(ks[q + 1..]) + {key}
  {
    var a, b := ks'[p + 1..], ks[q + 1..];
    forall x | x in a
      ensures x in b || x == key
    {
      var j :| 0 <= j < |a| && a[j] == x;
      var r := p + 1 + j;
      if r < |ks'| - 1 {
        var k := if r < i then r else r + 1;
        assert a[j] == ks'[r];
        assert ks'[r] == ks[k];
        assert b[k - q - 1] == ks[k];
      }
    }
  }

  ghost predicate TouchOnly<K, V>(ops: seq<Op<K, V>>) {
    forall i :: 0 <= i < |ops| ==> !ops[i].Delete?
  }

  lemma {:induction false} StepMoves<K, V>(s: seq<Entry<K, V>>, h: seq<K>, m: nat, i: nat, e: Entry<K, V>)
    requires i < |s| && s[i].key == e.key && Ordered(h, Keys(s), m)
    ensures Ordered(h + [e.key], Keys(Drop(s, i) + [e]), m)
  {
    KeysDrop(s, i);
    KeysConcat(Drop(s, i), [e]);
    assert Keys([e]) == [e.key];
    TouchKeepsOrder(h, Keys(s), m, e.key, i, Keys(Drop(s, i) + [e]));
  }

  lemma {:induction false} StepPushes<K, V>(c: Config, s: seq<Entry<K, V>>, h: seq<K>, e: Entry<K, V>)
    requires c.maxSize > 0 && e.key !in Keys(s) && Ordered(h, Keys(s), c.maxSize)
    ensures Ordered(h + [e.key], Keys(Push(c, s, e).kept), c.maxSize)
  {
    var ks := Keys(s);
    KeysConcat(s, [e]);
    assert Keys(s + [e]) == ks + [e.key];
    if |s| < c.maxSize {
      TouchKeepsOrder(h, ks, c.maxSize, e.key, |s|, ks + [e.key]);
    } else {
      var t := (s + [e])[1..];
      assert Keys(t) == Keys(s + [e])[1..] == Drop(ks, 0) + [e.key];
      TouchKeepsOrder(h, ks, c.maxSize, e.key, 0, Keys(t));
    }
  }

  function TouchOf<K(==), V>(s: seq<Entry<K, V>>, op: Op<K, V>): seq<K> {
    match op
    case Set(e, _) => [e.key]
    case Get(key, _, _) => if Find(s, key) < |s| then [key] else []
    case Delete(_) => []
  }

  lemma {:induction false} StepTouches<K, V>(c: Config, s: seq<Entry<K, V>>, op: Op<K, V>, h: seq<K>)
    requires !c.Expires() && c.maxSize > 0 && Ordered(h, Keys(s), c.maxSize) && !op.Delete?
    ensures Ordered(h + TouchOf(s, op), Keys(Apply(c, s, op).kept), c.maxSize)
  {
    match op
    case Set(e, _) =>
      AbsentKey(s, e.key);
      if Find(s, e.key) < |s| {
        StepMoves(s, h, c.maxSize, Find(s, e.key), e);
      } else {
        StepPushes(c, s, h, e);
      }
    case Get(key, _, later) =>
      var i := Find(s, key);
      if i < |s| {
        StepMoves(s, h, c.maxSize, i, Refreshed(c, s[i], later));
      } else {
        assert h + [] == h;
      }
  }

  lemma {:induction false} RunOrdered<K, V>(c: Config, ops: seq<Op<K, V>>)
    requires !c.Expires() && c.maxSize > 0 && TouchOnly(ops)
    ensures Ordered(Touches(c, ops), Keys(Run(c, ops).kept), c.maxSize)
  {
    if ops != [] {
      var prefix := ops[..|ops| - 1];
      RunOrdered(c, prefix);
      StepTouches(c, Run(c, prefix).kept, ops[|ops| - 1], Touches(c, prefix));
    }
  }

  /** Without ages and deletes a bounded cache holds exactly the keys that were touched and
      have seen fewer than maxSize other keys touched since; a Get hits exactly those. */
  lemma {:induction false} KeepsMostRecent<K, V>(c: Config, ops: seq<Op<K, V>>, key: K)
    requires !c.Expires() && c.maxSize > 0 && TouchOnly(ops)
    ensures var (h, s) := (Touches(c, ops), Run(c, ops).kept);
            && (key in Keys(s) <==> key in h && |Since(h, key)| < c.maxSize)
            && forall now, later :: GetEntry(c, s, key, now, later).1.Some? <==> key in Keys(s)
  {
    RunOrdered(c, ops);
    OrderedSurvivor(Touches(c, ops), Keys(Run(c, ops).kept), c.maxSize, key);
    AbsentKey(Run(c, ops).kept, key);
  }

  lemma {:induction false} OrderedSurvivor<K>(h: seq<K>, ks: seq<K>, m: nat, k: K)
    requires Ordered(h, ks, m)
    ensures k in ks <==> k in h && |Since(h, k)| < m
  {
    if k in ks {
      var p :| 0 <= p < |ks| && ks[p] == k;
      assert Since(h, ks[p]) == ToSet(ks[p + 1..]);
      assert Distinct(ks[p + 1..]);
      DistinctSize(ks[p + 1..]);
    }
  }
}
