/** What a Get finds after any run with expiry dates (common/cache/lrucache.go).

    `Stored` follows one key through a run and knows nothing of lists; the cache is shown to give out what it says. */
module LruAges {
  import opened Collections
  import opened Lru

  /** The entry may be given out at the time t. */
  predicate Live<K, V>(c: Config, e: Entry<K, V>, t: int) {
    !c.staleReturn && c.maxAge > 0 ==> t < e.expires
  }

  function Still<K, V>(c: Config, e: Option<Entry<K, V>>, t: int): Option<Entry<K, V>> {
    if e.Some? && Live(c, e.value, t) then e else None
  }

  /** The expiry date after a hit. */
  function Renewed<K, V>(c: Config, e: Entry<K, V>, t: int): Entry<K, V> {
    Entry(e.key, e.value, if c.maxAge > 0 && c.updateAgeOnGet then t + c.maxAge else e.expires)
  }

  /** What was last set for the key, with its expiry date, if it has not been deleted since and had not expired at any
      reading of the clock since. */
  function Stored<K(==), V>(c: Config, ops: seq<Op<K, V>>, key: K): (e: Option<Entry<K, V>>)
    ensures e.Some? ==> e.value.key == key
  {
    if ops == [] then None
    else
      var before := Stored(c, ops[..|ops| - 1], key);
      match ops[|ops| - 1]
      case Set(e, now) => Still(c, if e.key == key then Some(e) else before, now)
      case Get(k, now, later) =>
        if k != key then Still(c, before, later)
        else if Still(c, before, now).Some? then Some(Renewed(c, before.value, later)) else None
      case Delete(k) => if k == key then None else before
  }

  // ------------------------------------------------------------ where an entry is

  /** The entry is at place p, and what was used after it is among `seen`. */
  ghost predicate HeldAt<K, V>(s: seq<Entry<K, V>>, p: nat, e: Entry<K, V>, seen: set<K>) {
    p < |s| && s[p] == e && forall q :: p < q < |s| ==> s[q].key in seen
  }

  ghost predicate Held<K, V>(s: seq<Entry<K, V>>, e: Entry<K, V>, seen: set<K>) {
    exists p: nat :: HeldAt(s, p, e, seen)
  }

  lemma {:induction false} DropHeld<K, V>(s: seq<Entry<K, V>>, i: nat, e: Entry<K, V>, seen: set<K>)
    requires i < |s| && s[i].key != e.key && Held(s, e, seen)
    ensures Held(Drop(s, i), e, seen)
  {
    var p: nat :| HeldAt(s, p, e, seen);
    var p' := if i < p then p - 1 else p;
    var t := Drop(s, i);
    forall q | p' < q < |t|
      ensures t[q].key in seen
    {
      assert t[q] == s[if q < i then q else q + 1];
    }
    assert HeldAt(t, p', e, seen);
  }

  lemma {:induction false} AppendHeld<K, V>(s: seq<Entry<K, V>>, x: Entry<K, V>, e: Entry<K, V>, seen: set<K>)
    requires Held(s, e, seen)
    ensures Held(s + [x], e, seen + {x.key})
  {
    var p: nat :| HeldAt(s, p, e, seen);
    assert HeldAt(s + [x], p, e, seen + {x.key});
  }

  lemma {:induction false} LastHeld<K, V>(s: seq<Entry<K, V>>, e: Entry<K, V>, seen: set<K>)
    ensures Held(s + [e], e, seen)
  {
    assert HeldAt(s + [e], |s|, e, seen);
  }

  lemma {:induction false} NotPruned<K, V>(c: Config, s: seq<Entry<K, V>>, now: int, p: nat)
    requires p < |s| && Live(c, s[p], now)
    ensures var n := |Prune(c, s, now).removed|;
            n <= p && Prune(c, s, now).kept == s[n..]
  {
    if c.Expires() && s[0].expires <= now {
      NotPruned(c, s[1..], now, p - 1);
    }
  }

  lemma {:induction false} PruneHeld<K, V>(c: Config, s: seq<Entry<K, V>>, now: int, e: Entry<K, V>, seen: set<K>)
    requires Held(s, e, seen) && Live(c, e, now)
    ensures Held(Prune(c, s, now).kept, e, seen)
  {
    var p: nat :| HeldAt(s, p, e, seen);
    NotPruned(c, s, now, p);
    var n := |Prune(c, s, now).removed|;
    assert HeldAt(s[n..], p - n, e, seen);
  }

  /** The front of a full list is pushed out only when as many other keys have been used since. */
  lemma {:induction false} PushHeld<K, V>(c: Config, s: seq<Entry<K, V>>, x: Entry<K, V>, e: Entry<K, V>, seen: set<K>)
    requires Distinct(Keys(s)) && WithinBound(c, s) && Held(s, e, seen) && x.key !in Keys(s)
    requires c.maxSize > 0 ==> |seen + {x.key}| < c.maxSize
    ensures Held(Push(c, s, x).kept, e, seen + {x.key})
  {
    var t, more := s + [x], seen + {x.key};
    AppendHeld(s, x, e, seen);
    if 0 < c.maxSize < |t| {
      var p: nat :| HeldAt(t, p, e, more);
      if p == 0 {
        Crowded(t, more);
      } else {
        assert HeldAt(t[1..], p - 1, e, more);
      }
    }
  }

  lemma {:induction false} Crowded<K, V>(t: seq<Entry<K, V>>, seen: set<K>)
    requires t != [] && Distinct(Keys(t)[1..]) && forall q :: 0 < q < |t| ==> t[q].key in seen
    ensures |seen| >= |t| - 1
  {
    var ks := Keys(t)[1..];
    assert forall k :: k in ks ==> k in seen;
    DistinctSize(ks);
    SubsetSize(ToSet(ks), seen);
  }

  lemma {:induction false} SetOther<K, V>(c: Config, s: seq<Entry<K, V>>, x: Entry<K, V>, now: int, e: Entry<K, V>, seen: set<K>)
    requires Distinct(Keys(s)) && WithinBound(c, s) && Held(s, e, seen) && x.key != e.key && Live(c, e, now)
    requires c.maxSize > 0 ==> |seen + {x.key}| < c.maxSize
    ensures Held(SetEntry(c, s, x, now).kept, e, seen + {x.key})
  {
    var i := Find(s, x.key);
    AbsentKey(s, x.key);
    if i < |s| {
      DropHeld(s, i, e, seen);
      AppendHeld(Drop(s, i), x, e, seen);
    } else {
      PushHeld(c, s, x, e, seen);
    }
    PruneHeld(c, Store(c, s, x).kept, now, e, seen + {x.key});
  }

  lemma {:induction false} SetSame<K, V>(c: Config, s: seq<Entry<K, V>>, e: Entry<K, V>, now: int, seen: set<K>)
    requires Live(c, e, now)
    ensures Held(SetEntry(c, s, e, now).kept, e, seen)
  {
    var i, t := Find(s, e.key), Store(c, s, e).kept;
    if i < |s| {
      LastHeld(Drop(s, i), e, seen);
    } else if 0 < c.maxSize < |s| + 1 {
      assert t == s[1..] + [e];
      LastHeld(s[1..], e, seen);
    } else {
      LastHeld(s, e, seen);
    }
    PruneHeld(c, t, now, e, seen);
  }

  lemma {:induction false} GetOther<K, V>(c: Config, s: seq<Entry<K, V>>, k: K, now: int, later: int, e: Entry<K, V>, seen: set<K>)
    requires Held(s, e, seen) && k != e.key && Live(c, e, later)
    ensures Held(GetEntry(c, s, k, now, later).0.kept, e, seen + {k})
    ensures Find(s, k) == |s| ==> Held(GetEntry(c, s, k, now, later).0.kept, e, seen)
  {
    var i := Find(s, k);
    if i < |s| {
      DropHeld(s, i, e, seen);
      More(Drop(s, i), e, seen, seen + {k});
      if c.Expires() && s[i].expires <= now {
        PruneHeld(c, Drop(s, i), later, e, seen + {k});
      } else {
        AppendHeld(Drop(s, i), Refreshed(c, s[i], later), e, seen);
      }
    } else {
      More(s, e, seen, seen + {k});
    }
  }

  lemma {:induction false} More<K, V>(s: seq<Entry<K, V>>, e: Entry<K, V>, seen: set<K>, more: set<K>)
    requires Held(s, e, seen) && seen <= more
    ensures Held(s, e, more)
  {
    var p: nat :| HeldAt(s, p, e, seen);
    assert HeldAt(s, p, e, more);
  }

  // ------------------------------------------------------------ what is in the list

  /** An entry is one that was there, or the one that the operation makes. */
  lemma {:induction false} ElementIs<K, V>(c: Config, s: seq<Entry<K, V>>, op: Op<K, V>, x: Entry<K, V>)
    requires Distinct(Keys(s)) && x in Apply(c, s, op).kept
    ensures match op
            case Set(e, _) => if x.key == e.key then x == e else x in s
            case Get(k, now, later) =>
              if x.key == k then exists e :: e in s && e.key == k && Live(c, e, now) && x == Renewed(c, e, later) else x in s
            case Delete(k) => x.key != k && x in s
  {
    match op
    case Set(e, now) =>
      var i := Find(s, e.key);
      InPruned(c, Store(c, s, e).kept, now, x);
      if i < |s| {
        InDropped(s, i, x);
      } else {
        NotThere(s, e.key, x);
      }
    case Get(k, now, later) =>
      var i := Find(s, k);
      if i == |s| {
        NotThere(s, k, x);
      } else if c.Expires() && s[i].expires <= now {
        InPruned(c, Drop(s, i), later, x);
        InDropped(s, i, x);
      } else {
        InDropped(s, i, x);
        assert s[i] in s && Refreshed(c, s[i], later) == Renewed(c, s[i], later);
      }
    case Delete(k) =>
      var i := Find(s, k);
      if i < |s| {
        InDropped(s, i, x);
      } else {
        NotThere(s, k, x);
      }
  }

  lemma {:induction false} InPruned<K, V>(c: Config, s: seq<Entry<K, V>>, now: int, x: Entry<K, V>)
    ensures x in Prune(c, s, now).kept ==> x in s
  {
    PruneSplits(c, s, now);
  }

  lemma {:induction false} InDropped<K, V>(s: seq<Entry<K, V>>, i: nat, x: Entry<K, V>)
    requires i < |s| && Distinct(Keys(s))
    ensures x in Drop(s, i) ==> x in s && x.key != s[i].key
  {
    if x in Drop(s, i) {
      var j :| 0 <= j < |Drop(s, i)| && Drop(s, i)[j] == x;
      var k := if j < i then j else j + 1;
      assert s[k] == x && Keys(s)[k] == x.key && Keys(s)[i] == s[i].key;
    }
  }

  lemma {:induction false} NotThere<K, V>(s: seq<Entry<K, V>>, key: K, x: Entry<K, V>)
    requires Find(s, key) == |s|
    ensures x in s ==> x.key != key
  {
  }

  /** Whatever the list has of a key is what is stored for it. */
  lemma {:induction false} ListAgrees<K, V>(c: Config, ops: seq<Op<K, V>>, x: Entry<K, V>)
    requires x in Run(c, ops).kept && Stored(c, ops, x.key).Some?
    ensures Stored(c, ops, x.key).value == x
  {
    var prefix, op := ops[..|ops| - 1], ops[|ops| - 1];
    var s := Run(c, prefix).kept;
    RunConservesKeys(c, prefix);
    ElementIs(c, s, op, x);
    if x in s && Stored(c, prefix, x.key).Some? {
      ListAgrees(c, prefix, x);
    }
    if op.Get? && x.key == op.key {
      var e :| e in s && e.key == x.key && Live(c, e, op.now) && x == Renewed(c, e, op.later);
      ListAgrees(c, prefix, e);
    }
  }

  // ------------------------------------------------------------ runs

  /** Fewer than maxSize other keys have been used since the key was. */
  ghost predicate Room<K, V>(c: Config, ops: seq<Op<K, V>>, key: K) {
    c.maxSize > 0 ==> |Since(Touches(c, ops), key)| < c.maxSize
  }

  lemma {:induction false} RoomBefore<K, V>(c: Config, ops: seq<Op<K, V>>, key: K)
    requires ops != [] && Room(c, ops, key) && TouchOf(Run(c, ops[..|ops| - 1]).kept, ops[|ops| - 1]) != [key]
    ensures Room(c, ops[..|ops| - 1], key)
    ensures var (h, t) := (Touches(c, ops[..|ops| - 1]), TouchOf(Run(c, ops[..|ops| - 1]).kept, ops[|ops| - 1]));
            Since(Touches(c, ops), key) == if t == [] then Since(h, key) else Since(h, key) + {t[0]}
  {
    var h, t := Touches(c, ops[..|ops| - 1]), TouchOf(Run(c, ops[..|ops| - 1]).kept, ops[|ops| - 1]);
    if t == [] {
      assert h + t == h;
    } else {
      SinceTouch(h, t[0], key);
      SubsetSize(Since(h, key), Since(h, key) + {t[0]});
    }
  }

  lemma {:induction false} HeldIsThere<K, V>(s: seq<Entry<K, V>>, e: Entry<K, V>, seen: set<K>)
    requires Held(s, e, seen)
    ensures e in s && Find(s, e.key) < |s|
  {
    var p: nat :| HeldAt(s, p, e, seen);
  }

  /** What is stored for a key is held, as long as there is room for it. */
  lemma {:induction false} StoredIsHeld<K, V>(c: Config, ops: seq<Op<K, V>>, key: K)
    requires Stored(c, ops, key).Some? && Room(c, ops, key)
    ensures Held(Run(c, ops).kept, Stored(c, ops, key).value, Since(Touches(c, ops), key))
    decreases |ops|, 1
  {
    var prefix := ops[..|ops| - 1];
    RunConservesKeys(c, prefix);
    match ops[|ops| - 1]
    case Set(e, now) =>
      if e.key == key {
        SetSame(c, Run(c, prefix).kept, e, now, Since(Touches(c, ops), key));
      } else {
        RoomBefore(c, ops, key);
        StoredIsHeld(c, prefix, key);
        SetOther(c, Run(c, prefix).kept, e, now, Stored(c, prefix, key).value, Since(Touches(c, prefix), key));
      }
    case Get(k, now, later) =>
      if k == key {
        HeldOnGet(c, ops, key);
      } else {
        RoomBefore(c, ops, key);
        StoredIsHeld(c, prefix, key);
        GetOther(c, Run(c, prefix).kept, k, now, later, Stored(c, prefix, key).value, Since(Touches(c, prefix), key));
      }
    case Delete(k) =>
      RoomBefore(c, ops, key);
      StoredIsHeld(c, prefix, key);
      var s := Run(c, prefix).kept;
      if Find(s, k) < |s| {
        DropHeld(s, Find(s, k), Stored(c, prefix, key).value, Since(Touches(c, prefix), key));
      }
  }

  lemma {:induction false} HeldOnGet<K, V>(c: Config, ops: seq<Op<K, V>>, key: K)
    requires Stored(c, ops, key).Some? && Room(c, ops, key) && ops[|ops| - 1].Get? && ops[|ops| - 1].key == key
    ensures Held(Run(c, ops).kept, Stored(c, ops, key).value, Since(Touches(c, ops), key))
    decreases |ops|, 0
  {
    var prefix, op := ops[..|ops| - 1], ops[|ops| - 1];
    var s := Run(c, prefix).kept;
    var i := Find(s, key);
    if i == |s| {
      RoomBefore(c, ops, key);
      StoredIsHeld(c, prefix, key);
      HeldIsThere(s, Stored(c, prefix, key).value, Since(Touches(c, prefix), key));
    } else {
      ListAgrees(c, prefix, s[i]);
      LastHeld(Drop(s, i), Refreshed(c, s[i], op.later), Since(Touches(c, ops), key));
    }
  }

  /** The clock does not go back, and t is not before its last reading. */
  ghost predicate Clocked<K, V>(ops: seq<Op<K, V>>, t: int) {
    ops == [] ||
    match ops[|ops| - 1]
    case Set(_, now) => now <= t && Clocked(ops[..|ops| - 1], now)
    case Get(_, now, later) => now <= later <= t && Clocked(ops[..|ops| - 1], now)
    case Delete(_) => Clocked(ops[..|ops| - 1], t)
  }

  /** Whatever has not expired is stored. */
  lemma {:induction false} LiveIsStored<K, V>(c: Config, ops: seq<Op<K, V>>, x: Entry<K, V>, t: int)
    requires x in Run(c, ops).kept && Clocked(ops, t) && Live(c, x, t)
    ensures Stored(c, ops, x.key) == Some(x)
  {
    var prefix, op := ops[..|ops| - 1], ops[|ops| - 1];
    var s := Run(c, prefix).kept;
    RunConservesKeys(c, prefix);
    ElementIs(c, s, op, x);
    match op
    case Set(e, now) =>
      if x.key != e.key {
        LiveIsStored(c, prefix, x, now);
      }
    case Get(k, now, later) =>
      if x.key == k {
        var e :| e in s && e.key == k && Live(c, e, now) && x == Renewed(c, e, later);
        LiveIsStored(c, prefix, e, now);
      } else {
        LiveIsStored(c, prefix, x, now);
      }
    case Delete(_) =>
      LiveIsStored(c, prefix, x, t);
  }

  /** What a Get gives out of what is stored. */
  function Given<K, V>(c: Config, e: Option<Entry<K, V>>, now: int, later: int): Option<Entry<K, V>> {
    if e.Some? && Live(c, e.value, now) then Some(Renewed(c, e.value, later)) else None
  }

  /** A Get before the expiry date finds the value that was last set, with its expiry date renewed as the options say,
      unless the key has been deleted or maxSize other keys have been used since. */
  lemma {:induction false} GetFindsStored<K, V>(c: Config, ops: seq<Op<K, V>>, key: K, now: int, later: int)
    requires Stored(c, ops, key).Some? && Room(c, ops, key)
    ensures GetEntry(c, Run(c, ops).kept, key, now, later).1 == Given(c, Stored(c, ops, key), now, later)
  {
    var e, s := Stored(c, ops, key).value, Run(c, ops).kept;
    StoredIsHeld(c, ops, key);
    HeldIsThere(s, e, Since(Touches(c, ops), key));
    RunConservesKeys(c, ops);
    GetIff(c, s, key, now, later);
    ListAgrees(c, ops, s[Find(s, key)]);
  }

  /** With a clock that does not go back nothing else is ever given out. */
  lemma {:induction false} GetGivesStored<K, V>(c: Config, ops: seq<Op<K, V>>, key: K, now: int, later: int)
    requires Clocked(ops, now)
    ensures var hit := GetEntry(c, Run(c, ops).kept, key, now, later).1;
            && (hit.Some? ==> hit == Given(c, Stored(c, ops, key), now, later))
            && (Room(c, ops, key) ==> hit == Given(c, Stored(c, ops, key), now, later))
  {
    var s := Run(c, ops).kept;
    RunConservesKeys(c, ops);
    GetIff(c, s, key, now, later);
    if GetEntry(c, s, key, now, later).1.Some? {
      var e :| e in s && e.key == key && (!c.staleReturn && c.maxAge > 0 ==> now < e.expires);
      LiveIsStored(c, ops, e, now);
    } else if Room(c, ops, key) && Stored(c, ops, key).Some? {
      GetFindsStored(c, ops, key, now, later);
    }
  }

  /** Two seconds of age: a value is still there after one second, and gone after two. */
  lemma {:induction false} OneSecondLater(c: Config, v: int)
    requires c == Config(2, 64, false, false)
    ensures var s := Run(c, [Set(Entry("k", v, 2), 0)]).kept;
            GetEntry(c, s, "k", 1, 1).1 == Some(Entry("k", v, 2)) && GetEntry(c, s, "k", 2, 2).1 == None
  {
    var op := Set(Entry("k", v, 2), 0);
    assert [op][..0] == [];
    assert Stored(c, [op], "k") == Some(op.entry);
    assert Touches(c, [op]) == ["k"];
    assert Room(c, [op], "k");
    GetFindsStored(c, [op], "k", 1, 1);
    GetFindsStored(c, [op], "k", 2, 2);
  }
}
