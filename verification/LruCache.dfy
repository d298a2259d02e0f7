/** The cache object of common/cache/lrucache.go: a map from keys to shared entries and
    the recency list of the same entries, both updated in place.  Its locks only
    serialise the calls; clock readings are parameters. */
module LruCache {
  import opened Collections
  import opened Lru

  /** An entry, reached both from the map and from the list. */
  class Element<K, V> {
    const key: K
    var value: V
    var expires: int

    constructor (key: K, value: V, expires: int)
      ensures this.key == key && this.value == value && this.expires == expires
    {
      this.key, this.value, this.expires := key, value, expires;
    }
  }

  ghost function Snapshot<K, V>(es: seq<Element<K, V>>): (s: seq<Entry<K, V>>)
    reads es
    ensures |s| == |es|
    ensures forall i :: 0 <= i < |es| ==> s[i] == Entry(es[i].key, es[i].value, es[i].expires)
  {
    seq(|es|, i requires 0 <= i < |es| reads es => Entry(es[i].key, es[i].value, es[i].expires))
  }

  /** Map and list hold the same entries, one per key. */
  ghost predicate Linked<K, V>(cache: map<K, Element<K, V>>, lru: seq<Element<K, V>>) {
    && (forall i, j :: 0 <= i < j < |lru| ==> lru[i].key != lru[j].key)
    && (forall i :: 0 <= i < |lru| ==> lru[i].key in cache && cache[lru[i].key] == lru[i])
    && |cache| == |lru|
  }

  lemma {:induction false} DropFront<T>(s: seq<T>)
    requires s != []
    ensures Drop(s, 0) == s[1..]
  {
  }

  lemma {:induction false} PruneIs<K, V>(c: Config, s: seq<Entry<K, V>>, n: nat, now: int)
    requires n <= |s| && (!c.Expires() ==> n == 0)
    requires forall j :: 0 <= j < n ==> s[j].expires <= now
    requires c.Expires() && n < |s| ==> now < s[n].expires
    ensures Prune(c, s, now) == Outcome(s[n..], s[..n])
  {
    if n > 0 {
      PruneIs(c, s[1..], n - 1, now);
      assert s[..n] == [s[0]] + s[1..][..n - 1];
    }
  }

  lemma {:induction false} DropLinked<K, V>(cache: map<K, Element<K, V>>, lru: seq<Element<K, V>>, i: nat)
    requires Linked(cache, lru) && i < |lru|
    ensures Linked(cache - {lru[i].key}, Drop(lru, i))
  {
    var d := Drop(lru, i);
    assert forall j :: 0 <= j < |d| ==> d[j] == lru[if j < i then j else j + 1];
  }

  lemma {:induction false} PushLinked<K, V>(cache: map<K, Element<K, V>>, lru: seq<Element<K, V>>, e: Element<K, V>)
    requires Linked(cache, lru) && e.key !in cache
    ensures Linked(cache[e.key := e], lru + [e])
  {
  }

  lemma {:induction false} MoveLinked<K, V>(cache: map<K, Element<K, V>>, lru: seq<Element<K, V>>, i: nat)
    requires Linked(cache, lru) && i < |lru|
    ensures Linked(cache, Drop(lru, i) + [lru[i]])
  {
    DropLinked(cache, lru, i);
    PushLinked(cache - {lru[i].key}, Drop(lru, i), lru[i]);
    assert (cache - {lru[i].key})[lru[i].key := lru[i]] == cache;
  }

  lemma {:induction false} PlaceOf<K, V>(cache: map<K, Element<K, V>>, lru: seq<Element<K, V>>, i: nat)
    requires Linked(cache, lru) && i < |lru|
    ensures Find(Snapshot(lru), lru[i].key) == i
  {
    assert Snapshot(lru)[i].key == lru[i].key;
  }

  lemma {:induction false} PlaceOfKey<K, V>(cache: map<K, Element<K, V>>, lru: seq<Element<K, V>>, key: K)
    requires Linked(cache, lru)
    ensures key in cache <==> Find(Snapshot(lru), key) < |lru|
    ensures key in cache ==> cache[key] == lru[Find(Snapshot(lru), key)]
  {
    var ks := Keys(Snapshot(lru));
    AbsentKey(Snapshot(lru), key);
    DistinctSize(ks);
    if key in cache && key !in ks {
      SubsetSize(ToSet(ks), cache.Keys - {key});
    }
  }

  lemma {:induction false} SnapshotDrop<K, V>(es: seq<Element<K, V>>, i: nat)
    requires i < |es|
    ensures Snapshot(Drop(es, i)) == Drop(Snapshot(es), i)
  {
  }

  /** The calls the eviction callback, if there is one, gets for these deletions. */
  ghost function Calls<K, V>(onEvict: bool, removed: seq<Entry<K, V>>): seq<(K, V)> {
    if !onEvict || removed == [] then []
    else
      var e := removed[|removed| - 1];
      Calls(onEvict, removed[..|removed| - 1]) + [(e.key, e.value)]
  }

  /** The callback gets every removed entry, once and in order, if it is on. */
  lemma {:induction false} CallsAre<K, V>(onEvict: bool, removed: seq<Entry<K, V>>)
    ensures |Calls(onEvict, removed)| == if onEvict then |removed| else 0
    ensures forall i :: 0 <= i < |Calls(onEvict, removed)| ==> Calls(onEvict, removed)[i] == (removed[i].key, removed[i].value)
  {
    if onEvict && removed != [] {
      CallsAre(onEvict, removed[..|removed| - 1]);
    }
  }

  lemma {:induction false} CallsNext<K, V>(calls: seq<(K, V)>, onEvict: bool, s: seq<Entry<K, V>>, n: nat)
    requires n < |s|
    ensures calls + Calls(onEvict, s[..n]) + Calls(onEvict, [s[n]]) == calls + Calls(onEvict, s[..n + 1])
  {
    assert s[..n + 1] == s[..n] + [s[n]];
    CallsConcat(onEvict, s[..n], [s[n]]);
    Associates(calls, Calls(onEvict, s[..n]), Calls(onEvict, [s[n]]));
  }

  lemma {:induction false} CallsConcat<K, V>(onEvict: bool, a: seq<Entry<K, V>>, b: seq<Entry<K, V>>)
    ensures Calls(onEvict, a + b) == Calls(onEvict, a) + Calls(onEvict, b)
  {
    if b == [] {
      assert a + b == a;
    } else {
      CallsConcat(onEvict, a, b[..|b| - 1]);
      assert (a + b)[..|a + b| - 1] == a + b[..|b| - 1];
    }
  }

  class LruCache<K(==), V> {
    const config: Config
    var cache: map<K, Element<K, V>>
    var lru: seq<Element<K, V>>
    var onEvict: bool
    /** The calls made to the eviction callback so far. */
    var evicted: seq<(K, V)>

    ghost predicate Valid()
      reads this
    {
      Linked(cache, lru)
    }

    ghost function Contents(): seq<Entry<K, V>>
      reads this, lru
    {
      Snapshot(lru)
    }

    constructor (config: Config, onEvict: bool)
      ensures Valid() && Contents() == [] && evicted == []
      ensures this.config == config && this.onEvict == onEvict
      ensures lru == []
    {
      this.config, this.onEvict := config, onEvict;
      cache, lru, evicted := map[], [], [];
    }

    method SetOnEvict()
      modifies this`onEvict
      ensures onEvict
    {
      if !onEvict {
        onEvict := true;
      }
    }

    method Exist(key: K) returns (found: bool)
      requires Valid()
      ensures found <==> key in Keys(Contents())
    {
      found := key in cache;
      PlaceOfKey(cache, lru, key);
      AbsentKey(Contents(), key);
    }

    /** The place of an entry in the list; the list element itself in the source. */
    method PlaceIn(le: Element<K, V>) returns (i: nat)
      requires Valid() && le in lru
      ensures i < |lru| && lru[i] == le && i == Find(Contents(), le.key)
    {
      i :| 0 <= i < |lru| && lru[i] == le;
      PlaceOf(cache, lru, i);
    }

    method MoveToBack(i: nat)
      requires Valid() && i < |lru|
      modifies this`lru
      ensures Valid() && lru == Drop(old(lru), i) + [old(lru)[i]]
    {
      MoveLinked(cache, lru, i);
      lru := Drop(lru, i) + [lru[i]];
    }

    method DeleteElement(i: nat)
      requires Valid() && i < |lru|
      modifies this`lru, this`cache, this`evicted
      ensures Valid() && lru == Drop(old(lru), i)
      ensures Contents() == Drop(old(Contents()), i)
      ensures evicted == old(evicted) + Calls(onEvict, [old(Contents())[i]])
    {
      DropLinked(cache, lru, i);
      SnapshotDrop(lru, i);
      var e := lru[i];
      lru := Drop(lru, i);
      cache := cache - {e.key};
      if onEvict {
        evicted := evicted + [(e.key, e.value)];
      }
    }

    method DeleteFront()
      requires Valid() && lru != []
      modifies this`lru, this`cache, this`evicted
      ensures Valid() && lru == old(lru)[1..]
      ensures Contents() == old(Contents())[1..]
      ensures evicted == old(evicted) + Calls(onEvict, [old(Contents())[0]])
    {
      DropFront(lru);
      DropFront(Contents());
      DeleteElement(0);
    }

    method MaybeDeleteOldest(now: int)
      requires Valid()
      modifies this`lru, this`cache, this`evicted
      ensures Valid() && forall e :: e in lru ==> e in old(lru)
      ensures var r := Prune(config, old(Contents()), now);
              Contents() == r.kept && evicted == old(evicted) + Calls(onEvict, r.removed)
    {
      ghost var s, n := Contents(), 0;
      if !config.staleReturn && config.maxAge > 0 {
        n := DeleteExpired(now);
      }
      PruneIs(config, s, n, now);
    }

    /** The first n elements, up to one that is not expired. */
    method DeleteExpired(now: int) returns (ghost n: nat)
      requires Valid()
      modifies this`lru, this`cache, this`evicted
      ensures n <= |old(Contents())| && Valid() && lru == old(lru)[n..] && Contents() == old(Contents())[n..]
      ensures (forall j :: 0 <= j < n ==> old(Contents())[j].expires <= now) && (lru == [] || lru[0].expires > now)
      ensures evicted == old(evicted) + Calls(onEvict, old(Contents())[..n])
    {
      ghost var s := Contents();
      n := 0;
      while |lru| > 0 && lru[0].expires <= now
        invariant Valid() && n <= |s| && lru == old(lru)[n..] && Contents() == s[n..]
        invariant forall j :: 0 <= j < n ==> s[j].expires <= now
        invariant evicted == old(evicted) + Calls(onEvict, s[..n])
        decreases |lru|
      {
        CallsNext(old(evicted), onEvict, s, n);
        assert s[n] == Contents()[0] && s[n..][1..] == s[n + 1..];
        DeleteFront();
        n := n + 1;
      }
    }

    /** Clean up after a step that left `done.kept` and deleted `done.removed`. */
    method CleanAfter(now: int, ghost calls: seq<(K, V)>, ghost done: Outcome<K, V>)
      requires Valid() && Contents() == done.kept && evicted == calls + Calls(onEvict, done.removed)
      modifies this`lru, this`cache, this`evicted
      ensures Valid() && forall e :: e in lru ==> e in old(lru)
      ensures var r := Prune(config, done.kept, now);
              Contents() == r.kept && evicted == calls + Calls(onEvict, done.removed + r.removed)
    {
      ghost var more := Prune(config, done.kept, now).removed;
      CallsConcat(onEvict, done.removed, more);
      Associates(calls, Calls(onEvict, done.removed), Calls(onEvict, more));
      MaybeDeleteOldest(now);
    }

    /** Overwrite the entry at place i and make it the most recent. */
    method Overwrite(i: nat, value: V, expires: int)
      requires Valid() && i < |lru|
      modifies this`lru, lru[i]
      ensures Valid() && lru == Drop(old(lru), i) + [old(lru)[i]]
      ensures Contents() == Drop(old(Contents()), i) + [Entry(old(lru)[i].key, value, expires)]
    {
      var le := lru[i];
      ghost var s := Contents();
      SnapshotDrop(lru, i);
      MoveToBack(i);
      le.value, le.expires := value, expires;
      assert forall j :: 0 <= j < |lru| - 1 ==> lru[j] == old(lru)[if j < i then j else j + 1];
    }

    method PushBack(key: K, value: V, expires: int)
      requires Valid() && key !in cache
      modifies this`lru, this`cache
      ensures Valid() && |lru| == |old(lru)| + 1 && lru[..|old(lru)|] == old(lru) && fresh(lru[|old(lru)|])
      ensures Contents() == old(Contents()) + [Entry(key, value, expires)]
    {
      var e := new Element(key, value, expires);
      PushLinked(cache, lru, e);
      cache := cache[key := e];
      lru := lru + [e];
    }

    method Insert(key: K, value: V, expires: int)
      requires Valid() && key !in cache
      modifies this`lru, this`cache, this`evicted
      ensures Valid() && forall e :: e in lru ==> e in old(lru) || fresh(e)
      ensures var r := Push(config, old(Contents()), Entry(key, value, expires));
              Contents() == r.kept && evicted == old(evicted) + Calls(onEvict, r.removed)
    {
      PushBack(key, value, expires);
      if config.maxSize > 0 {
        if |lru| > config.maxSize {
          DeleteFront();
        }
      }
    }

    method Put(key: K, value: V, expires: int)
      requires Valid()
      modifies this`lru, this`cache, this`evicted, lru
      ensures Valid() && forall e :: e in lru ==> e in old(lru) || fresh(e)
      ensures var r := Store(config, old(Contents()), Entry(key, value, expires));
              Contents() == r.kept && evicted == old(evicted) + Calls(onEvict, r.removed)
    {
      PlaceOfKey(cache, lru, key);
      if key in cache {
        var i := PlaceIn(cache[key]);
        Overwrite(i, value, expires);
      } else {
        Insert(key, value, expires);
      }
    }

    method SetWithExpire(key: K, value: V, expires: int, now: int)
      requires Valid()
      modifies this`lru, this`cache, this`evicted, lru
      ensures Valid() && forall e :: e in lru ==> e in old(lru) || fresh(e)
      ensures var r := SetEntry(config, old(Contents()), Entry(key, value, expires), now);
              Contents() == r.kept && evicted == old(evicted) + Calls(onEvict, r.removed)
    {
      Put(key, value, expires);
      CleanAfter(now, old(evicted), Store(config, old(Contents()), Entry(key, value, expires)));
    }

    /** `now` is read for the expiry date, `later` for the clean-up. */
    method Set(key: K, value: V, now: int, later: int)
      requires Valid()
      modifies this`lru, this`cache, this`evicted, lru
      ensures Valid() && forall e :: e in lru ==> e in old(lru) || fresh(e)
      ensures var e := Entry(key, value, if config.maxAge > 0 then now + config.maxAge else 0);
              var r := SetEntry(config, old(Contents()), e, later);
              Contents() == r.kept && evicted == old(evicted) + Calls(onEvict, r.removed)
    {
      var expires := if config.maxAge > 0 then now + config.maxAge else 0;
      SetWithExpire(key, value, expires, later);
    }

    method GetElement(key: K, now: int, later: int) returns (hit: Option<Element<K, V>>)
      requires Valid()
      modifies this`lru, this`cache, this`evicted, lru
      ensures Valid() && forall e :: e in lru ==> e in old(lru)
      ensures var (r, found) := GetEntry(config, old(Contents()), key, now, later);
              && Contents() == r.kept && evicted == old(evicted) + Calls(onEvict, r.removed)
              && (hit.None? <==> found.None?)
              && (hit.Some? ==> Entry(hit.value.key, hit.value.value, hit.value.expires) == found.value)
    {
      PlaceOfKey(cache, lru, key);
      if key !in cache {
        return None;
      }
      var i := PlaceIn(cache[key]);
      if !config.staleReturn && config.maxAge > 0 && lru[i].expires <= now {
        ExpireAt(i, later);
        return None;
      }
      var le := Touch(i, later);
      return Some(le);
    }

    /** A hit at place i. */
    method Touch(i: nat, later: int) returns (le: Element<K, V>)
      requires Valid() && i < |lru|
      modifies this`lru, lru[i]
      ensures Valid() && forall e :: e in lru ==> e in old(lru)
      ensures var s := old(Contents());
              var e := Refreshed(config, s[i], later);
              Contents() == Drop(s, i) + [e] && Entry(le.key, le.value, le.expires) == e
    {
      le := lru[i];
      Overwrite(i, le.value, if config.maxAge > 0 && config.updateAgeOnGet then later + config.maxAge else le.expires);
      assert lru[|lru| - 1] == le && Contents()[|lru| - 1] == Entry(le.key, le.value, le.expires);
    }

    method ExpireAt(i: nat, later: int)
      requires Valid() && i < |lru|
      modifies this`lru, this`cache, this`evicted
      ensures Valid() && forall e :: e in lru ==> e in old(lru)
      ensures var s := old(Contents());
              var r := Prune(config, Drop(s, i), later);
              Contents() == r.kept && evicted == old(evicted) + Calls(onEvict, [s[i]] + r.removed)
    {
      ghost var done := Outcome(Drop(Contents(), i), [Contents()[i]]);
      DeleteElement(i);
      CleanAfter(later, old(evicted), done);
    }

    method Get(key: K, now: int, later: int) returns (value: Option<V>)
      requires Valid()
      modifies this`lru, this`cache, this`evicted, lru
      ensures Valid() && forall e :: e in lru ==> e in old(lru)
      ensures var (r, found) := GetEntry(config, old(Contents()), key, now, later);
              && Contents() == r.kept && evicted == old(evicted) + Calls(onEvict, r.removed)
              && value == if found.Some? then Some(found.value.value) else None
    {
      var le := GetElement(key, now, later);
      value := if le.None? then None else Some(le.value.value);
    }

    method Delete(key: K)
      requires Valid()
      modifies this`lru, this`cache, this`evicted
      ensures Valid() && forall e :: e in lru ==> e in old(lru)
      ensures var r := DeleteKey(old(Contents()), key);
              Contents() == r.kept && evicted == old(evicted) + Calls(onEvict, r.removed)
    {
      PlaceOfKey(cache, lru, key);
      if key in cache {
        var i := PlaceIn(cache[key]);
        DeleteElement(i);
      }
    }

    /** The target takes over the entries themselves, whatever its own maxSize. */
    method CloneTo(n: LruCache<K, V>)
      requires Valid() && n != this
      modifies n`lru, n`cache
      ensures n.Valid() && n.lru == lru && n.Contents() == Contents()
    {
      n.lru, n.cache := [], map[];
      var i := 0;
      while i < |lru|
        invariant 0 <= i <= |lru| && n.lru == lru[..i] && Linked(n.cache, n.lru)
        invariant forall k :: k in n.cache ==> exists j :: 0 <= j < i && lru[j].key == k
      {
        PushLinked(n.cache, n.lru, lru[i]);
        n.cache := n.cache[lru[i].key := lru[i]];
        n.lru := n.lru + [lru[i]];
        i := i + 1;
      }
    }
  }
}
