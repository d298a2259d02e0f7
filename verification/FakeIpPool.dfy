/** The pool object of component/fakeip/pool.go: its methods update `offset` and the
    shared cache in place and perform the steps of FakeIp.dfy.  The cache has no age,
    so the clock readings passed to it do not matter. */
module FakeIpPool {
  import opened Collections
  import opened Lru
  import opened Bytes
  import opened FakeIp
  import Cache = LruCache
  import Runs = FakeIpRuns

  lemma {:induction false} AgelessSet(c: Config, s: Entries, e: Entry<Key, Value>)
    requires c.maxAge == 0
    ensures SetEntry(c, s, e, 0).kept == Store(c, s, e).kept
  {
    PruneSplits(c, Store(c, s, e).kept, 0);
  }

  /** One turn of the search: the next offset, and whether it has come round. */
  lemma {:induction false} NextTurn(slots: nat, current: nat, k: nat)
    requires current < slots && k < slots
    ensures ((current + k) % slots + 1) % slots == (current + k + 1) % slots
    ensures (current + k + 1) % slots == current <==> k + 1 == slots
  {
    var x := current + k;
    if x < slots {
      Runs.ModOnce(x, slots);
    } else {
      Runs.ModOnce(x - slots, slots);
    }
    if x + 1 < slots {
      Runs.ModOnce(x + 1, slots);
    } else if x + 1 < 2 * slots {
      Runs.ModOnce(x + 1 - slots, slots);
    }
  }

  class Pool {
    const min: nat
    const max: nat
    const gateway: nat
    const size: int
    const cache: Cache.LruCache<Key, Value>
    var offset: nat

    ghost function Abs(): State
      reads this, cache, cache.lru
    {
      State(min, max, size, offset, cache.Contents())
    }

    ghost predicate Valid()
      reads this, cache, cache.lru
    {
      cache.Valid() && cache.config == Abs().CacheConfig() && Abs().Typed()
    }

    constructor (min: nat, max: nat, size: int)
      requires State(min, max, size, 0, []).Typed()
      ensures Valid() && Abs() == State(min, max, size, 0, [])
      ensures gateway == Wrap(min - 1)
      ensures fresh(cache)
    {
      this.min, this.max, this.size := min, max, size;
      gateway := Wrap(min - 1);
      offset := 0;
      cache := new Cache.LruCache(Config(0, size * 2, false, false), false);
    }

    method CacheGet(key: Key) returns (value: Option<Value>)
      requires cache.Valid() && cache.config.maxAge == 0
      modifies cache, cache.lru
      ensures cache.Valid() && forall i :: 0 <= i < |cache.lru| ==> cache.lru[i] in old(cache.lru)
      ensures var (r, hit) := GetEntry(cache.config, old(cache.Contents()), key, 0, 0);
              cache.Contents() == r.kept && value == if hit.Some? then Some(hit.value.value) else None
    {
      value := cache.Get(key, 0, 0);
    }

    method CacheSet(key: Key, value: Value)
      requires cache.Valid() && cache.config.maxAge == 0
      modifies cache, cache.lru
      ensures cache.Valid() && forall i :: 0 <= i < |cache.lru| ==> cache.lru[i] in old(cache.lru) || fresh(cache.lru[i])
      ensures cache.Contents() == Store(cache.config, old(cache.Contents()), Entry(key, value, 0)).kept
    {
      AgelessSet(cache.config, cache.Contents(), Entry(key, value, 0));
      cache.Set(key, value, 0, 0);
    }

    /** The search loop of `get`: leaves `offset` at the offset to use. */
    method Search()
      requires Valid()
      modifies this`offset
      ensures offset == Probe(cache.Contents(), max - min, old(offset), 0)
    {
      var current := offset;
      ghost var k, slots := 0, max - min;
      Runs.ModOnce(current, slots);
      while true
        invariant current < slots && k < slots && offset == (current + k) % slots
        invariant Probe(cache.Contents(), slots, current, k) == Probe(cache.Contents(), slots, current, 0)
        decreases slots - k
      {
        var stop := Turn(current, k);
        if stop {
          break;
        }
        k := k + 1;
      }
    }

    /** One turn of the loop; it stops at a free offset, or when all of them are taken. */
    method Turn(current: nat, ghost k: nat) returns (stop: bool)
      requires Valid() && current < max - min && k < max - min && offset == (current + k) % (max - min)
      modifies this`offset
      ensures var slots := max - min;
              && offset == (current + k + 1) % slots
              && (stop ==> offset == Probe(cache.Contents(), slots, current, k))
              && (!stop ==> k + 1 < slots && Probe(cache.Contents(), slots, current, k + 1) == Probe(cache.Contents(), slots, current, k))
    {
      NextTurn(max - min, current, k);
      offset := (offset + 1) % (max - min);
      if offset == current {
        return true;
      }
      var taken := cache.Exist(Offset(offset));
      AbsentKey(cache.Contents(), Offset(offset));
      return !taken;
    }

    method Exist(ip: seq<byte>) returns (found: bool)
      requires Valid()
      ensures found == FakeIp.Exist(Abs(), ip)
    {
      if To4(ip).None? {
        return false;
      }
      var offset := SlotOf(min, To4(ip).value);
      found := cache.Exist(Offset(offset));
      AbsentKey(cache.Contents(), Offset(offset));
    }

    /** Touch both entries of a binding, the second for its place in the list only. */
    method Refresh(key: Key)
      requires cache.Valid() && cache.config.maxAge == 0
      modifies cache, cache.lru
      ensures cache.Valid() && cache.Contents() == GetEntry(cache.config, old(cache.Contents()), key, 0, 0).0.kept
    {
      var _ := CacheGet(key);
    }

    method LookBack(ip: seq<byte>) returns (host: Option<string>)
      requires Valid()
      modifies cache, cache.lru
      ensures Valid() && (Abs(), host) == FakeIp.LookBack(old(Abs()), ip)
    {
      ghost var goal := FakeIp.LookBack(Abs(), ip);
      if To4(ip).None? {
        return None;
      }
      var offset := SlotOf(min, To4(ip).value);
      GetTyped(cache.config, cache.Contents(), Offset(offset), min, max - min);
      var elm := CacheGet(Offset(offset));
      if elm.None? {
        return None;
      }
      var name := elm.value.name;
      // Touch the other direction too.
      Refresh(Host(name));
      assert Abs() == goal.0;
      return Some(name);
    }

    method Lookup(host: string) returns (ip: Ip)
      requires Valid()
      modifies this`offset, cache, cache.lru
      ensures Valid() && (Abs(), ip) == FakeIp.Lookup(old(Abs()), host)
    {
      ghost var goal := FakeIp.Lookup(Abs(), host);
      GetTyped(cache.config, cache.Contents(), Host(host), min, max - min);
      var elm := CacheGet(Host(host));
      if elm.Some? {
        ip := elm.value.ip;
        // Touch the other direction too.
        Refresh(Offset(SlotOf(min, ip)));
        assert Abs() == goal.0;
      } else {
        ip := Bind(host);
        assert Abs() == goal.0;
      }
    }

    /** `get`, and the entry of the host that Lookup adds to it. */
    method Bind(host: string) returns (ip: Ip)
      requires Valid()
      modifies this`offset, cache, cache.lru
      ensures cache.Valid() && offset == Probe(old(cache.Contents()), max - min, old(offset), 0)
      ensures ip == AddressAt(min, offset)
      ensures var named := Store(cache.config, old(cache.Contents()), Entry(Offset(offset), Name(host), 0)).kept;
              cache.Contents() == Store(cache.config, named, Entry(Host(host), Address(ip), 0)).kept
    {
      ip := Allocate(host);
      CacheSet(Host(host), Address(ip));
    }

    method Allocate(host: string) returns (ip: Ip)
      requires Valid()
      modifies this`offset, cache, cache.lru
      ensures cache.Valid() && offset == Probe(old(cache.Contents()), max - min, old(offset), 0)
      ensures ip == AddressAt(min, offset)
      ensures cache.Contents() == Store(cache.config, old(cache.Contents()), Entry(Offset(offset), Name(host), 0)).kept
      ensures forall i :: 0 <= i < |cache.lru| ==> cache.lru[i] in old(cache.lru) || fresh(cache.lru[i])
    {
      Search();
      ip := AddressAt(min, offset);
      CacheSet(Offset(offset), Name(host));
    }
  }

  /** New: no pool for a net without a usable address. */
  method NewPool(ipnet: IPNet, size: int) returns (p: Option<Pool>)
    requires ipnet.Valid()
    ensures p.None? <==> ipnet.HostBits() < 2
    ensures p.Some? ==> fresh(p.value) && p.value.Valid() && Some(p.value.Abs()) == New(ipnet, size)
    ensures p.Some? ==> p.value.gateway == IpToUint(ipnet.ip) + 1
  {
    NewShape(ipnet, size);
    BoundsFit(ipnet);
    var min := Wrap(IpToUint(ipnet.ip) + 2);
    var total := Pow2(ipnet.HostBits()) - 2;
    if total <= 0 {
      return None;
    }
    var max := Wrap(min + Wrap(total) - 1);
    WrapIs(min - 1);
    var pool := new Pool(min, max, size);
    return Some(pool);
  }
}
