/** The fake-IP pool of component/fakeip/pool.go as a state machine.

    One cache holds both directions of the host <-> address mapping as two separate
    entries.  `Lookup`, `LookBack` and `Exist` step over a `State`; the object that
    performs these steps in place is in FakeIpPool.dfy. */
module FakeIp {
  import opened Collections
  import opened Lru
  import opened Bytes

  const TWO32: nat := 0x1_0000_0000

  type Ip = s: seq<byte> | |s| == 4 witness [0, 0, 0, 0]

  /** uint32 arithmetic. */
  function Wrap(x: int): (r: nat)
    ensures r < TWO32
  {
    x % TWO32
  }

  function IpToUint(ip: Ip): (v: nat)
    ensures v < TWO32
  {
    ip[0] as int * 0x100_0000 + ip[1] as int * 0x1_0000 + ip[2] as int * 0x100 + ip[3]
  }

  function UintToIp(v: nat): Ip
    requires v < TWO32
  {
    [v / 0x100_0000 % 256, v / 0x1_0000 % 256, v / 0x100 % 256, v % 256]
  }

  lemma {:induction false} IpOfUint(v: nat)
    requires v < TWO32
    ensures IpToUint(UintToIp(v)) == v
  {
    var a, b, c := v / 0x100_0000, v / 0x1_0000, v / 0x100;
    assert c / 256 == b && b / 256 == a && a < 256;
  }

  lemma {:induction false} UintOfIp(ip: Ip)
    ensures UintToIp(IpToUint(ip)) == ip
  {
    var v := IpToUint(ip);
    var a, b, c: int := ip[0], ip[1], ip[2];
    assert v / 0x100_0000 == a;
    assert v / 0x1_0000 == a * 256 + b;
    assert v / 0x100 == a * 0x1_0000 + b * 0x100 + c;
  }

  /** The four-byte form of an address, if it has one (net.IP.To4). */
  function To4(ip: seq<byte>): Option<Ip> {
    if |ip| == 4 then Some(ip)
    else if |ip| == 16 && ip[..12] == [0, 0, 0, 0, 0, 0, 0, 0, 0, 0, 255, 255] then Some(ip[12..])
    else None
  }

  /** Cache keys are offsets or hosts; values are hosts or addresses. */
  datatype Key = Offset(n: nat) | Host(name: string)
  datatype Value = Name(name: string) | Address(ip: Ip)
  type Entries = seq<Entry<Key, Value>>

  datatype State = State(min: nat, max: nat, size: int, offset: nat, entries: Entries)
  {
    /** The number of offsets the allocator cycles through. */
    function Slots(): int {
      max - min
    }

    function CacheConfig(): Config {
      Config(0, size * 2, false, false)
    }

    /** Holds in every reachable state: the ranges, and the type of each value. */
    ghost predicate Typed() {
      && 2 <= min < max < TWO32
      && offset < Slots()
      && AllTyped(entries, min, Slots())
    }
  }

  ghost predicate WellTyped(e: Entry<Key, Value>, min: nat, slots: int) {
    match e.key
    case Offset(n) => n < slots && e.value.Name?
    case Host(_) => e.value.Address? && SlotOf(min, e.value.ip) < slots
  }

  ghost predicate AllTyped(s: Entries, min: nat, slots: int) {
    forall i :: 0 <= i < |s| ==> WellTyped(s[i], min, slots)
  }

  function AddressAt(min: nat, slot: nat): Ip {
    UintToIp(Wrap(min + slot - 1))
  }

  function SlotOf(min: nat, ip: Ip): nat {
    Wrap(IpToUint(ip) - min + 1)
  }

  lemma {:induction false} SlotOfAddress(min: nat, slot: nat)
    requires slot < TWO32
    ensures SlotOf(min, AddressAt(min, slot)) == slot
  {
    IpOfUint(Wrap(min + slot - 1));
    WrapCancels(min - 1, slot);
  }

  lemma {:induction false} AddressOfSlot(min: nat, ip: Ip)
    ensures AddressAt(min, SlotOf(min, ip)) == ip
  {
    UintOfIp(ip);
    WrapCancels(1 - min, IpToUint(ip));
  }

  lemma {:induction false} WrapCancels(d: int, x: nat)
    requires x < TWO32
    ensures Wrap(Wrap(x + d) - d) == x
  {
    var q := (x + d) / TWO32;
    assert Wrap(x + d) == x + d - TWO32 * q;
    assert (x - TWO32 * q) % TWO32 == x;
  }

  // ------------------------------------------------------------- construction

  function Pow2(n: nat): (p: nat)
    ensures p > 0
  {
    if n == 0 then 1 else 2 * Pow2(n - 1)
  }

  /** An IPv4 network as net.ParseCIDR returns it: the host bits are zero. */
  datatype IPNet = IPNet(ip: Ip, ones: nat)
  {
    function HostBits(): nat
      requires ones <= 32
    {
      32 - ones
    }

    ghost predicate Valid() {
      ones <= 32 && IpToUint(ip) % Pow2(HostBits()) == 0
    }
  }

  lemma {:induction false} Pow2Sum(a: nat, b: nat)
    ensures Pow2(a + b) == Pow2(a) * Pow2(b)
  {
    if b > 0 {
      Pow2Sum(a, b - 1);
      assert Pow2(a + b) == 2 * Pow2(a + (b - 1));
      assert Pow2(a) * (2 * Pow2(b - 1)) == 2 * (Pow2(a) * Pow2(b - 1));
    }
  }

  lemma {:induction false} WrapIs(x: nat)
    requires x < TWO32
    ensures Wrap(x) == x
  {
  }

  lemma {:induction false} NetFits(ipnet: IPNet)
    requires ipnet.Valid()
    ensures var (base, span) := (IpToUint(ipnet.ip), Pow2(ipnet.HostBits()));
            && (ipnet.HostBits() < 2 ==> span <= 2)
            && (ipnet.HostBits() >= 2 ==> span >= 4)
            && base + span <= TWO32
  {
    var base, h := IpToUint(ipnet.ip), ipnet.HostBits();
    assert Pow2(1) == 2 && Pow2(2) == 4;
    if h >= 2 {
      Pow2Sum(2, h - 2);
    }
    Pow2Sum(h, 32 - h);
    Pow2Is32();
    AlignedFits(base, Pow2(h), Pow2(32 - h));
  }

  lemma {:induction false} Pow2Is32()
    ensures Pow2(32) == TWO32
  {
    assert Pow2(8) == 256;
    assert Pow2(16) == 0x1_0000;
    assert Pow2(24) == 0x100_0000;
  }

  lemma {:induction false} AlignedFits(base: nat, span: nat, n: nat)
    requires span > 0 && base % span == 0 && base < span * n
    ensures base + span <= span * n
  {
    var i := base / span;
    assert base == span * i;
    assert i + 1 <= n;
    assert span * (i + 1) <= span * n;
  }

  function New(ipnet: IPNet, size: int): (r: Option<State>)
    requires ipnet.Valid()
    ensures r.Some? ==> r.value.Typed()
  {
    var min := Wrap(IpToUint(ipnet.ip) + 2);
    var total := Pow2(ipnet.HostBits()) - 2;
    BoundsFit(ipnet);
    if total <= 0 then None
    else Some(State(min, Wrap(min + Wrap(total) - 1), size, 0, []))
  }

  /** The bounds are computed in uint32 without overflow. */
  lemma {:induction false} BoundsFit(ipnet: IPNet)
    requires ipnet.Valid()
    ensures var (base, span) := (IpToUint(ipnet.ip), Pow2(ipnet.HostBits()));
            && (ipnet.HostBits() < 2 <==> span <= 2)
            && (span > 2 ==> && span >= 4
                             && Wrap(base + 2) == base + 2 && Wrap(span - 2) == span - 2
                             && Wrap(base + 2 + (span - 2) - 1) == base + span - 1)
  {
    var base, span := IpToUint(ipnet.ip), Pow2(ipnet.HostBits());
    NetFits(ipnet);
    if span > 2 {
      WrapIs(base + 2);
      WrapIs(span - 2);
      WrapIs(base + 2 + (span - 2) - 1);
    }
  }

  /** New fails exactly on /31 and /32; otherwise nothing overflows, and the pool has 2^h - 3 slots. */
  lemma {:induction false} NewShape(ipnet: IPNet, size: int)
    requires ipnet.Valid()
    ensures var (base, span) := (IpToUint(ipnet.ip), Pow2(ipnet.HostBits()));
            if ipnet.HostBits() < 2 then New(ipnet, size).None?
            else
              && New(ipnet, size) == Some(State(base + 2, base + span - 1, size, 0, []))
              && New(ipnet, size).value.Slots() == span - 3
  {
    BoundsFit(ipnet);
  }

  // -------------------------------------------------------------------- steps

  predicate Taken(s: Entries, slot: nat) {
    Find(s, Offset(slot)) < |s|
  }

  /** The offset `get` stops at, when it has tried the k offsets after `current`. */
  function Probe(s: Entries, slots: nat, current: nat, k: nat): (slot: nat)
    requires current < slots && k < slots
    ensures slot < slots
    decreases slots - k
  {
    var next := (current + k + 1) % slots;
    if k + 1 == slots || !Taken(s, next) then next else Probe(s, slots, current, k + 1)
  }

  lemma {:induction false} GetTyped(c: Config, s: Entries, key: Key, min: nat, slots: int)
    requires c.maxAge == 0 && AllTyped(s, min, slots)
    ensures var (o, hit) := GetEntry(c, s, key, 0, 0);
            AllTyped(o.kept, min, slots) && (hit.Some? ==> hit.value.key == key && WellTyped(hit.value, min, slots))
  {
  }

  lemma {:induction false} StoreTyped(c: Config, s: Entries, e: Entry<Key, Value>, min: nat, slots: int)
    requires AllTyped(s, min, slots) && WellTyped(e, min, slots)
    ensures AllTyped(Store(c, s, e).kept, min, slots)
  {
  }

  function Lookup(st: State, host: string): (r: (State, Ip))
    requires st.Typed()
    ensures r.0.Typed() && r.0.min == st.min && r.0.max == st.max && r.0.size == st.size
    ensures SlotOf(st.min, r.1) < st.Slots()
  {
    var c := st.CacheConfig();
    var (touched, hit) := GetEntry(c, st.entries, Host(host), 0, 0);
    GetTyped(c, st.entries, Host(host), st.min, st.Slots());
    if hit.Some? then
      var ip := hit.value.value.ip;
      var slot := SlotOf(st.min, ip);
      GetTyped(c, touched.kept, Offset(slot), st.min, st.Slots());
      (st.(entries := GetEntry(c, touched.kept, Offset(slot), 0, 0).0.kept), ip)
    else
      var slot := Probe(st.entries, st.Slots(), st.offset, 0);
      var ip := AddressAt(st.min, slot);
      var o := Entry(Offset(slot), Name(host), 0);
      var h := Entry(Host(host), Address(ip), 0);
      var named := Store(c, st.entries, o).kept;
      SlotOfAddress(st.min, slot);
      StoreTyped(c, st.entries, o, st.min, st.Slots());
      StoreTyped(c, named, h, st.min, st.Slots());
      (st.(offset := slot, entries := Store(c, named, h).kept), ip)
  }

  function LookBack(st: State, ip: seq<byte>): (r: (State, Option<string>))
    requires st.Typed()
    ensures r.0.Typed() && r.0.min == st.min && r.0.max == st.max && r.0.size == st.size
  {
    if To4(ip).None? then (st, None)
    else
      var c, key := st.CacheConfig(), Offset(SlotOf(st.min, To4(ip).value));
      var (touched, hit) := GetEntry(c, st.entries, key, 0, 0);
      GetTyped(c, st.entries, key, st.min, st.Slots());
      if hit.None? then (st, None)
      else
        var host := hit.value.value.name;
        GetTyped(c, touched.kept, Host(host), st.min, st.Slots());
        (st.(entries := GetEntry(c, touched.kept, Host(host), 0, 0).0.kept), Some(host))
  }

  predicate Exist(st: State, ip: seq<byte>) {
    match To4(ip)
    case None => false
    case Some(ip4) => Taken(st.entries, SlotOf(st.min, ip4))
  }

  /** An IPv4 address in its 16-byte form is treated as in its four-byte form. */
  lemma {:induction false} SixteenBytes(st: State, ip4: Ip)
    requires st.Typed()
    ensures LookBack(st, [0, 0, 0, 0, 0, 0, 0, 0, 0, 0, 255, 255] + ip4) == LookBack(st, ip4)
    ensures Exist(st, [0, 0, 0, 0, 0, 0, 0, 0, 0, 0, 255, 255] + ip4) == Exist(st, ip4)
  {
    var prefix := [0, 0, 0, 0, 0, 0, 0, 0, 0, 0, 255, 255];
    assert (prefix + ip4)[..12] == prefix && (prefix + ip4)[12..] == ip4;
  }

  /** Anything else is no address of the pool. */
  lemma {:induction false} NoAddress(st: State, ip: seq<byte>)
    requires st.Typed() && |ip| != 4 && forall ip4: Ip :: ip != [0, 0, 0, 0, 0, 0, 0, 0, 0, 0, 255, 255] + ip4
    ensures LookBack(st, ip) == (st, None) && !Exist(st, ip)
  {
    if |ip| == 16 {
      assert ip == ip[..12] + ip[12..];
    }
  }

  /** An address exists exactly if it leads back to a host. */
  lemma {:induction false} ExistIff(st: State, ip: seq<byte>)
    requires st.Typed()
    ensures Exist(st, ip) <==> LookBack(st, ip).1.Some?
  {
  }

  datatype PoolOp = LookupOp(host: string) | LookBackOp(ip: seq<byte>) | ExistOp(ip: seq<byte>)

  function Step(st: State, op: PoolOp): (r: State)
    requires st.Typed()
    ensures r.Typed() && r.min == st.min && r.max == st.max && r.size == st.size
  {
    match op
    case LookupOp(host) => Lookup(st, host).0
    case LookBackOp(ip) => LookBack(st, ip).0
    case ExistOp(_) => st
  }

  function Steps(st: State, ops: seq<PoolOp>): (r: State)
    requires st.Typed()
    ensures r.Typed() && r.min == st.min && r.max == st.max && r.size == st.size
  {
    if ops == [] then st else Step(Steps(st, ops[..|ops| - 1]), ops[|ops| - 1])
  }
}
