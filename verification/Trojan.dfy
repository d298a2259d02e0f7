/** UDP packets over a Trojan stream (transport/trojan/trojan.go): payloads are cut into
    packets of at most 8192 bytes, each with its address, and read back piece by piece. */
module Trojan {
  import opened Collections
  import opened Bytes
  import opened Socks5

  const MAX_LENGTH: nat := 8192
  const MAX_ADDR_LEN: nat := 259

  datatype UdpAddr = UdpAddr(ip: seq<byte>, port: nat)

  /** Addr.UDPAddr: the IP and port of an address that has them. */
  function ToUdpAddr(a: Addr): Option<UdpAddr>
    requires WellFormed(a)
  {
    if a[0] == ATYP_IPV4 then Some(UdpAddr(a[1..5], Uint16(a[5..7])))
    else if a[0] == ATYP_IPV6 then Some(UdpAddr(a[1..17], Uint16(a[17..19])))
    else None
  }

  /** An IPv4 destination by its bytes; the port has its high byte first. */
  lemma {:induction false} UdpAddrOfIPv4(a: byte, b: byte, c: byte, d: byte, hi: byte, lo: byte)
    ensures WellFormed([1, a, b, c, d, hi, lo])
    ensures ToUdpAddr([1, a, b, c, d, hi, lo]) == Some(UdpAddr([a, b, c, d], hi as int * 256 + lo as int))
  {
    var addr: Addr := [1, a, b, c, d, hi, lo];
    assert addr[1..5] == [a, b, c, d] && addr[5..7] == [hi, lo];
  }

  lemma {:induction false} UdpAddrOfIPv6(ip: seq<byte>, hi: byte, lo: byte)
    requires |ip| == 16
    ensures WellFormed([4] + ip + [hi, lo])
    ensures ToUdpAddr([4] + ip + [hi, lo]) == Some(UdpAddr(ip, hi as int * 256 + lo as int))
  {
    var a := [4] + ip + [hi, lo];
    assert a[1..17] == ip && a[17..19] == [hi, lo];
  }

  /** Different destinations do not look alike. */
  lemma {:induction false} UdpAddrInjective(a: Addr, b: Addr)
    requires WellFormed(a) && WellFormed(b) && ToUdpAddr(a).Some? && ToUdpAddr(a) == ToUdpAddr(b)
    ensures a == b
  {
    var n := |a| - 2;
    assert |ToUdpAddr(a).value.ip| == |a| - 3 && |ToUdpAddr(b).value.ip| == |b| - 3;
    PutUint16Of(a[n..]);
    PutUint16Of(b[n..]);
    assert a == [a[0]] + a[1..n] + a[n..] && b == [b[0]] + b[1..n] + b[n..];
  }

  // ------------------------------------------------------------ writing

  function EncodePacket(addr: Addr, payload: seq<byte>): seq<byte> {
    addr + PutUint16(|payload|) + [13, 10] + payload
  }

  /** The pieces of a payload that go into one packet each. */
  function Cut(payload: seq<byte>): (pieces: seq<seq<byte>>)
    ensures forall i :: 0 <= i < |pieces| ==> |pieces[i]| <= MAX_LENGTH
  {
    if |payload| <= MAX_LENGTH then [payload] else [payload[..MAX_LENGTH]] + Cut(payload[MAX_LENGTH..])
  }

  function EncodeAll(addr: Addr, pieces: seq<seq<byte>>): seq<byte> {
    if pieces == [] then [] else EncodePacket(addr, pieces[0]) + EncodeAll(addr, pieces[1..])
  }

  lemma {:induction false} EncodeLast(addr: Addr, pieces: seq<seq<byte>>, piece: seq<byte>)
    ensures EncodeAll(addr, pieces + [piece]) == EncodeAll(addr, pieces) + EncodePacket(addr, piece)
  {
    if pieces == [] {
      assert [piece][1..] == [];
      assert EncodePacket(addr, piece) + [] == [] + EncodePacket(addr, piece);
    } else {
      EncodeLast(addr, pieces[1..], piece);
      assert (pieces + [piece])[1..] == pieces[1..] + [piece];
    }
  }

  /** What WritePacket returns when all goes well: the size of the one packet, or that of the cut payload. */
  function WrittenCount(addr: Addr, payload: seq<byte>): nat {
    if |payload| <= MAX_LENGTH then |EncodePacket(addr, payload)| else |payload|
  }

  /** The count is that of the payload exactly if the payload had to be cut: the header of a single packet is counted too. */
  lemma {:induction false} CountIsPayloadIff(addr: Addr, payload: seq<byte>)
    ensures WrittenCount(addr, payload) == |payload| <==> |payload| > MAX_LENGTH
  {
  }

  /** The output after some of the packets and the first n bytes of the next. */
  ghost predicate StoppedIn(output: seq<byte>, before: seq<byte>, addr: Addr, done: seq<seq<byte>>, piece: seq<byte>, n: nat) {
    n < |EncodePacket(addr, piece)| && output == before + EncodeAll(addr, done) + EncodePacket(addr, piece)[..n]
  }

  /** WritePacket: all pieces in order, or those before the one whose write failed, and its first bytes. */
  method WritePacket(conn: Conn, addr: Addr, payload: seq<byte>) returns (n: nat, ok: bool, ghost done: seq<seq<byte>>)
    modifies conn`output
    ensures ok ==> n == WrittenCount(addr, payload) && conn.output == old(conn.output) + EncodeAll(addr, Cut(payload))
    ensures !ok ==> |done| < |Cut(payload)| && done == Cut(payload)[..|done|] && n >= |done| * MAX_LENGTH
                    && StoppedIn(conn.output, old(conn.output), addr, done, Cut(payload)[|done|], n - |done| * MAX_LENGTH)
  {
    if |payload| <= MAX_LENGTH {
      done := [];
      n, ok := WriteWhole(conn, addr, payload);
      return;
    }
    n, ok, done := WritePieces(conn, addr, payload);
  }

  /** A payload of one piece. */
  method WriteWhole(conn: Conn, addr: Addr, payload: seq<byte>) returns (n: nat, ok: bool)
    requires |payload| <= MAX_LENGTH
    modifies conn`output
    ensures Cut(payload) == [payload]
    ensures ok ==> n == |EncodePacket(addr, payload)| && conn.output == old(conn.output) + EncodeAll(addr, [payload])
    ensures !ok ==> StoppedIn(conn.output, old(conn.output), addr, [], payload, n)
  {
    ghost var output := conn.output;
    assert output + EncodeAll(addr, []) == output;
    n, ok := WritePiece(conn, addr, payload, output, []);
    assert [] + [payload] == [payload];
  }

  /** A payload of more than one piece. */
  method WritePieces(conn: Conn, addr: Addr, payload: seq<byte>) returns (n: nat, ok: bool, ghost done: seq<seq<byte>>)
    requires |payload| > MAX_LENGTH
    modifies conn`output
    ensures ok ==> n == |payload| && conn.output == old(conn.output) + EncodeAll(addr, Cut(payload))
    ensures !ok ==> |done| < |Cut(payload)| && done == Cut(payload)[..|done|] && n >= |done| * MAX_LENGTH
                    && StoppedIn(conn.output, old(conn.output), addr, done, Cut(payload)[|done|], n - |done| * MAX_LENGTH)
  {
    ghost var output := conn.output;
    done := [];
    assert output + EncodeAll(addr, []) == output && payload[0..] == payload;
    var offset, total := 0, |payload|;
    while true
      invariant 0 <= offset < total == |payload| && offset == |done| * MAX_LENGTH
      invariant done + Cut(payload[offset..]) == Cut(payload)
      invariant conn.output == output + EncodeAll(addr, done)
      decreases total - offset
    {
      var cursor := offset + MAX_LENGTH;
      if cursor > total {
        cursor := total;
      }
      CutNext(payload, offset, cursor, done);
      n, ok := WritePiece(conn, addr, payload[offset..cursor], output, done);
      if !ok {
        n := offset + n;
        return;
      }
      done := done + [payload[offset..cursor]];
      offset := cursor;
      if offset == total {
        break;
      }
    }
    n := total;
  }

  /** The packet after those of `done`. */
  method WritePiece(conn: Conn, addr: Addr, piece: seq<byte>, ghost output: seq<byte>, ghost done: seq<seq<byte>>) returns (n: nat, ok: bool)
    requires conn.output == output + EncodeAll(addr, done)
    modifies conn`output
    ensures ok ==> n == |EncodePacket(addr, piece)| && conn.output == output + EncodeAll(addr, done + [piece])
    ensures !ok ==> StoppedIn(conn.output, output, addr, done, piece, n)
  {
    var packet := EncodePacket(addr, piece);
    n, ok := conn.TryWrite(packet);
    if ok {
      assert packet[..n] == packet;
      EncodeLast(addr, done, piece);
      Associates(output, EncodeAll(addr, done), packet);
    }
  }

  lemma {:induction false} CutNext(payload: seq<byte>, offset: nat, cursor: nat, done: seq<seq<byte>>)
    requires offset < |payload| && cursor == (if offset + MAX_LENGTH > |payload| then |payload| else offset + MAX_LENGTH)
    requires done + Cut(payload[offset..]) == Cut(payload)
    ensures |done| < |Cut(payload)| && done == Cut(payload)[..|done|] && Cut(payload)[|done|] == payload[offset..cursor]
    ensures cursor < |payload| ==> (done + [payload[offset..cursor]]) + Cut(payload[cursor..]) == Cut(payload)
    ensures cursor == |payload| ==> done + [payload[offset..cursor]] == Cut(payload)
  {
    var rest := payload[offset..];
    if cursor == |payload| {
      assert payload[offset..cursor] == rest && Cut(rest) == [rest];
    } else {
      assert rest[..MAX_LENGTH] == payload[offset..cursor] && rest[MAX_LENGTH..] == payload[cursor..];
      assert (done + [payload[offset..cursor]]) + Cut(payload[cursor..]) == done + ([payload[offset..cursor]] + Cut(payload[cursor..]));
    }
  }

  // ------------------------------------------------------------ reading

  /** What is left of the packet that is being read, and its address. */
  datatype Reader = Reader(remain: nat, addr: Option<UdpAddr>)

  datatype Read = Got(bytes: seq<byte>, addr: Option<UdpAddr>) | Blocked | TooSmall | Broken

  function Min(a: nat, b: nat): nat {
    if a < b then a else b
  }

  /** ReadPacket with a buffer of `max` bytes: a packet's first bytes, and how many remain. A buffer without room for
      an address is refused before anything is read. */
  function ReadPacket(wire: seq<byte>, max: nat): (Read, nat, seq<byte>) {
    if max < MAX_ADDR_LEN then (TooSmall, 0, wire)
    else
      var (side, a) := ReadAddr(wire, 0, []);
      if side.end.Failed? then (Broken, 0, wire)
      else if a.None? || |wire| < |a.value| + 2 then (Blocked, 0, wire)
      else
        SplitIsWellFormed(wire);
        assert wire[0..] == wire;
        var n := |a.value|;
        var total := Uint16(wire[n..n + 2]);
        if total > MAX_LENGTH then (Broken, 0, wire)
        else
          var length := Min(total, max);
          if |wire| < n + 4 + length then (Blocked, 0, wire)
          else (Got(wire[n + 4..n + 4 + length], ToUdpAddr(a.value)), total - length, wire[n + 4 + length..])
  }

  /** ReadFrom; `short` is how many bytes the connection would hand out at once. */
  function ReadStep(r: Reader, wire: seq<byte>, max: nat, short: nat): (Read, Reader, seq<byte>) {
    if r.remain != 0 then
      var n := Min(Min(Min(max, r.remain), |wire|), short);
      if n == 0 then (Blocked, r, wire)
      else (Got(wire[..n], r.addr), Reader(r.remain - n, if r.remain == n then None else r.addr), wire[n..])
    else
      var (read, remain, rest) := ReadPacket(wire, max);
      if read.Got? && remain != 0 then (read, Reader(remain, read.addr), rest) else (read, r, rest)
  }

  lemma {:induction false} ReadsPacket(addr: Addr, payload: seq<byte>, rest: seq<byte>, max: nat)
    requires WellFormed(addr) && |payload| <= MAX_LENGTH && max >= MAX_ADDR_LEN
    ensures var n := Min(|payload|, max);
            ReadPacket(EncodePacket(addr, payload) + rest, max)
            == (Got(payload[..n], ToUdpAddr(addr)), |payload| - n, payload[n..] + rest)
  {
    var n := Min(|payload|, max);
    PacketLayout(addr, payload, rest, n);
    Uint16Put(|payload|);
    ReadsLayout(EncodePacket(addr, payload) + rest, addr, |payload|, max);
  }

  lemma {:induction false} ReadsLayout(wire: seq<byte>, addr: Addr, total: nat, max: nat)
    requires SplitAddr(wire) == Some(addr) && total <= MAX_LENGTH && max >= MAX_ADDR_LEN
    requires |wire| >= |addr| + 4 + Min(total, max) && Uint16(wire[|addr|..|addr| + 2]) == total && WellFormed(addr)
    ensures var (k, n) := (|addr| + 4, Min(total, max));
            ReadPacket(wire, max) == (Got(wire[k..k + n], ToUdpAddr(addr)), total - n, wire[k + n..])
  {
    assert wire[0..] == wire;
  }

  lemma {:induction false} PacketLayout(addr: Addr, payload: seq<byte>, rest: seq<byte>, n: nat)
    requires WellFormed(addr) && n <= |payload|
    ensures var (wire, k) := (EncodePacket(addr, payload) + rest, |addr|);
            && SplitAddr(wire) == Some(addr) && wire[k..k + 2] == PutUint16(|payload|)
            && wire[k + 4..k + 4 + n] == payload[..n] && wire[k + 4 + n..] == payload[n..] + rest
  {
    var size := PutUint16(|payload|);
    var after := size + [13, 10] + payload + rest;
    assert EncodePacket(addr, payload) + rest == addr + after;
    SplitsOff(addr, after);
    Layout(addr, size, payload, rest, n);
  }

  lemma {:induction false} Layout(a: seq<byte>, size: seq<byte>, payload: seq<byte>, rest: seq<byte>, n: nat)
    requires |size| == 2 && n <= |payload|
    ensures var (wire, k) := (a + (size + [13, 10] + payload + rest), |a|);
            && wire[k..k + 2] == size && wire[k + 4..k + 4 + n] == payload[..n] && wire[k + 4 + n..] == payload[n..] + rest
  {
  }

  // ------------------------------------------------------------ both ends together

  datatype Datagram = Datagram(addr: Addr, payload: seq<byte>)

  /** Every byte with the number of its packet and the address it travels with. */
  type Tagged = seq<(int, Option<UdpAddr>, byte)>

  function Tag(k: int, addr: Option<UdpAddr>, b: seq<byte>): Tagged {
    seq(|b|, i requires 0 <= i < |b| => (k, addr, b[i]))
  }

  function Encode(ps: seq<Datagram>): seq<byte> {
    if ps == [] then [] else EncodePacket(ps[0].addr, ps[0].payload) + Encode(ps[1..])
  }

  /** The packets numbered from k on. */
  function TagAll(k: int, ps: seq<Datagram>): Tagged
    requires AllWellFormed(ps)
    decreases |ps|
  {
    if ps == [] then [] else Tag(k, ToUdpAddr(ps[0].addr), ps[0].payload) + TagAll(k + 1, ps[1..])
  }

  function Payload(ps: seq<Datagram>): seq<byte> {
    if ps == [] then [] else ps[0].payload + Payload(ps[1..])
  }

  ghost predicate AllWellFormed(ps: seq<Datagram>) {
    forall i :: 0 <= i < |ps| ==> WellFormed(ps[i].addr) && |ps[i].payload| <= MAX_LENGTH
  }

  /** The packets that a Write of any size sends. */
  function PacketsOf(addr: Addr, pieces: seq<seq<byte>>): seq<Datagram> {
    if pieces == [] then [] else [Datagram(addr, pieces[0])] + PacketsOf(addr, pieces[1..])
  }

  /** `written` packets have been sent and `begun` of them have been begun to be read. The tags of the bytes sent carry
      the number of the packet they are in, those of a read's bytes the number of the packet that the reader is in. */
  datatype System = System(reader: Reader, wire: seq<byte>, sent: Tagged, received: Tagged, written: nat, begun: nat, broken: bool)

  datatype Op = WriteOp(addr: Addr, payload: seq<byte>) | ReadOp(max: nat, short: nat)

  /** Destinations are well-formed addresses. */
  ghost predicate Allowed(op: Op) {
    op.WriteOp? ==> WellFormed(op.addr)
  }

  const START := System(Reader(0, None), [], [], [], 0, 0, false)

  function Next(sys: System, op: Op): System
    requires Allowed(op)
  {
    match op
    case WriteOp(addr, payload) =>
      CutIsWhole(addr, payload);
      sys.(wire := sys.wire + EncodeAll(addr, Cut(payload)),
           sent := sys.sent + TagAll(sys.written, PacketsOf(addr, Cut(payload))), written := sys.written + |Cut(payload)|)
    case ReadOp(max, short) =>
      var (read, r, wire) := ReadStep(sys.reader, sys.wire, max, short);
      match read
      case Got(b, addr) =>
        var begun := if sys.reader.remain == 0 then sys.begun + 1 else sys.begun;
        sys.(reader := r, wire := wire, received := sys.received + Tag(begun - 1, addr, b), begun := begun)
      case Blocked => sys
      case TooSmall => sys
      case Broken => sys.(broken := true)
  }

  ghost predicate AllAllowed(ops: seq<Op>) {
    forall i :: 0 <= i < |ops| ==> Allowed(ops[i])
  }

  function Run(ops: seq<Op>): System
    requires AllAllowed(ops)
  {
    if ops == [] then START else Next(Run(ops[..|ops| - 1]), ops[|ops| - 1])
  }

  /** On the wire: the rest of the packet being read, then whole packets; together they are what was sent and not received. */
  ghost predicate InFlight(sys: System, rest: seq<byte>, ps: seq<Datagram>) {
    && !sys.broken && AllWellFormed(ps) && |rest| == sys.reader.remain && sys.begun + |ps| == sys.written
    && sys.wire == rest + Encode(ps)
    && sys.sent == sys.received + Tag(sys.begun - 1, sys.reader.addr, rest) + TagAll(sys.begun, ps)
  }

  lemma {:induction false} TagConcat(k: int, addr: Option<UdpAddr>, a: seq<byte>, b: seq<byte>)
    ensures Tag(k, addr, a + b) == Tag(k, addr, a) + Tag(k, addr, b)
  {
  }

  lemma {:induction false} EncodeConcat(a: seq<Datagram>, b: seq<Datagram>)
    ensures Encode(a + b) == Encode(a) + Encode(b)
  {
    if a == [] {
      assert a + b == b;
    } else {
      EncodeConcat(a[1..], b);
      assert (a + b)[1..] == a[1..] + b;
      Associates(EncodePacket(a[0].addr, a[0].payload), Encode(a[1..]), Encode(b));
    }
  }

  lemma {:induction false} TagAllConcat(k: int, a: seq<Datagram>, b: seq<Datagram>)
    requires AllWellFormed(a) && AllWellFormed(b)
    ensures AllWellFormed(a + b) && TagAll(k, a + b) == TagAll(k, a) + TagAll(k + |a|, b)
    decreases |a|
  {
    if a == [] {
      assert a + b == b;
    } else {
      TagAllConcat(k + 1, a[1..], b);
      TagFirst(k, a, b);
      Associates(Tag(k, ToUdpAddr(a[0].addr), a[0].payload), TagAll(k + 1, a[1..]), TagAll(k + |a|, b));
    }
  }

  lemma {:induction false} TagFirst(k: int, a: seq<Datagram>, b: seq<Datagram>)
    requires AllWellFormed(a) && AllWellFormed(b) && a != []
    ensures AllWellFormed(a + b) && AllWellFormed(a[1..] + b)
    ensures TagAll(k, a + b) == Tag(k, ToUdpAddr(a[0].addr), a[0].payload) + TagAll(k + 1, a[1..] + b)
  {
    assert (a + b)[1..] == a[1..] + b && (a + b)[0] == a[0];
  }

  /** The packets of a write carry its payload to its destination. */
  lemma {:induction false} CutIsWhole(addr: Addr, payload: seq<byte>)
    requires WellFormed(addr)
    ensures var ps := PacketsOf(addr, Cut(payload));
            && AllWellFormed(ps) && Encode(ps) == EncodeAll(addr, Cut(payload)) && |ps| == |Cut(payload)|
            && Payload(ps) == payload && forall i :: 0 <= i < |ps| ==> ps[i].addr == addr
  {
    PacketsAre(addr, Cut(payload));
    PayloadIsWhole(addr, payload);
  }

  lemma {:induction false} PayloadIsWhole(addr: Addr, payload: seq<byte>)
    ensures Payload(PacketsOf(addr, Cut(payload))) == payload
  {
    if |payload| <= MAX_LENGTH {
      var ps := PacketsOf(addr, [payload]);
      assert [payload][1..] == [] && PacketsOf(addr, []) == [];
      assert ps == [Datagram(addr, payload)] && ps[1..] == [];
    } else {
      var first, rest := payload[..MAX_LENGTH], payload[MAX_LENGTH..];
      PayloadIsWhole(addr, rest);
      assert ([first] + Cut(rest))[1..] == Cut(rest);
      var ps := PacketsOf(addr, Cut(payload));
      assert ps == [Datagram(addr, first)] + PacketsOf(addr, Cut(rest)) && ps[1..] == PacketsOf(addr, Cut(rest));
    }
  }

  lemma {:induction false} PacketsAre(addr: Addr, pieces: seq<seq<byte>>)
    requires WellFormed(addr) && forall i :: 0 <= i < |pieces| ==> |pieces[i]| <= MAX_LENGTH
    ensures AllWellFormed(PacketsOf(addr, pieces)) && Encode(PacketsOf(addr, pieces)) == EncodeAll(addr, pieces)
    ensures var ps := PacketsOf(addr, pieces); |ps| == |pieces| && forall i :: 0 <= i < |ps| ==> ps[i].addr == addr
  {
    if pieces != [] {
      PacketsAre(addr, pieces[1..]);
      var ps := PacketsOf(addr, pieces);
      assert ps[1..] == PacketsOf(addr, pieces[1..]);
    }
  }

  lemma {:induction false} WriteKeeps(sys: System, rest: seq<byte>, ps: seq<Datagram>, addr: Addr, payload: seq<byte>)
    requires InFlight(sys, rest, ps) && WellFormed(addr)
    ensures InFlight(Next(sys, WriteOp(addr, payload)), rest, ps + PacketsOf(addr, Cut(payload)))
  {
    CutIsWhole(addr, payload);
    WireKeeps(rest, ps, PacketsOf(addr, Cut(payload)));
    SentKeeps(sys, rest, ps, PacketsOf(addr, Cut(payload)));
  }

  lemma {:induction false} WireKeeps(rest: seq<byte>, ps: seq<Datagram>, more: seq<Datagram>)
    ensures (rest + Encode(ps)) + Encode(more) == rest + Encode(ps + more)
  {
    EncodeConcat(ps, more);
    Associates(rest, Encode(ps), Encode(more));
  }

  lemma {:induction false} SentKeeps(sys: System, rest: seq<byte>, ps: seq<Datagram>, more: seq<Datagram>)
    requires InFlight(sys, rest, ps) && AllWellFormed(more)
    ensures AllWellFormed(ps + more)
    ensures sys.sent + TagAll(sys.written, more) == sys.received + Tag(sys.begun - 1, sys.reader.addr, rest) + TagAll(sys.begun, ps + more)
  {
    TagAllConcat(sys.begun, ps, more);
    Associates(sys.received + Tag(sys.begun - 1, sys.reader.addr, rest), TagAll(sys.begun, ps), TagAll(sys.written, more));
  }

  /** A read that has room gets on: any room will do inside a packet. */
  predicate Fits(r: Reader, max: nat) {
    if r.remain != 0 then max > 0 else max >= MAX_ADDR_LEN
  }

  lemma {:induction false} ReadKeeps(sys: System, rest: seq<byte>, ps: seq<Datagram>, max: nat, short: nat)
    returns (rest': seq<byte>, ps': seq<Datagram>)
    requires InFlight(sys, rest, ps)
    ensures InFlight(Next(sys, ReadOp(max, short)), rest', ps')
    ensures short > 0 && sys.wire != [] && Fits(sys.reader, max) ==> |Next(sys, ReadOp(max, short)).wire| < |sys.wire|
  {
    rest', ps' := rest, ps;
    if sys.reader.remain != 0 {
      rest' := RestReadKeeps(sys, rest, ps, max, short);
    } else if ps != [] && max >= MAX_ADDR_LEN {
      var p := ps[0];
      ps' := ps[1..];
      var n := Min(|p.payload|, max);
      rest' := p.payload[n..];
      PacketKeeps(sys, ps, max, short);
    }
  }

  lemma {:induction false} RestReadKeeps(sys: System, rest: seq<byte>, ps: seq<Datagram>, max: nat, short: nat) returns (rest': seq<byte>)
    requires InFlight(sys, rest, ps) && sys.reader.remain != 0
    ensures InFlight(Next(sys, ReadOp(max, short)), rest', ps)
    ensures short > 0 && max > 0 ==> |Next(sys, ReadOp(max, short)).wire| < |sys.wire|
  {
    rest' := rest;
    var n := Min(Min(Min(max, sys.reader.remain), |sys.wire|), short);
    RestNext(sys, max, short);
    if n > 0 {
      rest' := rest[n..];
      RestKeeps(sys, rest, ps, n);
    }
  }

  /** n more bytes of the packet have been read. */
  function RestRead(sys: System, n: nat): System
    requires n <= |sys.wire| && n <= sys.reader.remain
  {
    var r := Reader(sys.reader.remain - n, if sys.reader.remain == n then None else sys.reader.addr);
    sys.(reader := r, wire := sys.wire[n..], received := sys.received + Tag(sys.begun - 1, sys.reader.addr, sys.wire[..n]))
  }

  lemma {:induction false} RestNext(sys: System, max: nat, short: nat)
    requires sys.reader.remain != 0
    ensures var n := Min(Min(Min(max, sys.reader.remain), |sys.wire|), short);
            Next(sys, ReadOp(max, short)) == if n > 0 then RestRead(sys, n) else sys
  {
  }

  lemma {:induction false} RestKeeps(sys: System, rest: seq<byte>, ps: seq<Datagram>, n: nat)
    requires InFlight(sys, rest, ps) && 0 < n <= sys.reader.remain
    ensures n <= |sys.wire| && InFlight(RestRead(sys, n), rest[n..], ps)
  {
    assert sys.wire[..n] == rest[..n] && sys.wire[n..] == rest[n..] + Encode(ps);
    RestTags(sys.received, sys.begun, sys.reader.addr, RestRead(sys, n).reader.addr, rest, n);
  }

  lemma {:induction false} RestTags(received: Tagged, begun: nat, addr: Option<UdpAddr>, left: Option<UdpAddr>, rest: seq<byte>, n: nat)
    requires n <= |rest| && (left == addr || n == |rest|)
    ensures received + Tag(begun - 1, addr, rest[..n]) + Tag(begun - 1, left, rest[n..]) == received + Tag(begun - 1, addr, rest)
  {
    var a, b, k := rest[..n], rest[n..], begun - 1;
    assert rest == a + b;
    TagConcat(k, addr, a, b);
    Associates(received, Tag(k, addr, a), Tag(k, addr, b));
    assert Tag(k, left, b) == Tag(k, addr, b);
  }

  lemma {:induction false} PacketKeeps(sys: System, ps: seq<Datagram>, max: nat, short: nat)
    requires InFlight(sys, [], ps) && max >= MAX_ADDR_LEN && ps != []
    ensures var n := Min(|ps[0].payload|, max);
            InFlight(Next(sys, ReadOp(max, short)), ps[0].payload[n..], ps[1..])
    ensures |Next(sys, ReadOp(max, short)).wire| < |sys.wire|
  {
    NextPacket(sys, ps, max, short);
    BegunKeeps(sys, ps, Min(|ps[0].payload|, max));
  }

  /** The first n bytes of the next packet have been read. */
  function Begun(sys: System, ps: seq<Datagram>, n: nat): System
    requires AllWellFormed(ps) && ps != [] && n <= |ps[0].payload|
  {
    var (b, addr) := (ps[0].payload[n..], ToUdpAddr(ps[0].addr));
    sys.(reader := Reader(|b|, if b == [] then sys.reader.addr else addr), wire := b + Encode(ps[1..]), begun := sys.begun + 1,
         received := sys.received + Tag(sys.begun, addr, ps[0].payload[..n]))
  }

  lemma {:induction false} BegunKeeps(sys: System, ps: seq<Datagram>, n: nat)
    requires InFlight(sys, [], ps) && ps != [] && n <= |ps[0].payload|
    ensures InFlight(Begun(sys, ps, n), ps[0].payload[n..], ps[1..])
  {
    PacketTags(sys, ps, n);
    var b := ps[0].payload[n..];
    if b == [] {
      assert Tag(sys.begun, ToUdpAddr(ps[0].addr), b) == Tag(sys.begun, sys.reader.addr, b);
    }
  }

  lemma {:induction false} PacketTags(sys: System, ps: seq<Datagram>, n: nat)
    requires InFlight(sys, [], ps) && ps != [] && n <= |ps[0].payload|
    ensures var (a, b, addr) := (ps[0].payload[..n], ps[0].payload[n..], ToUdpAddr(ps[0].addr));
            sys.sent == (sys.received + Tag(sys.begun, addr, a)) + Tag(sys.begun, addr, b) + TagAll(sys.begun + 1, ps[1..])
  {
    var a, b, addr, k: int := ps[0].payload[..n], ps[0].payload[n..], ToUdpAddr(ps[0].addr), sys.begun;
    assert ps[0].payload == a + b && Tag(k - 1, sys.reader.addr, []) == [];
    TagConcat(k, addr, a, b);
    Regroup(sys.received, Tag(k, addr, a), Tag(k, addr, b), TagAll(k + 1, ps[1..]));
  }

  lemma {:induction false} Regroup(r: Tagged, a: Tagged, b: Tagged, c: Tagged)
    ensures r + [] + ((a + b) + c) == (r + a) + b + c
    ensures r + (a + b) + c == (r + a) + b + c
    ensures r + a + b + c == r + a + (b + c)
  {
  }

  lemma {:induction false} NextPacket(sys: System, ps: seq<Datagram>, max: nat, short: nat)
    requires InFlight(sys, [], ps) && max >= MAX_ADDR_LEN && ps != []
    ensures var n := Min(|ps[0].payload|, max);
            Next(sys, ReadOp(max, short)) == Begun(sys, ps, n) && |Begun(sys, ps, n).wire| < |sys.wire|
  {
    var p := ps[0];
    assert sys.wire == EncodePacket(p.addr, p.payload) + Encode(ps[1..]);
    ReadsPacket(p.addr, p.payload, Encode(ps[1..]), max);
  }

  lemma {:induction false} RunKeeps(ops: seq<Op>) returns (rest: seq<byte>, ps: seq<Datagram>)
    requires AllAllowed(ops)
    ensures InFlight(Run(ops), rest, ps)
  {
    if ops == [] {
      rest, ps := [], [];
    } else {
      var prefix, op := ops[..|ops| - 1], ops[|ops| - 1];
      rest, ps := RunKeeps(prefix);
      match op
      case WriteOp(addr, payload) =>
        WriteKeeps(Run(prefix), rest, ps, addr, payload);
        ps := ps + PacketsOf(addr, Cut(payload));
      case ReadOp(max, short) =>
        rest, ps := ReadKeeps(Run(prefix), rest, ps, max, short);
    }
  }

  /** In every run, with any payload sizes, buffers and short reads: nothing breaks; the bytes received are a prefix of
      the bytes sent, each with the address it was sent to and none outside the packet that its read was in; and a read
      with room consumes the wire until all has arrived. */
  lemma {:induction false} PacketsAreFaithful(ops: seq<Op>, max: nat, short: nat)
    requires AllAllowed(ops)
    ensures var sys := Run(ops);
            && !sys.broken && sys.received <= sys.sent
            && (sys.wire != [] && short > 0 && Fits(sys.reader, max) ==> |Next(sys, ReadOp(max, short)).wire| < |sys.wire|)
            && (sys.wire == [] ==> sys.received == sys.sent && sys.reader.remain == 0 && sys.begun == sys.written)
  {
    var rest, ps := RunKeeps(ops);
    var _, _ := ReadKeeps(Run(ops), rest, ps, max, short);
    ArrivedSoFar(Run(ops), rest, ps);
  }

  lemma {:induction false} ArrivedSoFar(sys: System, rest: seq<byte>, ps: seq<Datagram>)
    requires InFlight(sys, rest, ps)
    ensures sys.received <= sys.sent
    ensures sys.wire == [] ==> sys.received == sys.sent && sys.reader.remain == 0 && sys.begun == sys.written
  {
    assert sys.sent == sys.received + (Tag(sys.begun - 1, sys.reader.addr, rest) + TagAll(sys.begun, ps));
    if sys.wire == [] {
      assert rest == [] && Encode(ps) == [] && ps == [];
    }
  }
}
