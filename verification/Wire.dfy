/** The packets and chunks on the wire, byte by byte: SOCKS5 UDP packets (section 7 of RFC 1928), Trojan packets and
    VMess chunks, for writers and for readers of anything a peer may send. */
module Wire {
  import opened Collections
  import opened Bytes
  import opened Socks5
  import T = Trojan
  import V = Vmess

  lemma {:induction false} HighByteFirst(hi: byte, lo: byte)
    ensures Uint16([hi, lo]) == hi as int * 256 + lo as int && PutUint16(hi as int * 256 + lo as int) == [hi, lo]
  {
    PutUint16Of([hi, lo]);
  }

  /** A packet decodes exactly if it is three zero bytes, an address and the payload. */
  lemma {:induction false} DecodeIff(packet: seq<byte>, addr: Addr, payload: seq<byte>)
    ensures DecodeUDPPacket(packet) == Some(Packet(addr, payload)) <==> WellFormed(addr) && packet == [0, 0, 0] + addr + payload
  {
    if DecodeUDPPacket(packet) == Some(Packet(addr, payload)) {
      OnlyEncodingsDecode(packet);
      EncodeBytes(addr, payload);
    }
    if WellFormed(addr) && packet == [0, 0, 0] + addr + payload {
      EncodeBytes(addr, payload);
      PacketRoundTrip(addr, payload);
    }
  }

  lemma {:induction false} EncodeBytes(addr: Addr, payload: seq<byte>)
    ensures EncodeUDPPacket(Some(addr), payload) == Some([0, 0, 0] + addr + payload)
  {
  }

  // ------------------------------------------------------------ Trojan packets

  /** The address, the length with its high byte first, a line end and the payload. */
  lemma {:induction false} TrojanBytes(addr: Addr, payload: seq<byte>, hi: byte, lo: byte)
    requires |payload| == hi as int * 256 + lo as int
    ensures T.EncodePacket(addr, payload) == addr + [hi, lo, 13, 10] + payload
  {
    HighByteFirst(hi, lo);
    assert addr + [hi, lo] + [13, 10] + payload == addr + [hi, lo, 13, 10] + payload;
  }

  /** All pieces of a payload but the last have 8192 bytes; the last has no more, and some if the payload has. */
  lemma {:induction false} TrojanPieces(payload: seq<byte>)
    ensures var pieces := T.Cut(payload);
            && pieces != [] && (forall i :: 0 <= i < |pieces| - 1 ==> |pieces[i]| == 8192)
            && |pieces[|pieces| - 1]| <= 8192 && (payload != [] ==> pieces[|pieces| - 1] != [])
    decreases |payload|
  {
    if |payload| > 8192 {
      TrojanPieces(payload[8192..]);
      var more := T.Cut(payload[8192..]);
      assert T.Cut(payload) == [payload[..8192]] + more;
    }
  }

  /** No address is longer than 259 bytes, and some are as long. */
  lemma {:induction false} LongestAddress()
    ensures T.MAX_ADDR_LEN == 259 && (forall a :: WellFormed(a) ==> |a| <= 259) && exists a :: WellFormed(a) && |a| == 259
  {
    var a: Addr := [3, 255] + seq(257, _ => 0);
    assert WellFormed(a) && |a| == 259;
  }

  /** The wire holds a packet of at most 8192 bytes, of which a buffer of `max` bytes takes b. */
  ghost predicate PacketAt(wire: seq<byte>, max: nat, addr: Addr, hi: byte, lo: byte, end: seq<byte>, b: seq<byte>, rest: seq<byte>) {
    var total := hi as int * 256 + lo as int;
    && WellFormed(addr) && |end| == 2 && total <= 8192 && |b| == (if total < max then total else max)
    && wire == addr + [hi, lo] + end + b + rest
  }

  /** The wire holds an address and a length of more than 8192. */
  ghost predicate Oversized(wire: seq<byte>, addr: Addr, hi: byte, lo: byte) {
    WellFormed(addr) && hi as int * 256 + lo as int > 8192 && addr + [hi, lo] <= wire
  }

  lemma {:induction false} TrojanReads(wire: seq<byte>, max: nat, addr: Addr, hi: byte, lo: byte, end: seq<byte>, b: seq<byte>, rest: seq<byte>)
    requires max >= 259 && PacketAt(wire, max, addr, hi, lo, end, b, rest)
    ensures T.ReadPacket(wire, max) == (T.Got(b, T.ToUdpAddr(addr)), hi as int * 256 + lo as int - |b|, rest)
  {
    var n := |addr|;
    AddressFirst(wire, addr, hi, lo);
    assert wire == (addr + [hi, lo] + end) + b + rest;
    assert wire[n + 4..n + 4 + |b|] == b && wire[n + 4 + |b|..] == rest;
    T.ReadsLayout(wire, addr, hi as int * 256 + lo as int, max);
  }

  lemma {:induction false} AddressFirst(wire: seq<byte>, addr: Addr, hi: byte, lo: byte)
    requires WellFormed(addr) && addr + [hi, lo] <= wire
    ensures wire[0..] == wire && SplitAddr(wire) == Some(addr) && ReadAddr(wire, 0, []) == (Side([], |addr|, More), Some(addr))
    ensures Uint16(wire[|addr|..|addr| + 2]) == hi as int * 256 + lo as int
  {
    assert wire == addr + wire[|addr|..];
    SplitsOff(addr, wire[|addr|..]);
    assert wire[|addr|..|addr| + 2] == [hi, lo];
  }

  lemma {:induction false} CutUp(wire: seq<byte>, n: nat, k: nat)
    requires n + 4 + k <= |wire|
    ensures wire == wire[..n] + [wire[n], wire[n + 1]] + wire[n + 2..n + 4] + wire[n + 4..n + 4 + k] + wire[n + 4 + k..]
  {
    var a, b := wire[..n + 4 + k], wire[..n + 4];
    assert wire == a + wire[n + 4 + k..];
    assert a == b + wire[n + 4..n + 4 + k];
    assert b == wire[..n] + [wire[n], wire[n + 1]] + wire[n + 2..n + 4];
  }

  /** Nothing else is read as a packet. */
  lemma {:induction false} TrojanGotIff(wire: seq<byte>, max: nat)
    requires max >= 259
    ensures T.ReadPacket(wire, max).0.Got? <==> exists addr, hi: byte, lo: byte, end, b, rest :: PacketAt(wire, max, addr, hi, lo, end, b, rest)
  {
    if T.ReadPacket(wire, max).0.Got? {
      var addr := SplitAddr(wire).value;
      assert wire[0..] == wire;
      SplitIsWellFormed(wire);
      var n := |addr|;
      var total := Uint16(wire[n..n + 2]);
      var k := if total < max then total else max;
      CutUp(wire, n, k);
      assert PacketAt(wire, max, addr, wire[n], wire[n + 1], wire[n + 2..n + 4], wire[n + 4..n + 4 + k], wire[n + 4 + k..]);
    }
    if addr, hi: byte, lo: byte, end, b, rest :| PacketAt(wire, max, addr, hi, lo, end, b, rest) {
      TrojanReads(wire, max, addr, hi, lo, end, b, rest);
    }
  }

  /** A read fails exactly for an unknown type of address or a length of more than 8192, and is refused exactly for a
      buffer that an address may not fit into. */
  lemma {:induction false} TrojanFailsIff(wire: seq<byte>, max: nat)
    ensures T.ReadPacket(wire, max).0 == T.TooSmall <==> max < 259
    ensures T.ReadPacket(wire, max).0 == T.Broken <==>
              max >= 259 && ((wire != [] && wire[0] !in [1, 3, 4]) || exists addr, hi: byte, lo: byte :: Oversized(wire, addr, hi, lo))
  {
    assert wire[0..] == wire;
    if max >= 259 {
      if T.ReadPacket(wire, max).0 == T.Broken && wire[0] in [1, 3, 4] {
        var addr := SplitAddr(wire).value;
        SplitIsWellFormed(wire);
        assert addr + [wire[|addr|], wire[|addr| + 1]] <= wire;
        assert Oversized(wire, addr, wire[|addr|], wire[|addr| + 1]);
      }
      if addr, hi: byte, lo: byte :| Oversized(wire, addr, hi, lo) {
        AddressFirst(wire, addr, hi, lo);
      }
    }
  }

  /** While some of a packet remains, a read takes no more than the buffer, the packet and the connection give; nothing
      at all is no read, and the address is kept until the packet ends. */
  lemma {:induction false} TrojanRest(r: T.Reader, wire: seq<byte>, max: nat, short: nat, b: seq<byte>)
    requires r.remain > 0 && b <= wire && |b| <= max && |b| <= r.remain && |b| <= short && |b| in {max, r.remain, short, |wire|}
    ensures T.ReadStep(r, wire, max, short) ==
            if b == [] then (T.Blocked, r, wire)
            else (T.Got(b, r.addr), T.Reader(r.remain - |b|, if |b| == r.remain then None else r.addr), wire[|b|..])
  {
    assert wire[..|b|] == b;
  }

  // ------------------------------------------------------------ VMess chunks

  /** The length of the sealed bytes, high byte first, and the sealed bytes. */
  lemma {:induction false} ChunkBytes(s: V.Session, count: nat, text: seq<byte>, hi: byte, lo: byte)
    requires s.Valid() && |text| + s.aead.overhead == hi as int * 256 + lo as int
    ensures V.Frame(s, count, text) == [hi, lo] + s.aead.seal(s.Nonce(count), text)
  {
    HighByteFirst(hi, lo);
  }

  /** All chunks of a write but the last fill 16384 bytes with what sealing adds; the last is not empty and no longer. */
  lemma {:induction false} ChunkSizes(s: V.Session, b: seq<byte>)
    requires s.Valid()
    ensures var (chunks, room) := (V.Cut(s, b), 16384 - s.aead.overhead);
            && (b == [] <==> chunks == [])
            && (forall i :: 0 <= i < |chunks| - 1 ==> |chunks[i]| == room)
            && (chunks != [] ==> 0 < |chunks[|chunks| - 1]| <= room)
    decreases |b|
  {
    var room := 16384 - s.aead.overhead;
    if |b| > room {
      ChunkSizes(s, b[room..]);
      var more := V.Cut(s, b[room..]);
      assert V.Cut(s, b) == [b[..room]] + more;
    }
  }

  /** What one read hands out of a text, and what is kept for the next. */
  ghost predicate HandsOut(text: seq<byte>, max: nat, out: seq<byte>, left: Option<seq<byte>>) {
    if max < |text| then out == text[..max] && left == Some(text[max..]) else out == text && left == None
  }

  /** A reader with nothing in hand that finds a chunk of at most 17408 bytes opens it under the nonce of its count, and
      goes on to the next count, which follows 65535 with 0, whether that succeeds or not. */
  lemma {:induction false} ChunkRead(s: V.Session, count: nat, hi: byte, lo: byte, sealed: seq<byte>, rest: seq<byte>, max: nat)
    requires s.Valid() && count < 65536 && |sealed| == hi as int * 256 + lo as int <= 17408
    ensures var next := if count == 65535 then 0 else count + 1;
            var (read, r, wire) := V.ReadStep(s, V.Reader(None, count), [hi, lo] + sealed + rest, max);
            match s.aead.open(s.Nonce(count), sealed)
            case None => read == V.BadChunk && r == V.Reader(None, next) && wire == rest
            case Some(text) => read.Got? && r.count == next && wire == rest && HandsOut(text, max, read.bytes, r.left)
  {
    var wire := [hi, lo] + sealed + rest;
    assert wire[..2] == [hi, lo] && wire[2..2 + |sealed|] == sealed && wire[2 + |sealed|..] == rest;
    HighByteFirst(hi, lo);
  }

  /** A length of more than 17408 is an error, and anything shorter than its length says is not read. */
  lemma {:induction false} ChunkRefused(s: V.Session, count: nat, hi: byte, lo: byte, rest: seq<byte>, max: nat)
    requires s.Valid()
    ensures var n := hi as int * 256 + lo as int;
            var (read, r, wire) := V.ReadStep(s, V.Reader(None, count), [hi, lo] + rest, max);
            && (n > 17408 ==> read == V.TooLarge && r == V.Reader(None, count) && wire == rest)
            && (|rest| < n <= 17408 ==> read == V.Short && r == V.Reader(None, count))
    ensures V.ReadStep(s, V.Reader(None, count), [hi], max).0 == V.ReadStep(s, V.Reader(None, count), [], max).0 == V.Short
  {
    var wire := [hi, lo] + rest;
    assert wire[..2] == [hi, lo] && wire[2..] == rest;
    HighByteFirst(hi, lo);
  }

  /** What is in hand comes first. */
  lemma {:induction false} LeftFirst(s: V.Session, text: seq<byte>, count: nat, wire: seq<byte>, max: nat)
    requires s.Valid()
    ensures var (read, r, wire') := V.ReadStep(s, V.Reader(Some(text), count), wire, max);
            read.Got? && r.count == count && wire' == wire && HandsOut(text, max, read.bytes, r.left)
  {
  }
}
