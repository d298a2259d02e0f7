/** The packet connection of transport/trojan/trojan.go, reading from a connection that hands
    out its bytes in pieces of any size. */
module TrojanConn {
  import opened Collections
  import opened Bytes
  import opened Socks5
  import Socks5Conn
  import T = Trojan

  class PacketConn {
    const conn: Conn
    var remain: nat
    var rAddr: Option<T.UdpAddr>

    ghost function Abs(): T.Reader
      reads this
    {
      T.Reader(remain, rAddr)
    }

    constructor (conn: Conn)
      ensures this.conn == conn && Abs() == T.Reader(0, None)
    {
      this.conn, remain, rAddr := conn, 0, None;
    }

    /** ReadPacket into a buffer of `max` bytes; while it is blocked the input has ended too early. */
    method ReadPacket(max: nat) returns (r: T.Read, left: nat)
      modifies conn`input
      ensures var (read, remain, wire) := T.ReadPacket(old(conn.input), max);
              r == read && (read.Got? ==> left == remain && conn.input == wire)
    {
      left := 0;
      if max < T.MAX_ADDR_LEN {
        return T.TooSmall, 0;
      }
      ghost var wire := conn.input;
      assert wire[0..] == wire && conn.output + [] == conn.output;
      var end, addr := Socks5Conn.ReadAddress(conn, wire, conn.output, 0, []);
      if addr.None? {
        return if end == More then T.Blocked else T.Broken, 0;
      }
      SplitIsWellFormed(wire);
      ghost var n := |addr.value|;
      var size := conn.ReadFull(2);
      if size.None? {
        return T.Blocked, 0;
      }
      assert size.value == wire[n..n + 2] && conn.input == wire[n + 2..];
      var total := Uint16(size.value);
      if total > T.MAX_LENGTH {
        return T.Broken, 0;
      }
      r, left := ReadPayload(max, total, T.ToUdpAddr(addr.value), wire, n);
    }

    /** The line end and as much of the payload as fits. */
    method ReadPayload(max: nat, total: nat, addr: Option<T.UdpAddr>, ghost wire: seq<byte>, ghost n: nat) returns (r: T.Read, left: nat)
      requires n + 2 <= |wire| && conn.input == wire[n + 2..]
      modifies conn`input
      ensures var length := T.Min(total, max);
              if |wire| < n + 4 + length then r == T.Blocked
              else r == T.Got(wire[n + 4..n + 4 + length], addr) && left == total - length && conn.input == wire[n + 4 + length..]
    {
      var crlf := conn.ReadFull(2);
      if crlf.None? {
        return T.Blocked, 0;
      }
      assert conn.input == wire[n + 4..];
      var length := T.Min(total, max);
      var payload := conn.ReadFull(length);
      if payload.None? {
        return T.Blocked, 0;
      }
      return T.Got(payload.value, addr), total - length;
    }

    /** ReadFrom with a buffer of `max` bytes; `short` is what the connection handed out at once. */
    method ReadFrom(max: nat) returns (r: T.Read, ghost short: nat)
      modifies this, conn`input
      ensures var (read, reader, wire) := T.ReadStep(old(Abs()), old(conn.input), max, short);
              r == read && (read.Got? ==> Abs() == reader && conn.input == wire)
      ensures !r.Got? ==> Abs() == old(Abs())
      ensures old(remain) > 0 && max > 0 && old(conn.input) != [] ==> short > 0
    {
      short := 0;
      if remain != 0 {
        var length := T.Min(max, remain);
        var b := conn.Read(length);
        short := |b|;
        if b == [] {
          return T.Blocked, 0;
        }
        remain := remain - |b|;
        var addr := rAddr;
        if remain == 0 {
          rAddr := None;
        }
        return T.Got(b, addr), |b|;
      }
      var left;
      r, left := ReadPacket(max);
      if r.Got? && left != 0 {
        remain, rAddr := left, r.addr;
      }
    }
  }
}
