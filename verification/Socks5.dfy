/** SOCKS5 addresses, UDP packets and the two handshakes of transport/socks5/socks5.go,
    after sections 3 to 7 of RFC 1928 and section 2 of RFC 1929.

    `Server` and `Client` say what each side has written and where it is once it has
    received some bytes; the methods read those bytes from a connection in pieces of any size. */
module Socks5 {
  import opened Collections
  import opened Bytes

  const ATYP_IPV4: byte := 1
  const ATYP_DOMAIN: byte := 3
  const ATYP_IPV6: byte := 4

  const CMD_CONNECT: byte := 1
  const CMD_UDP_ASSOCIATE: byte := 3

  type Addr = seq<byte>

  /** The length of the address that starts with these bytes, as far as they tell. */
  function AddrLen(b: seq<byte>): Option<nat> {
    if |b| < 1 then None
    else if b[0] == ATYP_DOMAIN then (if |b| < 2 then None else Some(1 + 1 + b[1] as int + 2))
    else if b[0] == ATYP_IPV4 then Some(1 + 4 + 2)
    else if b[0] == ATYP_IPV6 then Some(1 + 16 + 2)
    else None
  }

  /** SplitAddr: the address at the beginning of b. */
  function SplitAddr(b: seq<byte>): Option<Addr> {
    var n := AddrLen(b);
    if n.None? || |b| < n.value then None else Some(b[..n.value])
  }

  ghost predicate WellFormed(a: Addr) {
    AddrLen(a) == Some(|a|)
  }

  /** The three forms of section 5 of RFC 1928: a domain name with its length in front, or an IPv4 or IPv6 address, and
      two bytes of port. */
  lemma {:induction false} WellFormedIff(a: Addr)
    ensures WellFormed(a) <==>
              || (|a| >= 2 && a[0] == 3 && exists name, port: seq<byte> :: |name| == a[1] && |port| == 2 && a == [3, a[1]] + name + port)
              || (exists ip, port: seq<byte> :: |ip| == 4 && |port| == 2 && a == [1] + ip + port)
              || (exists ip, port: seq<byte> :: |ip| == 16 && |port| == 2 && a == [4] + ip + port)
  {
    if WellFormed(a) {
      var port := a[|a| - 2..];
      if a[0] == 3 {
        assert a == [3, a[1]] + a[2..|a| - 2] + port;
      } else {
        assert a == [a[0]] + a[1..|a| - 2] + port;
      }
    }
  }

  /** SplitAddr cuts a well-formed address off whatever follows it. */
  lemma {:induction false} SplitsOff(a: Addr, rest: seq<byte>)
    requires WellFormed(a)
    ensures SplitAddr(a + rest) == Some(a)
  {
    assert AddrLen(a + rest) == AddrLen(a);
    assert (a + rest)[..|a|] == a;
  }

  lemma {:induction false} SplitIsWellFormed(b: seq<byte>)
    requires SplitAddr(b).Some?
    ensures WellFormed(SplitAddr(b).value) && SplitAddr(b).value <= b
  {
  }

  // ------------------------------------------------------------ UDP packets

  datatype Packet = Packet(addr: Addr, payload: seq<byte>)

  function EncodeUDPPacket(addr: Option<Addr>, payload: seq<byte>): Option<seq<byte>> {
    if addr.None? then None else Some([0, 0, 0] + addr.value + payload)
  }

  function DecodeUDPPacket(packet: seq<byte>): Option<Packet> {
    if |packet| < 5 then None
    else if packet[..2] != [0, 0] then None
    else if packet[2] != 0 then None
    else
      match SplitAddr(packet[3..])
      case None => None
      case Some(addr) => Some(Packet(addr, packet[3 + |addr|..]))
  }

  /** Decoding undoes encoding. */
  lemma {:induction false} PacketRoundTrip(addr: Addr, payload: seq<byte>)
    requires WellFormed(addr)
    ensures DecodeUDPPacket(EncodeUDPPacket(Some(addr), payload).value) == Some(Packet(addr, payload))
  {
    var p: seq<byte> := [0, 0, 0] + addr + payload;
    assert p[3..] == addr + payload;
    SplitsOff(addr, payload);
    assert p[3 + |addr|..] == payload && p[..2] == [0, 0] && p[2] == 0;
  }

  /** Only encodings decode. */
  lemma {:induction false} OnlyEncodingsDecode(packet: seq<byte>)
    requires DecodeUDPPacket(packet).Some?
    ensures var p := DecodeUDPPacket(packet).value;
            WellFormed(p.addr) && EncodeUDPPacket(Some(p.addr), p.payload) == Some(packet)
  {
    var p := DecodeUDPPacket(packet).value;
    SplitIsWellFormed(packet[3..]);
    assert packet[..3] == [0, 0, 0] by { assert packet[..3] == packet[..2] + [packet[2]]; }
    assert packet == packet[..3] + packet[3..];
    assert packet[3..] == p.addr + p.payload;
    assert packet == [0, 0, 0] + p.addr + p.payload;
  }

  // ------------------------------------------------------------ the sides of the handshake

  datatype Error = AuthFailed | VersionError | NeedsAuth | Rejected | AddressNotSupported | CommandNotSupported | WriteFailed

  /** Where a side is: it waits for more bytes, it has failed, or it is done. */
  datatype End = More | Failed(error: Error) | Finished(addr: Addr, command: byte)

  /** What a side has written so far, how many bytes its finished reads have taken, and where it is. */
  datatype Side = Side(out: seq<byte>, used: nat, end: End)

  datatype ServerEnv = ServerEnv(verify: Option<(seq<byte>, seq<byte>) -> bool>, local: Option<Addr>)

  datatype User = User(name: seq<byte>, password: seq<byte>)

  datatype ClientEnv = ClientEnv(addr: Addr, command: byte, user: Option<User>)

  /** ReadAddr on the bytes from `used` on; `out` has been written. */
  function ReadAddr(input: seq<byte>, used: nat, out: seq<byte>): (r: (Side, Option<Addr>))
    requires used <= |input|
    ensures used <= r.0.used <= |input|
  {
    var rest := input[used..];
    if |rest| < 1 then (Side(out, used, More), None)
    else if rest[0] != ATYP_DOMAIN && rest[0] != ATYP_IPV4 && rest[0] != ATYP_IPV6 then
      (Side(out, used + 1, Failed(AddressNotSupported)), None)
    else if SplitAddr(rest).None? then
      (Side(out, if AddrLen(rest).None? then used + 1 else if rest[0] == ATYP_DOMAIN then used + 2 else used + 1, More), None)
    else
      (Side(out, used + |SplitAddr(rest).value|, More), SplitAddr(rest))
  }

  function Server(env: ServerEnv, input: seq<byte>): (side: Side)
    ensures side.used <= |input|
  {
    if |input| < 2 then Side([], 0, More)
    else
      var methods := 2 + input[1] as int;
      if |input| < methods then Side([], 2, More) else ServerChoice(env, input, methods)
  }

  /** The methods have been read up to `at`: the server chooses one. */
  function ServerChoice(env: ServerEnv, input: seq<byte>, at: nat): (side: Side)
    requires at <= |input|
    ensures at <= side.used <= |input|
  {
    if env.verify.Some? then ServerAuth(env, input, at) else ServerRequest(env, input, at, [5, 0])
  }

  /** The username/password negotiation, from byte `at` on: the version and the user name. */
  function ServerAuth(env: ServerEnv, input: seq<byte>, at: nat): (side: Side)
    requires at <= |input| && env.verify.Some?
    ensures at <= side.used <= |input| && [5, 2] <= side.out
  {
    if |input| < at + 2 then Side([5, 2], at, More)
    else
      var userLen: nat := input[at + 1];
      if userLen == 0 then Side([5, 2, 1, 1], at + 2, Failed(AuthFailed))
      else if |input| < at + 2 + userLen then Side([5, 2], at + 2, More)
      else ServerPass(env, input, at + 2 + userLen, input[at + 2..at + 2 + userLen])
  }

  /** The password, from byte `at` on, and the verdict. */
  function ServerPass(env: ServerEnv, input: seq<byte>, at: nat, user: seq<byte>): (side: Side)
    requires at <= |input| && env.verify.Some?
    ensures at <= side.used <= |input| && [5, 2] <= side.out
  {
    if |input| < at + 1 then Side([5, 2], at, More)
    else
      var passLen: nat := input[at];
      if passLen == 0 then Side([5, 2, 1, 1], at + 1, Failed(AuthFailed))
      else if |input| < at + 1 + passLen then Side([5, 2], at + 1, More)
      else if !env.verify.value(user, input[at + 1..at + 1 + passLen]) then
        Side([5, 2, 1, 1], at + 1 + passLen, Failed(AuthFailed))
      else ServerRequest(env, input, at + 1 + passLen, [5, 2, 1, 0])
  }

  function ServerRequest(env: ServerEnv, input: seq<byte>, at: nat, out: seq<byte>): (side: Side)
    requires at <= |input|
    ensures at <= side.used <= |input| && out <= side.out
  {
    if |input| < at + 3 then Side(out, at, More)
    else
      var command := input[at + 1];
      var (side, addr) := ReadAddr(input, at + 3, out);
      if addr.None? then side
      else if command != CMD_CONNECT && command != CMD_UDP_ASSOCIATE then side.(end := Failed(CommandNotSupported))
      else if env.local.None? then side.(end := Failed(AddressNotSupported))
      else Side(out + [5, 0, 0] + env.local.value, side.used, Finished(addr.value, command))
  }

  /** The lengths go into one byte each. */
  function AuthMessage(user: User): seq<byte> {
    [1, |user.name| % 256] + user.name + [|user.password| % 256] + user.password
  }

  function Hello(env: ClientEnv): seq<byte> {
    if env.user.Some? then [5, 1, 2] else [5, 1, 0]
  }

  function Client(env: ClientEnv, input: seq<byte>): (side: Side)
    ensures side.used <= |input| && Hello(env) <= side.out
  {
    var hello := Hello(env);
    if |input| < 2 then Side(hello, 0, More)
    else if input[0] != 5 then Side(hello, 2, Failed(VersionError))
    else if input[1] == 2 then
      if env.user.None? then Side(hello, 2, Failed(AuthFailed))
      else
        var out := hello + AuthMessage(env.user.value);
        if |input| < 4 then Side(out, 2, More)
        else if input[3] != 0 then Side(out, 4, Failed(Rejected))
        else ClientRequest(env, input, 4, out)
    else if input[1] != 0 then Side(hello, 2, Failed(NeedsAuth))
    else ClientRequest(env, input, 2, hello)
  }

  function ClientRequest(env: ClientEnv, input: seq<byte>, at: nat, out: seq<byte>): (side: Side)
    requires at <= |input|
    ensures at <= side.used <= |input| && side.out == out + [5, env.command, 0] + env.addr
  {
    var sent := out + [5, env.command, 0] + env.addr;
    if |input| < at + 3 then Side(sent, at, More)
    else
      var (side, addr) := ReadAddr(input, at + 3, sent);
      if addr.None? then side else side.(end := Finished(addr.value, env.command))
  }

  // ------------------------------------------------------------ bytes, not pieces

  /** With more bytes a side only goes on from where it was: it adds to what it wrote, and an end is final. */
  ghost predicate Continues(before: Side, after: Side) {
    && before.out <= after.out && before.used <= after.used
    && (before.end != More ==> after == before)
  }

  lemma {:induction false} AddrLenGrows(a: seq<byte>, b: seq<byte>)
    requires a <= b
    ensures AddrLen(a).Some? ==> AddrLen(b) == AddrLen(a)
    ensures SplitAddr(a).Some? ==> SplitAddr(b) == SplitAddr(a)
  {
    if SplitAddr(a).Some? {
      var n := AddrLen(a).value;
      assert a[..n] == b[..n];
    }
  }

  lemma {:induction false} ReadAddrGrows(a: seq<byte>, b: seq<byte>, used: nat, out: seq<byte>)
    requires a <= b && used <= |a|
    ensures var ((s, x), (s', x')) := (ReadAddr(a, used, out), ReadAddr(b, used, out));
            && s.out == s'.out == out && s.used <= s'.used && s.used <= |a|
            && (x.Some? ==> (s', x') == (s, x)) && (s.end != More ==> (s', x') == (s, x))
            && (x.Some? ==> s.end == More) && !s.end.Finished? && !s'.end.Finished?
  {
    assert a[used..] <= b[used..];
    AddrLenGrows(a[used..], b[used..]);
  }

  lemma {:induction false} ServerRequestGrows(env: ServerEnv, a: seq<byte>, b: seq<byte>, at: nat, out: seq<byte>)
    requires a <= b && at <= |a|
    ensures Continues(ServerRequest(env, a, at, out), ServerRequest(env, b, at, out))
  {
    if |a| >= at + 3 {
      ReadAddrGrows(a, b, at + 3, out);
    }
  }

  lemma {:induction false} ServerPassGrows(env: ServerEnv, a: seq<byte>, b: seq<byte>, at: nat, user: seq<byte>)
    requires a <= b && at <= |a| && env.verify.Some?
    ensures Continues(ServerPass(env, a, at, user), ServerPass(env, b, at, user))
  {
    if |a| >= at + 1 && |a| >= at + 1 + a[at] as int {
      ServerPassDone(env, a, b, at, user);
    } else {
      assert ServerPass(env, a, at, user).out == [5, 2] <= ServerPass(env, b, at, user).out;
    }
  }

  lemma {:induction false} ServerPassDone(env: ServerEnv, a: seq<byte>, b: seq<byte>, at: nat, user: seq<byte>)
    requires a <= b && at < |a| && env.verify.Some? && |a| >= at + 1 + a[at] as int
    ensures Continues(ServerPass(env, a, at, user), ServerPass(env, b, at, user))
  {
    var end := at + 1 + a[at] as int;
    assert a[at + 1..end] == b[at + 1..end];
    ServerRequestGrows(env, a, b, end, [5, 2, 1, 0]);
  }

  lemma {:induction false} ServerChoiceGrows(env: ServerEnv, a: seq<byte>, b: seq<byte>, at: nat)
    requires a <= b && at <= |a|
    ensures Continues(ServerChoice(env, a, at), ServerChoice(env, b, at))
  {
    if env.verify.None? {
      ServerRequestGrows(env, a, b, at, [5, 0]);
    } else {
      ServerAuthGrows(env, a, b, at);
    }
  }

  lemma {:induction false} ServerAuthGrows(env: ServerEnv, a: seq<byte>, b: seq<byte>, at: nat)
    requires a <= b && at <= |a| && env.verify.Some?
    ensures Continues(ServerAuth(env, a, at), ServerAuth(env, b, at))
  {
    if |a| >= at + 2 && |a| >= at + 2 + a[at + 1] as int {
      var mid := at + 2 + a[at + 1] as int;
      assert a[at + 2..mid] == b[at + 2..mid];
      ServerPassGrows(env, a, b, mid, a[at + 2..mid]);
    }
  }

  /** What the server does depends on the bytes it has received, not on the pieces they came in. */
  lemma {:induction false} ServerGrows(env: ServerEnv, a: seq<byte>, b: seq<byte>)
    requires a <= b
    ensures Continues(Server(env, a), Server(env, b))
  {
    if |a| >= 2 && |a| >= 2 + a[1] as int {
      ServerChoiceGrows(env, a, b, 2 + a[1] as int);
    }
  }

  lemma {:induction false} ClientGrows(env: ClientEnv, a: seq<byte>, b: seq<byte>)
    requires a <= b
    ensures Continues(Client(env, a), Client(env, b))
  {
    var hello: seq<byte> := if env.user.Some? then [5, 1, 2] else [5, 1, 0];
    if |b| >= 2 && b[0] == 5 {
      if b[1] == 0 && |a| >= 2 {
        ClientRequestGrows(env, a, b, 2, hello);
      } else if b[1] == 2 && env.user.Some? && |a| >= 4 && b[3] == 0 {
        ClientRequestGrows(env, a, b, 4, hello + AuthMessage(env.user.value));
      }
    }
  }

  lemma {:induction false} ClientRequestGrows(env: ClientEnv, a: seq<byte>, b: seq<byte>, at: nat, out: seq<byte>)
    requires a <= b && at <= |a|
    ensures Continues(ClientRequest(env, a, at, out), ClientRequest(env, b, at, out))
  {
    if |a| >= at + 3 {
      ReadAddrGrows(a, b, at + 3, out + [5, env.command, 0] + env.addr);
    }
  }
}
