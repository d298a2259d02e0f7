/** The handshake procedures of transport/socks5/socks5.go on a connection that hands out
    its bytes in pieces of any size. */
module Socks5Conn {
  import opened Collections
  import opened Bytes
  import opened Socks5

  /** The connection has read `used` of the bytes `input` it had, and written `out` after `output`. */
  ghost predicate Progress(conn: Conn, input: seq<byte>, output: seq<byte>, used: nat, out: seq<byte>)
    reads conn
  {
    used <= |input| && conn.input == input[used..] && conn.output == output + out
  }

  /** A side has ended as `side` says; while it waits for more, a read has failed at the end of the input. */
  ghost predicate Ended(conn: Conn, input: seq<byte>, output: seq<byte>, side: Side, end: End)
    reads conn
  {
    && end == side.end && conn.output == output + side.out
    && (if end == More then conn.input == [] else side.used <= |input| && conn.input == input[side.used..])
  }

  /** A side has ended as `side` says, or a write has failed: then part of what it would have said is out, and the
      side has failed with that, or with the refusal that it could not send. */
  ghost predicate Leaves(conn: Conn, input: seq<byte>, output: seq<byte>, side: Side, end: End)
    reads conn
  {
    || Ended(conn, input, output, side, end)
    || (&& output <= conn.output < output + side.out
        && (|| end == Failed(WriteFailed)
            || (end == side.end == Failed(AuthFailed) && side.used <= |input| && conn.input == input[side.used..])))
  }

  lemma {:induction false} PartlySaid(output: seq<byte>, out: seq<byte>, b: seq<byte>, n: nat, total: seq<byte>)
    requires out + b <= total && n < |b|
    ensures output <= output + out + b[..n] < output + total
  {
    assert output + out + b[..n] == output + (out + b[..n]);
    assert total == (out + b) + total[|out + b|..];
    assert total[..|out| + n] == out + b[..n];
  }

  method ReadAddress(conn: Conn, ghost input: seq<byte>, ghost output: seq<byte>, ghost used: nat, ghost out: seq<byte>)
    returns (end: End, addr: Option<Addr>)
    requires Progress(conn, input, output, used, out)
    modifies conn`input
    ensures addr == ReadAddr(input, used, out).1
    ensures addr.Some? ==> Progress(conn, input, output, ReadAddr(input, used, out).0.used, out)
    ensures addr.None? ==> Ended(conn, input, output, ReadAddr(input, used, out).0, end)
  {
    ghost var rest := input[used..];
    var first := conn.ReadFull(1);
    if first.None? {
      return More, None;
    }
    assert conn.input == rest[1..] == input[used + 1..] && first.value == [rest[0]];
    if first.value[0] == ATYP_DOMAIN {
      var second := conn.ReadFull(1);
      if second.None? {
        return More, None;
      }
      assert conn.input == rest[2..] && second.value == [rest[1]];
      end, addr := ReadAddressRest(conn, first.value + second.value, second.value[0] as int + 2, input, output, used, out);
    } else if first.value[0] == ATYP_IPV4 {
      end, addr := ReadAddressRest(conn, first.value, 4 + 2, input, output, used, out);
    } else if first.value[0] == ATYP_IPV6 {
      end, addr := ReadAddressRest(conn, first.value, 16 + 2, input, output, used, out);
    } else {
      return Failed(AddressNotSupported), None;
    }
  }

  /** The last n bytes of an address, after the ones in `start`. */
  method ReadAddressRest(conn: Conn, start: seq<byte>, n: nat,
                         ghost input: seq<byte>, ghost output: seq<byte>, ghost used: nat, ghost out: seq<byte>)
    returns (end: End, addr: Option<Addr>)
    requires used <= |input| && start <= input[used..] && AddrLen(start) == Some(|start| + n)
    requires conn.input == input[used..][|start|..] && conn.output == output + out
    modifies conn`input
    ensures addr == ReadAddr(input, used, out).1
    ensures addr.Some? ==> Progress(conn, input, output, ReadAddr(input, used, out).0.used, out)
    ensures addr.None? ==> Ended(conn, input, output, ReadAddr(input, used, out).0, end)
  {
    ghost var rest := input[used..];
    AddrLenGrows(start, rest);
    var tail := conn.ReadFull(n);
    if tail.None? {
      return More, None;
    }
    assert start + tail.value == rest[..|start| + n];
    return More, Some(start + tail.value);
  }

  method ServeRequest(conn: Conn, env: ServerEnv, ghost input: seq<byte>, ghost output: seq<byte>, ghost at: nat, ghost out: seq<byte>)
    returns (end: End)
    requires Progress(conn, input, output, at, out)
    modifies conn
    ensures Leaves(conn, input, output, ServerRequest(env, input, at, out), end)
  {
    // The version, the command and a reserved byte.
    var buf := conn.ReadFull(3);
    if buf.None? {
      return More;
    }
    var command := buf.value[1];
    assert command == input[at + 1] && conn.input == input[at + 3..];
    var addr;
    end, addr := ReadAddress(conn, input, output, at + 3, out);
    if addr.None? {
      return;
    }
    if command == CMD_CONNECT || command == CMD_UDP_ASSOCIATE {
      if env.local.None? {
        return Failed(AddressNotSupported);
      }
      var ok := Say(conn, [5, 0, 0] + env.local.value, output, out, ServerRequest(env, input, at, out).out);
      assert out + ([5, 0, 0] + env.local.value) == out + [5, 0, 0] + env.local.value;
      return if ok then Finished(addr.value, command) else Failed(WriteFailed);
    }
    return Failed(CommandNotSupported);
  }

  /** Write b after `out`, as part of what is to be said in all. */
  method Say(conn: Conn, b: seq<byte>, ghost output: seq<byte>, ghost out: seq<byte>, ghost total: seq<byte>) returns (ok: bool)
    requires conn.output == output + out && out + b <= total
    modifies conn`output
    ensures ok ==> conn.output == output + (out + b)
    ensures !ok ==> output <= conn.output < output + total
  {
    var n;
    n, ok := conn.TryWrite(b);
    if ok {
      assert b[..n] == b;
      Associates(output, out, b);
    } else {
      PartlySaid(output, out, b, n, total);
    }
  }

  method CheckCredentials(conn: Conn, env: ServerEnv, ghost input: seq<byte>, ghost output: seq<byte>, ghost at: nat)
    returns (end: End)
    requires Progress(conn, input, output, at, []) && env.verify.Some?
    modifies conn
    ensures Leaves(conn, input, output, ServerAuth(env, input, at), end)
  {
    var ok := Say(conn, [5, 2], output, [], ServerAuth(env, input, at).out);
    if !ok {
      return Failed(WriteFailed);
    }
    assert [] + [5, 2] == [5, 2];
    end := CheckUser(conn, env, input, output, at);
  }

  method CheckUser(conn: Conn, env: ServerEnv, ghost input: seq<byte>, ghost output: seq<byte>, ghost at: nat)
    returns (end: End)
    requires Progress(conn, input, output, at, [5, 2]) && env.verify.Some?
    modifies conn
    ensures Leaves(conn, input, output, ServerAuth(env, input, at), end)
  {
    var header := conn.ReadFull(2);
    if header.None? {
      return More;
    }
    var userLen: nat := header.value[1];
    assert userLen == input[at + 1] && conn.input == input[at + 2..];
    if userLen == 0 {
      end := Refuse(conn, input, output, at + 2);
      return;
    }
    var user := conn.ReadFull(userLen);
    if user.None? {
      return More;
    }
    ghost var mid := at + 2 + userLen;
    assert user.value == input[at + 2..mid] && conn.input == input[mid..];
    end := CheckPassword(conn, env, user.value, input, output, mid);
  }

  method CheckPassword(conn: Conn, env: ServerEnv, user: seq<byte>, ghost input: seq<byte>, ghost output: seq<byte>, ghost at: nat)
    returns (end: End)
    requires Progress(conn, input, output, at, [5, 2]) && env.verify.Some?
    modifies conn
    ensures Leaves(conn, input, output, ServerPass(env, input, at, user), end)
  {
    var one := conn.Read(1);
    if one == [] {
      return More;
    }
    var passLen: nat := one[0];
    assert passLen == input[at] && conn.input == input[at + 1..];
    if passLen == 0 {
      end := Refuse(conn, input, output, at + 1);
      return;
    }
    var pass := conn.ReadFull(passLen);
    if pass.None? {
      return More;
    }
    ghost var next := at + 1 + passLen;
    assert pass.value == input[at + 1..next] && conn.input == input[next..];
    if !env.verify.value(user, pass.value) {
      end := Refuse(conn, input, output, next);
      return;
    }
    end := Accept(conn, env, input, output, next);
  }

  /** The credentials are right. */
  method Refuse(conn: Conn, ghost input: seq<byte>, ghost output: seq<byte>, ghost at: nat) returns (end: End)
    requires Progress(conn, input, output, at, [5, 2])
    modifies conn
    ensures Leaves(conn, input, output, Side([5, 2, 1, 1], at, Failed(AuthFailed)), end)
  {
    var _ := Say(conn, [1, 1], output, [5, 2], [5, 2, 1, 1]);
    return Failed(AuthFailed);
  }

  method Accept(conn: Conn, env: ServerEnv, ghost input: seq<byte>, ghost output: seq<byte>, ghost at: nat)
    returns (end: End)
    requires Progress(conn, input, output, at, [5, 2])
    modifies conn
    ensures Leaves(conn, input, output, ServerRequest(env, input, at, [5, 2, 1, 0]), end)
  {
    var ok := Say(conn, [1, 0], output, [5, 2], ServerRequest(env, input, at, [5, 2, 1, 0]).out);
    if !ok {
      return Failed(WriteFailed);
    }
    end := ServeRequest(conn, env, input, output, at, [5, 2, 1, 0]);
  }

  method ServerHandshake(conn: Conn, env: ServerEnv) returns (end: End)
    modifies conn
    ensures Leaves(conn, old(conn.input), old(conn.output), Server(env, old(conn.input)), end)
  {
    ghost var input, output := conn.input, conn.output;
    // The version and the methods offered.
    var head := conn.ReadFull(2);
    if head.None? {
      return More;
    }
    var nmethods: nat := head.value[1];
    var methods := conn.ReadFull(nmethods);
    if methods.None? {
      return More;
    }
    assert nmethods == input[1] && conn.input == input[2 + nmethods..];
    assert Server(env, input) == ServerChoice(env, input, 2 + nmethods);
    if env.verify.Some? {
      end := CheckCredentials(conn, env, input, output, 2 + nmethods);
    } else {
      var ok := Say(conn, [5, 0], output, [], Server(env, input).out);
      if !ok {
        return Failed(WriteFailed);
      }
      assert [] + [5, 0] == [5, 0];
      end := ServeRequest(conn, env, input, output, 2 + nmethods, [5, 0]);
    }
  }

  method SendRequest(conn: Conn, env: ClientEnv, ghost input: seq<byte>, ghost output: seq<byte>, ghost at: nat, ghost out: seq<byte>)
    returns (end: End)
    requires Progress(conn, input, output, at, out)
    modifies conn
    ensures Leaves(conn, input, output, ClientRequest(env, input, at, out), end)
  {
    ghost var sent := out + [5, env.command, 0] + env.addr;
    assert out + ([5, env.command, 0] + env.addr) == sent;
    var ok := Say(conn, [5, env.command, 0] + env.addr, output, out, sent);
    if !ok {
      return Failed(WriteFailed);
    }
    // The version, the reply and a reserved byte.
    var buf := conn.ReadFull(3);
    if buf.None? {
      return More;
    }
    assert conn.input == input[at + 3..];
    var addr;
    end, addr := ReadAddress(conn, input, output, at + 3, sent);
    if addr.Some? {
      end := Finished(addr.value, env.command);
    }
  }

  method ClientHandshake(conn: Conn, env: ClientEnv) returns (end: End)
    modifies conn
    ensures Leaves(conn, old(conn.input), old(conn.output), Client(env, old(conn.input)), end)
  {
    ghost var input, output := conn.input, conn.output;
    // The version and the one method offered.
    var ok := Say(conn, Hello(env), output, [], Client(env, input).out);
    if !ok {
      return Failed(WriteFailed);
    }
    assert [] + Hello(env) == Hello(env);
    // The version and the method chosen.
    var buf := conn.ReadFull(2);
    if buf.None? {
      return More;
    }
    if buf.value[0] != 5 {
      return Failed(VersionError);
    }
    if buf.value[1] == 2 {
      if env.user.None? {
        return Failed(AuthFailed);
      }
      end := Authenticate(conn, env, input, output);
    } else if buf.value[1] != 0 {
      return Failed(NeedsAuth);
    } else {
      end := SendRequest(conn, env, input, output, 2, Hello(env));
    }
  }

  /** The server asked for the credentials. */
  method Authenticate(conn: Conn, env: ClientEnv, ghost input: seq<byte>, ghost output: seq<byte>) returns (end: End)
    requires Progress(conn, input, output, 2, Hello(env)) && env.user.Some? && input[0] == 5 && input[1] == 2
    modifies conn
    ensures Leaves(conn, input, output, Client(env, input), end)
  {
    ghost var out := Hello(env) + AuthMessage(env.user.value);
    var ok := Say(conn, AuthMessage(env.user.value), output, Hello(env), Client(env, input).out);
    if !ok {
      return Failed(WriteFailed);
    }
    var buf := conn.ReadFull(2);
    if buf.None? {
      return More;
    }
    assert conn.input == input[4..] && buf.value[1] == input[3];
    if buf.value[1] != 0 {
      return Failed(Rejected);
    }
    end := SendRequest(conn, env, input, output, 4, out);
  }
}
