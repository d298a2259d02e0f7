/** What each side of a SOCKS5 handshake answers to every message, byte by byte (sections 3 to 6 of RFC 1928, section 2
    of RFC 1929); that it waits for the rest of a message follows, as a side's end is final (`Socks5.ServerGrows`). */
module Socks5Wire {
  import opened Collections
  import opened Bytes
  import opened Socks5

  /** The answer to a request for a command and an address, after `out` has been said and `used` bytes have been read. */
  ghost function Answer(env: ServerEnv, out: seq<byte>, used: nat, command: byte, addr: Addr): Side {
    if command != 1 && command != 3 then Side(out, used, Failed(CommandNotSupported))
    else if env.local.None? then Side(out, used, Failed(AddressNotSupported))
    else Side(out + [5, 0, 0] + env.local.value, used, Finished(addr, command))
  }

  lemma {:induction false} AddressRead(input: seq<byte>, at: nat, out: seq<byte>, addr: Addr, rest: seq<byte>)
    requires at <= |input| && input[at..] == addr + rest && WellFormed(addr)
    ensures ReadAddr(input, at, out) == (Side(out, at + |addr|, More), Some(addr))
  {
    SplitsOff(addr, rest);
  }

  lemma {:induction false} RequestRead(env: ServerEnv, input: seq<byte>, at: nat, out: seq<byte>,
                                       a: byte, command: byte, b: byte, addr: Addr, rest: seq<byte>, used: nat)
    requires at <= |input| && input[at..] == [a, command, b] + addr + rest && WellFormed(addr) && used == at + 3 + |addr|
    ensures ServerRequest(env, input, at, out) == Answer(env, out, used, command, addr)
  {
    assert input[at + 3..] == input[at..][3..] == addr + rest && input[at + 1] == input[at..][1] == command;
    AddressRead(input, at + 3, out, addr, rest);
  }

  lemma {:induction false} OddRequest(env: ServerEnv, input: seq<byte>, at: nat, out: seq<byte>,
                                      a: byte, command: byte, b: byte, kind: byte, rest: seq<byte>)
    requires at <= |input| && input[at..] == [a, command, b, kind] + rest && kind !in [1, 3, 4]
    ensures ServerRequest(env, input, at, out) == Side(out, at + 4, Failed(AddressNotSupported))
  {
    assert input[at + 3..] == input[at..][3..] == [kind] + rest;
  }

  /** The greeting: a version, the number of methods and the methods; what follows is the next message. */
  lemma {:induction false} GreetingRead(env: ServerEnv, version: byte, methods: seq<byte>, rest: seq<byte>, input: seq<byte>, at: nat)
    requires |methods| < 256 && input == [version, |methods|] + methods + rest && at == 2 + |methods|
    ensures input[at..] == rest && Server(env, input) == ServerChoice(env, input, at)
  {
  }

  /** Without an authenticator the server chooses method 0 and answers the request. */
  lemma {:induction false} ServerPlain(env: ServerEnv, version: byte, methods: seq<byte>,
                                       a: byte, command: byte, b: byte, addr: Addr, rest: seq<byte>)
    requires env.verify.None? && |methods| < 256 && WellFormed(addr)
    ensures var input := [version, |methods|] + methods + ([a, command, b] + addr + rest);
            Server(env, input) == Answer(env, [5, 0], |input| - |rest|, command, addr)
  {
    var request := [a, command, b] + addr + rest;
    var input, at := [version, |methods|] + methods + request, 2 + |methods|;
    GreetingRead(env, version, methods, request, input, at);
    RequestRead(env, input, at, [5, 0], a, command, b, addr, rest, |input| - |rest|);
  }

  /** An address of an unknown type is refused. */
  lemma {:induction false} ServerOdd(env: ServerEnv, version: byte, methods: seq<byte>,
                                     a: byte, command: byte, b: byte, kind: byte, rest: seq<byte>)
    requires env.verify.None? && |methods| < 256 && kind !in [1, 3, 4]
    ensures var input := [version, |methods|] + methods + ([a, command, b, kind] + rest);
            Server(env, input) == Side([5, 0], |input| - |rest|, Failed(AddressNotSupported))
  {
    var request := [a, command, b, kind] + rest;
    var input, at := [version, |methods|] + methods + request, 2 + |methods|;
    GreetingRead(env, version, methods, request, input, at);
    OddRequest(env, input, at, [5, 0], a, command, b, kind, rest);
  }

  /** A message with credentials. */
  ghost function Credentials(w: byte, name: seq<byte>, password: seq<byte>): seq<byte>
    requires |name| < 256 && |password| < 256
  {
    [w, |name|] + name + [|password|] + password
  }

  /** Where the parts of such a message are: the name ends at mid, the password at end. */
  ghost predicate CredentialsAt(input: seq<byte>, at: nat, mid: nat, end: nat, name: seq<byte>, password: seq<byte>) {
    && mid == at + 2 + |name| && end == mid + 1 + |password| && |input| >= end
    && input[at + 1] == |name| && input[at + 2..mid] == name && input[mid] == |password| && input[mid + 1..end] == password
  }

  lemma {:induction false} CredentialParts(input: seq<byte>, at: nat, mid: nat, end: nat,
                                           w: byte, name: seq<byte>, password: seq<byte>, rest: seq<byte>)
    requires |name| < 256 && |password| < 256 && at <= |input| && input[at..] == Credentials(w, name, password) + rest
    requires mid == at + 2 + |name| && end == mid + 1 + |password|
    ensures CredentialsAt(input, at, mid, end, name, password) && input[end..] == rest
  {
    var tail := input[at..];
    var n := |name|;
    assert tail[1] == input[at + 1] && tail[2 + n] == input[at + 2 + n];
    assert tail[2..2 + n] == name && tail[3 + n..3 + n + |password|] == password && tail[3 + n + |password|..] == rest;
  }

  /** An authenticator is asked about the name and the password; if it says no, or either is empty, the status is 1. */
  lemma {:induction false} ServerRefuses(env: ServerEnv, version: byte, methods: seq<byte>, w: byte, name: seq<byte>, password: seq<byte>, rest: seq<byte>)
    requires env.verify.Some? && |methods| < 256 && |name| < 256 && |password| < 256
    requires name == [] || password == [] || !env.verify.value(name, password)
    ensures var input := [version, |methods|] + methods + (Credentials(w, name, password) + rest);
            var used := if name == [] then 2 + |methods| + 2 else |input| - |rest|;
            Server(env, input) == Side([5, 2, 1, 1], used, Failed(AuthFailed))
  {
    var next := Credentials(w, name, password) + rest;
    var input, at := [version, |methods|] + methods + next, 2 + |methods|;
    var mid, end := at + 2 + |name|, |input| - |rest|;
    GreetingRead(env, version, methods, next, input, at);
    CredentialParts(input, at, mid, end, w, name, password, rest);
    Refused(env, input, at, mid, end, name, password);
  }

  lemma {:induction false} Refused(env: ServerEnv, input: seq<byte>, at: nat, mid: nat, end: nat, name: seq<byte>, password: seq<byte>)
    requires env.verify.Some? && |name| < 256 && |password| < 256 && CredentialsAt(input, at, mid, end, name, password)
    requires name == [] || password == [] || !env.verify.value(name, password)
    ensures ServerAuth(env, input, at) == Side([5, 2, 1, 1], if name == [] then at + 2 else end, Failed(AuthFailed))
  {
    if name != [] {
      assert ServerAuth(env, input, at) == ServerPass(env, input, mid, name);
    }
  }

  /** If it says yes the status is 0, and the request is answered. */
  lemma {:induction false} ServerAdmits(env: ServerEnv, version: byte, methods: seq<byte>, w: byte, name: seq<byte>, password: seq<byte>,
                                        a: byte, command: byte, b: byte, addr: Addr, rest: seq<byte>)
    requires env.verify.Some? && |methods| < 256 && 0 < |name| < 256 && 0 < |password| < 256 && env.verify.value(name, password)
    requires WellFormed(addr)
    ensures var input := [version, |methods|] + methods + (Credentials(w, name, password) + ([a, command, b] + addr + rest));
            Server(env, input) == Answer(env, [5, 2, 1, 0], |input| - |rest|, command, addr)
  {
    var request := [a, command, b] + addr + rest;
    var next := Credentials(w, name, password) + request;
    var input, at := [version, |methods|] + methods + next, 2 + |methods|;
    var mid, end := at + 2 + |name|, |input| - |request|;
    GreetingRead(env, version, methods, next, input, at);
    CredentialParts(input, at, mid, end, w, name, password, request);
    Admitted(env, input, at, mid, end, name, password);
    RequestRead(env, input, end, [5, 2, 1, 0], a, command, b, addr, rest, |input| - |rest|);
  }

  lemma {:induction false} Admitted(env: ServerEnv, input: seq<byte>, at: nat, mid: nat, end: nat, name: seq<byte>, password: seq<byte>)
    requires env.verify.Some? && 0 < |name| < 256 && 0 < |password| < 256 && env.verify.value(name, password)
    requires CredentialsAt(input, at, mid, end, name, password)
    ensures ServerAuth(env, input, at) == ServerRequest(env, input, end, [5, 2, 1, 0])
  {
    assert ServerAuth(env, input, at) == ServerPass(env, input, mid, name);
  }

  // ------------------------------------------------------------ the client

  /** The greeting offers one method: that with credentials if there are any. */
  ghost function Greeting(env: ClientEnv): seq<byte> {
    if env.user.Some? then [5, 1, 2] else [5, 1, 0]
  }

  lemma {:induction false} ReplyRead(env: ClientEnv, input: seq<byte>, at: nat, out: seq<byte>, x: byte, y: byte, z: byte, addr: Addr, rest: seq<byte>)
    requires at <= |input| && input[at..] == [x, y, z] + addr + rest && WellFormed(addr)
    ensures ClientRequest(env, input, at, out) == Side(out + [5, env.command, 0] + env.addr, at + 3 + |addr|, Finished(addr, env.command))
  {
    assert input[at + 3..] == input[at..][3..] == addr + rest;
    AddressRead(input, at + 3, out + [5, env.command, 0] + env.addr, addr, rest);
  }

  /** A server that chooses method 0 is sent the request. */
  lemma {:induction false} ClientPlain(env: ClientEnv, x: byte, y: byte, z: byte, addr: Addr, rest: seq<byte>)
    requires WellFormed(addr)
    ensures var input := [5, 0] + ([x, y, z] + addr + rest);
            Client(env, input) == Side(Greeting(env) + [5, env.command, 0] + env.addr, |input| - |rest|, Finished(addr, env.command))
  {
    var input := [5, 0] + ([x, y, z] + addr + rest);
    assert input[2..] == [x, y, z] + addr + rest;
    ReplyRead(env, input, 2, Greeting(env), x, y, z, addr, rest);
  }

  /** A server that chooses method 2 is sent the credentials, and the request if it accepts them. */
  lemma {:induction false} ClientWithUser(env: ClientEnv, v: byte, x: byte, y: byte, z: byte, addr: Addr, rest: seq<byte>)
    requires env.user.Some? && |env.user.value.name| < 256 && |env.user.value.password| < 256 && WellFormed(addr)
    ensures var input := [5, 2, v, 0] + ([x, y, z] + addr + rest);
            var said := [5, 1, 2] + Credentials(1, env.user.value.name, env.user.value.password);
            Client(env, input) == Side(said + [5, env.command, 0] + env.addr, |input| - |rest|, Finished(addr, env.command))
  {
    var input := [5, 2, v, 0] + ([x, y, z] + addr + rest);
    var said := [5, 1, 2] + Credentials(1, env.user.value.name, env.user.value.password);
    assert input[4..] == [x, y, z] + addr + rest;
    assert AuthMessage(env.user.value) == Credentials(1, env.user.value.name, env.user.value.password);
    ReplyRead(env, input, 4, said, x, y, z, addr, rest);
  }

  /** Everything else is an error: another version, a method that was not offered, credentials that are missing or refused. */
  lemma {:induction false} ClientGivesUp(env: ClientEnv, version: byte, chosen: byte, v: byte, status: byte, rest: seq<byte>)
    ensures version != 5 ==> Client(env, [version, chosen] + rest) == Side(Greeting(env), 2, Failed(VersionError))
    ensures chosen != 0 && chosen != 2 ==> Client(env, [5, chosen] + rest) == Side(Greeting(env), 2, Failed(NeedsAuth))
    ensures env.user.None? ==> Client(env, [5, 2] + rest) == Side([5, 1, 0], 2, Failed(AuthFailed))
    ensures status != 0 && env.user.Some? && |env.user.value.name| < 256 && |env.user.value.password| < 256 ==>
              Client(env, [5, 2, v, status] + rest)
              == Side([5, 1, 2] + Credentials(1, env.user.value.name, env.user.value.password), 4, Failed(Rejected))
  {
    if env.user.Some? && |env.user.value.name| < 256 && |env.user.value.password| < 256 {
      assert AuthMessage(env.user.value) == Credentials(1, env.user.value.name, env.user.value.password);
    }
  }
}
