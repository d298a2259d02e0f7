/** Client and server of transport/socks5/socks5.go run against each other, with every
    piece of every message delivered whenever the network likes. */
module Socks5Handshake {
  import opened Collections
  import opened Bytes
  import opened Socks5

  datatype Scene = Scene(server: ServerEnv, client: ClientEnv)
  {
    /** What the protocol asks of its parameters; credentials may be refused or missing. */
    ghost predicate Valid() {
      && WellFormed(client.addr) && (client.command == CMD_CONNECT || client.command == CMD_UDP_ASSOCIATE)
      && server.local.Some? && WellFormed(server.local.value)
      && (client.user.Some? ==> |client.user.value.name| <= 255 && |client.user.value.password| <= 255)
    }

    /** The server wants no credentials, or gets ones it accepts. */
    predicate Accepts() {
      || server.verify.None?
      || (client.user.Some? && client.user.value.name != [] && client.user.value.password != []
          && server.verify.value(client.user.value.name, client.user.value.password))
    }

    function Hello(): seq<byte> {
      Socks5.Hello(client)
    }

    function Request(): seq<byte> {
      [5, client.command, 0] + client.addr
    }

    /** All that the client says in a handshake that succeeds. */
    function ToServer(): seq<byte> {
      Hello() + (if server.verify.Some? && client.user.Some? then AuthMessage(client.user.value) else []) + Request()
    }

    /** All that the server answers. */
    function ToClient(): seq<byte>
      requires server.local.Some?
    {
      (if server.verify.Some? then [5, 2, 1, 0] else [5, 0]) + [5, 0, 0] + server.local.value
    }
  }

  /** The bytes that have reached each side. */
  datatype State = State(atServer: seq<byte>, atClient: seq<byte>)

  /** A piece that one side has written and the other not yet received. */
  datatype Delivery = ForServer(piece: seq<byte>) | ForClient(piece: seq<byte>)

  ghost predicate CanDeliver(sc: Scene, st: State, d: Delivery) {
    match d
    case ForServer(piece) => piece != [] && st.atServer + piece <= Client(sc.client, st.atClient).out
    case ForClient(piece) => piece != [] && st.atClient + piece <= Server(sc.server, st.atServer).out
  }

  function Deliver(st: State, d: Delivery): State {
    match d
    case ForServer(piece) => st.(atServer := st.atServer + piece)
    case ForClient(piece) => st.(atClient := st.atClient + piece)
  }

  /** The state after the deliveries, if each was possible in its turn. */
  ghost function Run(sc: Scene, ds: seq<Delivery>): Option<State> {
    if ds == [] then Some(State([], []))
    else
      var mid := Run(sc, ds[..|ds| - 1]);
      if mid.Some? && CanDeliver(sc, mid.value, ds[|ds| - 1]) then Some(Deliver(mid.value, ds[|ds| - 1])) else None
  }

  /** Everything that was written has arrived. */
  ghost predicate Quiet(sc: Scene, st: State) {
    st.atServer == Client(sc.client, st.atClient).out && st.atClient == Server(sc.server, st.atServer).out
  }

  // ------------------------------------------------------------ the sides on what they are meant to hear

  lemma {:induction false} AddrRead(input: seq<byte>, used: nat, out: seq<byte>, addr: Addr)
    requires used <= |input| && input[used..] == addr && WellFormed(addr)
    ensures ReadAddr(input, used, out) == (Side(out, |input|, More), Some(addr))
  {
    SplitsOff(addr, []);
    assert addr + [] == addr;
  }

  lemma {:induction false} RequestServed(env: ServerEnv, input: seq<byte>, at: nat, out: seq<byte>, command: byte, addr: Addr)
    requires at <= |input| && input[at..] == [5, command, 0] + addr && WellFormed(addr) && env.local.Some?
    requires command == CMD_CONNECT || command == CMD_UDP_ASSOCIATE
    ensures ServerRequest(env, input, at, out) == Side(out + [5, 0, 0] + env.local.value, |input|, Finished(addr, command))
  {
    assert input[at + 3..] == input[at..][3..] == addr;
    assert input[at + 1] == input[at..][1];
    AddrRead(input, at + 3, out, addr);
  }

  lemma {:induction false} AuthRead(sc: Scene, input: seq<byte>, rest: seq<byte>, at: nat)
    requires sc.Valid() && sc.client.user.Some? && sc.server.verify.Some?
    requires sc.client.user.value.name != [] && sc.client.user.value.password != []
    requires input == sc.Hello() + AuthMessage(sc.client.user.value) + rest
    requires at == 3 + |AuthMessage(sc.client.user.value)|
    ensures var user := sc.client.user.value;
            Server(sc.server, input) ==
            if sc.server.verify.value(user.name, user.password) then ServerRequest(sc.server, input, at, [5, 2, 1, 0])
            else Side([5, 2, 1, 1], at, Failed(AuthFailed))
  {
    var user := sc.client.user.value;
    var mid := 5 + |user.name|;
    AuthParts(sc, input, rest);
    NameRead(sc.server, input, user.name, mid);
    PasswordRead(sc.server, input, mid, user, at);
  }

  lemma {:induction false} NameRead(env: ServerEnv, input: seq<byte>, name: seq<byte>, mid: nat)
    requires env.verify.Some? && name != [] && mid == 5 + |name| && |input| >= mid
    requires input[1] == 1 && input[4] == |name| && input[5..mid] == name
    ensures Server(env, input) == ServerPass(env, input, mid, name)
  {
    assert Server(env, input) == ServerAuth(env, input, 3);
  }

  lemma {:induction false} PasswordRead(env: ServerEnv, input: seq<byte>, mid: nat, user: User, at: nat)
    requires env.verify.Some? && user.password != [] && at == mid + 1 + |user.password| && |input| >= at
    requires input[mid] == |user.password| && input[mid + 1..at] == user.password
    ensures ServerPass(env, input, mid, user.name) ==
            if env.verify.value(user.name, user.password) then ServerRequest(env, input, at, [5, 2, 1, 0])
            else Side([5, 2, 1, 1], at, Failed(AuthFailed))
  {
  }

  lemma {:induction false} AuthParts(sc: Scene, input: seq<byte>, rest: seq<byte>)
    requires sc.Valid() && sc.client.user.Some?
    requires input == sc.Hello() + AuthMessage(sc.client.user.value) + rest
    ensures var (user, mid) := (sc.client.user.value, 5 + |sc.client.user.value.name|);
            && |input| >= mid + 1 + |user.password|
            && input[1] == 1 && input[4] == |user.name| && input[5..mid] == user.name
            && input[mid] == |user.password| && input[mid + 1..mid + 1 + |user.password|] == user.password
  {
    var user := sc.client.user.value;
    assert input[3..] == AuthMessage(user) + rest;
    assert input[4] == input[3..][1];
    assert input[5 + |user.name|] == input[3..][2 + |user.name|];
  }

  lemma {:induction false} ServerCompletes(sc: Scene)
    requires sc.Valid() && sc.Accepts()
    ensures Server(sc.server, sc.ToServer()) == Side(sc.ToClient(), |sc.ToServer()|, Finished(sc.client.addr, sc.client.command))
  {
    if sc.server.verify.Some? {
      ServerCompletesAuth(sc);
    } else {
      var input := sc.ToServer();
      assert sc.Hello() + [] + sc.Request() == sc.Hello() + sc.Request();
      assert input[3..] == sc.Request();
      RequestServed(sc.server, input, 3, [5, 0], sc.client.command, sc.client.addr);
    }
  }

  lemma {:induction false} ServerCompletesAuth(sc: Scene)
    requires sc.Valid() && sc.Accepts() && sc.server.verify.Some?
    ensures Server(sc.server, sc.ToServer()) == Side(sc.ToClient(), |sc.ToServer()|, Finished(sc.client.addr, sc.client.command))
  {
    var input, auth := sc.ToServer(), AuthMessage(sc.client.user.value);
    var at := 3 + |auth|;
    AuthRead(sc, input, sc.Request(), at);
    AfterAuth(sc.Hello(), auth, sc.Request(), at);
    RequestServed(sc.server, input, at, [5, 2, 1, 0], sc.client.command, sc.client.addr);
  }

  lemma {:induction false} AfterAuth(hello: seq<byte>, auth: seq<byte>, request: seq<byte>, at: nat)
    requires at == |hello| + |auth|
    ensures (hello + auth + request)[at..] == request
  {
  }

  lemma {:induction false} ReplyRead(env: ClientEnv, input: seq<byte>, at: nat, out: seq<byte>, local: Addr)
    requires at <= |input| && input[at..] == [5, 0, 0] + local && WellFormed(local)
    ensures ClientRequest(env, input, at, out) == Side(out + [5, env.command, 0] + env.addr, |input|, Finished(local, env.command))
  {
    assert input[at + 3..] == input[at..][3..] == local;
    AddrRead(input, at + 3, out + [5, env.command, 0] + env.addr, local);
  }

  lemma {:induction false} ClientCompletes(sc: Scene)
    requires sc.Valid() && sc.Accepts()
    ensures Client(sc.client, sc.ToClient()) == Side(sc.ToServer(), |sc.ToClient()|, Finished(sc.server.local.value, sc.client.command))
  {
    var input := sc.ToClient();
    if sc.server.verify.Some? {
      var out := sc.Hello() + AuthMessage(sc.client.user.value);
      assert input[4..] == [5, 0, 0] + sc.server.local.value;
      ReplyRead(sc.client, input, 4, out, sc.server.local.value);
      assert out + [5, sc.client.command, 0] + sc.client.addr == out + sc.Request();
    } else {
      assert input[2..] == [5, 0, 0] + sc.server.local.value;
      ReplyRead(sc.client, input, 2, sc.Hello(), sc.server.local.value);
      assert sc.Hello() + [5, sc.client.command, 0] + sc.client.addr == sc.Hello() + [] + sc.Request();
    }
  }

  // ------------------------------------------------------------ every run

  /** No side has received what the other has not written. */
  ghost predicate Causal(sc: Scene, st: State) {
    st.atServer <= Client(sc.client, st.atClient).out && st.atClient <= Server(sc.server, st.atServer).out
  }

  lemma {:induction false} RunIsCausal(sc: Scene, ds: seq<Delivery>)
    requires Run(sc, ds).Some?
    ensures Causal(sc, Run(sc, ds).value)
    ensures |ds| <= |Run(sc, ds).value.atServer| + |Run(sc, ds).value.atClient|
  {
    if ds != [] {
      var mid, d := Run(sc, ds[..|ds| - 1]).value, ds[|ds| - 1];
      RunIsCausal(sc, ds[..|ds| - 1]);
      var st := Deliver(mid, d);
      ServerGrows(sc.server, mid.atServer, st.atServer);
      ClientGrows(sc.client, mid.atClient, st.atClient);
    }
  }

  /** With accepted credentials all that is ever said is part of the successful exchange. */
  lemma {:induction false} RunOnTrack(sc: Scene, ds: seq<Delivery>)
    requires sc.Valid() && sc.Accepts() && Run(sc, ds).Some?
    ensures Run(sc, ds).value.atServer <= sc.ToServer() && Run(sc, ds).value.atClient <= sc.ToClient()
  {
    if ds != [] {
      var mid, d := Run(sc, ds[..|ds| - 1]).value, ds[|ds| - 1];
      RunOnTrack(sc, ds[..|ds| - 1]);
      ServerCompletes(sc);
      ClientCompletes(sc);
      ServerGrows(sc.server, mid.atServer, sc.ToServer());
      ClientGrows(sc.client, mid.atClient, sc.ToClient());
    }
  }

  lemma {:induction false} Heard(sc: Scene, st: State, part: seq<byte>)
    requires Quiet(sc, st)
    ensures part <= st.atServer ==> Server(sc.server, part).out <= st.atClient
    ensures part <= st.atServer && Server(sc.server, part).end != More ==> Server(sc.server, st.atServer) == Server(sc.server, part)
    ensures part <= st.atClient ==> Client(sc.client, part).out <= st.atServer
    ensures part <= st.atClient && Client(sc.client, part).end != More ==> Client(sc.client, st.atClient) == Client(sc.client, part)
  {
    if part <= st.atServer {
      ServerGrows(sc.server, part, st.atServer);
    }
    if part <= st.atClient {
      ClientGrows(sc.client, part, st.atClient);
    }
  }

  /** Nothing on the way means that the greeting has been answered. */
  lemma {:induction false} GreetingAnswered(sc: Scene, st: State)
    requires Quiet(sc, st)
    ensures sc.Hello() <= st.atServer && (if sc.server.verify.Some? then [5, 2] else [5, 0]) <= st.atClient
  {
    Heard(sc, st, []);
    assert Client(sc.client, []).out == sc.Hello();
    Heard(sc, st, sc.Hello());
    assert Server(sc.server, sc.Hello()).out == if sc.server.verify.Some? then [5, 2] else [5, 0];
  }

  /** No deadlock: when nothing is on the way, a handshake with accepted credentials is over. */
  lemma {:induction false} QuietIsComplete(sc: Scene, st: State)
    requires sc.Valid() && sc.Accepts() && Quiet(sc, st)
    requires st.atServer <= sc.ToServer() && st.atClient <= sc.ToClient()
    ensures st == State(sc.ToServer(), sc.ToClient())
  {
    GreetingAnswered(sc, st);
    if sc.server.verify.Some? {
      var asked := sc.Hello() + AuthMessage(sc.client.user.value);
      Heard(sc, st, [5, 2]);
      assert Client(sc.client, [5, 2]).out == asked;
      AuthRead(sc, asked, [], 3 + |AuthMessage(sc.client.user.value)|);
      assert asked + [] == asked;
      Heard(sc, st, asked);
      assert Server(sc.server, asked).out == [5, 2, 1, 0];
      Heard(sc, st, [5, 2, 1, 0]);
      assert Client(sc.client, [5, 2, 1, 0]).out == sc.ToServer();
    } else {
      Heard(sc, st, [5, 0]);
      assert Client(sc.client, [5, 0]).out == sc.ToServer();
    }
    assert st.atServer == sc.ToServer();
    ServerCompletes(sc);
  }

  /** Refused or missing credentials end the handshake on the client's side, refused ones on both. */
  lemma {:induction false} QuietIsRefused(sc: Scene, st: State)
    requires sc.Valid() && !sc.Accepts() && Quiet(sc, st)
    ensures Client(sc.client, st.atClient).end == Failed(if sc.client.user.Some? then Rejected else AuthFailed)
    ensures sc.client.user.Some? ==> Server(sc.server, st.atServer).end == Failed(AuthFailed)
  {
    GreetingAnswered(sc, st);
    Heard(sc, st, [5, 2]);
    if sc.client.user.Some? {
      var user := sc.client.user.value;
      var asked := sc.Hello() + AuthMessage(user);
      assert Client(sc.client, [5, 2]).out == asked;
      RefusalRead(sc, asked);
      Heard(sc, st, asked);
      assert Client(sc.client, [5, 2, 1, 1]).end == Failed(Rejected);
      Heard(sc, st, [5, 2, 1, 1]);
    }
  }

  lemma {:induction false} RefusalRead(sc: Scene, asked: seq<byte>)
    requires sc.Valid() && !sc.Accepts() && sc.client.user.Some? && asked == sc.Hello() + AuthMessage(sc.client.user.value)
    ensures Server(sc.server, asked).out == [5, 2, 1, 1] && Server(sc.server, asked).end == Failed(AuthFailed)
  {
    var user := sc.client.user.value;
    assert asked[3..] == AuthMessage(user);
    assert asked[4] == asked[3..][1] == |user.name|;
    if user.name != [] {
      assert asked[5 + |user.name|] == asked[3..][2 + |user.name|] == |user.password|;
      if user.password != [] {
        AuthRead(sc, asked, [], 3 + |AuthMessage(sc.client.user.value)|);
        assert asked + [] == asked;
      }
    }
  }

  /** In every run, however the messages are cut: before the end nobody has failed or finished early; at the end
      of a run both sides have finished exactly if the credentials are accepted, each with what the other
      sent, and no byte is left over. */
  lemma {:induction false} HandshakeIff(sc: Scene, ds: seq<Delivery>)
    requires sc.Valid() && Run(sc, ds).Some?
    ensures var st := Run(sc, ds).value;
            var (s, c) := (Server(sc.server, st.atServer), Client(sc.client, st.atClient));
            && |ds| <= |sc.ToServer()| + |sc.ToClient()|
            && (sc.Accepts() ==> !s.end.Failed? && !c.end.Failed?
                                 && (s.end.Finished? ==> s.end == Finished(sc.client.addr, sc.client.command))
                                 && (c.end.Finished? ==> c.end == Finished(sc.server.local.value, sc.client.command)))
            && (Quiet(sc, st) && sc.Accepts() ==>
                  && s == Side(sc.ToClient(), |st.atServer|, Finished(sc.client.addr, sc.client.command))
                  && c == Side(sc.ToServer(), |st.atClient|, Finished(sc.server.local.value, sc.client.command)))
            && (Quiet(sc, st) && !sc.Accepts() ==> c.end.Failed?)
  {
    var st := Run(sc, ds).value;
    RunIsCausal(sc, ds);
    if sc.Accepts() {
      RunOnTrack(sc, ds);
      ServerCompletes(sc);
      ClientCompletes(sc);
      ServerGrows(sc.server, st.atServer, sc.ToServer());
      ClientGrows(sc.client, st.atClient, sc.ToClient());
      if Quiet(sc, st) {
        QuietIsComplete(sc, st);
      }
    } else {
      SaysAtMost(sc, st.atServer, st.atClient);
      if Quiet(sc, st) {
        QuietIsRefused(sc, st);
      }
    }
  }

  /** Nobody ever says more than in the handshake that succeeds. */
  lemma {:induction false} SaysAtMost(sc: Scene, atServer: seq<byte>, atClient: seq<byte>)
    requires sc.Valid() && sc.server.verify.Some?
    ensures |Client(sc.client, atClient).out| <= |sc.ToServer()| && |Server(sc.server, atServer).out| <= |sc.ToClient()|
  {
  }

  /** A run that is not quiet can go on. */
  lemma {:induction false} CanGoOn(sc: Scene, ds: seq<Delivery>) returns (d: Delivery)
    requires Run(sc, ds).Some? && !Quiet(sc, Run(sc, ds).value)
    ensures CanDeliver(sc, Run(sc, ds).value, d)
  {
    var st := Run(sc, ds).value;
    RunIsCausal(sc, ds);
    var (toServer, toClient) := (Client(sc.client, st.atClient).out, Server(sc.server, st.atServer).out);
    if st.atServer != toServer {
      d := ForServer(toServer[|st.atServer|..]);
    } else {
      d := ForClient(toClient[|st.atClient|..]);
    }
  }
}
