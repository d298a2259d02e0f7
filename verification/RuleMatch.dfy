/** Rule matching of tunnel/tunnel.go and the cache in front of it (tunnel/matchRuleCache.go).

    Rules are predicates on the metadata of a connection; the hosts table and the resolver
    give fixed answers.  The cache is keyed by all of the metadata but the source port. */
module RuleMatch {
  import opened Collections

  type Ip = seq<int>

  datatype Network = TCP | UDP

  function Decimal(n: nat): string {
    if n < 10 then ["0123456789"[n]] else Decimal(n / 10) + ["0123456789"[n % 10]]
  }

  /** The source port of a connection as text; empty where the source has none. */
  predicate SourcePort(p: string) {
    p == "" || exists n :: 0 <= n < 65536 && p == Decimal(n)
  }

  type Port = p: string | SourcePort(p) witness ""

  datatype Metadata = Metadata(network: Network, kind: int, srcIP: Option<Ip>, dstIP: Option<Ip>,
                               srcPort: Port, dstPort: string, addrType: int, host: string)

  datatype Rule = Rule(name: string, adapter: string, resolves: bool, matches: Metadata -> bool)

  datatype Proxy = Proxy(name: string, supportsUdp: bool)

  /** The configuration, and what the hosts table and the resolver answer. */
  datatype Env = Env(rules: seq<Rule>, proxies: map<string, Proxy>,
                     hosts: string -> Option<Ip>, resolver: string -> Option<Ip>)

  datatype Answer = Answer(adapter: Option<Proxy>, rule: Option<Rule>)

  // ------------------------------------------------------------ the first admissible rule

  predicate Usable(env: Env, rule: Rule, m: Metadata) {
    rule.matches(m) && rule.adapter in env.proxies && (m.network == UDP ==> env.proxies[rule.adapter].supportsUdp)
  }

  /** Some of the first n rules asks for the address of a host that has none yet. */
  predicate Resolves(env: Env, m: Metadata, n: nat)
    requires n <= |env.rules|
  {
    env.hosts(m.host).None? && m.host != "" && m.dstIP.None? && exists i :: 0 <= i < n && env.rules[i].resolves
  }

  /** The metadata once the first n rules have been reached. */
  function View(env: Env, m: Metadata, n: nat): Metadata
    requires n <= |env.rules|
  {
    if m.dstIP.Some? then m
    else if env.hosts(m.host).Some? then m.(dstIP := env.hosts(m.host))
    else if Resolves(env, m, n) then m.(dstIP := env.resolver(m.host))
    else m
  }

  /** The rule at i admits the connection as it looks when that rule is reached. */
  predicate Admits(env: Env, m: Metadata, i: nat)
    requires i < |env.rules|
  {
    Usable(env, env.rules[i], View(env, m, i + 1))
  }

  /** The first rule from i on that admits the connection. */
  function FirstFrom(env: Env, m: Metadata, i: nat): (k: nat)
    requires i <= |env.rules|
    ensures i <= k <= |env.rules|
    ensures k < |env.rules| ==> Admits(env, m, k)
    ensures forall j :: i <= j < k ==> !Admits(env, m, j)
    decreases |env.rules| - i
  {
    if i == |env.rules| || Admits(env, m, i) then i else FirstFrom(env, m, i + 1)
  }

  function Decide(env: Env, m: Metadata): Answer {
    var k := FirstFrom(env, m, 0);
    if k < |env.rules| then Answer(Some(env.proxies[env.rules[k].adapter]), Some(env.rules[k]))
    else Direct(env)
  }

  /** The metadata in plain words: only the address changes, and only if there was none. It is that of the hosts table;
      or that of the resolver, once a rule that asks for it has been reached and there is a host to ask for. */
  lemma {:induction false} ViewIs(env: Env, m: Metadata, n: nat)
    requires n <= |env.rules|
    ensures View(env, m, n) == m.(dstIP := View(env, m, n).dstIP)
    ensures m.dstIP.Some? ==> View(env, m, n).dstIP == m.dstIP
    ensures m.dstIP.None? && env.hosts(m.host).Some? ==> View(env, m, n).dstIP == env.hosts(m.host)
    ensures m.dstIP.None? && env.hosts(m.host).None? ==>
              View(env, m, n).dstIP ==
              if m.host != "" && exists i :: 0 <= i < n && env.rules[i].resolves then env.resolver(m.host) else None
  {
  }

  /** The rule is passed over: it does not match, or its proxy is unknown, or it is for UDP and its proxy has none. */
  ghost predicate PassedOver(env: Env, rule: Rule, m: Metadata) {
    rule.matches(m) ==> rule.adapter !in env.proxies || (m.network == UDP && !env.proxies[rule.adapter].supportsUdp)
  }

  /** The rule and its proxy suit the connection. */
  ghost predicate Suits(env: Env, a: Answer, m: Metadata) {
    && a.rule.Some? && a.rule.value.matches(m)
    && a.rule.value.adapter in env.proxies && a.adapter == Some(env.proxies[a.rule.value.adapter])
    && (m.network == UDP ==> a.adapter.value.supportsUdp)
  }

  function Direct(env: Env): Answer {
    Answer(if "DIRECT" in env.proxies then Some(env.proxies["DIRECT"]) else None, None)
  }

  /** The answer is that of the rule at k, which suits, and those before it are passed over; each sees the metadata as
      it is when the rule is reached. */
  ghost predicate AnsweredAt(env: Env, m: Metadata, a: Answer, k: nat) {
    && k < |env.rules| && a.rule == Some(env.rules[k]) && Suits(env, a, View(env, m, k + 1))
    && forall j :: 0 <= j < k ==> PassedOver(env, env.rules[j], View(env, m, j + 1))
  }

  /** All rules are passed over, and the answer is DIRECT. */
  ghost predicate Unanswered(env: Env, m: Metadata, a: Answer) {
    a == Direct(env) && forall j :: 0 <= j < |env.rules| ==> PassedOver(env, env.rules[j], View(env, m, j + 1))
  }

  /** The answer is the first that suits, or DIRECT. */
  lemma {:induction false} DecideIff(env: Env, m: Metadata, a: Answer)
    ensures a == Decide(env, m) <==> (exists k: nat :: AnsweredAt(env, m, a, k)) || Unanswered(env, m, a)
  {
    var first := FirstFrom(env, m, 0);
    forall j | 0 <= j < |env.rules|
      ensures Admits(env, m, j) <==> !PassedOver(env, env.rules[j], View(env, m, j + 1))
    {
    }
    if a == Decide(env, m) && first < |env.rules| {
      assert AnsweredAt(env, m, a, first);
    }
    if k: nat :| AnsweredAt(env, m, a, k) {
      assert Admits(env, m, k);
      assert first == k;
    }
  }

  predicate ShouldResolveIP(rule: Rule, m: Metadata) {
    rule.resolves && m.host != "" && m.dstIP.None?
  }

  /** `match`: the answer, the metadata as the loop leaves it, and the number of resolver calls. */
  method Match(env: Env, metadata: Metadata) returns (a: Answer, m: Metadata, calls: nat)
    ensures a == Decide(env, metadata)
    ensures var k := FirstFrom(env, metadata, 0);
            var reached := if k < |env.rules| then k + 1 else k;
            m == View(env, metadata, reached) && calls == if Resolves(env, metadata, reached) then 1 else 0
    ensures a.rule.Some? ==> Suits(env, a, m)
    ensures a.rule.None? ==> a.adapter == if "DIRECT" in env.proxies then Some(env.proxies["DIRECT"]) else None
  {
    m, calls := metadata, 0;
    var resolved := false;
    var node := env.hosts(m.host);
    if node.Some? {
      if m.dstIP.None? {
        m := m.(dstIP := node);
      }
      resolved := true;
    }
    for i := 0 to |env.rules|
      invariant m == View(env, metadata, i) && calls == (if Resolves(env, metadata, i) then 1 else 0)
      invariant resolved <==> env.hosts(metadata.host).Some? || Resolves(env, metadata, i)
      invariant FirstFrom(env, metadata, 0) == FirstFrom(env, metadata, i)
    {
      var rule := env.rules[i];
      if !resolved && ShouldResolveIP(rule, m) {
        var ip := env.resolver(m.host);
        calls := calls + 1;
        if ip.Some? && m.dstIP.None? {
          m := m.(dstIP := ip);
        }
        resolved := true;
      }
      ResolvesNext(env, metadata, i);
      if rule.matches(m) {
        if rule.adapter in env.proxies {
          var adapter := env.proxies[rule.adapter];
          if !(m.network == UDP && !adapter.supportsUdp) {
            return Answer(Some(adapter), Some(rule)), m, calls;
          }
        }
      }
    }
    a := Answer(if "DIRECT" in env.proxies then Some(env.proxies["DIRECT"]) else None, None);
  }

  lemma {:induction false} ResolvesNext(env: Env, m: Metadata, n: nat)
    requires n < |env.rules|
    ensures Resolves(env, m, n + 1) <==>
              Resolves(env, m, n) || (env.hosts(m.host).None? && m.host != "" && m.dstIP.None? && env.rules[n].resolves)
  {
  }

  // ------------------------------------------------------------ the cache

  /** Metadata.InfoKey as a tuple: everything but the source port. */
  datatype Key = Key(network: Network, kind: int, srcIP: Option<Ip>, dstIP: Option<Ip>, dstPort: string, addrType: int, host: string)

  function InfoKey(m: Metadata): Key {
    Key(m.network, m.kind, m.srcIP, m.dstIP, m.dstPort, m.addrType, m.host)
  }

  /** The tunnel's state: the "_rule" and "_proxy" entries of the cache are two maps. */
  datatype State = State(env: Env, byRule: map<Key, Rule>, byProxy: map<Key, Option<Proxy>>)

  /** The answer of matchHashMap, whether `match` had to be called, and the state after it. */
  function Ask(st: State, m: Metadata): (Answer, bool, State) {
    var key := InfoKey(m);
    if key in st.byRule && Usable(st.env, st.byRule[key], m) then
      (Answer(Some(st.env.proxies[st.byRule[key].adapter]), Some(st.byRule[key])), false, st)
    else if key in st.byProxy && st.byProxy[key].Some? then
      (Answer(st.byProxy[key], None), false, st)
    else
      var a := Decide(st.env, m);
      (a, true, if a.rule.Some? then st.(byRule := st.byRule[key := a.rule.value])
                else st.(byProxy := st.byProxy[key := a.adapter]))
  }

  /** What happens to the cache: questions, entries forgotten by the cache, and new rules, which empty it. */
  datatype Event = Asked(m: Metadata) | ForgetRule(key: Key) | ForgetProxy(key: Key) | Update(rules: seq<Rule>)

  function Next(st: State, e: Event): State {
    match e
    case Asked(m) => Ask(st, m).2
    case ForgetRule(key) => st.(byRule := st.byRule - {key})
    case ForgetProxy(key) => st.(byProxy := st.byProxy - {key})
    case Update(rules) => State(st.env.(rules := rules), map[], map[])
  }

  function After(st: State, es: seq<Event>): State {
    if es == [] then st else Next(After(st, es[..|es| - 1]), es[|es| - 1])
  }

  function Fresh(env: Env): State {
    State(env, map[], map[])
  }

  /** The rule at k is the first that admits the connection. */
  ghost predicate AdmittedFirst(env: Env, m: Metadata, k: nat) {
    k < |env.rules| && Admits(env, m, k) && forall i :: 0 <= i < k ==> !Admits(env, m, i)
  }

  ghost predicate FallsThrough(env: Env, m: Metadata) {
    forall i :: 0 <= i < |env.rules| ==> !Admits(env, m, i)
  }

  ghost predicate AdmittedBy(env: Env, m: Metadata, rule: Rule) {
    exists k: nat :: AdmittedFirst(env, m, k) && env.rules[k] == rule
  }

  /** Where a connection from one source port is admitted first by a rule that is usable, as it came, for another
      port, that rule is also the one admitted first there; and where it falls through all rules to DIRECT, so does
      the other. */
  ghost predicate SafeFor(env: Env, m: Metadata, port: Port) {
    var m' := m.(srcPort := port);
    && (forall k: nat :: AdmittedFirst(env, m, k) && Usable(env, env.rules[k], m') ==> AdmittedBy(env, m', env.rules[k]))
    && (FallsThrough(env, m) && "DIRECT" in env.proxies ==> FallsThrough(env, m'))
  }

  ghost predicate Safe(env: Env) {
    forall m, port: Port :: SafeFor(env, m, port)
  }

  /** What is cached for m answers like `match` for m'. */
  ghost predicate Interchangeable(env: Env, m: Metadata, m': Metadata) {
    var a := Decide(env, m);
    && (a.rule.Some? && Usable(env, a.rule.value, m') ==> Decide(env, m') == a)
    && (a.rule.None? && a.adapter.Some? ==> Decide(env, m') == a)
  }

  lemma {:induction false} FirstIs(env: Env, m: Metadata)
    ensures forall k: nat :: AdmittedFirst(env, m, k) <==> k == FirstFrom(env, m, 0) && k < |env.rules|
    ensures FallsThrough(env, m) <==> FirstFrom(env, m, 0) == |env.rules|
  {
    var first := FirstFrom(env, m, 0);
    forall k: nat | AdmittedFirst(env, m, k)
      ensures k == first
    {
      assert first <= k;
    }
  }

  lemma {:induction false} SafeForIff(env: Env, m: Metadata, port: Port)
    ensures SafeFor(env, m, port) <==> Interchangeable(env, m, m.(srcPort := port))
  {
    var m' := m.(srcPort := port);
    var k, k' := FirstFrom(env, m, 0), FirstFrom(env, m', 0);
    FirstIs(env, m);
    FirstIs(env, m');
    if k < |env.rules| {
      assert AdmittedFirst(env, m, k);
      assert AdmittedBy(env, m', env.rules[k]) <==> k' < |env.rules| && env.rules[k'] == env.rules[k] by {
        if k' < |env.rules| {
          assert AdmittedFirst(env, m', k');
        }
      }
    }
  }

  ghost predicate SameAnswer(st: State, m: Metadata) {
    Ask(st, m).0 == Decide(st.env, m)
  }

  /** Every entry is the answer to some question with its key. */
  ghost predicate Consistent(st: State) {
    && (forall key :: key in st.byRule ==> RuleFor(st.env, key, st.byRule[key]))
    && (forall key :: key in st.byProxy ==> ProxyFor(st.env, key, st.byProxy[key]))
  }

  ghost predicate RuleFor(env: Env, key: Key, rule: Rule) {
    exists m :: InfoKey(m) == key && Decide(env, m).rule == Some(rule)
  }

  ghost predicate ProxyFor(env: Env, key: Key, adapter: Option<Proxy>) {
    exists m :: InfoKey(m) == key && Decide(env, m) == Answer(adapter, None)
  }

  lemma {:induction false} RuleAnswer(env: Env, m: Metadata)
    ensures var a := Decide(env, m);
            a.rule.Some? ==> a.rule.value.adapter in env.proxies && a.adapter == Some(env.proxies[a.rule.value.adapter])
  {
  }

  lemma {:induction false} AgreesHere(st: State, m: Metadata)
    requires Safe(st.env) && Consistent(st)
    ensures SameAnswer(st, m)
  {
    var key := InfoKey(m);
    if key in st.byRule && Usable(st.env, st.byRule[key], m) {
      assert RuleFor(st.env, key, st.byRule[key]);
      var m0 :| InfoKey(m0) == key && Decide(st.env, m0).rule == Some(st.byRule[key]);
      RuleAnswer(st.env, m0);
      SafeMeans(st.env, m0, m);
    } else if key in st.byProxy && st.byProxy[key].Some? {
      assert ProxyFor(st.env, key, st.byProxy[key]);
      var m0 :| InfoKey(m0) == key && Decide(st.env, m0) == Answer(st.byProxy[key], None);
      SafeMeans(st.env, m0, m);
    }
  }

  lemma {:induction false} SafeMeans(env: Env, m: Metadata, m': Metadata)
    requires Safe(env) && InfoKey(m) == InfoKey(m')
    ensures Interchangeable(env, m, m')
  {
    SameKey(m, m');
    assert SafeFor(env, m, m'.srcPort);
    SafeForIff(env, m, m'.srcPort);
  }

  lemma {:induction false} SameKey(m: Metadata, m': Metadata)
    requires InfoKey(m) == InfoKey(m')
    ensures m' == m.(srcPort := m'.srcPort)
  {
  }

  lemma {:induction false} StaysConsistent(st: State, e: Event)
    requires Consistent(st)
    ensures Consistent(Next(st, e))
  {
    if e.Asked? && Ask(st, e.m).1 {
      var a := Decide(st.env, e.m);
      if a.rule.Some? {
        assert RuleFor(st.env, InfoKey(e.m), a.rule.value);
      } else {
        assert a == Answer(a.adapter, None);
        assert ProxyFor(st.env, InfoKey(e.m), a.adapter);
      }
    }
  }

  lemma {:induction false} RunConsistent(env: Env, es: seq<Event>)
    ensures Consistent(After(Fresh(env), es))
  {
    if es != [] {
      RunConsistent(env, es[..|es| - 1]);
      StaysConsistent(After(Fresh(env), es[..|es| - 1]), es[|es| - 1]);
    }
  }

  /** After any run, whatever was forgotten or updated on the way, the cache answers like `match`
      if the rules now in force are safe. */
  lemma {:induction false} CacheAgrees(env: Env, es: seq<Event>, m: Metadata)
    requires Safe(After(Fresh(env), es).env)
    ensures SameAnswer(After(Fresh(env), es), m)
  {
    RunConsistent(env, es);
    AgreesHere(After(Fresh(env), es), m);
  }

  /** After any run an answer of the cache is a rule in force that suits the connection, as it came or as `match` leaves
      it, or else DIRECT. */
  lemma {:induction false} AskSuits(env: Env, es: seq<Event>, m: Metadata)
    ensures var st := After(Fresh(env), es);
            var (a, asked, _) := Ask(st, m);
            && (a.rule.Some? ==> a.rule.value in st.env.rules && Suits(st.env, a, LeftByAsk(st, m)))
            && (a.rule.None? ==> a.adapter == if "DIRECT" in st.env.proxies then Some(st.env.proxies["DIRECT"]) else None)
  {
    var st := After(Fresh(env), es);
    RunConsistent(env, es);
    DecideSuits(st.env, m);
    var key := InfoKey(m);
    if key in st.byRule {
      var m0 :| InfoKey(m0) == key && Decide(st.env, m0).rule == Some(st.byRule[key]);
      DecideSuits(st.env, m0);
    }
    if key in st.byProxy {
      var m0 :| InfoKey(m0) == key && Decide(st.env, m0) == Answer(st.byProxy[key], None);
      DecideSuits(st.env, m0);
    }
  }

  lemma {:induction false} DecideSuits(env: Env, m: Metadata)
    ensures var a := Decide(env, m);
            && (a.rule.Some? ==> a.rule.value in env.rules && Suits(env, a, LeftByMatch(env, m)))
            && (a.rule.None? ==> a.adapter == if "DIRECT" in env.proxies then Some(env.proxies["DIRECT"]) else None)
  {
  }

  ghost predicate NoUpdate(es: seq<Event>) {
    forall i :: 0 <= i < |es| ==> !es[i].Update?
  }

  lemma {:induction false} SameEnv(st: State, es: seq<Event>)
    requires NoUpdate(es)
    ensures After(st, es).env == st.env
  {
    if es != [] {
      SameEnv(st, es[..|es| - 1]);
    }
  }

  /** Safety is exactly what agreement over all runs takes: two connections that fail it are told apart by asking
      for one and then for the other. */
  lemma {:induction false} CacheAgreesIff(env: Env)
    ensures Safe(env) <==> forall es, m :: NoUpdate(es) ==> SameAnswer(After(Fresh(env), es), m)
  {
    if Safe(env) {
      forall es, m | NoUpdate(es)
        ensures SameAnswer(After(Fresh(env), es), m)
      {
        SameEnv(Fresh(env), es);
        CacheAgrees(env, es, m);
      }
    } else {
      var m, port: Port :| !SafeFor(env, m, port);
      SafeForIff(env, m, port);
      assert NoUpdate([Asked(m)]);
      ToldApart(env, m, m.(srcPort := port));
    }
  }

  lemma {:induction false} ToldApart(env: Env, m: Metadata, m': Metadata)
    requires InfoKey(m) == InfoKey(m') && !Interchangeable(env, m, m')
    ensures !SameAnswer(After(Fresh(env), [Asked(m)]), m')
  {
    var es := [Asked(m)];
    assert es[..0] == [];
    assert After(Fresh(env), es) == Next(After(Fresh(env), []), Asked(m));
    RuleAnswer(env, m);
  }

  // ------------------------------------------------------------ the source port

  ghost predicate IgnoresSrcPort(rule: Rule) {
    forall m: Metadata, port: Port :: rule.matches(m.(srcPort := port)) == rule.matches(m)
  }

  /** A rule that matches one source port only, such as a source-port rule or a domain rule with a source port. */
  ghost predicate BoundTo(rule: Rule, port: string) {
    forall m: Metadata :: rule.matches(m) ==> m.srcPort == port
  }

  /** Each rule ignores the source port, or is bound to the one given. */
  ghost predicate Kinds(env: Env, ports: seq<Option<string>>) {
    && |ports| == |env.rules|
    && (forall i :: 0 <= i < |ports| && ports[i].None? ==> IgnoresSrcPort(env.rules[i]))
    && (forall i :: 0 <= i < |ports| && ports[i].Some? ==> BoundTo(env.rules[i], ports[i].value))
  }

  /** No rule before k that ignores the source port admits the connection. */
  ghost predicate NoBlind(env: Env, ports: seq<Option<string>>, m: Metadata, k: nat)
    requires Kinds(env, ports) && k <= |ports|
  {
    forall i :: 0 <= i < k && ports[i].None? ==> !Admits(env, m, i)
  }

  /** The first rule admitting the connection that ignores the source port. */
  ghost predicate FirstBlind(env: Env, ports: seq<Option<string>>, m: Metadata, k: nat)
    requires Kinds(env, ports)
  {
    k < |ports| && ports[k].None? && Admits(env, m, k) && NoBlind(env, ports, m, k)
  }

  /** No rule before k that is bound to a port admits the connection. */
  ghost predicate NoBound(env: Env, ports: seq<Option<string>>, m: Metadata, k: nat)
    requires Kinds(env, ports) && k <= |ports|
  {
    forall i :: 0 <= i < k && ports[i].Some? ==> !Admits(env, m, i)
  }

  /** The same connection from port q puts something into the cache that answers for m: the first rule that ignores the
      port, if that is usable for m as it came, or DIRECT. */
  ghost predicate CachedFrom(env: Env, ports: seq<Option<string>>, m: Metadata, q: Port)
    requires Kinds(env, ports)
  {
    || (exists k: nat :: FirstBlind(env, ports, m, k) && Usable(env, env.rules[k], m) && NoBound(env, ports, m.(srcPort := q), k))
    || (NoBlind(env, ports, m, |ports|) && NoBound(env, ports, m.(srcPort := q), |ports|) && "DIRECT" in env.proxies)
  }

  /** The bound rule at j admits the connection before any rule that ignores the port, and port q caches another answer. */
  ghost predicate Exposed(env: Env, ports: seq<Option<string>>, m: Metadata, j: nat, q: Port)
    requires Kinds(env, ports)
  {
    && j < |ports| && ports[j].Some? && Admits(env, m, j) && NoBlind(env, ports, m, j)
    && CachedFrom(env, ports, m, q)
  }

  lemma {:induction false} ViewPort(env: Env, m: Metadata, port: Port, n: nat)
    requires n <= |env.rules|
    ensures View(env, m.(srcPort := port), n) == View(env, m, n).(srcPort := port)
  {
    assert Resolves(env, m, n) <==> Resolves(env, m.(srcPort := port), n);
  }

  lemma {:induction false} BlindAdmits(env: Env, m: Metadata, port: Port, i: nat)
    requires i < |env.rules| && IgnoresSrcPort(env.rules[i])
    ensures Admits(env, m.(srcPort := port), i) == Admits(env, m, i)
  {
    ViewPort(env, m, port, i + 1);
  }

  lemma {:induction false} NoBlindPort(env: Env, ports: seq<Option<string>>, m: Metadata, port: Port, k: nat)
    requires Kinds(env, ports) && k <= |ports|
    ensures NoBlind(env, ports, m.(srcPort := port), k) == NoBlind(env, ports, m, k)
  {
    forall i | 0 <= i < k && ports[i].None?
      ensures Admits(env, m.(srcPort := port), i) == Admits(env, m, i)
    {
      BlindAdmits(env, m, port, i);
    }
  }

  lemma {:induction false} BoundAdmits(env: Env, m: Metadata, i: nat, port: string)
    requires i < |env.rules| && BoundTo(env.rules[i], port) && Admits(env, m, i)
    ensures m.srcPort == port
  {
    assert env.rules[i].matches(View(env, m, i + 1));
  }

  /** What is not safe is exposed. */
  lemma {:induction false} SafeOrExposed(env: Env, ports: seq<Option<string>>, m: Metadata, port: Port) returns (j: nat)
    requires Kinds(env, ports)
    ensures SafeFor(env, m, port) || Exposed(env, ports, m.(srcPort := port), j, m.srcPort)
  {
    var m' := m.(srcPort := port);
    j := FirstFrom(env, m', 0);
    FirstIs(env, m');
    assert m'.(srcPort := m.srcPort) == m;
    forall k: nat | AdmittedFirst(env, m, k) && Usable(env, env.rules[k], m')
      ensures AdmittedBy(env, m', env.rules[k]) || Exposed(env, ports, m', j, m.srcPort)
    {
      if ports[k].Some? {
        BoundAdmits(env, m, k, ports[k].value);
        assert m' == m;
      } else {
        BlindAdmits(env, m, port, k);
        NoBlindPort(env, ports, m, port, k);
        assert FirstBlind(env, ports, m', k);
        assert AdmittedFirst(env, m', j);
      }
    }
    NoBlindPort(env, ports, m, port, |ports|);
  }

  /** From port q the connection is decided as if there were no bound rules. */
  lemma {:induction false} CachedFirst(env: Env, ports: seq<Option<string>>, m: Metadata, q: Port)
    requires Kinds(env, ports)
    ensures forall k: nat :: FirstBlind(env, ports, m, k) && NoBound(env, ports, m.(srcPort := q), k) ==> AdmittedFirst(env, m.(srcPort := q), k)
    ensures NoBlind(env, ports, m, |ports|) && NoBound(env, ports, m.(srcPort := q), |ports|) ==> FallsThrough(env, m.(srcPort := q))
  {
    forall i | 0 <= i < |ports| && ports[i].None?
      ensures Admits(env, m.(srcPort := q), i) <==> Admits(env, m, i)
    {
      BlindAdmits(env, m, q, i);
    }
  }

  lemma {:induction false} ExposedIsUnsafe(env: Env, ports: seq<Option<string>>, m: Metadata, j: nat, q: Port)
    requires Kinds(env, ports) && Exposed(env, ports, m, j, q)
    ensures !SafeFor(env, m.(srcPort := q), m.srcPort)
  {
    var m0 := m.(srcPort := q);
    CachedFirst(env, ports, m, q);
    assert m0.(srcPort := m.srcPort) == m;
    if k: nat :| FirstBlind(env, ports, m, k) && Usable(env, env.rules[k], m) && NoBound(env, ports, m0, k) {
      assert AdmittedFirst(env, m0, k);
      BoundFirst(env, ports, m, j, k);
    }
  }

  lemma {:induction false} BoundFirst(env: Env, ports: seq<Option<string>>, m: Metadata, j: nat, k: nat)
    requires Kinds(env, ports)
    requires j < |ports| && ports[j].Some? && Admits(env, m, j) && NoBlind(env, ports, m, j) && k < |ports| && ports[k].None?
    ensures !AdmittedBy(env, m, env.rules[k])
  {
    forall k': nat | AdmittedFirst(env, m, k')
      ensures env.rules[k'] != env.rules[k]
    {
      assert k' <= j && ports[k'].Some?;
      NotBoth(env, m, k', ports[k'].value);
    }
  }

  /** A rule that matches something is not both blind to the port and bound to one. */
  lemma {:induction false} NotBoth(env: Env, m: Metadata, i: nat, port: string)
    requires i < |env.rules| && Admits(env, m, i) && BoundTo(env.rules[i], port)
    ensures !IgnoresSrcPort(env.rules[i])
  {
    var v := View(env, m, i + 1);
    assert Decimal(0) == "0";
    var q: Port := if port == "" then "0" else "";
    assert !env.rules[i].matches(v.(srcPort := q)) && env.rules[i].matches(v);
  }

  /** For rules that ignore the source port or are bound to one: the cache agrees with `match` in all runs exactly if
      no connection is exposed. */
  lemma {:induction false} PortRulesIff(env: Env, ports: seq<Option<string>>)
    requires Kinds(env, ports)
    ensures Safe(env) <==> forall m, j: nat, q: Port :: !Exposed(env, ports, m, j, q)
  {
    if forall m, j: nat, q: Port :: !Exposed(env, ports, m, j, q) {
      forall m, port: Port
        ensures SafeFor(env, m, port)
      {
        var j := SafeOrExposed(env, ports, m, port);
      }
    } else {
      var m, j: nat, q: Port :| Exposed(env, ports, m, j, q);
      ExposedIsUnsafe(env, ports, m, j, q);
    }
  }

  /** Where some source port is bound by no rule, that one tells. */
  lemma {:induction false} FreePortTells(env: Env, ports: seq<Option<string>>, q: Port)
    requires Kinds(env, ports) && forall i :: 0 <= i < |ports| && ports[i].Some? ==> ports[i].value != q
    ensures Safe(env) <==> forall m, j: nat :: !Exposed(env, ports, m, j, q)
  {
    PortRulesIff(env, ports);
    forall m, j: nat, q': Port | Exposed(env, ports, m, j, q')
      ensures Exposed(env, ports, m, j, q)
    {
      FreeCaches(env, ports, m, q, q');
    }
  }

  lemma {:induction false} FreeCaches(env: Env, ports: seq<Option<string>>, m: Metadata, q: Port, q': Port)
    requires Kinds(env, ports) && forall i :: 0 <= i < |ports| && ports[i].Some? ==> ports[i].value != q
    requires CachedFrom(env, ports, m, q')
    ensures CachedFrom(env, ports, m, q)
  {
    forall i | 0 <= i < |ports| && ports[i].Some?
      ensures !Admits(env, m.(srcPort := q), i)
    {
      if Admits(env, m.(srcPort := q), i) {
        BoundAdmits(env, m.(srcPort := q), i, ports[i].value);
      }
    }
    if k: nat :| FirstBlind(env, ports, m, k) && Usable(env, env.rules[k], m) && NoBound(env, ports, m.(srcPort := q'), k) {
      assert NoBound(env, ports, m.(srcPort := q), k);
    }
  }

  /** Rules that do not look at the source port are safe to cache. */
  lemma {:induction false} PortBlindIsSafe(env: Env)
    requires forall k :: 0 <= k < |env.rules| ==> IgnoresSrcPort(env.rules[k])
    ensures Safe(env)
  {
    var ports := seq(|env.rules|, i => None);
    assert Kinds(env, ports);
    PortRulesIff(env, ports);
  }

  /** A source-port rule in front of a catch-all is not: the catch-all, once cached for another
      port, answers for the port of the first rule too. */
  lemma {:induction false} PortRuleIsUnsafe(env: Env, m: Metadata)
    requires |env.rules| == 2 && !env.rules[0].resolves && !env.rules[1].resolves && env.rules[0] != env.rules[1]
    requires forall m :: env.rules[0].matches(m) == (m.srcPort == "7000") && env.rules[1].matches(m)
    requires env.rules[0].adapter in env.proxies && env.rules[1].adapter in env.proxies && m.network == TCP
    ensures SourcePort("7000") && SourcePort("7001")
    ensures var (mine, other) := (m.(srcPort := "7000"), m.(srcPort := "7001"));
            !SameAnswer(After(Fresh(env), [Asked(other)]), mine)
  {
    TestPorts();
    var mine, other := m.(srcPort := "7000"), m.(srcPort := "7001");
    ViewPort(env, m, "7000", 1);
    ViewPort(env, m, "7001", 1);
    assert Admits(env, mine, 0) && !Admits(env, other, 0) && Admits(env, other, 1);
    assert FirstFrom(env, other, 0) == 1;
    var es := [Asked(other)];
    assert es[..0] == [];
    assert After(Fresh(env), es) == Next(After(Fresh(env), []), Asked(other));
  }

  lemma {:induction false} TestPorts()
    ensures SourcePort("7000") && SourcePort("7001")
  {
    assert Decimal(7) == "7" && Decimal(70) == "70" && Decimal(700) == "700";
    assert Decimal(7000) == "7000" && Decimal(7001) == "7001";
  }

  // ------------------------------------------------------------ the metadata after a question

  /** The number of rules that `match` reaches. */
  function Reached(env: Env, m: Metadata): (n: nat)
    ensures n <= |env.rules|
  {
    var k := FirstFrom(env, m, 0);
    if k < |env.rules| then k + 1 else k
  }

  function LeftByMatch(env: Env, m: Metadata): Metadata {
    View(env, m, Reached(env, m))
  }

  /** What matchHashMap leaves: a hit does not touch the metadata. */
  function LeftByAsk(st: State, m: Metadata): Metadata {
    if Ask(st, m).1 then LeftByMatch(st.env, m) else m
  }

  ghost predicate SameMetadata(st: State, m: Metadata) {
    LeftByAsk(st, m) == LeftByMatch(st.env, m)
  }

  /** The first n rules add no address to the connection: it has one, or there is none for it. */
  ghost predicate AsItCame(env: Env, m: Metadata, n: nat)
    requires n <= |env.rules|
  {
    m.dstIP.Some? || (env.hosts(m.host).None? && (Resolves(env, m, n) ==> env.resolver(m.host).None?))
  }

  lemma {:induction false} AsItCameIff(env: Env, m: Metadata, n: nat)
    requires n <= |env.rules|
    ensures AsItCame(env, m, n) <==> View(env, m, n) == m
  {
    if m.dstIP.None? && env.hosts(m.host).Some? {
      assert View(env, m, n).dstIP != m.dstIP;
    }
  }

  /** The rules up to the one admitted first, or all of them, add no address. */
  ghost predicate Settles(env: Env, m: Metadata) {
    && (forall k: nat :: AdmittedFirst(env, m, k) ==> AsItCame(env, m, k + 1))
    && (FallsThrough(env, m) ==> AsItCame(env, m, |env.rules|))
  }

  lemma {:induction false} SettlesIff(env: Env, m: Metadata)
    ensures Settles(env, m) <==> LeftByMatch(env, m) == m
  {
    FirstIs(env, m);
    AsItCameIff(env, m, Reached(env, m));
    if FirstFrom(env, m, 0) < |env.rules| {
      assert AdmittedFirst(env, m, FirstFrom(env, m, 0));
    }
  }

  /** If what is cached for m answers for the same connection from another port, that one settles. */
  ghost predicate SettlesFor(env: Env, m: Metadata, port: Port) {
    var m' := m.(srcPort := port);
    && (forall k: nat :: AdmittedFirst(env, m, k) && Usable(env, env.rules[k], m') ==> Settles(env, m'))
    && (FallsThrough(env, m) && "DIRECT" in env.proxies ==> Settles(env, m'))
  }

  lemma {:induction false} HitSettles(st: State, m: Metadata)
    requires Consistent(st) && (forall m0, port: Port :: SettlesFor(st.env, m0, port)) && !Ask(st, m).1
    ensures Settles(st.env, m)
  {
    var key := InfoKey(m);
    var m0 := CachedBy(st, m);
    SameKey(m0, m);
    FirstIs(st.env, m0);
    assert SettlesFor(st.env, m0, m.srcPort);
    var k := FirstFrom(st.env, m0, 0);
    if k < |st.env.rules| {
      assert AdmittedFirst(st.env, m0, k);
    }
  }

  /** The question that put into the cache what now answers for m. */
  lemma {:induction false} CachedBy(st: State, m: Metadata) returns (m0: Metadata)
    requires Consistent(st) && !Ask(st, m).1
    ensures InfoKey(m0) == InfoKey(m)
    ensures var a := Decide(st.env, m0);
            if a.rule.Some? then Usable(st.env, a.rule.value, m) else a.adapter.Some?
  {
    var key := InfoKey(m);
    if key in st.byRule && Usable(st.env, st.byRule[key], m) {
      assert RuleFor(st.env, key, st.byRule[key]);
      m0 :| InfoKey(m0) == key && Decide(st.env, m0).rule == Some(st.byRule[key]);
    } else {
      assert ProxyFor(st.env, key, st.byProxy[key]);
      m0 :| InfoKey(m0) == key && Decide(st.env, m0) == Answer(st.byProxy[key], None);
    }
  }

  lemma {:induction false} LeavesAlike(st: State, m: Metadata)
    requires Consistent(st) && forall m0, port: Port :: SettlesFor(st.env, m0, port)
    ensures SameMetadata(st, m)
  {
    if !Ask(st, m).1 {
      HitSettles(st, m);
      SettlesIff(st.env, m);
    }
  }

  /** The second question hits and leaves the connection as it came. */
  lemma {:induction false} HitLeaves(env: Env, m: Metadata, port: Port)
    requires !SettlesFor(env, m, port)
    ensures !SameMetadata(After(Fresh(env), [Asked(m)]), m.(srcPort := port))
  {
    var es, m' := [Asked(m)], m.(srcPort := port);
    assert es[..0] == [];
    assert After(Fresh(env), es) == Next(After(Fresh(env), []), Asked(m));
    FirstIs(env, m);
    RuleAnswer(env, m);
    SettlesIff(env, m');
  }

  /** The cache leaves the metadata as `match` does, in all runs, exactly if whatever it answers for settles: a hit adds
      no address, and `match` would have added none. */
  lemma {:induction false} MetadataAgreesIff(env: Env)
    ensures (forall es, m :: NoUpdate(es) ==> SameMetadata(After(Fresh(env), es), m)) <==> forall m, port: Port :: SettlesFor(env, m, port)
  {
    if forall m, port: Port :: SettlesFor(env, m, port) {
      forall es, m | NoUpdate(es)
        ensures SameMetadata(After(Fresh(env), es), m)
      {
        SameEnv(Fresh(env), es);
        RunConsistent(env, es);
        LeavesAlike(After(Fresh(env), es), m);
      }
    } else {
      var m, port: Port :| !SettlesFor(env, m, port);
      assert NoUpdate([Asked(m)]);
      HitLeaves(env, m, port);
    }
  }

  /** For safe rules it is enough that each connection settles that its own answer, once cached, is usable for. */
  lemma {:induction false} SafeSettlesIff(env: Env)
    requires Safe(env)
    ensures (forall m, port: Port :: SettlesFor(env, m, port)) <==> forall m: Metadata :: SettlesFor(env, m, m.srcPort)
  {
    if forall m: Metadata :: SettlesFor(env, m, m.srcPort) {
      forall m: Metadata, port: Port
        ensures SettlesFor(env, m, port)
      {
        var m' := m.(srcPort := port);
        assert SafeFor(env, m, port) && SettlesFor(env, m', m'.srcPort) && m'.(srcPort := m'.srcPort) == m';
        forall k: nat | AdmittedFirst(env, m, k) && Usable(env, env.rules[k], m')
          ensures Settles(env, m')
        {
          assert AdmittedBy(env, m', env.rules[k]);
        }
      }
    }
  }

  function Never(m: Metadata): bool {
    false
  }

  function ToHome(m: Metadata): bool {
    m.host == "home.net"
  }

  function NoHost(host: string): Option<Ip> {
    None
  }

  function Answers(host: string): Option<Ip> {
    Some([10, 0, 0, 1])
  }

  /** An address rule, which has the host resolved, in front of a domain rule: the second connection to the host is
      left without the address that the first one got. */
  lemma {:induction false} SecondIsUnresolved() returns (env: Env, m: Metadata)
    ensures !SameMetadata(After(Fresh(env), [Asked(m)]), m)
    ensures m.dstIP == None && LeftByMatch(env, m).dstIP == Some([10, 0, 0, 1])
  {
    env := Env([Rule("IP-CIDR", "proxy", true, Never), Rule("DOMAIN", "proxy", false, ToHome)],
               map["proxy" := Proxy("proxy", true)], NoHost, Answers);
    m := Metadata(TCP, 0, None, None, "", "443", 3, "home.net");
    assert env.rules[0].resolves;
    assert Resolves(env, m, 1) && Resolves(env, m, 2);
    assert View(env, m, 2) == m.(dstIP := Some([10, 0, 0, 1])) == View(env, m, 1);
    assert !Admits(env, m, 0) && Admits(env, m, 1);
    assert AdmittedFirst(env, m, 1);
    FirstIs(env, m);
    assert m.(srcPort := m.srcPort) == m && Usable(env, env.rules[1], m);
    SettlesIff(env, m);
    assert !SettlesFor(env, m, m.srcPort);
    HitLeaves(env, m, m.srcPort);
  }

  // ------------------------------------------------------------ the tunnel

  /** The globals of package tunnel that matching reads and writes. */
  class Tunnel {
    var env: Env
    var byRule: map<Key, Rule>
    var byProxy: map<Key, Option<Proxy>>

    ghost function Abs(): State
      reads this
    {
      State(env, byRule, byProxy)
    }

    constructor (env: Env)
      ensures Abs() == Fresh(env)
    {
      this.env, byRule, byProxy := env, map[], map[];
    }

    /** New rules empty the cache. */
    method UpdateRules(rules: seq<Rule>)
      modifies this
      ensures Abs() == Next(old(Abs()), Update(rules))
    {
      env := env.(rules := rules);
      byRule, byProxy := map[], map[];
    }

    /** The answer, and the metadata: a hit leaves it alone, even where `match` would have filled in the address. */
    method MatchHashMap(metadata: Metadata) returns (a: Answer, m: Metadata)
      modifies this`byRule, this`byProxy
      ensures (a, Abs()) == (Ask(old(Abs()), metadata).0, Next(old(Abs()), Asked(metadata)))
      ensures m == LeftByAsk(old(Abs()), metadata)
      ensures a.rule.Some? ==> Suits(env, a, m)
    {
      var infoKey := InfoKey(metadata);
      m := metadata;
      if infoKey in byRule {
        var hashRule := byRule[infoKey];
        if hashRule.matches(metadata) && hashRule.adapter in env.proxies {
          var adapter := env.proxies[hashRule.adapter];
          if metadata.network == TCP {
            return Answer(Some(adapter), Some(hashRule)), m;
          }
          if metadata.network == UDP && adapter.supportsUdp {
            return Answer(Some(adapter), Some(hashRule)), m;
          }
        }
      }
      if infoKey in byProxy && byProxy[infoKey].Some? {
        return Answer(byProxy[infoKey], None), m;
      }
      var calls;
      a, m, calls := Match(env, metadata);
      if a.rule.Some? {
        byRule := byRule[infoKey := a.rule.value];
      } else {
        byProxy := byProxy[infoKey := a.adapter];
      }
    }
  }
}
