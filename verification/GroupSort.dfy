/** proxyGroupsDagSort of config/utils.go: build the dependency graph, sort the list of
    groups in place by peeling it, and, when nodes are left over, peel those backwards
    to locate the loops.  Iteration over a Go map is a choice of any remaining key. */
module GroupSort {
  import opened Collections
  import opened Peeling
  import opened Groups

  datatype Node = Node(indegree: int, data: Option<Mapping>, outdegree: int, option: Option<GroupOption>, from: seq<string>)

  type NodeMap = map<string, Node>

  function Listed(node: Node): seq<string> {
    if node.option.Some? then node.option.value.proxies else []
  }

  ghost function InDegrees(graph: NodeMap): Degrees {
    map n | n in graph :: graph[n].indegree
  }

  ghost function OutDegrees(graph: NodeMap): Degrees {
    map n | n in graph :: graph[n].outdegree
  }

  ghost function FromOf(graph: NodeMap): Graph {
    map n | n in graph :: graph[n].from
  }

  // ------------------------------------------------------------ step 1.1: the graph

  const NEW_PROXY := Node(1, None, 0, None, [])

  /** The node x after the proxies `ps` have been counted. */
  ghost function Counted(graph: NodeMap, ps: seq<string>, x: string): Node
    requires x in graph || x in ps
  {
    if x in graph then graph[x].(indegree := graph[x].indegree + Count(ps, x))
    else NEW_PROXY.(indegree := Count(ps, x))
  }

  lemma {:induction false} CountLast(s: seq<string>, y: string, x: string)
    ensures Count(s + [y], x) == Count(s, x) + if x == y then 1 else 0
  {
    if s == [] {
      assert [y][1..] == [];
    } else {
      CountLast(s[1..], y, x);
      assert (s + [y])[1..] == s[1..] + [y];
    }
  }

  method CountProxies(graph: NodeMap, proxies: seq<string>) returns (g: NodeMap)
    ensures g.Keys == graph.Keys + ToSet(proxies)
    ensures forall x :: x in g ==> g[x] == Counted(graph, proxies, x)
  {
    g := graph;
    for i := 0 to |proxies|
      invariant g.Keys == graph.Keys + ToSet(proxies[..i])
      invariant forall x :: x in g ==> g[x] == Counted(graph, proxies[..i], x)
    {
      assert proxies[..i + 1] == proxies[..i] + [proxies[i]];
      g := CountProxy(graph, g, proxies[..i], proxies[i]);
    }
    assert proxies[..|proxies|] == proxies;
  }

  method CountProxy(ghost graph: NodeMap, g: NodeMap, ghost before: seq<string>, proxy: string) returns (g': NodeMap)
    requires g.Keys == graph.Keys + ToSet(before) && forall x :: x in g ==> g[x] == Counted(graph, before, x)
    ensures g'.Keys == graph.Keys + ToSet(before + [proxy])
    ensures forall x :: x in g' ==> g'[x] == Counted(graph, before + [proxy], x)
  {
    forall x
      ensures Count(before + [proxy], x) == Count(before, x) + if x == proxy then 1 else 0
    {
      CountLast(before, proxy, x);
    }
    CountZero(before, proxy);
    if proxy in g {
      g' := g[proxy := g[proxy].(indegree := g[proxy].indegree + 1)];
    } else {
      g' := g[proxy := NEW_PROXY];
    }
  }

  /** The graph of the groups `gs`. */
  ghost predicate Built(graph: NodeMap, gs: seq<Mapping>) {
    && Decoded(gs) && Distinct(Names(gs)) && graph.Keys == Deps(gs).Keys
    && forall x :: x in graph ==> NodeOf(graph[x], gs, x)
  }

  ghost predicate NodeOf(node: Node, gs: seq<Mapping>, x: string)
    requires Decoded(gs)
  {
    && node.indegree == Degree(Deps(gs), Names(gs), Deps(gs).Keys, x)
    && node.data == Named(gs, x)
    && node.option == (if Named(gs, x).Some? then Named(gs, x).value.option else None)
    && node.outdegree == 0 && node.from == []
  }

  lemma {:induction false} DegreeLast(adj: Graph, all: seq<string>, a: string, alive: set<string>, x: string)
    ensures Degree(adj, all + [a], alive, x)
            == Degree(adj, all, alive, x) + if a in alive && a in adj then Count(adj[a], x) else 0
  {
    if all == [] {
      assert [a][1..] == [];
    } else {
      DegreeLast(adj, all[1..], a, alive, x);
      assert (all + [a])[1..] == all[1..] + [a];
    }
  }

  lemma {:induction false} DegreeAgrees(adj: Graph, adj': Graph, all: seq<string>, x: string)
    requires forall m :: m in all ==> m in adj && m in adj' && adj[m] == adj'[m]
    ensures Degree(adj, all, adj.Keys, x) == Degree(adj', all, adj'.Keys, x)
  {
    if all != [] {
      DegreeAgrees(adj, adj', all[1..], x);
    }
  }

  lemma {:induction false} DegreeExtends(gs: seq<Mapping>, m: Mapping, x: string)
    requires Decoded(gs) && m.option.Some? && m.option.value.name !in Names(gs)
    ensures Decoded(gs + [m]) && Names(gs + [m]) == Names(gs) + [m.option.value.name]
    ensures Deps(gs + [m]) == Extend(Deps(gs), m.option.value)
    ensures Named(gs + [m], x) == if x == m.option.value.name then Some(m) else Named(gs, x)
    ensures var (adj, adj') := (Deps(gs), Deps(gs + [m]));
            Degree(adj', Names(gs + [m]), adj'.Keys, x) == Degree(adj, Names(gs), adj.Keys, x) + Count(m.option.value.proxies, x)
  {
    assert (gs + [m])[..|gs|] == gs;
    var adj, adj', name := Deps(gs), Deps(gs + [m]), m.option.value.name;
    DegreeLast(adj', Names(gs), name, adj'.Keys, x);
    forall n | n in Names(gs)
      ensures n in adj && n in adj' && adj[n] == adj'[n]
    {
      NamedIs(gs, n);
      DepsAre(gs, n);
    }
    DegreeAgrees(adj, adj', Names(gs), x);
  }

  /** A proxy that no group has mentioned has degree zero. */
  lemma {:induction false} UnknownDegree(gs: seq<Mapping>, x: string)
    requires Decoded(gs) && x !in Deps(gs)
    ensures Degree(Deps(gs), Names(gs), Deps(gs).Keys, x) == 0
    ensures Named(gs, x).None?
  {
    DepsAre(gs, x);
    DegreeZero(Deps(gs), Names(gs), Deps(gs).Keys, x);
  }

  method AddGroup(graph: NodeMap, mapping: Mapping, ghost gs: seq<Mapping>) returns (g: NodeMap)
    requires Built(graph, gs) && mapping.option.Some? && mapping.option.value.name !in Names(gs)
    ensures Built(g, gs + [mapping])
  {
    var option := mapping.option.value;
    var start: NodeMap;
    if option.name in graph {
      start := graph[option.name := graph[option.name].(data := Some(mapping), option := Some(option))];
    } else {
      start := graph[option.name := Node(0, Some(mapping), 0, Some(option), [])];
    }
    g := CountProxies(start, option.proxies);
    DegreeExtends(gs, mapping, option.name);
    AppendDistinct(Names(gs), option.name);
    assert g.Keys == Deps(gs + [mapping]).Keys;
    forall x | x in g
      ensures NodeOf(g[x], gs + [mapping], x)
    {
      assert g[x] == Counted(start, option.proxies, x);
      AddedNode(graph, start, mapping, gs, x);
    }
  }

  lemma {:induction false} AddedNode(graph: NodeMap, start: NodeMap, mapping: Mapping, gs: seq<Mapping>, x: string)
    requires Built(graph, gs) && mapping.option.Some? && mapping.option.value.name !in Names(gs)
    requires x in start || x in mapping.option.value.proxies
    requires var option := mapping.option.value;
             start == graph[option.name := if option.name in graph
                                           then graph[option.name].(data := Some(mapping), option := Some(option))
                                           else Node(0, Some(mapping), 0, Some(option), [])]
    ensures NodeOf(Counted(start, mapping.option.value.proxies, x), gs + [mapping], x)
  {
    DegreeExtends(gs, mapping, x);
    if x in graph {
      assert NodeOf(graph[x], gs, x);
    } else {
      UnknownDegree(gs, x);
    }
  }

  /** One group, or the error it makes. */
  method AddMapping(graph: NodeMap, mapping: Mapping, ghost gs: seq<Mapping>) returns (g: NodeMap, fault: Option<Verdict>)
    requires Built(graph, gs) && Fault(gs).None?
    ensures fault == Fault(gs + [mapping])
    ensures fault.None? ==> Built(g, gs + [mapping])
  {
    assert (gs + [mapping])[..|gs|] == gs;
    g := graph;
    if mapping.option.None? {
      return graph, Some(Undecodable);
    }
    var name := mapping.option.value.name;
    NamedIs(gs, name);
    DepsAre(gs, name);
    if name in graph && graph[name].data.Some? {
      return graph, Some(DuplicateName(name));
    }
    g := AddGroup(graph, mapping, gs);
    fault := None;
  }

  /** Step 1.1; `fault` is the error that ends it early. */
  method BuildGraph(gs: seq<Mapping>) returns (graph: NodeMap, fault: Option<Verdict>)
    ensures fault == Fault(gs)
    ensures fault.None? ==> Built(graph, gs)
  {
    graph := map[];
    for i := 0 to |gs|
      invariant Fault(gs[..i]).None? && Built(graph, gs[..i])
    {
      graph, fault := AddNext(graph, gs, i);
      if fault.Some? {
        FaultLasts(gs, i + 1);
        return;
      }
    }
    assert gs[..|gs|] == gs;
    fault := None;
  }

  method AddNext(graph: NodeMap, gs: seq<Mapping>, i: nat) returns (g: NodeMap, fault: Option<Verdict>)
    requires i < |gs| && Built(graph, gs[..i]) && Fault(gs[..i]).None?
    ensures fault == Fault(gs[..i + 1])
    ensures fault.None? ==> Built(g, gs[..i + 1])
  {
    assert gs[..i + 1] == gs[..i] + [gs[i]];
    g, fault := AddMapping(graph, gs[i], gs[..i]);
  }

  lemma {:induction false} FaultLasts(gs: seq<Mapping>, i: nat)
    requires i <= |gs| && Fault(gs[..i]).Some?
    ensures Fault(gs) == Fault(gs[..i])
  {
    if i < |gs| {
      var prefix := gs[..|gs| - 1];
      assert prefix[..i] == gs[..i];
      FaultLasts(prefix, i);
    } else {
      assert gs[..i] == gs;
    }
  }

  // ------------------------------------------------------------ step 1.2: the topological sort

  method NodesWithoutLister(graph: NodeMap) returns (queue: seq<string>)
    ensures QueueOf(InDegrees(graph), queue)
  {
    queue := [];
    var todo := graph.Keys;
    while todo != {}
      invariant todo <= graph.Keys && Distinct(queue)
      invariant forall x :: x in queue <==> x in graph.Keys - todo && graph[x].indegree == 0
    {
      var name :| name in todo;
      if graph[name].indegree == 0 {
        AppendDistinct(queue, name);
        queue := queue + [name];
      }
      todo := todo - {name};
    }
  }

  /** g is graph up to the indegrees. */
  ghost predicate SameButIn(graph: NodeMap, g: NodeMap) {
    g.Keys <= graph.Keys && forall x :: x in g ==> g[x] == graph[x].(indegree := g[x].indegree)
  }

  method LowerChildren(graph: NodeMap, queue: seq<string>, proxies: seq<string>) returns (g: NodeMap, q: seq<string>)
    requires forall x :: x in proxies ==> x in graph
    ensures g.Keys == graph.Keys && SameButIn(graph, g)
    ensures (InDegrees(g), q) == Lower(InDegrees(graph), queue, proxies)
  {
    g, q := graph, queue;
    for i := 0 to |proxies|
      invariant g.Keys == graph.Keys && SameButIn(graph, g)
      invariant forall x :: x in proxies[i..] ==> x in g
      invariant Lower(InDegrees(g), q, proxies[i..]) == Lower(InDegrees(graph), queue, proxies)
    {
      assert proxies[i..][1..] == proxies[i + 1..];
      g, q := LowerChild(g, q, proxies[i]);
    }
  }

  method LowerChild(graph: NodeMap, queue: seq<string>, proxy: string) returns (g: NodeMap, q: seq<string>)
    requires proxy in graph
    ensures g.Keys == graph.Keys && SameButIn(graph, g)
    ensures InDegrees(g) == InDegrees(graph)[proxy := graph[proxy].indegree - 1]
    ensures q == if graph[proxy].indegree - 1 == 0 then queue + [proxy] else queue
  {
    var child := graph[proxy];
    child := child.(indegree := child.indegree - 1);
    g, q := graph[proxy := child], queue;
    if child.indegree == 0 {
      q := q + [proxy];
    }
  }

  ghost predicate Emitting(gs: seq<Mapping>, removed: seq<string>, groups: seq<Mapping>, index: nat) {
    index <= |groups| == |gs| && groups[|gs| - index..] == Emitted(gs, removed)
  }

  lemma {:induction false} EmitNext(gs: seq<Mapping>, removed: seq<string>, groups: seq<Mapping>, index: nat, name: string)
    requires Decoded(gs) && Distinct(Names(gs)) && Distinct(removed + [name]) && Emitting(gs, removed, groups, index)
    ensures Named(gs, name).Some? ==> index < |gs| && Emitting(gs, removed + [name], groups[|gs| - index - 1 := Named(gs, name).value], index + 1)
    ensures Named(gs, name).None? ==> Emitting(gs, removed + [name], groups, index)
  {
    assert (removed + [name])[..|removed|] == removed;
    EmittedFits(gs, removed + [name]);
  }

  lemma {:induction false} StartPeeling(graph: NodeMap, gs: seq<Mapping>, queue: seq<string>)
    requires Built(graph, gs) && QueueOf(InDegrees(graph), queue)
    ensures Peeled(Deps(gs), Names(gs), InDegrees(graph), queue, [])
  {
    forall m | m in Deps(gs) && Deps(gs)[m] != []
      ensures m in Names(gs)
    {
      DepsAre(gs, m);
      NamedIs(gs, m);
    }
    DepsAre(gs, "");
    forall x | x in InDegrees(graph)
      ensures InDegrees(graph)[x] == Degree(Deps(gs), Names(gs), InDegrees(graph).Keys, x) + Count([], x)
    {
      assert NodeOf(graph[x], gs, x);
      assert InDegrees(graph).Keys == Deps(gs).Keys;
    }
    assert InDegrees(graph).Keys == Deps(gs).Keys - ToSet([]);
  }

  /** Remove the front of the queue: emit its group and lower what it lists. */
  method SortStep(graph: NodeMap, queue: seq<string>, ghost gs: seq<Mapping>, ghost removed: seq<string>)
    returns (g: NodeMap, q: seq<string>)
    requires Decoded(gs) && Peeled(Deps(gs), Names(gs), InDegrees(graph), queue, removed) && queue != []
    requires queue[0] in graph && queue[0] in Deps(gs) && Listed(graph[queue[0]]) == Deps(gs)[queue[0]]
    ensures SameButIn(graph, g) && g.Keys == graph.Keys - {queue[0]} && |g| < |graph|
    ensures Peeled(Deps(gs), Names(gs), InDegrees(g), q, removed + [queue[0]])
  {
    var name := queue[0];
    Round(Deps(gs), Names(gs), InDegrees(graph), queue, removed);
    g, q := LowerChildren(graph, queue, Listed(graph[name]));
    assert InDegrees(g - {name}) == InDegrees(g) - {name};
    g := g - {name};
    q := q[1..];
    assert |g| == |g.Keys| && |graph| == |graph.Keys|;
  }

  lemma {:induction false} FrontNode(graph: NodeMap, gs: seq<Mapping>, g: NodeMap, queue: seq<string>, removed: seq<string>)
    requires Built(graph, gs) && SameButIn(graph, g) && queue != []
    requires Peeled(Deps(gs), Names(gs), InDegrees(g), queue, removed)
    ensures var name := queue[0];
            && name in g && name in Deps(gs) && Listed(g[name]) == Deps(gs)[name]
            && g[name].data == Named(gs, name) && (g[name].option.Some? <==> Named(gs, name).Some?)
            && Distinct(removed + [name])
  {
    var name := queue[0];
    assert name in InDegrees(g).Keys;
    assert NodeOf(graph[name], gs, name);
    DepsAre(gs, name);
    NamedIs(gs, name);
    AppendDistinct(removed, name);
  }

  /** Write the group of a removed node, if it has one, in front of those already written. */
  method Emit(groups: array<Mapping>, index: nat, node: Node, ghost gs: seq<Mapping>, ghost removed: seq<string>, ghost name: string)
    returns (index': nat)
    requires Decoded(gs) && Distinct(Names(gs)) && Distinct(removed + [name]) && Emitting(gs, removed, groups[..], index)
    requires node.data == Named(gs, name) && (node.option.Some? <==> node.data.Some?)
    modifies groups
    ensures Emitting(gs, removed + [name], groups[..], index')
  {
    EmitNext(gs, removed, groups[..], index, name);
    index' := index;
    if node.option.Some? {
      index' := index + 1;
      groups[groups.Length - index'] := node.data.value;
      assert groups[..] == old(groups[..])[|gs| - index - 1 := node.data.value];
    }
  }

  /** The state of the sort: what is left of the graph and the queue, the nodes removed, and the groups written. */
  ghost predicate Sorting(graph: NodeMap, gs: seq<Mapping>, left: NodeMap, queue: seq<string>, removed: seq<string>,
                          groups: seq<Mapping>, index: nat)
  {
    && Decoded(gs) && SameButIn(graph, left) && Peeled(Deps(gs), Names(gs), InDegrees(left), queue, removed)
    && Emitting(gs, removed, groups, index)
  }

  /** Step 1.2: what is left of the graph, and the list with the removed groups at its end. */
  method TopologicalSort(graph: NodeMap, groups: array<Mapping>) returns (left: NodeMap, ghost removed: seq<string>)
    requires Built(graph, groups[..])
    modifies groups
    ensures var gs := old(groups[..]);
            Decoded(gs) && Sorting(graph, gs, left, [], removed, groups[..], |Emitted(gs, removed)|)
  {
    ghost var gs := groups[..];
    var index := 0;
    var queue := NodesWithoutLister(graph);
    left, removed := graph, [];
    StartPeeling(graph, gs, queue);
    while |queue| > 0
      invariant Sorting(graph, gs, left, queue, removed, groups[..], index)
      decreases |left|
    {
      left, queue, index, removed := SortRound(graph, groups, left, queue, index, gs, removed);
    }
    assert queue == [];
  }

  /** One round of the loop: the node at the front of the queue. */
  method SortRound(ghost graph: NodeMap, groups: array<Mapping>, left: NodeMap, queue: seq<string>, index: nat,
                   ghost gs: seq<Mapping>, ghost removed: seq<string>)
    returns (left': NodeMap, queue': seq<string>, index': nat, ghost removed': seq<string>)
    requires Built(graph, gs) && queue != [] && Sorting(graph, gs, left, queue, removed, groups[..], index)
    modifies groups
    ensures Sorting(graph, gs, left', queue', removed', groups[..], index') && |left'| < |left|
  {
    var name := queue[0];
    FrontNode(graph, gs, left, queue, removed);
    index' := Emit(groups, index, left[name], gs, removed, name);
    left', queue' := SortStep(left, queue, gs, removed);
    removed' := removed + [name];
  }

  // ------------------------------------------------------------ step 2: the loops

  /** The lists of the left-over nodes stay among them. */
  ghost predicate SelfContained(graph: NodeMap) {
    forall n, x :: n in graph && x in Listed(graph[n]) ==> x in graph
  }

  /** g is graph with the links of the nodes in `done` filled in, both ways. */
  ghost predicate LinkedUp(graph: NodeMap, g: NodeMap, done: set<string>) {
    && g.Keys == graph.Keys
    && (forall x :: x in g ==> g[x].option == graph[x].option)
    && (forall x :: x in g ==> g[x].outdegree == if x in done then |Listed(graph[x])| else 0)
    && (forall x, f :: x in g ==> Count(g[x].from, f) == MentionsIf(graph, done, f, x))
  }

  ghost function MentionsIf(graph: NodeMap, done: set<string>, f: string, x: string): nat {
    if f in done && f in graph then Count(Listed(graph[f]), x) else 0
  }

  /** Link one node to the proxies it lists. */
  method LinkNode(graph: NodeMap, name: string, proxies: seq<string>) returns (g: NodeMap)
    requires name in graph && forall x :: x in proxies ==> x in graph
    ensures g.Keys == graph.Keys
    ensures forall x :: x in g ==> g[x].option == graph[x].option
    ensures forall x :: x in g ==> g[x].outdegree == graph[x].outdegree + if x == name then |proxies| else 0
    ensures forall x, f :: x in g ==> Count(g[x].from, f) == Count(graph[x].from, f) + if f == name then Count(proxies, x) else 0
  {
    g := graph;
    forall x
      ensures Count(proxies[..0], x) == 0
    {
      assert proxies[..0] == [];
    }
    for i := 0 to |proxies|
      invariant g.Keys == graph.Keys
      invariant forall x :: x in g ==> g[x].option == graph[x].option
      invariant forall x :: x in g ==> g[x].outdegree == graph[x].outdegree + if x == name then i else 0
      invariant forall x, f :: x in g ==> Count(g[x].from, f) == Count(graph[x].from, f) + if f == name then Count(proxies[..i], x) else 0
    {
      g := LinkOne(g, name, proxies[i]);
      forall x
        ensures Count(proxies[..i + 1], x) == Count(proxies[..i], x) + if x == proxies[i] then 1 else 0
      {
        CountLast(proxies[..i], proxies[i], x);
        assert proxies[..i + 1] == proxies[..i] + [proxies[i]];
      }
    }
    assert proxies[..|proxies|] == proxies;
  }

  method LinkOne(graph: NodeMap, name: string, proxy: string) returns (g: NodeMap)
    requires name in graph && proxy in graph
    ensures g.Keys == graph.Keys
    ensures forall x :: x in g ==> g[x].option == graph[x].option
    ensures forall x :: x in g ==> g[x].outdegree == graph[x].outdegree + if x == name then 1 else 0
    ensures forall x, f :: x in g ==> Count(g[x].from, f) == Count(graph[x].from, f) + if f == name && x == proxy then 1 else 0
  {
    g := graph[name := graph[name].(outdegree := graph[name].outdegree + 1)];
    var child := g[proxy];
    forall f
      ensures Count(child.from + [name], f) == Count(child.from, f) + if f == name then 1 else 0
    {
      CountLast(child.from, name, f);
    }
    g := g[proxy := child.(from := child.from + [name])];
  }

  /** Step 2.1. */
  method LinkAll(graph: NodeMap) returns (g: NodeMap)
    requires SelfContained(graph)
    requires forall x :: x in graph ==> graph[x].outdegree == 0 && graph[x].from == []
    ensures LinkedUp(graph, g, graph.Keys)
  {
    g := graph;
    var todo := graph.Keys;
    while todo != {}
      invariant todo <= graph.Keys && LinkedUp(graph, g, graph.Keys - todo)
    {
      var name :| name in todo;
      ghost var done := graph.Keys - todo;
      ghost var before := g;
      assert Listed(g[name]) == Listed(graph[name]);
      g := LinkNode(g, name, Listed(g[name]));
      LinkedMore(graph, before, g, done, name);
      todo := todo - {name};
      assert graph.Keys - todo == done + {name};
    }
    assert graph.Keys - todo == graph.Keys;
  }

  lemma {:induction false} LinkedMore(graph: NodeMap, g: NodeMap, g': NodeMap, done: set<string>, name: string)
    requires name in graph && name !in done && LinkedUp(graph, g, done) && g'.Keys == g.Keys
    requires forall x :: x in g' ==> g'[x].option == g[x].option
    requires forall x :: x in g' ==> g'[x].outdegree == g[x].outdegree + if x == name then |Listed(graph[name])| else 0
    requires forall x, f :: x in g' ==> Count(g'[x].from, f) == Count(g[x].from, f) + if f == name then Count(Listed(graph[name]), x) else 0
    ensures LinkedUp(graph, g', done + {name})
  {
  }

  // Once linked up, the `from` lists are the graph with its edges turned round, and the
  // outdegrees are its degrees.

  function SumCounts(all: seq<string>, s: seq<string>): nat {
    if all == [] then 0 else Count(s, all[0]) + SumCounts(all[1..], s)
  }

  lemma {:induction false} SumCountsOfNone(all: seq<string>)
    ensures SumCounts(all, []) == 0
  {
    if all != [] {
      SumCountsOfNone(all[1..]);
    }
  }

  lemma {:induction false} SumCountsCons(all: seq<string>, a: string, s: seq<string>)
    requires Distinct(all)
    ensures SumCounts(all, [a] + s) == SumCounts(all, s) + if a in all then 1 else 0
  {
    if all != [] {
      assert all == [all[0]] + all[1..];
      SuffixDistinct([all[0]], all[1..]);
      SumCountsCons(all[1..], a, s);
      assert ([a] + s)[1..] == s;
      assert a in all <==> a == all[0] || a in all[1..];
    }
  }

  lemma {:induction false} SumCountsIsLength(all: seq<string>, s: seq<string>)
    requires Distinct(all) && forall x :: x in s ==> x in all
    ensures SumCounts(all, s) == |s|
  {
    if s == [] {
      SumCountsOfNone(all);
    } else {
      assert s == [s[0]] + s[1..];
      SumCountsIsLength(all, s[1..]);
      SumCountsCons(all, s[0], s[1..]);
    }
  }

  lemma {:induction false} DegreeIsSum(adj: Graph, all: seq<string>, f: string, s: seq<string>)
    requires forall x :: x in all ==> x in adj && Count(adj[x], f) == Count(s, x)
    ensures Degree(adj, all, adj.Keys, f) == SumCounts(all, s)
  {
    if all != [] {
      DegreeIsSum(adj, all[1..], f, s);
    }
  }

  lemma {:induction false} Enumerate(s: set<string>) returns (all: seq<string>)
    ensures Distinct(all) && forall x :: x in all <==> x in s
  {
    all := [];
    if s != {} {
      var x :| x in s;
      var rest := Enumerate(s - {x});
      AppendDistinct(rest, x);
      all := rest + [x];
    }
  }

  /** The `from` lists are the edges turned round. */
  lemma {:induction false} FromIsReverse(graph: NodeMap, g: NodeMap, x: string, f: string)
    requires LinkedUp(graph, g, graph.Keys) && SelfContained(graph)
    ensures Edge(FromOf(g), x, f) <==> f in graph && x in Listed(graph[f])
  {
    if x in g {
      assert Count(g[x].from, f) == MentionsIf(graph, graph.Keys, f, x);
      CountZero(g[x].from, f);
      if f in graph {
        CountZero(Listed(graph[f]), x);
      }
    }
  }

  lemma {:induction false} StartBackwards(graph: NodeMap, g: NodeMap, queue: seq<string>) returns (all: seq<string>)
    requires LinkedUp(graph, g, graph.Keys) && SelfContained(graph) && QueueOf(OutDegrees(g), queue)
    ensures Peeled(FromOf(g), all, OutDegrees(g), queue, [])
  {
    var adj, deg := FromOf(g), OutDegrees(g);
    all := Enumerate(graph.Keys);
    forall m, f | m in adj && f in adj[m]
      ensures f in adj
    {
      FromIsReverse(graph, g, m, f);
    }
    assert deg.Keys == adj.Keys == graph.Keys;
    forall f | f in deg
      ensures deg[f] == Degree(adj, all, deg.Keys, f) + Count([], f)
    {
      var s := Listed(graph[f]);
      forall x | x in all
        ensures x in adj && Count(adj[x], f) == Count(s, x)
      {
        assert Count(g[x].from, f) == MentionsIf(graph, graph.Keys, f, x);
      }
      DegreeIsSum(adj, all, f, s);
      SumCountsIsLength(all, s);
    }
    assert deg.Keys == adj.Keys - ToSet([]);
  }

  method NodesWithoutList(graph: NodeMap) returns (queue: seq<string>)
    ensures QueueOf(OutDegrees(graph), queue)
  {
    queue := [];
    var todo := graph.Keys;
    while todo != {}
      invariant todo <= graph.Keys && Distinct(queue)
      invariant forall x :: x in queue <==> x in graph.Keys - todo && graph[x].outdegree == 0
    {
      var name :| name in todo;
      if graph[name].outdegree == 0 {
        AppendDistinct(queue, name);
        queue := queue + [name];
      }
      todo := todo - {name};
    }
  }

  ghost predicate SameButOut(graph: NodeMap, g: NodeMap) {
    g.Keys <= graph.Keys && forall x :: x in g ==> g[x] == graph[x].(outdegree := g[x].outdegree)
  }

  method LowerListers(graph: NodeMap, queue: seq<string>, from: seq<string>) returns (g: NodeMap, q: seq<string>)
    requires forall x :: x in from ==> x in graph
    ensures g.Keys == graph.Keys && SameButOut(graph, g)
    ensures (OutDegrees(g), q) == Lower(OutDegrees(graph), queue, from)
  {
    g, q := graph, queue;
    for i := 0 to |from|
      invariant g.Keys == graph.Keys && SameButOut(graph, g)
      invariant forall x :: x in from[i..] ==> x in g
      invariant Lower(OutDegrees(g), q, from[i..]) == Lower(OutDegrees(graph), queue, from)
    {
      assert from[i..][1..] == from[i + 1..];
      g, q := LowerLister(g, q, from[i]);
    }
  }

  method LowerLister(graph: NodeMap, queue: seq<string>, f: string) returns (g: NodeMap, q: seq<string>)
    requires f in graph
    ensures g.Keys == graph.Keys && SameButOut(graph, g)
    ensures OutDegrees(g) == OutDegrees(graph)[f := graph[f].outdegree - 1]
    ensures q == if graph[f].outdegree - 1 == 0 then queue + [f] else queue
  {
    var node := graph[f];
    node := node.(outdegree := node.outdegree - 1);
    g, q := graph[f := node], queue;
    if node.outdegree == 0 {
      q := q + [f];
    }
  }

  method BackwardStep(graph: NodeMap, queue: seq<string>, ghost adj: Graph, ghost all: seq<string>, ghost removed: seq<string>)
    returns (g: NodeMap, q: seq<string>)
    requires Peeled(adj, all, OutDegrees(graph), queue, removed) && queue != []
    requires forall x :: x in graph ==> x in adj && graph[x].from == adj[x]
    ensures SameButOut(graph, g) && |g| < |graph|
    ensures Peeled(adj, all, OutDegrees(g), q, removed + [queue[0]])
  {
    var name := queue[0];
    assert name in OutDegrees(graph).Keys;
    Round(adj, all, OutDegrees(graph), queue, removed);
    g, q := LowerListers(graph, queue, graph[name].from);
    assert OutDegrees(g - {name}) == OutDegrees(g) - {name};
    assert (g - {name}).Keys == graph.Keys - {name};
    g := g - {name};
    q := q[1..];
  }

  /** Step 2.2: remove the nodes outside the loops. */
  method PeelBackwards(graph: NodeMap, ghost left: NodeMap) returns (g: NodeMap)
    requires LinkedUp(left, graph, left.Keys) && SelfContained(left)
    ensures forall n :: n in g <==> n in graph && FromCycle(FromOf(graph), n)
  {
    var queue := NodesWithoutList(graph);
    ghost var all := StartBackwards(left, graph, queue);
    ghost var adj, removed := FromOf(graph), [];
    g := graph;
    while |queue| > 0
      invariant SameButOut(graph, g) && Peeled(adj, all, OutDegrees(g), queue, removed)
      decreases |g|
    {
      ghost var name := queue[0];
      g, queue := BackwardStep(g, queue, adj, all, removed);
      removed := removed + [name];
    }
    assert queue == [];
    PeeledOut(adj, all, OutDegrees(g), removed);
  }

  // ------------------------------------------------------------ turning walks round

  /** Where rev has the edges of adj turned round, a walk of adj is a walk of rev backwards. */
  lemma {:induction false} ReverseWalk(adj: Graph, rev: Graph, a: string, b: string, p: seq<string>)
    requires WalkBetween(adj, a, b, p)
    requires forall i :: 0 <= i < |p| - 1 ==> Edge(rev, p[i + 1], p[i])
    ensures WalkBetween(rev, b, a, Reversed(p))
  {
    var r := Reversed(p);
    forall i | 0 <= i < |r| - 1
      ensures Edge(rev, r[i], r[i + 1])
    {
      var k := |p| - 2 - i;
      assert Edge(rev, p[k + 1], p[k]);
    }
  }

  lemma {:induction false} StaysInside(adj: Graph, inside: set<string>, p: seq<string>, i: nat)
    requires Walk(adj, p) && p[0] in inside && i < |p|
    requires forall n, x :: n in inside && Edge(adj, n, x) ==> x in inside
    ensures p[i] in inside
  {
    if i > 0 {
      StaysInside(adj, inside, p, i - 1);
      assert Edge(adj, p[i - 1], p[i - 1 + 1]);
    }
  }

  /** Among the left-over nodes, being reached by a cycle of `from` is reaching a cycle of the groups. */
  lemma {:induction false} TurnRound(adj: Graph, left: NodeMap, g: NodeMap, n: string)
    requires LinkedUp(left, g, left.Keys) && SelfContained(left) && n in left
    requires forall x :: x in left ==> x in adj && Listed(left[x]) == adj[x]
    ensures FromCycle(FromOf(g), n) <==> ToCycle(adj, n)
  {
    var rev := FromOf(g);
    if FromCycle(rev, n) {
      var c :| OnCycle(rev, c) && Reaches(rev, c, n);
      var p :| |p| > 1 && WalkBetween(rev, c, c, p);
      var q :| WalkBetween(rev, c, n, q);
      BackToGroups(adj, left, g, c, c, p);
      BackToGroups(adj, left, g, c, n, q);
      assert |Reversed(p)| > 1;
      assert OnCycle(adj, c) && Reaches(adj, n, c);
    }
    if ToCycle(adj, n) {
      var c :| OnCycle(adj, c) && Reaches(adj, n, c);
      var p :| |p| > 1 && WalkBetween(adj, c, c, p);
      var q :| WalkBetween(adj, n, c, q);
      StaysInside(adj, left.Keys, q, |q| - 1);
      AwayFromGroups(adj, left, g, n, c, q);
      AwayFromGroups(adj, left, g, c, c, p);
      assert |Reversed(p)| > 1;
      assert OnCycle(rev, c) && Reaches(rev, c, n);
    }
  }

  lemma {:induction false} BackToGroups(adj: Graph, left: NodeMap, g: NodeMap, a: string, b: string, p: seq<string>)
    requires LinkedUp(left, g, left.Keys) && SelfContained(left)
    requires forall x :: x in left ==> x in adj && Listed(left[x]) == adj[x]
    requires WalkBetween(FromOf(g), a, b, p)
    ensures WalkBetween(adj, b, a, Reversed(p))
  {
    forall i | 0 <= i < |p| - 1
      ensures Edge(adj, p[i + 1], p[i])
    {
      FromIsReverse(left, g, p[i], p[i + 1]);
    }
    ReverseWalk(FromOf(g), adj, a, b, p);
  }

  lemma {:induction false} AwayFromGroups(adj: Graph, left: NodeMap, g: NodeMap, a: string, b: string, p: seq<string>)
    requires LinkedUp(left, g, left.Keys) && SelfContained(left)
    requires forall x :: x in left ==> x in adj && Listed(left[x]) == adj[x]
    requires WalkBetween(adj, a, b, p) && a in left
    ensures WalkBetween(FromOf(g), b, a, Reversed(p))
  {
    forall i | 0 <= i < |p| - 1
      ensures Edge(FromOf(g), p[i + 1], p[i])
    {
      StaysInside(adj, left.Keys, p, i);
      assert Edge(adj, p[i], p[i + 1]);
      FromIsReverse(left, g, p[i + 1], p[i]);
    }
    ReverseWalk(adj, FromOf(g), a, b, p);
  }

  // ------------------------------------------------------------ the whole

  /** What the sort leaves of the graph adj. */
  ghost predicate LeftOf(adj: Graph, left: NodeMap) {
    && SelfContained(left)
    && (forall x :: x in left ==> x in adj && Listed(left[x]) == adj[x] && left[x].outdegree == 0 && left[x].from == [])
    && forall n :: n in left <==> n in adj && FromCycle(adj, n)
  }

  lemma {:induction false} LeftOver(graph: NodeMap, gs: seq<Mapping>, left: NodeMap, removed: seq<string>)
    requires Built(graph, gs) && SameButIn(graph, left) && Peeled(Deps(gs), Names(gs), InDegrees(left), [], removed)
    ensures LeftOf(Deps(gs), left)
  {
    var adj := Deps(gs);
    forall x | x in left
      ensures x in adj && Listed(left[x]) == adj[x] && left[x].outdegree == 0 && left[x].from == []
    {
      assert NodeOf(graph[x], gs, x);
      DepsAre(gs, x);
    }
    forall n, x | n in left && x in Listed(left[n])
      ensures x in left
    {
      ListsLive(adj, Names(gs), InDegrees(left), [], removed, n, x);
      assert x in InDegrees(left);
    }
    PeeledOut(adj, Names(gs), InDegrees(left), removed);
    assert InDegrees(left).Keys == left.Keys;
  }

  lemma {:induction false} CycleNode(adj: Graph, c: string)
    requires OnCycle(adj, c)
    ensures c in adj && FromCycle(adj, c) && ToCycle(adj, c)
  {
    var p :| |p| > 1 && WalkBetween(adj, c, c, p);
    assert Edge(adj, p[0], p[0 + 1]);
    assert WalkBetween(adj, c, c, [c]);
    assert Reaches(adj, c, c);
  }

  lemma {:induction false} LeftOverIffCyclic(adj: Graph, left: NodeMap)
    requires LeftOf(adj, left)
    ensures left == map[] <==> !Cyclic(adj)
  {
    if c :| OnCycle(adj, c) {
      CycleNode(adj, c);
    }
    if left != map[] {
      var n :| n in left;
    }
  }

  lemma {:induction false} SortedOut(gs: seq<Mapping>, left: NodeMap, removed: seq<string>, groups: seq<Mapping>)
    requires Decoded(gs) && Distinct(Names(gs)) && left == map[]
    requires Peeled(Deps(gs), Names(gs), InDegrees(left), [], removed)
    requires |groups| == |gs| && |Emitted(gs, removed)| <= |gs| && groups[|gs| - |Emitted(gs, removed)|..] == Emitted(gs, removed)
    ensures SortedVersion(gs, groups)
  {
    forall x | x in Deps(gs)
      ensures x in removed
    {
      assert x !in InDegrees(left).Keys;
    }
    AllEmitted(gs, removed);
    var s := Emitted(gs, removed);
    assert |multiset(s)| == |s| && |multiset(gs)| == |gs|;
    assert groups[0..] == groups;
  }

  /** Step 2.3: the names that are left, in any order. */
  method CollectNames(graph: NodeMap) returns (names: seq<string>)
    ensures Distinct(names) && forall n :: n in names <==> n in graph
  {
    names := [];
    var todo := graph.Keys;
    while todo != {}
      invariant todo <= graph.Keys && Distinct(names)
      invariant forall x :: x in names <==> x in graph.Keys - todo
    {
      var name :| name in todo;
      AppendDistinct(names, name);
      names := names + [name];
      todo := todo - {name};
    }
  }

  /** Step 2: the nodes between two cycles, or on one. */
  method LocateLoops(left: NodeMap, ghost adj: Graph) returns (names: seq<string>)
    requires LeftOf(adj, left) && Cyclic(adj)
    ensures Distinct(names) && exists n :: n in names
    ensures forall n :: n in names <==> n in adj && FromCycle(adj, n) && ToCycle(adj, n)
  {
    var linked := LinkAll(left);
    var loops := PeelBackwards(linked, left);
    names := CollectNames(loops);
    forall n | n in left
      ensures FromCycle(FromOf(linked), n) <==> ToCycle(adj, n)
    {
      TurnRound(adj, left, linked, n);
    }
    ghost var c :| OnCycle(adj, c);
    CycleNode(adj, c);
    assert c in names;
  }

  /** The verdict on groups that can be decoded and have distinct names, and what has become of them. */
  ghost predicate Ordered(gs: seq<Mapping>, groups: seq<Mapping>, r: Verdict)
    requires Decoded(gs)
  {
    var adj := Deps(gs);
    && (r.Sorted? || r.LoopDetected?)
    && (r.Sorted? <==> !Cyclic(adj))
    && (r.Sorted? ==> SortedVersion(gs, groups))
    && (r.LoopDetected? ==>
          && Distinct(r.names) && (exists n :: n in r.names)
          && forall n :: n in r.names <==> n in adj && FromCycle(adj, n) && ToCycle(adj, n))
  }

  /** Sort the groups in place by dependency, or say why that cannot be done. */
  method ProxyGroupsDagSort(groups: array<Mapping>) returns (r: Verdict)
    modifies groups
    ensures Fault(old(groups[..])).Some? ==> r == Fault(old(groups[..])).value && groups[..] == old(groups[..])
    ensures Fault(old(groups[..])).None? ==> Ordered(old(groups[..]), groups[..], r)
  {
    var graph, fault := BuildGraph(groups[..]);
    if fault.Some? {
      return fault.value;
    }
    r := OrderGraph(graph, groups);
  }

  /** Steps 1.2 and 2. */
  method OrderGraph(graph: NodeMap, groups: array<Mapping>) returns (r: Verdict)
    requires Built(graph, groups[..])
    modifies groups
    ensures Ordered(old(groups[..]), groups[..], r)
  {
    ghost var gs := groups[..];
    ghost var adj := Deps(gs);
    var left, removed := TopologicalSort(graph, groups);
    LeftOver(graph, gs, left, removed);
    LeftOverIffCyclic(adj, left);
    if |left| == 0 {
      SortedOut(gs, left, removed, groups[..]);
      return Sorted;
    }
    var names := LocateLoops(left, adj);
    return LoopDetected(names);
  }

  /** Every node of every cycle is reported. */
  lemma {:induction false} ReportsEveryCycle(gs: seq<Mapping>, names: seq<string>, p: seq<string>, c: string, i: nat)
    requires Fault(gs).None?
    requires forall n :: n in names <==> n in Deps(gs) && FromCycle(Deps(gs), n) && ToCycle(Deps(gs), n)
    requires |p| > 1 && WalkBetween(Deps(gs), c, c, p) && i < |p|
    ensures p[i] in names
  {
    var adj := Deps(gs);
    SubWalk(adj, p, 0, i);
    SubWalk(adj, p, i, |p| - 1);
    assert OnCycle(adj, c) && Reaches(adj, c, p[i]) && Reaches(adj, p[i], c);
    DepsAre(gs, c);
    if i > 0 {
      assert Edge(adj, p[i - 1], p[i - 1 + 1]);
    } else {
      CycleNode(adj, c);
    }
  }

  // ------------------------------------------------------------ what sorting is for

  datatype Parse = Parsed(proxies: set<string>) | NotFound(name: string) | NameTaken(name: string) | Rejected(group: Mapping)

  /** Whether a group fails on its own account, before its members are looked up or after. */
  datatype Check = Fine | Early | Late

  ghost predicate FirstNotIn(proxies: seq<string>, known: set<string>, x: string) {
    exists i :: 0 <= i < |proxies| && proxies[i] == x && x !in known && forall j :: 0 <= j < i ==> proxies[j] in known
  }

  /** The members of one group, looked up among the proxies known so far. */
  method FindMembers(known: set<string>, proxies: seq<string>) returns (missing: Option<string>)
    ensures missing.None? <==> forall x :: x in proxies ==> x in known
    ensures missing.Some? ==> FirstNotIn(proxies, known, missing.value)
  {
    for i := 0 to |proxies|
      invariant forall j :: 0 <= j < i ==> proxies[j] in known
    {
      if proxies[i] !in known {
        return Some(proxies[i]);
      }
    }
    missing := None;
  }

  /** The group has a name of its own and lists nothing but proxies and groups. */
  ghost predicate Fits(base: set<string>, names: set<string>, g: Mapping) {
    && g.option.Some? && g.option.value.name !in base
    && forall x :: x in g.option.value.proxies ==> x in base || x in names
  }

  ghost predicate ListedIn(gs: seq<Mapping>, x: string) {
    exists g :: g in gs && g.option.Some? && x in g.option.value.proxies
  }

  /** What parsing makes of the groups: apart from those that fail on their own account a group fails only for a
      member that neither the plain proxies nor any group, wherever it stands in the list, has the name of, or for a
      name already taken. It succeeds exactly if every group fits. */
  ghost predicate Outcome(base: set<string>, gs: seq<Mapping>, check: Mapping -> Check, r: Parse)
    requires Decoded(gs)
  {
    && (r.NotFound? ==> r.name !in base && r.name !in Names(gs) && ListedIn(gs, r.name))
    && (r.NameTaken? ==> r.name in base && r.name in Names(gs))
    && (r.Rejected? ==> r.group in gs && check(r.group) != Fine)
    && (r.Parsed? ==> r.proxies == base + ToSet(Names(gs)))
    && (r.Parsed? <==> forall g :: g in gs ==> Fits(base, ToSet(Names(gs)), g) && check(g) == Fine)
  }

  /** Parsing ends at the group at i: all before it fit, and it fails early, for its first unknown member, late, or for
      its name, whichever comes first. */
  ghost predicate FailsAt(base: set<string>, s: seq<Mapping>, check: Mapping -> Check, i: nat, r: Parse)
    requires Decoded(s)
  {
    && i < |s| && (forall k :: 0 <= k < i ==> Fits(base, ToSet(Names(s)), s[k]) && check(s[k]) == Fine)
    && var (o, known) := (s[i].option.value, base + ToSet(Names(s)));
       match r
       case Parsed(_) => false
       case NotFound(x) => check(s[i]) != Early && FirstNotIn(o.proxies, known, x)
       case NameTaken(x) => check(s[i]) == Fine && x == o.name && x in base && forall y :: y in o.proxies ==> y in known
       case Rejected(g) => g == s[i] && (check(g) == Early || (check(g) == Late && forall y :: y in o.proxies ==> y in known))
  }

  /** The loop over the sorted groups. `check` says which groups fail on their own account: early without a type or
      anything to choose from, late because of their type, providers or health checks. */
  method ParseGroups(base: set<string>, s: seq<Mapping>, check: Mapping -> Check) returns (r: Parse)
    requires Decoded(s) && Distinct(Names(s)) && MembersFirst(s)
    ensures Outcome(base, s, check, r)
    ensures !r.Parsed? ==> exists i: nat :: FailsAt(base, s, check, i, r)
  {
    var known := base;
    ghost var names := ToSet(Names(s));
    for i := 0 to |s|
      invariant known == base + ToSet(Names(s[..i]))
      invariant forall k :: 0 <= k < i ==> Fits(base, names, s[k]) && check(s[k]) == Fine
    {
      PrefixNames(s, i);
      var failure := ParseGroup(base, known, s, i, check);
      if failure.Some? {
        assert FailsAt(base, s, check, i, failure.value);
        return failure.value;
      }
      known := known + {s[i].option.value.name};
    }
    assert s[..|s|] == s;
    r := Parsed(known);
    AllParsed(base, s, check);
  }

  lemma {:induction false} AllParsed(base: set<string>, s: seq<Mapping>, check: Mapping -> Check)
    requires Decoded(s) && forall k :: 0 <= k < |s| ==> Fits(base, ToSet(Names(s)), s[k]) && check(s[k]) == Fine
    ensures Outcome(base, s, check, Parsed(base + ToSet(Names(s))))
  {
  }

  /** The group at i, with those before it known. */
  method ParseGroup(ghost base: set<string>, known: set<string>, s: seq<Mapping>, i: nat, check: Mapping -> Check)
    returns (failure: Option<Parse>)
    requires Decoded(s) && Distinct(Names(s)) && MembersFirst(s) && i < |s| && Decoded(s[..i]) && Decoded(s[..i + 1])
    requires known == base + ToSet(Names(s[..i])) && s[i].option.value.name !in Names(s[..i])
    requires (forall x :: x in Names(s[..i]) ==> x in Names(s)) && s[i].option.value.name in Names(s)
    requires forall k :: 0 <= k < i ==> Fits(base, ToSet(Names(s)), s[k]) && check(s[k]) == Fine
    ensures failure.Some? ==> FailsAt(base, s, check, i, failure.value) && Outcome(base, s, check, failure.value)
    ensures failure.None? ==> Fits(base, ToSet(Names(s)), s[i]) && check(s[i]) == Fine
  {
    var option := s[i].option.value;
    assert s[i] in s;
    if check(s[i]) == Early {
      return Some(Rejected(s[i]));
    }
    var missing := FindMembers(known, option.proxies);
    if missing.Some? {
      assert !Fits(base, ToSet(Names(s)), s[i]) && ListedIn(s, missing.value);
      return Some(NotFound(missing.value));
    }
    if check(s[i]) == Late {
      return Some(Rejected(s[i]));
    }
    if option.name in known {
      return Some(NameTaken(option.name));
    }
    failure := None;
  }

  datatype Loading = Unsorted(verdict: Verdict) | Loaded(parse: Parse)

  lemma {:induction false} OutcomePermutes(base: set<string>, gs: seq<Mapping>, s: seq<Mapping>, check: Mapping -> Check, r: Parse)
    requires Decoded(gs) && Decoded(s) && multiset(s) == multiset(gs) && ToSet(Names(s)) == ToSet(Names(gs))
    requires Outcome(base, s, check, r)
    ensures Outcome(base, gs, check, r)
  {
    SameMembers(gs, s);
    forall x
      ensures x in Names(s) <==> x in Names(gs)
    {
      assert x in ToSet(Names(s)) <==> x in ToSet(Names(gs));
    }
  }

  /** The groups of a configuration, whatever their order there: sorted if they can be, and then parsed. */
  method LoadGroups(base: set<string>, groups: array<Mapping>, check: Mapping -> Check) returns (r: Loading)
    modifies groups
    ensures Fault(old(groups[..])).Some? ==> r == Unsorted(Fault(old(groups[..])).value)
    ensures Fault(old(groups[..])).None? ==>
              && (r.Unsorted? <==> Cyclic(Deps(old(groups[..]))))
              && (r.Unsorted? ==> r.verdict.LoopDetected?)
              && (r.Loaded? ==> Outcome(base, old(groups[..]), check, r.parse))
  {
    ghost var gs := groups[..];
    var verdict := ProxyGroupsDagSort(groups);
    if verdict != Sorted {
      return Unsorted(verdict);
    }
    NamesPermute(gs, groups[..]);
    var parse := ParseGroups(base, groups[..], check);
    OutcomePermutes(base, gs, groups[..], check, parse);
    return Loaded(parse);
  }

  lemma {:induction false} PrefixNames(s: seq<Mapping>, i: nat)
    requires Decoded(s) && Distinct(Names(s)) && i < |s|
    ensures Decoded(s[..i]) && Decoded(s[..i + 1]) && Names(s[..i + 1]) == Names(s[..i]) + [s[i].option.value.name]
    ensures forall x :: x in Names(s[..i + 1]) ==> x in Names(s)
    ensures s[i].option.value.name !in Names(s[..i])
    decreases |s|
  {
    assert s[..i + 1][..i] == s[..i];
    if i + 1 == |s| {
      assert s[..i + 1] == s;
      DistinctPrefix(Names(s[..i]), s[i].option.value.name);
    } else {
      var t := s[..|s| - 1];
      DistinctPrefix(Names(t), s[|s| - 1].option.value.name);
      PrefixNames(t, i);
      assert t[..i] == s[..i] && t[..i + 1] == s[..i + 1];
    }
  }
}
