/** Peeling a directed graph with multiplicities, one node of degree zero at a time: the
    step that config/utils.go repeats twice, forwards to sort and backwards to locate a loop.

    `adj` maps every node to the nodes it lists.  The degree of a node counts its
    occurrences in the lists of the nodes that are still there. */
module Peeling {
  import opened Collections

  type Graph = map<string, seq<string>>

  ghost predicate Closed(adj: Graph) {
    forall m, x :: m in adj && x in adj[m] ==> x in adj
  }

  predicate Edge(adj: Graph, m: string, x: string) {
    m in adj && x in adj[m]
  }

  // ------------------------------------------------------------ walks and cycles

  ghost predicate Walk(adj: Graph, p: seq<string>) {
    |p| > 0 && forall i :: 0 <= i < |p| - 1 ==> Edge(adj, p[i], p[i + 1])
  }

  ghost predicate WalkBetween(adj: Graph, a: string, b: string, p: seq<string>) {
    Walk(adj, p) && p[0] == a && p[|p| - 1] == b
  }

  ghost predicate Reaches(adj: Graph, a: string, b: string) {
    exists p :: WalkBetween(adj, a, b, p)
  }

  ghost predicate OnCycle(adj: Graph, c: string) {
    exists p :: |p| > 1 && WalkBetween(adj, c, c, p)
  }

  ghost predicate Cyclic(adj: Graph) {
    exists c :: OnCycle(adj, c)
  }

  /** Some cycle reaches n. */
  ghost predicate FromCycle(adj: Graph, n: string) {
    exists c :: OnCycle(adj, c) && Reaches(adj, c, n)
  }

  /** n reaches some cycle. */
  ghost predicate ToCycle(adj: Graph, n: string) {
    exists c :: OnCycle(adj, c) && Reaches(adj, n, c)
  }

  /** Whoever lists a removed node was removed before it. */
  ghost predicate RemovedInOrder(adj: Graph, removed: seq<string>) {
    && Distinct(removed)
    && forall m, k :: 0 <= k < |removed| && Edge(adj, m, removed[k]) ==> m in removed[..k]
  }

  /** Walking back from a removed node leads to nodes removed ever earlier. */
  lemma {:induction false} WalkBack(adj: Graph, removed: seq<string>, p: seq<string>, k: nat) returns (k': nat)
    requires RemovedInOrder(adj, removed) && Walk(adj, p)
    requires k < |removed| && p[|p| - 1] == removed[k]
    ensures k' < |removed| && p[0] == removed[k'] && k' + |p| - 1 <= k
    decreases |p|
  {
    if |p| == 1 {
      k' := k;
    } else {
      var q := p[..|p| - 1];
      assert Edge(adj, p[|p| - 2], removed[k]) by { assert Edge(adj, p[|p| - 2], p[|p| - 2 + 1]); }
      var j :| 0 <= j < k && removed[j] == p[|p| - 2];
      SubWalk(adj, p, 0, |p| - 2);
      k' := WalkBack(adj, removed, q, j);
    }
  }

  lemma {:induction false} CycleStays(adj: Graph, removed: seq<string>, n: string)
    requires RemovedInOrder(adj, removed) && FromCycle(adj, n)
    ensures n !in removed
  {
    var c :| OnCycle(adj, c) && Reaches(adj, c, n);
    if n in removed {
      var k :| 0 <= k < |removed| && removed[k] == n;
      var p :| WalkBetween(adj, c, n, p);
      var j := WalkBack(adj, removed, p, k);
      var q :| |q| > 1 && WalkBetween(adj, c, c, q);
      var i := WalkBack(adj, removed, q, j);
      assert false;
    }
  }

  ghost predicate ListedIn(adj: Graph, s: set<string>, x: string) {
    exists m :: m in s && Edge(adj, m, x)
  }

  /** Every node of s is listed by a node of s. */
  ghost predicate AllListed(adj: Graph, s: set<string>) {
    forall x {:trigger ListedIn(adj, s, x)} :: x in s ==> ListedIn(adj, s, x)
  }

  lemma {:induction false} BackWalk(adj: Graph, s: set<string>, n: string, k: nat) returns (p: seq<string>)
    requires n in s && AllListed(adj, s)
    ensures |p| == k + 1 && WalkBetween(adj, p[0], n, p) && forall i :: 0 <= i < |p| ==> p[i] in s
  {
    if k == 0 {
      p := [n];
    } else {
      var q := BackWalk(adj, s, n, k - 1);
      assert ListedIn(adj, s, q[0]);
      var m :| m in s && Edge(adj, m, q[0]);
      p := [m] + q;
    }
  }

  lemma {:induction false} Pigeonhole(p: seq<string>, s: set<string>)
    requires |p| > |s| && forall i :: 0 <= i < |p| ==> p[i] in s
    ensures !Distinct(p)
  {
    if Distinct(p) {
      DistinctSize(p);
      SubsetSize(ToSet(p), s);
    }
  }

  lemma {:induction false} SubWalk(adj: Graph, p: seq<string>, i: nat, j: nat)
    requires Walk(adj, p) && i <= j < |p|
    ensures WalkBetween(adj, p[i], p[j], p[i..j + 1])
  {
    var q := p[i..j + 1];
    forall k | 0 <= k < |q| - 1
      ensures Edge(adj, q[k], q[k + 1])
    {
      assert Edge(adj, p[i + k], p[i + k + 1]);
    }
  }

  /** In a finite set where every node has a predecessor, every node is reached by a cycle. */
  lemma {:induction false} StuckIsFromCycle(adj: Graph, s: set<string>, n: string)
    requires n in s && AllListed(adj, s)
    ensures FromCycle(adj, n)
  {
    var p := BackWalk(adj, s, n, |s|);
    Pigeonhole(p, s);
    var i, j :| 0 <= i < j < |p| && p[i] == p[j];
    SubWalk(adj, p, i, j);
    assert OnCycle(adj, p[i]);
    SubWalk(adj, p, i, |p| - 1);
    assert Reaches(adj, p[i], n);
  }

  // ------------------------------------------------------------ degrees

  function Count(s: seq<string>, x: string): nat {
    if s == [] then 0 else (if s[0] == x then 1 else 0) + Count(s[1..], x)
  }

  /** The occurrences of x in the lists of the nodes of `all` that are alive. */
  function Degree(adj: Graph, all: seq<string>, alive: set<string>, x: string): nat {
    if all == [] then 0
    else
      (if all[0] in alive && all[0] in adj then Count(adj[all[0]], x) else 0) + Degree(adj, all[1..], alive, x)
  }

  lemma {:induction false} CountZero(s: seq<string>, x: string)
    ensures Count(s, x) == 0 <==> x !in s
  {
    if s != [] {
      CountZero(s[1..], x);
    }
  }

  lemma {:induction false} DegreeZero(adj: Graph, all: seq<string>, alive: set<string>, x: string)
    ensures Degree(adj, all, alive, x) == 0 <==> forall m :: m in all && m in alive ==> !Edge(adj, m, x)
  {
    if all != [] {
      DegreeZero(adj, all[1..], alive, x);
      if all[0] in adj {
        CountZero(adj[all[0]], x);
      }
      assert forall m :: m in all <==> m == all[0] || m in all[1..];
    }
  }

  lemma {:induction false} DegreeSame(adj: Graph, all: seq<string>, alive: set<string>, name: string, x: string)
    requires name !in all
    ensures Degree(adj, all, alive - {name}, x) == Degree(adj, all, alive, x)
  {
    if all != [] {
      DegreeSame(adj, all[1..], alive, name, x);
    }
  }

  lemma {:induction false} DegreeDrops(adj: Graph, all: seq<string>, alive: set<string>, name: string, x: string)
    requires Distinct(all) && name in all && name in alive && name in adj
    ensures Degree(adj, all, alive, x) == Degree(adj, all, alive - {name}, x) + Count(adj[name], x)
  {
    assert Distinct(all[1..]);
    if all[0] == name {
      assert name !in all[1..];
      DegreeSame(adj, all[1..], alive, name, x);
    } else {
      DegreeDrops(adj, all[1..], alive, name, x);
    }
  }

  // ------------------------------------------------------------ one round of peeling

  type Degrees = map<string, int>

  /** Lower the degree of each node of `ns` by one; nodes that come to zero join the queue. */
  function Lower(deg: Degrees, queue: seq<string>, ns: seq<string>): (r: (Degrees, seq<string>))
    requires forall x :: x in ns ==> x in deg
    ensures r.0.Keys == deg.Keys
    decreases |ns|
  {
    if ns == [] then (deg, queue)
    else
      var d := deg[ns[0]] - 1;
      var deg' := deg[ns[0] := d];
      assert forall x :: x in ns[1..] ==> x in ns;
      Lower(deg', if d == 0 then queue + [ns[0]] else queue, ns[1..])
  }

  /** The queue holds the nodes of degree zero, once each. */
  ghost predicate QueueOf(deg: Degrees, queue: seq<string>) {
    && Distinct(queue)
    && (forall x :: x in queue ==> x in deg && deg[x] == 0)
    && (forall x :: x in deg && deg[x] == 0 ==> x in queue)
  }

  /** The degrees as they will be when `name` is gone, plus what is still to be lowered for `rest`. */
  ghost predicate Lowering(adj: Graph, all: seq<string>, alive: set<string>, deg: Degrees, rest: seq<string>) {
    forall x :: x in deg ==> deg[x] == Degree(adj, all, alive, x) + Count(rest, x)
  }

  lemma {:induction false} LowerSettles(adj: Graph, all: seq<string>, alive: set<string>,
                                        deg: Degrees, queue: seq<string>, rest: seq<string>)
    returns (deg': Degrees, queue': seq<string>)
    requires forall x :: x in rest ==> x in deg
    requires Lowering(adj, all, alive, deg, rest) && QueueOf(deg, queue)
    ensures (deg', queue') == Lower(deg, queue, rest)
    ensures Lowering(adj, all, alive, deg', []) && QueueOf(deg', queue')
    decreases |rest|
  {
    deg', queue' := deg, queue;
    if rest != [] {
      var deg1, queue1 := LowerOne(adj, all, alive, deg, queue, rest);
      deg', queue' := LowerSettles(adj, all, alive, deg1, queue1, rest[1..]);
    }
  }

  lemma {:induction false} LowerAppends(deg: Degrees, queue: seq<string>, rest: seq<string>)
    requires forall x :: x in rest ==> x in deg
    ensures queue <= Lower(deg, queue, rest).1
    decreases |rest|
  {
    if rest != [] {
      var d := deg[rest[0]] - 1;
      assert forall x :: x in rest[1..] ==> x in rest;
      LowerAppends(deg[rest[0] := d], if d == 0 then queue + [rest[0]] else queue, rest[1..]);
    }
  }

  lemma {:induction false} LowerOne(adj: Graph, all: seq<string>, alive: set<string>,
                                    deg: Degrees, queue: seq<string>, rest: seq<string>)
    returns (deg': Degrees, queue': seq<string>)
    requires rest != [] && forall x :: x in rest ==> x in deg
    requires Lowering(adj, all, alive, deg, rest) && QueueOf(deg, queue)
    ensures forall x :: x in rest[1..] ==> x in deg'
    ensures Lower(deg, queue, rest) == Lower(deg', queue', rest[1..])
    ensures Lowering(adj, all, alive, deg', rest[1..]) && QueueOf(deg', queue')
  {
    var n, d := rest[0], deg[rest[0]] - 1;
    deg', queue' := deg[n := d], if d == 0 then queue + [n] else queue;
    LowerFirst(adj, all, alive, deg, queue, rest);
    assert forall x :: x in rest[1..] ==> x in rest;
  }

  lemma {:induction false} LowerFirst(adj: Graph, all: seq<string>, alive: set<string>,
                                      deg: Degrees, queue: seq<string>, rest: seq<string>)
    requires rest != [] && rest[0] in deg
    requires Lowering(adj, all, alive, deg, rest) && QueueOf(deg, queue)
    ensures var (n, d) := (rest[0], deg[rest[0]] - 1);
            var (deg', queue') := (deg[n := d], if d == 0 then queue + [n] else queue);
            Lowering(adj, all, alive, deg', rest[1..]) && QueueOf(deg', queue')
  {
    var n, d := rest[0], deg[rest[0]] - 1;
    assert deg[n] > 0;
    if d == 0 {
      AppendDistinct(queue, n);
      assert forall x :: x in queue + [n] <==> x in queue || x == n;
    }
  }

  /** The state between two rounds. */
  ghost predicate Peeled(adj: Graph, all: seq<string>, deg: Degrees, queue: seq<string>, removed: seq<string>) {
    && Closed(adj) && Distinct(all)
    && (forall m :: m in adj && adj[m] != [] ==> m in all)
    && deg.Keys == adj.Keys - ToSet(removed) && (forall x :: x in removed ==> x in adj)
    && Lowering(adj, all, deg.Keys, deg, [])
    && QueueOf(deg, queue)
    && RemovedInOrder(adj, removed)
  }

  /** No live node, the queue's front included, lists a node that is removed or at degree zero. */
  lemma {:induction false} ListsLive(adj: Graph, all: seq<string>, deg: Degrees, queue: seq<string>, removed: seq<string>,
                                     m: string, x: string)
    requires Peeled(adj, all, deg, queue, removed) && m in deg && Edge(adj, m, x)
    ensures x in deg && deg[x] > 0
  {
    assert m in deg.Keys && x in adj.Keys;
    DegreeZero(adj, all, deg.Keys, x);
  }

  /** The front of the queue lists only live nodes; their degrees are those without it, plus its own mentions. */
  lemma {:induction false} LowerRound(adj: Graph, all: seq<string>, deg: Degrees, queue: seq<string>, removed: seq<string>)
    requires Peeled(adj, all, deg, queue, removed) && queue != []
    ensures var name := queue[0];
            && name in deg && name in adj && name !in adj[name] && (forall x :: x in adj[name] ==> x in deg)
            && Lowering(adj, all, deg.Keys - {name}, deg, adj[name])
  {
    var name := queue[0];
    var alive := deg.Keys - {name};
    assert name in deg.Keys;
    forall x | x in adj[name]
      ensures x in deg && x != name
    {
      ListsLive(adj, all, deg, queue, removed, name, x);
    }
    forall x | x in deg
      ensures deg[x] == Degree(adj, all, alive, x) + Count(adj[name], x)
    {
      if name in all {
        DegreeDrops(adj, all, deg.Keys, name, x);
      } else {
        DegreeSame(adj, all, deg.Keys, name, x);
      }
    }
  }

  /** A round keeps the state: remove the front of the queue and lower what it lists. */
  lemma {:induction false} Round(adj: Graph, all: seq<string>, deg: Degrees, queue: seq<string>, removed: seq<string>)
    requires Peeled(adj, all, deg, queue, removed) && queue != []
    ensures var name := queue[0];
            && name in deg && name !in adj[name] && (forall x :: x in adj[name] ==> x in deg)
            && var (deg', queue') := Lower(deg, queue, adj[name]);
               queue' != [] && queue'[0] == name && Peeled(adj, all, deg' - {name}, queue'[1..], removed + [name])
  {
    var name := queue[0];
    var alive := deg.Keys - {name};
    assert name in deg.Keys;
    LowerRound(adj, all, deg, queue, removed);
    var deg', queue' := LowerSettles(adj, all, alive, deg, queue, adj[name]);
    LowerAppends(deg, queue, adj[name]);
    RemoveFront(deg', queue');
    RemovedNext(adj, all, deg, queue, removed);
    assert (deg' - {name}).Keys == alive == adj.Keys - ToSet(removed + [name]);
  }

  lemma {:induction false} RemoveFront(deg: Degrees, queue: seq<string>)
    requires QueueOf(deg, queue) && queue != []
    ensures QueueOf(deg - {queue[0]}, queue[1..])
  {
    assert queue == [queue[0]] + queue[1..];
    SuffixDistinct([queue[0]], queue[1..]);
    assert queue[0] !in queue[1..];
  }

  lemma {:induction false} RemovedNext(adj: Graph, all: seq<string>, deg: Degrees, queue: seq<string>, removed: seq<string>)
    requires Peeled(adj, all, deg, queue, removed) && queue != []
    ensures RemovedInOrder(adj, removed + [queue[0]])
  {
    var name := queue[0];
    var removed' := removed + [name];
    assert name in deg.Keys;
    AppendDistinct(removed, name);
    forall m, k | 0 <= k < |removed'| && Edge(adj, m, removed'[k])
      ensures m in removed'[..k]
    {
      assert removed'[..k] == removed[..k];
      if k < |removed| {
        assert Edge(adj, m, removed[k]);
      } else if m in deg {
        ListsLive(adj, all, deg, queue, removed, m, name);
      }
    }
  }

  /** When the queue is empty, what is left are the nodes that some cycle reaches. */
  lemma {:induction false} PeeledOut(adj: Graph, all: seq<string>, deg: Degrees, removed: seq<string>)
    requires Peeled(adj, all, deg, [], removed)
    ensures forall n :: n in deg <==> n in adj && FromCycle(adj, n)
  {
    forall x | x in deg
      ensures ListedIn(adj, deg.Keys, x)
    {
      DegreeZero(adj, all, deg.Keys, x);
    }
    forall n | n in deg
      ensures FromCycle(adj, n)
    {
      StuckIsFromCycle(adj, deg.Keys, n);
    }
    forall n | n in adj && FromCycle(adj, n)
      ensures n in deg
    {
      CycleStays(adj, removed, n);
    }
  }
}
