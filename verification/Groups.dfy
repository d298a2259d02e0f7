/** The proxy groups of a configuration and their dependency graph: the data that
    config/utils.go sorts, and what a sorted list of groups means. */
module Groups {
  import opened Collections
  import opened Peeling

  datatype GroupOption = GroupOption(name: string, proxies: seq<string>)

  /** A group as the configuration file gives it; `option` is what the decoder makes of it, if it can. */
  datatype Mapping = Mapping(id: int, option: Option<GroupOption>)

  /** How sorting ends. */
  datatype Verdict =
    | Sorted
    | Undecodable
    | DuplicateName(name: string)
    | LoopDetected(names: seq<string>)

  function Names(gs: seq<Mapping>): seq<string>
    requires Decoded(gs)
  {
    if gs == [] then [] else Names(gs[..|gs| - 1]) + [gs[|gs| - 1].option.value.name]
  }

  ghost predicate Decoded(gs: seq<Mapping>) {
    forall i :: 0 <= i < |gs| ==> gs[i].option.Some?
  }

  /** The first group, if any, that does not decode or repeats a name. */
  ghost function Fault(gs: seq<Mapping>): (f: Option<Verdict>)
    ensures f.None? ==> Decoded(gs) && Distinct(Names(gs))
    ensures f.Some? ==> f.value.Undecodable? || f.value.DuplicateName?
  {
    if gs == [] then None
    else
      var prefix, g := gs[..|gs| - 1], gs[|gs| - 1];
      if Fault(prefix).Some? then Fault(prefix)
      else if g.option.None? then Some(Undecodable)
      else if g.option.value.name in Names(prefix) then Some(DuplicateName(g.option.value.name))
      else
        assert Decoded(gs) by { assert forall i :: 0 <= i < |prefix| ==> prefix[i] == gs[i]; }
        AppendDistinct(Names(prefix), g.option.value.name);
        None
  }

  /** The groups before j are in order, and the one at j is the reason for the verdict. */
  ghost predicate FaultAt(gs: seq<Mapping>, j: nat, v: Verdict) {
    && j < |gs| && Decoded(gs[..j]) && Distinct(Names(gs[..j]))
    && match gs[j].option
       case None => v == Undecodable
       case Some(o) => v == DuplicateName(o.name) && exists i :: 0 <= i < j && gs[i].option.value.name == o.name
  }

  /** There is no fault exactly if all groups decode and have distinct names. */
  lemma {:induction false} NoFaultIff(gs: seq<Mapping>)
    ensures Fault(gs).None? <==> Decoded(gs) && Distinct(Names(gs))
  {
    if gs != [] && Decoded(gs) && Distinct(Names(gs)) {
      var prefix := gs[..|gs| - 1];
      var names := Names(prefix);
      assert Decoded(prefix);
      assert Names(gs) == names + [gs[|gs| - 1].option.value.name];
      assert forall i :: 0 <= i < |names| ==> names[i] == Names(gs)[i] != Names(gs)[|names|];
      NoFaultIff(prefix);
    }
  }

  /** The fault is the first one. */
  lemma {:induction false} FaultIff(gs: seq<Mapping>, v: Verdict)
    ensures Fault(gs) == Some(v) <==> exists j: nat :: FaultAt(gs, j, v)
  {
    if Fault(gs) == Some(v) {
      var j := FirstFault(gs);
    }
    if j: nat :| FaultAt(gs, j, v) {
      FaultThere(gs, j, v);
    }
  }

  lemma {:induction false} FirstFault(gs: seq<Mapping>) returns (j: nat)
    requires Fault(gs).Some?
    ensures FaultAt(gs, j, Fault(gs).value)
  {
    var prefix := gs[..|gs| - 1];
    if Fault(prefix).Some? {
      j := FirstFault(prefix);
      assert prefix[..j] == gs[..j];
    } else {
      j := |gs| - 1;
      if gs[j].option.Some? {
        NamedPlace(prefix, gs[j].option.value.name);
      }
    }
  }

  lemma {:induction false} NamedPlace(gs: seq<Mapping>, x: string)
    requires Decoded(gs)
    ensures x in Names(gs) <==> exists i :: 0 <= i < |gs| && gs[i].option.value.name == x
  {
    if gs != [] {
      var prefix := gs[..|gs| - 1];
      NamedPlace(prefix, x);
      if i :| 0 <= i < |prefix| && prefix[i].option.value.name == x {
        assert gs[i].option.value.name == x;
      }
      if i :| 0 <= i < |gs| && gs[i].option.value.name == x {
        assert i < |prefix| ==> prefix[i].option.value.name == x;
      }
    }
  }

  lemma {:induction false} FaultThere(gs: seq<Mapping>, j: nat, v: Verdict)
    requires FaultAt(gs, j, v)
    ensures Fault(gs) == Some(v)
  {
    var prefix := gs[..|gs| - 1];
    if j == |gs| - 1 {
      NoFaultIff(prefix);
      if gs[j].option.Some? {
        NamedPlace(prefix, gs[j].option.value.name);
      }
    } else {
      assert prefix[..j] == gs[..j];
      FaultThere(prefix, j, v);
    }
  }

  /** The group called x. */
  function Named(gs: seq<Mapping>, x: string): (g: Option<Mapping>)
    ensures g.Some? ==> g.value.option.Some? && g.value.option.value.name == x
  {
    if gs == [] then None
    else
      var g := gs[|gs| - 1];
      if g.option.Some? && g.option.value.name == x then Some(g) else Named(gs[..|gs| - 1], x)
  }

  /** The graph with one group more: the group lists its proxies, and proxies that are new list nothing. */
  function Extend(adj: Graph, o: GroupOption): Graph {
    var b := adj[o.name := o.proxies];
    map n | n in b.Keys + ToSet(o.proxies) :: if n in b then b[n] else []
  }

  /** The dependency graph: every group and every listed proxy is a node; groups list their proxies. */
  function Deps(gs: seq<Mapping>): Graph
    requires Decoded(gs)
  {
    if gs == [] then map[] else Extend(Deps(gs[..|gs| - 1]), gs[|gs| - 1].option.value)
  }

  lemma {:induction false} NamedIs(gs: seq<Mapping>, x: string)
    requires Decoded(gs)
    ensures Named(gs, x).Some? <==> x in Names(gs)
    ensures Named(gs, x).Some? ==> Named(gs, x).value in gs
  {
    if gs != [] {
      NamedIs(gs[..|gs| - 1], x);
      assert forall g :: g in gs[..|gs| - 1] ==> g in gs;
    }
  }

  lemma {:induction false} NamedOf(gs: seq<Mapping>, g: Mapping)
    requires Decoded(gs) && Distinct(Names(gs)) && g in gs
    ensures Named(gs, g.option.value.name) == Some(g)
  {
    var prefix, last := gs[..|gs| - 1], gs[|gs| - 1];
    if g != last {
      assert g in prefix;
      DistinctPrefix(Names(prefix), last.option.value.name);
      NamedOf(prefix, g);
      NamedIs(prefix, g.option.value.name);
    }
  }

  lemma {:induction false} DistinctPrefix(s: seq<string>, x: string)
    requires Distinct(s + [x])
    ensures Distinct(s) && x !in s
  {
    assert forall i :: 0 <= i < |s| ==> s[i] == (s + [x])[i];
    assert (s + [x])[|s|] == x;
  }

  /** Deps is what the groups say, and nothing else. */
  lemma {:induction false} DepsAre(gs: seq<Mapping>, x: string)
    requires Decoded(gs)
    ensures Named(gs, x).Some? ==> x in Deps(gs) && Deps(gs)[x] == Named(gs, x).value.option.value.proxies
    ensures Named(gs, x).None? && x in Deps(gs) ==> Deps(gs)[x] == []
    ensures Closed(Deps(gs))
  {
    NamedIs(gs, x);
    if gs != [] {
      DepsAre(gs[..|gs| - 1], x);
      NamedIs(gs[..|gs| - 1], x);
    }
  }

  // ------------------------------------------------------------ the sorted list

  /** The groups among the removed nodes, the one removed last in front. */
  function Emitted(gs: seq<Mapping>, removed: seq<string>): seq<Mapping> {
    if removed == [] then []
    else
      var g := Named(gs, removed[|removed| - 1]);
      (if g.Some? then [g.value] else []) + Emitted(gs, removed[..|removed| - 1])
  }

  /** Every member group comes before the groups that list it. */
  ghost predicate MembersFirst(s: seq<Mapping>)
    requires Decoded(s)
  {
    forall i, x :: 0 <= i < |s| && x in s[i].option.value.proxies && x in Names(s) ==> x in Names(s[..i])
  }

  ghost predicate SortedVersion(gs: seq<Mapping>, s: seq<Mapping>) {
    multiset(s) == multiset(gs) && Decoded(s) && MembersFirst(s)
  }

  lemma {:induction false} EmittedMember(gs: seq<Mapping>, removed: seq<string>, g: Mapping)
    requires Decoded(gs)
    ensures g in Emitted(gs, removed) <==> g.option.Some? && g.option.value.name in removed && Named(gs, g.option.value.name) == Some(g)
  {
    if removed != [] {
      var prefix, n := removed[..|removed| - 1], removed[|removed| - 1];
      EmittedMember(gs, prefix, g);
      assert removed == prefix + [n];
    }
  }

  lemma {:induction false} EmittedDistinct(gs: seq<Mapping>, removed: seq<string>)
    requires Decoded(gs) && Distinct(removed)
    ensures Distinct(Emitted(gs, removed)) && Decoded(Emitted(gs, removed))
  {
    if removed != [] {
      var prefix, n := removed[..|removed| - 1], removed[|removed| - 1];
      assert removed == prefix + [n];
      DistinctPrefix(prefix, n);
      EmittedDistinct(gs, prefix);
      if Named(gs, n).Some? {
        EmittedMember(gs, prefix, Named(gs, n).value);
      }
    }
  }

  lemma {:induction false} GroupsDistinct(gs: seq<Mapping>)
    requires Decoded(gs) && Distinct(Names(gs))
    ensures Distinct(gs)
  {
    if gs != [] {
      var prefix, g := gs[..|gs| - 1], gs[|gs| - 1];
      DistinctPrefix(Names(prefix), g.option.value.name);
      GroupsDistinct(prefix);
      if g in prefix {
        NamedOf(prefix, g);
        NamedIs(prefix, g.option.value.name);
      }
      assert gs == prefix + [g];
      AppendDistinct(prefix, g);
    }
  }

  /** There is room in the list for every emitted group. */
  lemma {:induction false} EmittedFits(gs: seq<Mapping>, removed: seq<string>)
    requires Decoded(gs) && Distinct(Names(gs)) && Distinct(removed)
    ensures |Emitted(gs, removed)| <= |gs|
  {
    var s := Emitted(gs, removed);
    EmittedDistinct(gs, removed);
    DistinctSize(s);
    GroupsDistinct(gs);
    DistinctSize(gs);
    forall g | g in s
      ensures g in gs
    {
      EmittedMember(gs, removed, g);
      NamedIs(gs, g.option.value.name);
    }
    SubsetSize(ToSet(s), ToSet(gs));
  }

  lemma {:induction false} SamePermutation<T>(s: seq<T>, t: seq<T>)
    requires Distinct(s) && Distinct(t)
    requires forall x :: x in s <==> x in t
    ensures multiset(s) == multiset(t)
  {
    DistinctSize(s);
    DistinctSize(t);
    assert ToSet(s) == ToSet(t);
    if s != [] {
      var x := s[0];
      assert x in s;
      var i :| 0 <= i < |t| && t[i] == x;
      var t' := Drop(t, i);
      DropDistinct(t, i);
      DropOne(t, i);
      assert s == [x] + s[1..];
      SuffixDistinct([x], s[1..]);
      forall y
        ensures y in s[1..] <==> y in t'
      {
        assert y in s <==> y == x || y in s[1..];
        assert y in t <==> y == x || y in t' by { DropMember(t, i, y); }
      }
      SamePermutation(s[1..], t');
    }
  }

  lemma {:induction false} DropMember<T>(s: seq<T>, i: nat, y: T)
    requires i < |s|
    ensures y in s <==> y == s[i] || y in Drop(s, i)
  {
    DropOne(s, i);
    assert y in multiset(s) <==> y in s;
    assert y in multiset(Drop(s, i)) <==> y in Drop(s, i);
  }

  /** Among the emitted groups, members come before the groups that list them. */
  lemma {:induction false} EmittedOrder(gs: seq<Mapping>, removed: seq<string>, i: nat, x: string)
    requires Decoded(gs) && RemovedInOrder(Deps(gs), removed)
    requires i < |Emitted(gs, removed)| && Decoded(Emitted(gs, removed))
    requires x in Emitted(gs, removed)[i].option.value.proxies && x in removed && Named(gs, x).Some?
    ensures Named(gs, x).value in Emitted(gs, removed)[..i]
    decreases |removed|
  {
    var prefix, n := removed[..|removed| - 1], removed[|removed| - 1];
    var s, t, g := Emitted(gs, removed), Emitted(gs, prefix), Named(gs, n);
    assert removed == prefix + [n];
    PrefixInOrder(Deps(gs), prefix, n);
    if g.Some? && i == 0 {
      NotYetRemoved(gs, prefix, n, x);
    } else {
      var k := if g.Some? then i - 1 else i;
      EmittedDistinct(gs, prefix);
      assert t[k] == s[i];
      if x != n {
        EmittedOrder(gs, prefix, k, x);
        assert s[..i] == (if g.Some? then [g.value] else []) + t[..k];
      } else {
        assert s[..i][0] == g.value;
      }
    }
  }

  lemma {:induction false} PrefixInOrder(adj: Graph, removed: seq<string>, n: string)
    requires RemovedInOrder(adj, removed + [n])
    ensures RemovedInOrder(adj, removed)
  {
    var r := removed + [n];
    DistinctPrefix(removed, n);
    forall m, k | 0 <= k < |removed| && Edge(adj, m, removed[k])
      ensures m in removed[..k]
    {
      assert removed[k] == r[k] && r[..k] == removed[..k];
    }
  }

  /** What the node removed last lists has not been removed. */
  lemma {:induction false} NotYetRemoved(gs: seq<Mapping>, removed: seq<string>, n: string, x: string)
    requires Decoded(gs) && RemovedInOrder(Deps(gs), removed + [n])
    requires Named(gs, n).Some? && x in Named(gs, n).value.option.value.proxies
    ensures x !in removed + [n]
  {
    var r := removed + [n];
    DepsAre(gs, n);
    DistinctPrefix(removed, n);
    forall k | 0 <= k < |r|
      ensures !Edge(Deps(gs), n, r[k])
    {
      assert n !in r[..k];
    }
  }

  /** Once every node is removed, the emitted groups are the given ones, sorted. */
  lemma {:induction false} AllEmitted(gs: seq<Mapping>, removed: seq<string>)
    requires Decoded(gs) && Distinct(Names(gs)) && RemovedInOrder(Deps(gs), removed)
    requires forall x :: x in Deps(gs) ==> x in removed
    ensures SortedVersion(gs, Emitted(gs, removed))
  {
    var s := Emitted(gs, removed);
    EmittedDistinct(gs, removed);
    GroupsDistinct(gs);
    forall g
      ensures g in s <==> g in gs
    {
      EmittedMember(gs, removed, g);
      if g in gs {
        NamedOf(gs, g);
        DepsAre(gs, g.option.value.name);
      }
      if g in s {
        NamedIs(gs, g.option.value.name);
      }
    }
    SamePermutation(s, gs);
    forall i, x | 0 <= i < |s| && x in s[i].option.value.proxies && x in Names(s)
      ensures x in Names(s[..i])
    {
      NamedIs(s, x);
      var g := Named(s, x).value;
      EmittedMember(gs, removed, g);
      EmittedOrder(gs, removed, i, x);
      NameOfMember(s[..i], g);
    }
  }

  lemma {:induction false} NameOfMember(s: seq<Mapping>, g: Mapping)
    requires Decoded(s) && g in s
    ensures g.option.value.name in Names(s)
  {
    if g != s[|s| - 1] {
      NameOfMember(s[..|s| - 1], g);
    }
  }

  /** A list of groups with distinct names has distinct names in every order. */
  lemma {:induction false} NamesPermute(gs: seq<Mapping>, s: seq<Mapping>)
    requires Decoded(gs) && Distinct(Names(gs)) && multiset(s) == multiset(gs)
    ensures Decoded(s) && Distinct(Names(s)) && ToSet(Names(s)) == ToSet(Names(gs))
  {
    SameMembers(gs, s);
    assert Decoded(s) by {
      forall i | 0 <= i < |s|
        ensures s[i].option.Some?
      {
        assert s[i] in gs;
      }
    }
    GroupsDistinct(gs);
    SameSizeDistinct(gs, s);
    DistinctNames(gs, s);
    forall x
      ensures x in Names(s) <==> x in Names(gs)
    {
      NameInBoth(gs, s, x);
      NameInBoth(s, gs, x);
    }
  }

  lemma {:induction false} SameMembers<T>(gs: seq<T>, s: seq<T>)
    requires multiset(s) == multiset(gs)
    ensures |s| == |gs| && forall g :: g in s <==> g in gs
  {
    assert |multiset(s)| == |multiset(gs)|;
    forall g
      ensures g in s <==> g in gs
    {
      assert g in multiset(s) <==> g in multiset(gs);
    }
  }

  lemma {:induction false} SameSizeDistinct<T>(gs: seq<T>, s: seq<T>)
    requires Distinct(gs) && multiset(s) == multiset(gs)
    ensures Distinct(s)
  {
    forall i, j | 0 <= i < j < |s|
      ensures s[i] != s[j]
    {
      if s[i] == s[j] {
        TwiceInMultiset(s, i, j);
        SameMembers(gs, s);
        var k :| 0 <= k < |gs| && gs[k] == s[i];
        OnceInMultiset(gs, k);
      }
    }
  }

  lemma {:induction false} TwiceInMultiset<T>(s: seq<T>, i: nat, j: nat)
    requires i < j < |s| && s[i] == s[j]
    ensures multiset(s)[s[i]] >= 2
  {
    assert s == s[..j] + s[j..];
    assert s[i] in s[..j] && s[i] in s[j..] by {
      assert s[..j][i] == s[i] && s[j..][0] == s[j];
    }
  }

  lemma {:induction false} OnceInMultiset<T>(s: seq<T>, k: nat)
    requires k < |s| && Distinct(s)
    ensures multiset(s)[s[k]] == 1
  {
    DropOne(s, k);
    DropDistinct(s, k);
  }

  lemma {:induction false} NameInBoth(gs: seq<Mapping>, s: seq<Mapping>, x: string)
    requires Decoded(gs) && Decoded(s) && (forall g :: g in gs ==> g in s)
    ensures x in Names(gs) ==> x in Names(s)
  {
    if x in Names(gs) {
      var g := NamedMember(gs, x);
      NameOfMember(s, g);
    }
  }

  lemma {:induction false} NamedMember(gs: seq<Mapping>, x: string) returns (g: Mapping)
    requires Decoded(gs) && x in Names(gs)
    ensures g in gs && g.option.Some? && g.option.value.name == x
  {
    if gs[|gs| - 1].option.value.name == x {
      return gs[|gs| - 1];
    }
    g := NamedMember(gs[..|gs| - 1], x);
  }

  lemma {:induction false} DistinctNames(gs: seq<Mapping>, s: seq<Mapping>)
    requires Decoded(gs) && Distinct(Names(gs)) && Decoded(s) && Distinct(s) && forall g :: g in s ==> g in gs
    ensures Distinct(Names(s))
  {
    if s != [] {
      var prefix, g := s[..|s| - 1], s[|s| - 1];
      assert s == prefix + [g];
      DistinctNames(gs, prefix);
      if g.option.value.name in Names(prefix) {
        var h := NamedMember(prefix, g.option.value.name);
        NamedOf(gs, g);
        NamedOf(gs, h);
      }
      AppendDistinct(Names(prefix), g.option.value.name);
    }
  }
}
