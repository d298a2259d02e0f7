/** The trie object of component/trie: nodes with a map of children, extended in place.

    The ghost map `nodes` gives the node at every path; the table it stands for is
    what Insert and Search of Trie.dfy work on. */
module DomainTrie {
  import opened Collections
  import T = Trie

  class Node<V> {
    var data: Option<V>
    var children: map<string, Node<V>>

    constructor (data: Option<V>)
      ensures this.data == data && children == map[]
    {
      this.data, children := data, map[];
    }

    method GetChild(s: string) returns (c: Option<Node<V>>)
      ensures c == if s in children then Some(children[s]) else None
    {
      c := if s in children then Some(children[s]) else None;
    }
  }

  type Nodes<V> = map<T.Path, Node<V>>
  type Kids<V> = map<T.Path, map<string, Node<V>>>

  /** Different paths lead to different nodes, and the children of a node are the nodes one label further. */
  ghost predicate Linked<V>(nodes: Nodes<V>, kids: Kids<V>) {
    && [] in nodes && nodes.Keys == kids.Keys
    && (forall p, q :: p in nodes && q in nodes && p != q ==> nodes[p] != nodes[q])
    && (forall p, s {:trigger Down(nodes, kids, p, s)} :: p in nodes && s in kids[p] ==> Down(nodes, kids, p, s))
    && (forall q {:trigger Up(nodes, kids, q)} :: q in nodes && q != [] ==> Up(nodes, kids, q))
  }

  ghost predicate Down<V>(nodes: Nodes<V>, kids: Kids<V>, p: T.Path, s: string) {
    p in kids && s in kids[p] && p + [s] in nodes && nodes[p + [s]] == kids[p][s]
  }

  ghost predicate Up<V>(nodes: Nodes<V>, kids: Kids<V>, q: T.Path)
    requires q != []
  {
    Parent(q) in nodes && Parent(q) in kids && q[|q| - 1] in kids[Parent(q)]
  }

  function Parent(q: T.Path): T.Path
    requires q != []
  {
    q[..|q| - 1]
  }

  lemma {:induction false} ParentOf(p: T.Path, s: string)
    ensures Parent(p + [s]) == p && (p + [s])[|p|] == s
  {
  }

  /** Hanging a new node below p keeps the links. */
  lemma {:induction false} Hang<V>(nodes: Nodes<V>, kids: Kids<V>, p: T.Path, s: string, n: Node<V>)
    requires Linked(nodes, kids) && p in nodes && p + [s] !in nodes
    requires forall q :: q in nodes ==> nodes[q] != n
    ensures Linked(nodes[p + [s] := n], kids[p := kids[p][s := n]][p + [s] := map[]])
  {
    var p', nodes' := p + [s], nodes[p + [s] := n];
    var kids' := kids[p := kids[p][s := n]][p' := map[]];
    ParentOf(p, s);
    forall q, t | q in nodes' && t in kids'[q]
      ensures Down(nodes', kids', q, t)
    {
      ParentOf(q, t);
      assert q != p' ==> t in kids[q] ==> Down(nodes, kids, q, t);
    }
    forall q | q in nodes' && q != []
      ensures Up(nodes', kids', q)
    {
      if q != p' {
        assert Up(nodes, kids, q);
      }
    }
  }

  class DomainTrie<V> {
    const root: Node<V>
    ghost var nodes: Nodes<V>

    ghost function AllKids(): Kids<V>
      reads this, nodes.Values
    {
      map p | p in nodes :: nodes[p].children
    }

    ghost predicate Valid()
      reads this, nodes.Values
    {
      Linked(nodes, AllKids()) && nodes[[]] == root
    }

    ghost function Abs(): T.Table<V>
      reads this, nodes.Values
    {
      map p | p in nodes :: nodes[p].data
    }

    constructor ()
      ensures Valid() && Abs() == map[[] := None]
      ensures forall p :: p in nodes ==> fresh(nodes[p])
    {
      root := new Node(None);
      new;
      nodes := map[[] := root];
    }

    /** Hang a new, empty node below another. */
    method AddChild(node: Node<V>, part: string, ghost path: T.Path) returns (child: Node<V>)
      requires Valid() && path in nodes && nodes[path] == node && part !in node.children
      modifies this`nodes, node`children
      ensures Valid() && fresh(child) && child.data == None
      ensures path + [part] !in old(nodes) && nodes == old(nodes)[path + [part] := child]
    {
      ParentOf(path, part);
      assert path + [part] in nodes ==> Up(nodes, AllKids(), path + [part]);
      ghost var kids, path' := AllKids(), path + [part];
      child := new Node(None);
      Hang(nodes, kids, path, part, child);
      node.children := node.children[part := child];
      nodes := nodes[path' := child];
      assert AllKids() == kids[path := kids[path][part := child]][path' := map[]];
    }

    /** The child for a label, hung there if it is missing. */
    method Descend(node: Node<V>, part: string, ghost path: T.Path) returns (child: Node<V>)
      requires Valid() && path in nodes && nodes[path] == node
      modifies this`nodes, node`children
      ensures Valid() && path + [part] in nodes && nodes[path + [part]] == child
      ensures Abs() == if path + [part] in old(Abs()) then old(Abs()) else old(Abs())[path + [part] := None]
      ensures Extends(old(nodes))
    {
      var hasChild := part in node.children;
      if !hasChild {
        child := AddChild(node, part, path);
        return;
      }
      assert Down(nodes, AllKids(), path, part);
      child := node.children[part];
    }

    /** Old nodes stay where they were; the others are new. */
    twostate predicate Extends(before: Nodes<V>)
      reads this
    {
      && (forall p :: p in before ==> p in nodes && nodes[p] == before[p])
      && (forall p :: p in nodes && p !in before ==> fresh(nodes[p]))
    }

    /** Walk down from the root, last label first. */
    method Reach(parts: seq<string>) returns (node: Node<V>)
      requires Valid()
      modifies this`nodes, nodes.Values
      ensures Valid() && Extends(old(nodes)) && Abs() == T.Grow(old(Abs()), Reversed(parts))
      ensures Reversed(parts) in nodes && nodes[Reversed(parts)] == node
    {
      node := root;
      ghost var path: T.Path := [];
      ghost var t, before := Abs(), nodes;
      var i := |parts|;
      GrowRoot(t);
      while i > 0
        invariant 0 <= i <= |parts| && path == Reversed(parts[i..])
        invariant Valid() && path in nodes && nodes[path] == node
        invariant Extends(before) && Abs() == T.Grow(t, path)
      {
        i := i - 1;
        node, path := StepDown(parts, i, node, path, t);
      }
      assert parts[0..] == parts;
    }

    /** One label further down. */
    method StepDown(parts: seq<string>, i: nat, node: Node<V>, ghost path: T.Path, ghost t: T.Table<V>)
      returns (child: Node<V>, ghost path': T.Path)
      requires Valid() && i < |parts| && path == Reversed(parts[i + 1..])
      requires path in nodes && nodes[path] == node && Abs() == T.Grow(t, path)
      modifies this`nodes, node`children
      ensures Valid() && Extends(old(nodes)) && path' == Reversed(parts[i..])
      ensures path' in nodes && nodes[path'] == child && Abs() == T.Grow(t, path')
    {
      var part := parts[i];
      GrowStep(t, path, part);
      ReversedStep(parts, i);
      child := Descend(node, part, path);
      path' := path + [part];
    }

    method InsertParts(parts: seq<string>, data: Option<V>)
      requires Valid()
      modifies this`nodes, nodes.Values
      ensures Valid() && Extends(old(nodes)) && Abs() == T.InsertAt(old(Abs()), Reversed(parts), data)
    {
      var node := Reach(parts);
      SetData(node, data, Reversed(parts));
    }

    method SetData(node: Node<V>, data: Option<V>, ghost path: T.Path)
      requires Valid() && path in nodes && nodes[path] == node
      modifies node`data
      ensures Valid() && Abs() == old(Abs())[path := data]
    {
      ghost var kids := AllKids();
      node.data := data;
      assert AllKids() == kids;
    }

    /** Insert a pattern; false if the domain is not valid. */
    method Insert(domain: string, data: Option<V>) returns (ok: bool)
      requires Valid()
      modifies this`nodes, nodes.Values
      ensures Valid() && Abs() == T.Insert(old(Abs()), domain, data) && ok == T.Labels(domain).Some?
    {
      var parts := T.ValidAndSplitDomain(domain);
      if parts.None? {
        return false;
      }
      InsertLabels(parts.value, data);
      return true;
    }

    method InsertLabels(parts: seq<string>, data: Option<V>)
      requires Valid() && |parts| > 0
      modifies this`nodes, nodes.Values
      ensures Valid() && Abs() == T.InsertAll(old(Abs()), T.PathsOf(parts), data)
    {
      InsertFew(Abs(), parts, data);
      if parts[0] == T.COMPLEX_WILDCARD {
        InsertBoth(parts[1..], data);
      } else {
        InsertParts(parts, data);
      }
    }

    /** The domain itself and everything below it. */
    method InsertBoth(parts: seq<string>, data: Option<V>)
      requires Valid()
      modifies this`nodes, nodes.Values
      ensures Valid()
      ensures Abs() == T.InsertAt(T.InsertAt(old(Abs()), Reversed(parts), data), Reversed([T.DOT_WILDCARD] + parts), data)
    {
      InsertParts(parts, data);
      InsertParts([T.DOT_WILDCARD] + parts, data);
    }

    /** The child for a label is the node one label further. */
    method GetChild(node: Node<V>, part: string, ghost path: T.Path) returns (c: Option<Node<V>>)
      requires Valid() && path in nodes && nodes[path] == node
      ensures c.Some? <==> path + [part] in Abs()
      ensures c.Some? ==> path + [part] in nodes && nodes[path + [part]] == c.value
    {
      ParentOf(path, part);
      assert path + [part] in nodes ==> Up(nodes, AllKids(), path + [part]);
      assert part in node.children ==> Down(nodes, AllKids(), path, part);
      c := node.GetChild(part);
    }

    /** The node is the one that the search of the table arrives at. */
    ghost predicate Arrives(found: Option<T.Path>, r: Option<Node<V>>)
      reads this
    {
      (found.Some? <==> r.Some?) && (r.Some? ==> found.value in nodes && nodes[found.value] == r.value)
    }

    method SearchFrom(node: Node<V>, parts: seq<string>, ghost path: T.Path) returns (r: Option<Node<V>>)
      requires Valid() && path in nodes && nodes[path] == node
      ensures Arrives(T.Seek(Abs(), path, Reversed(parts)), r)
      decreases |parts|, 0
    {
      if |parts| == 0 {
        return Some(node);
      }
      var part, rest := parts[|parts| - 1], parts[..|parts| - 1];
      ReversedLast(parts);
      r := SearchChild(node, part, rest, path);
      if r.Some? {
        return;
      }
      r := SearchChild(node, T.WILDCARD, rest, path);
      if r.Some? {
        return;
      }
      r := GetChild(node, T.DOT_WILDCARD, path);
    }

    /** Search below one child, if it is there. */
    method SearchChild(node: Node<V>, part: string, rest: seq<string>, ghost path: T.Path) returns (r: Option<Node<V>>)
      requires Valid() && path in nodes && nodes[path] == node
      ensures Arrives(if path + [part] in Abs() then T.Seek(Abs(), path + [part], Reversed(rest)) else None, r)
      decreases |rest|, 1
    {
      var c := GetChild(node, part, path);
      if c.Some? {
        r := SearchFrom(c.value, rest, path + [part]);
      } else {
        r := None;
      }
    }

    method Search(domain: string) returns (r: Option<V>)
      requires Valid()
      ensures r == T.Search(Abs(), domain)
    {
      var parts := T.ValidAndSplitDomain(domain);
      if parts.None? || parts.value[0] == "" {
        return None;
      }
      var n := SearchFrom(root, parts.value, []);
      if n.None? {
        return None;
      }
      return n.value.data;
    }
  }

  lemma {:induction false} InsertOne<V>(t: T.Table<V>, p: T.Path, data: Option<V>)
    ensures T.InsertAll(t, [p], data) == T.InsertAt(t, p, data)
  {
    assert [p][1..] == [];
  }

  lemma {:induction false} InsertFew<V>(t: T.Table<V>, parts: seq<string>, data: Option<V>)
    requires |parts| > 0
    ensures T.InsertAll(t, T.PathsOf(parts), data) ==
            if parts[0] == T.COMPLEX_WILDCARD
            then T.InsertAt(T.InsertAt(t, Reversed(parts[1..]), data), Reversed([T.DOT_WILDCARD] + parts[1..]), data)
            else T.InsertAt(t, Reversed(parts), data)
  {
    var paths := T.PathsOf(parts);
    if |paths| == 2 {
      assert paths[1..] == [paths[1]] && [paths[1]][1..] == [];
      InsertOne(T.InsertAt(t, paths[0], data), paths[1], data);
    } else {
      assert paths == [paths[0]];
      InsertOne(t, paths[0], data);
    }
  }

  lemma {:induction false} ReversedStep(parts: seq<string>, i: nat)
    requires i < |parts|
    ensures Reversed(parts[i..]) == Reversed(parts[i + 1..]) + [parts[i]]
  {
  }

  lemma {:induction false} GrowRoot<V>(t: T.Table<V>)
    requires [] in t
    ensures T.Grow(t, []) == t
  {
    var root: T.Path := [];
    assert root[..0] == root;
    assert T.Prefixes(root) == {root};
  }

  lemma {:induction false} GrowStep<V>(t: T.Table<V>, p: T.Path, s: string)
    ensures var g := T.Grow(t, p);
            T.Grow(t, p + [s]) == if p + [s] in g then g else g[p + [s] := None]
  {
    var p' := p + [s];
    forall i | 0 <= i <= |p'|
      ensures p'[..i] in T.Prefixes(p) + {p'}
    {
      if i <= |p| {
        assert p'[..i] == p[..i];
      } else {
        assert p'[..i] == p';
      }
    }
    forall i | 0 <= i <= |p|
      ensures p[..i] in T.Prefixes(p')
    {
      assert p'[..i] == p[..i];
    }
    assert p' == p'[..|p'|];
    assert T.Prefixes(p') == T.Prefixes(p) + {p'};
  }
}
