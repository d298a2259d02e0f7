/** What a search finds after any sequence of insertions (component/trie/domain.go). */
module TrieRuns {
  import opened Collections
  import opened Trie

  datatype Insertion<V> = Insertion(domain: string, data: Option<V>)

  function PathsFor(domain: string): seq<Path> {
    match Labels(domain)
    case None => []
    case Some(parts) => PathsOf(parts)
  }

  function Build<V>(ops: seq<Insertion<V>>): Table<V> {
    if ops == [] then map[[] := None] else Insert(Build(ops[..|ops| - 1]), ops[|ops| - 1].domain, ops[|ops| - 1].data)
  }

  /** The data given last for the path p, if any was. */
  function LastAt<V>(ops: seq<Insertion<V>>, p: Path): Option<Option<V>> {
    if ops == [] then None
    else
      var op := ops[|ops| - 1];
      if p in PathsFor(op.domain) then Some(op.data) else LastAt(ops[..|ops| - 1], p)
  }

  /** p leads to a node: some inserted path starts with p. */
  predicate HasNode<V>(ops: seq<Insertion<V>>, p: Path) {
    if ops == [] then p == [] else HasNode(ops[..|ops| - 1], p) || Covers(PathsFor(ops[|ops| - 1].domain), p)
  }

  predicate Covers(paths: seq<Path>, p: Path) {
    exists i :: 0 <= i < |paths| && p <= paths[i]
  }

  // ------------------------------------------------------------ the table after a run

  lemma {:induction false} InsertAtIs<V>(t: Table<V>, p: Path, data: Option<V>, q: Path)
    ensures q in InsertAt(t, p, data) <==> q in t || q <= p
    ensures q in InsertAt(t, p, data) ==> InsertAt(t, p, data)[q] == if q == p then data else if q in t then t[q] else None
  {
    if q <= p {
      assert q == p[..|q|];
    }
    assert p == p[..|p|];
  }

  lemma {:induction false} InsertAllIs<V>(t: Table<V>, paths: seq<Path>, data: Option<V>, q: Path)
    ensures q in InsertAll(t, paths, data) <==> q in t || Covers(paths, q)
    ensures q in InsertAll(t, paths, data) ==>
              InsertAll(t, paths, data)[q] == if q in paths then data else if q in t then t[q] else None
    decreases |paths|
  {
    if paths != [] {
      var t' := InsertAt(t, paths[0], data);
      InsertAtIs(t, paths[0], data, q);
      InsertAllIs(t', paths[1..], data, q);
      assert q in paths <==> q == paths[0] || q in paths[1..];
      CoversCons(paths, q);
    }
  }

  lemma {:induction false} CoversCons(paths: seq<Path>, q: Path)
    requires paths != []
    ensures Covers(paths, q) <==> q <= paths[0] || Covers(paths[1..], q)
  {
    if i :| 0 <= i < |paths[1..]| && q <= paths[1..][i] {
      assert q <= paths[i + 1];
    }
    if i :| 0 < i < |paths| && q <= paths[i] {
      assert q <= paths[1..][i - 1];
    }
  }

  /** The nodes are the prefixes of the inserted paths, and each holds what was inserted there last. */
  lemma {:induction false} BuildIs<V>(ops: seq<Insertion<V>>, p: Path)
    ensures p in Build(ops) <==> HasNode(ops, p)
    ensures p in Build(ops) ==> Build(ops)[p] == if LastAt(ops, p).Some? then LastAt(ops, p).value else None
    ensures LastAt(ops, p).Some? ==> HasNode(ops, p)
  {
    if ops != [] {
      var prefix, op := ops[..|ops| - 1], ops[|ops| - 1];
      BuildIs(prefix, p);
      if i :| 0 <= i < |PathsFor(op.domain)| && PathsFor(op.domain)[i] == p {
        assert p <= PathsFor(op.domain)[i];
      }
      if Labels(op.domain).Some? {
        InsertAllIs(Build(prefix), PathsFor(op.domain), op.data, p);
      }
    }
  }

  lemma {:induction false} CoversPrefix(paths: seq<Path>, p: Path)
    requires Covers(paths, p) && p != []
    ensures Covers(paths, p[..|p| - 1])
  {
    var i :| 0 <= i < |paths| && p <= paths[i];
    assert p[..|p| - 1] <= paths[i];
  }

  lemma {:induction false} HasPrefix<V>(ops: seq<Insertion<V>>, p: Path)
    requires HasNode(ops, p)
    ensures HasNode(ops, []) && (p != [] ==> HasNode(ops, p[..|p| - 1]))
  {
    if ops != [] {
      var prefix := ops[..|ops| - 1];
      RootNode(prefix);
      if p != [] {
        if HasNode(prefix, p) {
          HasPrefix(prefix, p);
        } else {
          CoversPrefix(PathsFor(ops[|ops| - 1].domain), p);
        }
      }
    }
  }

  lemma {:induction false} RootNode<V>(ops: seq<Insertion<V>>)
    ensures HasNode(ops, [])
  {
    if ops != [] {
      RootNode(ops[..|ops| - 1]);
    }
  }

  lemma {:induction false} BuildClosed<V>(ops: seq<Insertion<V>>)
    ensures PrefixClosed(Build(ops))
  {
    var t := Build(ops);
    RootNode(ops);
    BuildIs(ops, []);
    forall p | p in t && p != []
      ensures p[..|p| - 1] in t
    {
      BuildIs(ops, p);
      HasPrefix(ops, p);
      BuildIs(ops, p[..|p| - 1]);
    }
  }

  // ------------------------------------------------------------ what a search finds

  /** p leads to the first of the nodes that match q. */
  ghost predicate FirstMatch<V>(ops: seq<Insertion<V>>, q: seq<string>, p: Path) {
    && HasNode(ops, p) && Matches(p, q)
    && forall p' :: HasNode(ops, p') && Matches(p', q) && p' != p ==> Comes(p, p', q)
  }

  /** The path of a domain that can be searched for. */
  function Query(domain: string): (q: Option<Path>)
    ensures q.Some? ==> Asked(q.value) && q.value != []
  {
    match Labels(domain)
    case None => None
    case Some(parts) => if parts[0] == "" then None else Some(Reversed(parts))
  }

  lemma {:induction false} CandidateIs<V>(ops: seq<Insertion<V>>, q: seq<string>, p: Path)
    ensures Candidate(Build(ops), [], q, p) <==> HasNode(ops, p) && Matches(p, q)
  {
    assert [] + p == p;
    BuildIs(ops, p);
  }

  /** Search answers with the data of the first matching node, and with nothing if that node has
      none, if no node matches, or if the domain cannot be searched for. */
  lemma {:induction false} SearchIsFirstMatch<V>(ops: seq<Insertion<V>>, domain: string)
    ensures Query(domain).None? ==> Search(Build(ops), domain).None?
    ensures forall p :: Query(domain).Some? && FirstMatch(ops, Query(domain).value, p) ==>
              Search(Build(ops), domain) == if LastAt(ops, p).Some? then LastAt(ops, p).value else None
    ensures Query(domain).Some? && (forall p :: HasNode(ops, p) ==> !Matches(p, Query(domain).value)) ==>
              Search(Build(ops), domain).None?
  {
    if Query(domain).Some? {
      var q := Query(domain).value;
      var r := SeekMatches(ops, q);
      forall p | FirstMatch(ops, q, p)
        ensures Search(Build(ops), domain) == if LastAt(ops, p).Some? then LastAt(ops, p).value else None
      {
        FirstIsUnique(ops, q, p, r);
        BuildIs(ops, p);
      }
    }
  }

  lemma {:induction false} SeekMatches<V>(ops: seq<Insertion<V>>, q: seq<string>) returns (r: Option<Path>)
    requires Asked(q)
    ensures r == Seek(Build(ops), [], q)
    ensures r.Some? ==> FirstMatch(ops, q, r.value)
    ensures r.None? ==> forall p :: HasNode(ops, p) ==> !Matches(p, q)
  {
    var t := Build(ops);
    BuildClosed(ops);
    SeekFirst(t, [], q);
    r := Seek(t, [], q);
    forall p
      ensures Candidate(t, [], q, p) <==> HasNode(ops, p) && Matches(p, q)
    {
      CandidateIs(ops, q, p);
    }
    if r.Some? {
      assert r.value[0..] == r.value;
    }
  }

  lemma {:induction false} FirstIsUnique<V>(ops: seq<Insertion<V>>, q: seq<string>, p: Path, r: Option<Path>)
    requires FirstMatch(ops, q, p)
    requires r.Some? ==> FirstMatch(ops, q, r.value)
    requires r.None? ==> forall p :: HasNode(ops, p) ==> !Matches(p, q)
    ensures r == Some(p)
  {
    if r.Some? && r.value != p {
      Antisymmetric(p, r.value, q);
    }
  }

  lemma {:induction false} Antisymmetric(a: Path, b: Path, q: seq<string>)
    ensures !(Comes(a, b, q) && Comes(b, a, q))
    decreases |q|
  {
    if a != [] && b != [] && q != [] {
      Antisymmetric(a[1..], b[1..], q[1..]);
    }
  }

  /** What is found was inserted, last of all, under a pattern that matches the domain. */
  lemma {:induction false} SearchIsSound<V>(ops: seq<Insertion<V>>, domain: string, v: V)
    requires Search(Build(ops), domain) == Some(v)
    ensures Query(domain).Some? && exists p :: Matches(p, Query(domain).value) && LastAt(ops, p) == Some(Some(v))
  {
    var r := SeekMatches(ops, Query(domain).value);
    BuildIs(ops, r.value);
  }

  lemma {:induction false} LiteralComes(p: Path, q: seq<string>)
    requires Matches(p, q) && p != q && Asked(q)
    ensures Comes(q, p, q)
    decreases |q|
  {
    if q != [] {
      MatchCases(p, q);
      if p[0] == q[0] {
        assert p == [p[0]] + p[1..] && q == [q[0]] + q[1..];
        LiteralComes(p[1..], q[1..]);
      }
    }
  }

  /** The node of the domain itself, if there is one, decides, even if nothing was inserted there. */
  lemma {:induction false} LiteralDecides<V>(ops: seq<Insertion<V>>, domain: string)
    requires Query(domain).Some? && HasNode(ops, Query(domain).value)
    ensures var last := LastAt(ops, Query(domain).value);
            Search(Build(ops), domain) == if last.Some? then last.value else None
  {
    var q := Query(domain).value;
    assert Fits(q, q, |q|);
    forall p | HasNode(ops, p) && Matches(p, q) && p != q
      ensures Comes(q, p, q)
    {
      LiteralComes(p, q);
    }
    assert FirstMatch(ops, q, q);
    SearchIsFirstMatch(ops, domain);
  }

  /** A domain inserted literally is found with the data it was given last, whatever else is inserted. */
  lemma {:induction false} LiteralIsFound<V>(ops: seq<Insertion<V>>, domain: string)
    requires Query(domain).Some? && LastAt(ops, Query(domain).value).Some?
    ensures Search(Build(ops), domain) == LastAt(ops, Query(domain).value).value
  {
    BuildIs(ops, Query(domain).value);
    LiteralDecides(ops, domain);
  }

  /** A dot wildcard ends every path it is in. */
  lemma {:induction false} DotEnds(domain: string, p: Path, i: nat)
    requires p in PathsFor(domain) && i < |p| && p[i] == DOT_WILDCARD
    ensures i == |p| - 1
  {
  }

  /** The node of a dot wildcard is never a mere inner node. */
  lemma {:induction false} DotNodeInserted<V>(ops: seq<Insertion<V>>, p: Path)
    requires HasNode(ops, p) && p != [] && p[|p| - 1] == DOT_WILDCARD
    ensures LastAt(ops, p).Some?
  {
    if ops != [] {
      var prefix, paths := ops[..|ops| - 1], PathsFor(ops[|ops| - 1].domain);
      if p !in paths {
        if Covers(paths, p) {
          var i :| 0 <= i < |paths| && p <= paths[i];
          DotEnds(ops[|ops| - 1].domain, paths[i], |p| - 1);
          assert p == paths[i];
        }
        DotNodeInserted(prefix, p);
      }
    }
  }

  /** All data given was real data. */
  ghost predicate NoNilData<V>(ops: seq<Insertion<V>>) {
    forall i :: 0 <= i < |ops| ==> ops[i].data.Some?
  }

  lemma {:induction false} LastIsReal<V>(ops: seq<Insertion<V>>, p: Path)
    requires NoNilData(ops) && LastAt(ops, p).Some?
    ensures LastAt(ops, p).value.Some?
  {
    if ops != [] && p !in PathsFor(ops[|ops| - 1].domain) {
      LastIsReal(ops[..|ops| - 1], p);
    }
  }

  /** If every node that matches label by label was inserted itself, a matching pattern is enough to be found. */
  lemma {:induction false} SearchIsComplete<V>(ops: seq<Insertion<V>>, domain: string, pattern: Path)
    requires NoNilData(ops) && Query(domain).Some?
    requires forall p :: HasNode(ops, p) && |p| == |Query(domain).value| && Fits(p, Query(domain).value, |p|) ==> LastAt(ops, p).Some?
    requires LastAt(ops, pattern).Some? && Matches(pattern, Query(domain).value)
    ensures Search(Build(ops), domain).Some?
  {
    var q := Query(domain).value;
    BuildIs(ops, pattern);
    var r := SeekMatches(ops, q);
    var p := r.value;
    if !(|p| == |q| && Fits(p, q, |p|)) {
      DotNodeInserted(ops, p);
    }
    LastIsReal(ops, p);
    BuildIs(ops, p);
  }

  /** In general a search succeeds exactly if the first matching node was inserted itself. */
  lemma {:induction false} SearchSucceedsIff<V>(ops: seq<Insertion<V>>, domain: string)
    requires NoNilData(ops) && Query(domain).Some?
    ensures Search(Build(ops), domain).Some? <==> exists p :: FirstMatch(ops, Query(domain).value, p) && LastAt(ops, p).Some?
  {
    var q := Query(domain).value;
    var r := SeekMatches(ops, q);
    if r.Some? {
      BuildIs(ops, r.value);
      if LastAt(ops, r.value).Some? {
        LastIsReal(ops, r.value);
      }
    }
    forall p | FirstMatch(ops, q, p)
      ensures r == Some(p)
    {
      FirstIsUnique(ops, q, p, r);
    }
  }

  lemma {:induction false} SplitAlone(s: string)
    requires '.' !in s
    ensures Split(s) == [s]
  {
    if s != "" {
      assert s[0] in s;
      SplitAlone(s[1..]);
      assert s == [s[0]] + s[1..];
    }
  }

  lemma {:induction false} SplitDot(s: string, t: string)
    requires '.' !in s
    ensures Split(s + "." + t) == [s] + Split(t)
  {
    var u := s + "." + t;
    if s == "" {
      assert u[1..] == t;
    } else {
      assert s[0] in s;
      SplitDot(s[1..], t);
      assert u[1..] == s[1..] + "." + t;
      assert s == [s[0]] + s[1..];
    }
  }

  lemma {:induction false} ExamplePaths()
    ensures PathsFor("*") == [["*"]] && PathsFor("a.b") == [["b", "a"]] && Query("b") == Some(["b"])
  {
    SplitAlone("*");
    SplitAlone("b");
    SplitDot("a", "b");
    assert Split("a.b") == ["a", "b"];
    assert Reversed(["*"]) == ["*"] && Reversed(["b"]) == ["b"] && Reversed(["a", "b"]) == ["b", "a"];
  }

  /** A matching pattern alone is not enough: after "*" and "a.b" the inner node of "b" hides the wildcard. */
  lemma {:induction false} InnerNodeHides(ops: seq<Insertion<int>>)
    requires ops == [Insertion("*", Some(1)), Insertion("a.b", Some(2))]
    ensures Query("b") == Some(["b"]) && Search(Build(ops), "b").None?
    ensures Matches(["*"], ["b"]) && LastAt(ops, ["*"]) == Some(Some(1))
  {
    ExamplePaths();
    var first := ops[..1];
    assert first == [ops[0]] && first[..0] == [];
    assert "b" != "*" && ["b"] != ["*"] && |["b", "a"]| == 2;
    assert LastAt(first, ["b"]).None?;
    assert ["b"] <= PathsFor(ops[1].domain)[0];
    assert Fits(["*"], ["b"], 1);
    LiteralDecides(ops, "b");
  }
}
