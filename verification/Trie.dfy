/** The domain trie of component/trie as a finite map from paths to data.

    A path lists labels from the root, that is, from the last label of a domain to the
    first.  `Seek` is the backtracking search; `Comes` orders the nodes that match a
    domain, and the search is shown to find the first of them. */
module Trie {
  import opened Collections

  type Path = seq<string>
  type Table<V> = map<Path, Option<V>>

  const WILDCARD := "*"
  const DOT_WILDCARD := ""
  const COMPLEX_WILDCARD := "+"

  // ------------------------------------------------------------ domains

  /** strings.Split at every dot. */
  function Split(s: string): (parts: seq<string>)
    ensures |parts| > 0
  {
    if s == "" then [""]
    else
      var rest := Split(s[1..]);
      if s[0] == '.' then [""] + rest else [[s[0]] + rest[0]] + rest[1..]
  }

  function Join(parts: seq<string>): string
    requires |parts| > 0
  {
    if |parts| == 1 then parts[0] else parts[0] + "." + Join(parts[1..])
  }

  /** Split is the inverse of Join on labels without dots. */
  lemma {:induction false} JoinSplit(s: string)
    ensures Join(Split(s)) == s
    ensures forall i :: 0 <= i < |Split(s)| ==> '.' !in Split(s)[i]
  {
    if s != "" {
      JoinSplit(s[1..]);
      var rest := Split(s[1..]);
      if s[0] == '.' {
        assert ([""] + rest)[1..] == rest;
        assert "" + "." + Join(rest) == s;
      } else {
        var parts := [[s[0]] + rest[0]] + rest[1..];
        assert parts[1..] == rest[1..];
        assert Join(parts) == [s[0]] + Join(rest);
      }
    }
  }

  /** Every label after the first is there, and a first label that is alone is there too. */
  predicate WellFormed(parts: seq<string>) {
    && (|parts| == 1 ==> parts[0] != "")
    && forall i :: 1 <= i < |parts| ==> parts[i] != ""
  }

  lemma {:induction false} TrailingDot(s: string)
    requires s != "" && s[|s| - 1] == '.'
    ensures |Split(s)| > 1 && Split(s)[|Split(s)| - 1] == ""
  {
    if |s| == 1 {
      assert s[1..] == "";
    } else {
      var rest := Split(s[1..]);
      TrailingDot(s[1..]);
      assert Split(s) == if s[0] == '.' then [""] + rest else [[s[0]] + rest[0]] + rest[1..];
    }
  }

  function Labels(domain: string): Option<seq<string>> {
    if WellFormed(Split(domain)) then Some(Split(domain)) else None
  }

  method ValidAndSplitDomain(domain: string) returns (r: Option<seq<string>>)
    ensures r == Labels(domain)
  {
    if domain != "" && domain[|domain| - 1] == '.' {
      TrailingDot(domain);
      return None;
    }
    var parts := Split(domain);
    if |parts| == 1 {
      if parts[0] == "" {
        return None;
      }
      return Some(parts);
    }
    for i := 1 to |parts|
      invariant forall j :: 1 <= j < i ==> parts[j] != ""
    {
      if parts[i] == "" {
        return None;
      }
    }
    return Some(parts);
  }

  // ------------------------------------------------------------ insertion

  ghost predicate PrefixClosed<V>(t: Table<V>) {
    [] in t && forall p :: p in t && p != [] ==> p[..|p| - 1] in t
  }

  /** Make sure that there is a node at every prefix of p. */
  function Grow<V>(t: Table<V>, p: Path): Table<V> {
    map q | q in t.Keys + Prefixes(p) :: if q in t then t[q] else None
  }

  function Prefixes(p: Path): set<Path> {
    set i | 0 <= i <= |p| :: p[..i]
  }

  function InsertAt<V>(t: Table<V>, p: Path, data: Option<V>): Table<V> {
    Grow(t, p)[p := data]
  }

  /** The paths a pattern stands for: "+.rest" is both "rest" and ".rest". */
  function PathsOf(parts: seq<string>): seq<Path>
    requires |parts| > 0
  {
    if parts[0] == COMPLEX_WILDCARD then [Reversed(parts[1..]), Reversed([DOT_WILDCARD] + parts[1..])]
    else [Reversed(parts)]
  }

  function InsertAll<V>(t: Table<V>, paths: seq<Path>, data: Option<V>): Table<V>
    decreases |paths|
  {
    if paths == [] then t else InsertAll(InsertAt(t, paths[0], data), paths[1..], data)
  }

  /** Insert; an invalid domain changes nothing. */
  function Insert<V>(t: Table<V>, domain: string, data: Option<V>): Table<V> {
    match Labels(domain)
    case None => t
    case Some(parts) => InsertAll(t, PathsOf(parts), data)
  }

  // ------------------------------------------------------------ search

  /** The search below the node at p for the labels q, last label first. */
  function Seek<V>(t: Table<V>, p: Path, q: seq<string>): Option<Path>
    decreases |q|
  {
    if q == [] then Some(p)
    else
      var literal := if p + [q[0]] in t then Seek(t, p + [q[0]], q[1..]) else None;
      if literal.Some? then literal
      else
        var star := if p + [WILDCARD] in t then Seek(t, p + [WILDCARD], q[1..]) else None;
        if star.Some? then star
        else if p + [DOT_WILDCARD] in t then Some(p + [DOT_WILDCARD]) else None
  }

  function Search<V>(t: Table<V>, domain: string): Option<V> {
    match Labels(domain)
    case None => None
    case Some(parts) =>
      if parts[0] == "" then None
      else
        match Seek(t, [], Reversed(parts))
        case None => None
        case Some(p) => if p in t then t[p] else None
  }

  /** The first n labels of p are those of q or wildcards. */
  ghost predicate Fits(p: Path, q: seq<string>, n: nat) {
    n <= |p| && n <= |q| && forall i :: 0 <= i < n ==> p[i] == q[i] || p[i] == WILDCARD
  }

  /** p matches q label by label, or up to a final dot wildcard that stands for one label or more. */
  ghost predicate Matches(p: Path, q: seq<string>) {
    (|p| == |q| && Fits(p, q, |q|))
    || (p != [] && |p| <= |q| && p[|p| - 1] == DOT_WILDCARD && Fits(p, q, |p| - 1))
  }

  /** A literal label before a wildcard before a dot wildcard. */
  function Rank(have: string, asked: string): nat {
    if have == asked then 0 else if have == WILDCARD then 1 else 2
  }

  /** a takes precedence over b: the first labels where they differ decide. */
  ghost predicate Comes(a: Path, b: Path, q: seq<string>) {
    && a != [] && b != [] && q != []
    && (Rank(a[0], q[0]) < Rank(b[0], q[0]) || (a[0] == b[0] && Comes(a[1..], b[1..], q[1..])))
  }

  ghost predicate Candidate<V>(t: Table<V>, p: Path, q: seq<string>, s: Path) {
    p + s in t && Matches(s, q)
  }

  /** s is the first of the nodes below p that match q. */
  ghost predicate First<V>(t: Table<V>, p: Path, q: seq<string>, s: Path) {
    Candidate(t, p, q, s) && forall s' :: Candidate(t, p, q, s') && s' != s ==> Comes(s, s', q)
  }

  lemma {:induction false} PrefixIn<V>(t: Table<V>, p: Path, i: nat)
    requires PrefixClosed(t) && p in t && i <= |p|
    ensures p[..i] in t
    decreases |p|
  {
    if i == |p| {
      assert p[..i] == p;
    } else {
      PrefixIn(t, p[..|p| - 1], i);
      assert p[..|p| - 1][..i] == p[..i];
    }
  }

  /** A match of q = [q0] + rest starts with q0 or a wildcard and goes on, or is the dot wildcard. */
  lemma {:induction false} MatchCases(s: Path, q: seq<string>)
    requires q != []
    ensures Matches(s, q) <==>
              s != [] && (((s[0] == q[0] || s[0] == WILDCARD) && Matches(s[1..], q[1..])) || s == [DOT_WILDCARD])
  {
    if s != [] {
      var t, r := s[1..], q[1..];
      assert forall n: nat :: n > 0 && Fits(s, q, n) ==> (s[0] == q[0] || s[0] == WILDCARD) && Fits(t, r, n - 1);
      forall n: nat | Fits(t, r, n) && (s[0] == q[0] || s[0] == WILDCARD)
        ensures Fits(s, q, n + 1)
      {
        forall i | 0 <= i < n + 1
          ensures s[i] == q[i] || s[i] == WILDCARD
        {
          if i > 0 {
            assert s[i] == t[i - 1] && q[i] == r[i - 1];
          }
        }
      }
    }
  }

  /** The labels of a domain one can search for. */
  ghost predicate Asked(q: seq<string>) {
    forall i :: 0 <= i < |q| ==> q[i] != ""
  }

  /** The candidates below p whose first label is l, and those below p + [l], are the same. */
  lemma {:induction false} CandidateBelow<V>(t: Table<V>, p: Path, q: seq<string>, l: string, s: Path)
    requires q != [] && Asked(q) && (l == q[0] || l == WILDCARD)
    ensures Candidate(t, p, q, [l] + s) <==> Candidate(t, p + [l], q[1..], s)
  {
    assert p + ([l] + s) == (p + [l]) + s;
    assert ([l] + s)[1..] == s;
    MatchCases([l] + s, q);
  }

  /** The node found below a child, with the child's label in front, is first among those with that label. */
  lemma {:induction false} FirstBelow<V>(t: Table<V>, p: Path, q: seq<string>, l: string, s: Path, s': Path)
    requires q != [] && Asked(q) && (l == q[0] || l == WILDCARD) && First(t, p + [l], q[1..], s)
    requires Candidate(t, p, q, s') && s' != [l] + s && s' != [] && s'[0] == l
    ensures Comes([l] + s, s', q)
  {
    assert s' == [l] + s'[1..];
    CandidateBelow(t, p, q, l, s'[1..]);
    assert ([l] + s)[1..] == s;
  }

  /** If no node below the child matches, no candidate starts with its label. */
  lemma {:induction false} NoneBelow<V>(t: Table<V>, p: Path, q: seq<string>, l: string, s: Path)
    requires q != [] && Asked(q) && (l == q[0] || l == WILDCARD) && PrefixClosed(t)
    requires p + [l] in t ==> forall s' :: !Candidate(t, p + [l], q[1..], s')
    requires s != [] && s[0] == l
    ensures !Candidate(t, p, q, s)
  {
    assert s == [l] + s[1..];
    CandidateBelow(t, p, q, l, s[1..]);
    if p + s in t {
      PrefixIn(t, p + s, |p| + 1);
      assert (p + s)[..|p| + 1] == p + [l];
    }
  }

  /** What a search below p for q may answer: the first matching node, or none if there is none. */
  ghost predicate Answers<V>(t: Table<V>, p: Path, q: seq<string>, r: Option<Path>) {
    match r
    case Some(n) => p <= n && First(t, p, q, n[|p|..])
    case None => forall s :: !Candidate(t, p, q, s)
  }

  lemma {:induction false} ChildAnswers<V>(t: Table<V>, p: Path, q: seq<string>, l: string, r: Path)
    requires q != [] && Asked(q) && Answers(t, p + [l], q[1..], Some(r))
    requires l == q[0] || (l == WILDCARD && forall s :: s != [] && s[0] == q[0] ==> !Candidate(t, p, q, s))
    ensures Answers(t, p, q, Some(r))
  {
    var s := r[|p| + 1..];
    assert r[|p|..] == [l] + s;
    CandidateBelow(t, p, q, l, s);
    forall s' | Candidate(t, p, q, s') && s' != [l] + s
      ensures Comes([l] + s, s', q)
    {
      MatchCases(s', q);
      if s'[0] == l {
        FirstBelow(t, p, q, l, s, s');
      }
    }
  }

  /** The search finds the first matching node, if there is one. */
  lemma {:induction false} SeekFirst<V>(t: Table<V>, p: Path, q: seq<string>)
    requires PrefixClosed(t) && p in t && Asked(q)
    ensures Answers(t, p, q, Seek(t, p, q))
    decreases |q|, 2
  {
    if q == [] {
      assert p + [] == p && p[|p|..] == [];
    } else {
      SeekChild(t, p, q, q[0]);
      if p + [q[0]] in t && Seek(t, p + [q[0]], q[1..]).Some? {
        ChildAnswers(t, p, q, q[0], Seek(t, p + [q[0]], q[1..]).value);
      } else {
        forall s | s != [] && s[0] == q[0]
          ensures !Candidate(t, p, q, s)
        {
          NoneBelow(t, p, q, q[0], s);
        }
        SeekStar(t, p, q);
      }
    }
  }

  lemma {:induction false} SeekChild<V>(t: Table<V>, p: Path, q: seq<string>, l: string)
    requires PrefixClosed(t) && q != [] && Asked(q)
    ensures p + [l] in t ==> Answers(t, p + [l], q[1..], Seek(t, p + [l], q[1..]))
    decreases |q|, 0
  {
    if p + [l] in t {
      SeekFirst(t, p + [l], q[1..]);
    }
  }

  /** The rest of the search, when no literal child leads to a match. */
  lemma {:induction false} SeekStar<V>(t: Table<V>, p: Path, q: seq<string>)
    requires PrefixClosed(t) && p in t && q != [] && Asked(q)
    requires p + [q[0]] in t ==> Seek(t, p + [q[0]], q[1..]).None?
    requires forall s :: s != [] && s[0] == q[0] ==> !Candidate(t, p, q, s)
    ensures Answers(t, p, q, Seek(t, p, q))
    decreases |q|, 1
  {
    SeekChild(t, p, q, WILDCARD);
    if p + [WILDCARD] in t && Seek(t, p + [WILDCARD], q[1..]).Some? {
      ChildAnswers(t, p, q, WILDCARD, Seek(t, p + [WILDCARD], q[1..]).value);
    } else {
      forall s | Candidate(t, p, q, s)
        ensures s == [DOT_WILDCARD]
      {
        MatchCases(s, q);
        if s[0] == WILDCARD {
          NoneBelow(t, p, q, WILDCARD, s);
        }
      }
      MatchCases([DOT_WILDCARD], q);
      assert (p + [DOT_WILDCARD])[|p|..] == [DOT_WILDCARD];
    }
  }
}
