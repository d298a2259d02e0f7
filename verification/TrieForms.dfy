/** The forms of pattern that component/trie/domain.go promises, as text: what each of them, inserted alone, finds. */
module TrieForms {
  import opened Collections
  import opened Trie
  import opened TrieRuns

  // ------------------------------------------------------------ domains and paths

  lemma {:induction false} SplitConcat(x: string, t: string)
    ensures Split(x + "." + t) == Split(x) + Split(t)
  {
    var u := x + "." + t;
    if x == "" {
      assert u[1..] == t;
    } else {
      SplitConcat(x[1..], t);
      assert u[1..] == x[1..] + "." + t;
      SplitNext(x[0], Split(x[1..]), Split(t));
    }
  }

  lemma {:induction false} SplitNext(c: char, a: seq<string>, b: seq<string>)
    requires |a| > 0
    ensures [""] + (a + b) == [""] + a + b
    ensures [[c] + (a + b)[0]] + (a + b)[1..] == [[c] + a[0]] + a[1..] + b
  {
    assert (a + b)[1..] == a[1..] + b;
  }

  lemma {:induction false} JoinConcat(a: seq<string>, b: seq<string>)
    requires |a| > 0 && |b| > 0
    ensures Join(a + b) == Join(a) + "." + Join(b)
  {
    if |a| == 1 {
      assert (a + b)[1..] == b;
    } else {
      JoinConcat(a[1..], b);
      assert (a + b)[1..] == a[1..] + b;
      assert a[0] + "." + (Join(a[1..]) + "." + Join(b)) == (a[0] + "." + Join(a[1..])) + "." + Join(b);
    }
  }

  lemma {:induction false} ReversedConcat(a: seq<string>, b: seq<string>)
    ensures Reversed(a + b) == Reversed(b) + Reversed(a)
  {
  }

  /** The domain lies below `rest`, by one label or more. */
  ghost predicate Below(domain: string, rest: string) {
    exists x :: domain == x + "." + rest
  }

  /** That is so exactly if its path goes on where that of `rest` ends. */
  lemma {:induction false} BelowIff(domain: string, rest: string)
    requires Query(domain).Some? && Query(rest).Some?
    ensures Below(domain, rest) <==> Query(rest).value < Query(domain).value
  {
    if x :| domain == x + "." + rest {
      SplitConcat(x, rest);
      ReversedConcat(Split(x), Split(rest));
    }
    if Query(rest).value < Query(domain).value {
      var x := Above(domain, rest);
    }
  }

  lemma {:induction false} Above(domain: string, rest: string) returns (x: string)
    requires Query(domain).Some? && Query(rest).Some? && Query(rest).value < Query(domain).value
    ensures domain == x + "." + rest
  {
    var d, r := Split(domain), Split(rest);
    var n := |d| - |r|;
    assert d[n..] == r by {
      forall i | 0 <= i < |r|
        ensures d[n + i] == r[i]
      {
        assert Reversed(r)[|r| - 1 - i] == Reversed(d)[|r| - 1 - i];
      }
    }
    assert d == d[..n] + r;
    JoinConcat(d[..n], r);
    JoinSplit(domain);
    JoinSplit(rest);
    x := Join(d[..n]);
  }

  lemma {:induction false} SameQuery(domain: string, rest: string)
    requires Query(domain).Some? && Query(domain) == Query(rest)
    ensures domain == rest
  {
    var d, r := Split(domain), Split(rest);
    forall i | 0 <= i < |d|
      ensures d[i] == r[i]
    {
      assert Reversed(d)[|d| - 1 - i] == Reversed(r)[|d| - 1 - i];
    }
    assert d == r;
    JoinSplit(domain);
    JoinSplit(rest);
  }

  // ------------------------------------------------------------ which domains are valid

  /** No two dots in a row. */
  ghost predicate NoGap(s: string) {
    forall i :: 0 <= i < |s| - 1 ==> s[i] != '.' || s[i + 1] != '.'
  }

  lemma {:induction false} FirstLabel(s: string)
    ensures Split(s)[0] == "" <==> s == "" || s[0] == '.'
  {
  }

  lemma {:induction false} LaterLabels(s: string)
    ensures (forall i :: 1 <= i < |Split(s)| ==> Split(s)[i] != "") <==> NoGap(s) && (s == "" || s[|s| - 1] != '.')
  {
    if s != "" {
      var t := s[1..];
      LaterLabels(t);
      FirstLabel(t);
      LabelsShift(s[0], Split(t), Split(s));
      GapShift(s);
    }
  }

  lemma {:induction false} LabelsShift(c: char, rest: seq<string>, parts: seq<string>)
    requires |rest| > 0 && parts == if c == '.' then [""] + rest else [[c] + rest[0]] + rest[1..]
    ensures (forall i :: 1 <= i < |parts| ==> parts[i] != "") <==>
              (forall i :: 1 <= i < |rest| ==> rest[i] != "") && (c == '.' ==> rest[0] != "")
  {
    if c == '.' {
      assert forall i :: 0 <= i < |rest| ==> rest[i] == parts[i + 1];
    } else {
      assert forall i :: 1 <= i < |rest| ==> rest[i] == parts[i];
    }
  }

  lemma {:induction false} GapShift(s: string)
    requires s != ""
    ensures NoGap(s) <==> NoGap(s[1..]) && (|s| > 1 && s[0] == '.' ==> s[1] != '.')
  {
    var t := s[1..];
    assert forall i :: 0 <= i < |t| ==> t[i] == s[i + 1];
    if NoGap(t) && (|s| > 1 && s[0] == '.' ==> s[1] != '.') {
      forall i | 0 <= i < |s| - 1
        ensures s[i] != '.' || s[i + 1] != '.'
      {
        assert i > 0 ==> s[i] == t[i - 1] && s[i + 1] == t[i];
      }
    }
  }

  /** A pattern is valid exactly if it is not empty, does not end with a dot and has no two dots in a row; its labels
      are what lies between the dots. */
  lemma {:induction false} LabelsIff(domain: string)
    ensures Labels(domain).Some? <==> domain != "" && domain[|domain| - 1] != '.' && NoGap(domain)
    ensures Labels(domain).Some? ==> Join(Labels(domain).value) == domain
    ensures forall i :: Labels(domain).Some? && 0 <= i < |Labels(domain).value| ==> '.' !in Labels(domain).value[i]
  {
    LaterLabels(domain);
    FirstLabel(domain);
    JoinSplit(domain);
  }

  /** It can be searched for exactly if it does not start with a dot either. */
  lemma {:induction false} QueryIff(domain: string)
    ensures Query(domain).Some? <==> domain != "" && domain[0] != '.' && domain[|domain| - 1] != '.' && NoGap(domain)
  {
    LabelsIff(domain);
    FirstLabel(domain);
  }

  // ------------------------------------------------------------ the paths of a pattern

  lemma {:induction false} Prefixed(first: string, rest: string)
    requires '.' !in first && Query(rest).Some?
    ensures Labels(first + "." + rest) == Some([first] + Split(rest))
    ensures Reversed([first] + Split(rest)) == Query(rest).value + [first]
  {
    SplitDot(first, rest);
    ReversedConcat([first], Split(rest));
    assert Reversed([first]) == [first];
  }

  /** A pattern in front of a domain that can be searched for, by the literal text. */
  lemma {:induction false} FormPaths(rest: string)
    requires Query(rest).Some?
    ensures var q := Query(rest).value;
            && PathsFor("+." + rest) == [q, q + [""]]
            && PathsFor("." + rest) == [q + [""]]
            && PathsFor("*." + rest) == [q + ["*"]]
  {
    var parts := Split(rest);
    Prefixed("+", rest);
    Prefixed("", rest);
    Prefixed("*", rest);
    assert "+" + "." + rest == "+." + rest && "" + "." + rest == "." + rest && "*" + "." + rest == "*." + rest;
    assert (["+"] + parts)[1..] == parts;
  }

  /** A domain as its own pattern. */
  lemma {:induction false} PlainPaths(rest: string)
    requires Query(rest).Some? && Split(rest)[0] != "+"
    ensures PathsFor(rest) == [Query(rest).value]
  {
  }

  // ------------------------------------------------------------ what one insertion finds

  lemma {:induction false} Single<V>(pattern: string, v: V, p: Path)
    ensures HasNode([Insertion(pattern, Some(v))], p) <==> p == [] || Covers(PathsFor(pattern), p)
    ensures LastAt([Insertion(pattern, Some(v))], p) == if p in PathsFor(pattern) then Some(Some(v)) else None
  {
    var op := Insertion(pattern, Some(v));
    assert [op][..0] == [];
  }

  /** A dot wildcard is the only node that matches a domain below it. */
  lemma {:induction false} DotFinds<V>(pattern: string, rest: string, v: V, domain: string)
    requires Query(rest).Some? && Query(domain).Some? && Query(rest).value < Query(domain).value
    requires PathsFor(pattern) in [[Query(rest).value + [""]], [Query(rest).value, Query(rest).value + [""]]]
    ensures Search(Build([Insertion(pattern, Some(v))]), domain) == Some(v)
  {
    var ops, q, d := [Insertion(pattern, Some(v))], Query(rest).value, Query(domain).value;
    var dot := q + [""];
    forall p | HasNode(ops, p) && Matches(p, d)
      ensures p == dot
    {
      Single(pattern, v, p);
      OnlyDot(q, d, p);
    }
    Single(pattern, v, dot);
    assert dot in PathsFor(pattern);
    assert Covers(PathsFor(pattern), dot) by {
      assert dot <= PathsFor(pattern)[|PathsFor(pattern)| - 1];
    }
    assert Fits(dot, d, |q|);
    assert FirstMatch(ops, d, dot);
    SearchIsFirstMatch(ops, domain);
  }

  lemma {:induction false} OnlyDot(q: Path, d: Path, p: Path)
    requires Asked(q) && Asked(d) && q < d && Matches(p, d) && (p <= q || p <= q + [""])
    ensures p == q + [""]
  {
  }

  /** "+.rest" finds rest and everything below it. */
  lemma {:induction false} PlusFinds<V>(rest: string, v: V, domain: string)
    requires Query(rest).Some? && Query(domain).Some? && (domain == rest || Below(domain, rest))
    ensures Search(Build([Insertion("+." + rest, Some(v))]), domain) == Some(v)
  {
    FormPaths(rest);
    if domain == rest {
      Single("+." + rest, v, Query(rest).value);
      LiteralIsFound([Insertion("+." + rest, Some(v))], rest);
    } else {
      BelowIff(domain, rest);
      DotFinds("+." + rest, rest, v, domain);
    }
  }

  /** ".rest" finds everything below rest. */
  lemma {:induction false} DotDomainFinds<V>(rest: string, v: V, domain: string)
    requires Query(rest).Some? && Query(domain).Some? && Below(domain, rest)
    ensures Search(Build([Insertion("." + rest, Some(v))]), domain) == Some(v)
  {
    FormPaths(rest);
    BelowIff(domain, rest);
    DotFinds("." + rest, rest, v, domain);
  }

  /** "*.rest" finds rest with one label in front. */
  lemma {:induction false} StarFinds<V>(rest: string, v: V, x: string)
    requires Query(rest).Some? && '.' !in x && Query(x + "." + rest).Some?
    ensures Search(Build([Insertion("*." + rest, Some(v))]), x + "." + rest) == Some(v)
  {
    var pattern, ops := "*." + rest, [Insertion("*." + rest, Some(v))];
    var q, star := Query(rest).value, Query(rest).value + ["*"];
    FormPaths(rest);
    Prefixed(x, rest);
    var d := q + [x];
    forall p | HasNode(ops, p) && Matches(p, d)
      ensures p == star
    {
      Single(pattern, v, p);
      OnlyStar(q, x, p);
    }
    Single(pattern, v, star);
    assert star <= PathsFor(pattern)[0];
    assert Fits(star, d, |d|);
    assert FirstMatch(ops, d, star);
    SearchIsFirstMatch(ops, x + "." + rest);
  }

  lemma {:induction false} OnlyStar(q: Path, x: string, p: Path)
    requires Asked(q) && x != "" && Matches(p, q + [x]) && p <= q + ["*"]
    ensures p == q + ["*"]
  {
  }

  ghost predicate NoStar(q: Path) {
    forall i :: 0 <= i < |q| ==> q[i] != "*"
  }

  /** Without wildcards in rest the forms find nothing else. */
  lemma {:induction false} FormsFind<V>(rest: string, v: V, domain: string)
    requires Query(rest).Some? && Query(domain).Some? && NoStar(Query(rest).value)
    ensures Search(Build([Insertion("+." + rest, Some(v))]), domain).Some? <==> domain == rest || Below(domain, rest)
    ensures Search(Build([Insertion("." + rest, Some(v))]), domain).Some? <==> Below(domain, rest)
    ensures Search(Build([Insertion("*." + rest, Some(v))]), domain).Some? <==> exists x :: '.' !in x && domain == x + "." + rest
    ensures Split(rest)[0] != "+" ==> (Search(Build([Insertion(rest, Some(v))]), domain).Some? <==> domain == rest)
  {
    var q, d := Query(rest).value, Query(domain).value;
    FormPaths(rest);
    BelowIff(domain, rest);
    if domain == rest || Below(domain, rest) {
      PlusFinds(rest, v, domain);
    } else {
      FindsOnly("+." + rest, rest, v, domain);
    }
    if Below(domain, rest) {
      DotDomainFinds(rest, v, domain);
    } else {
      FindsOnly("." + rest, rest, v, domain);
    }
    StarFindsOnly(rest, v, domain);
    if Split(rest)[0] != "+" {
      PlainFindsOnly(rest, v, domain);
    }
  }

  lemma {:induction false} FindsOnly<V>(pattern: string, rest: string, v: V, domain: string)
    requires Query(rest).Some? && Query(domain).Some? && NoStar(Query(rest).value)
    requires PathsFor(pattern) in [[Query(rest).value + [""]], [Query(rest).value, Query(rest).value + [""]]]
    requires !Below(domain, rest) && (Query(rest).value in PathsFor(pattern) ==> domain != rest)
    ensures Search(Build([Insertion(pattern, Some(v))]), domain).None?
  {
    var q, d, found := Query(rest).value, Query(domain).value, Search(Build([Insertion(pattern, Some(v))]), domain);
    BelowIff(domain, rest);
    if found.Some? {
      var p := FoundAt(pattern, v, domain);
      if p == q {
        SameLabels(q, d);
        SameQuery(domain, rest);
      } else {
        NoStarFits(q + [""], d, |q|);
      }
    }
  }

  lemma {:induction false} FoundAt<V>(pattern: string, v: V, domain: string) returns (p: Path)
    requires Search(Build([Insertion(pattern, Some(v))]), domain).Some?
    ensures Query(domain).Some? && p in PathsFor(pattern) && Matches(p, Query(domain).value)
  {
    var ops := [Insertion(pattern, Some(v))];
    SearchIsSound(ops, domain, Search(Build(ops), domain).value);
    p :| Matches(p, Query(domain).value) && LastAt(ops, p).Some?;
    Single(pattern, v, p);
  }

  lemma {:induction false} NoStarFits(p: Path, d: Path, n: nat)
    requires Fits(p, d, n) && NoStar(p[..n])
    ensures p[..n] == d[..n]
  {
    assert forall i :: 0 <= i < n ==> p[..n][i] != "*";
  }

  lemma {:induction false} SameLabels(q: Path, d: Path)
    requires Matches(q, d) && NoStar(q) && Asked(q) && q != []
    ensures q == d
  {
    assert q[|q| - 1] != "";
  }

  lemma {:induction false} StarFindsOnly<V>(rest: string, v: V, domain: string)
    requires Query(rest).Some? && Query(domain).Some? && NoStar(Query(rest).value)
    ensures Search(Build([Insertion("*." + rest, Some(v))]), domain).Some? <==> exists x :: '.' !in x && domain == x + "." + rest
  {
    var q, d := Query(rest).value, Query(domain).value;
    FormPaths(rest);
    if x :| '.' !in x && domain == x + "." + rest {
      StarFinds(rest, v, x);
    }
    if Search(Build([Insertion("*." + rest, Some(v))]), domain).Some? {
      var p := FoundAt("*." + rest, v, domain);
      NoStarFits(p, d, |q|);
      assert d == q + [d[|q|]];
      OneLabel(domain, rest);
    }
  }

  lemma {:induction false} OneLabel(domain: string, rest: string)
    requires Query(domain).Some? && Query(rest).Some?
    requires Query(rest).value < Query(domain).value && |Query(domain).value| == |Query(rest).value| + 1
    ensures exists x :: '.' !in x && domain == x + "." + rest
  {
    var x := Above(domain, rest);
    SplitConcat(x, rest);
    JoinSplit(x);
    assert |Split(x)| == 1 && Split(x)[0] == x;
  }

  lemma {:induction false} PlainFindsOnly<V>(rest: string, v: V, domain: string)
    requires Query(rest).Some? && Query(domain).Some? && NoStar(Query(rest).value) && Split(rest)[0] != "+"
    ensures Search(Build([Insertion(rest, Some(v))]), domain).Some? <==> domain == rest
  {
    var q, d := Query(rest).value, Query(domain).value;
    PlainPaths(rest);
    if domain == rest {
      Single(rest, v, q);
      LiteralIsFound([Insertion(rest, Some(v))], rest);
    }
    if Search(Build([Insertion(rest, Some(v))]), domain).Some? {
      var p := FoundAt(rest, v, domain);
      SameLabels(q, d);
      SameQuery(domain, rest);
    }
  }
}
