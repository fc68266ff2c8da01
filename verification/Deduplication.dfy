/** The deduplicating filter of the listings: one source per name (internal/service/db/impl_mcp.go, impl_plugins.go). */
module Deduplication {
  import opened Common
  import opened Text
  import opened Keyset

  ghost predicate Named(s: seq<Row>, n: string) { exists r :: r in s && r.name == n }

  ghost function FirstNamed(s: seq<Row>, n: string): (r: Row)
    requires Named(s, n)
    ensures r in s && r.name == n
  {
    if s[0].name == n then s[0] else assert Named(s[1..], n); FirstNamed(s[1..], n)
  }

  /** The row comes from the source that showed the name first. */
  ghost function Winner(s: seq<Row>): Row -> bool {
    (r: Row) => Named(s, r.name) && r.position == FirstNamed(s, r.name).position
  }

  /** What the deduplicating filter keeps of a list. */
  ghost function Dedup(s: seq<Row>): seq<Row> { FilterSeq(Winner(s), s) }

  lemma {:induction false} FirstNamedAppend(s: seq<Row>, t: seq<Row>, n: string)
    requires Named(s + t, n)
    ensures FirstNamed(s + t, n) == if Named(s, n) then FirstNamed(s, n) else (assert Named(t, n); FirstNamed(t, n))
  {
    if s == [] {
      assert s + t == t;
    } else {
      assert (s + t)[0] == s[0] && (s + t)[1..] == s[1..] + t;
      if s[0].name != n {
        assert Named(s[1..] + t, n);
        FirstNamedAppend(s[1..], t, n);
        assert Named(s, n) <==> Named(s[1..], n);
      } else {
        assert s[0] in s;
      }
    }
  }

  /** One more row: kept when its name is new or its source is the one that showed the name first. */
  lemma {:induction false} DedupSnoc(s: seq<Row>, r: Row)
    ensures Dedup(s + [r]) ==
            Dedup(s) + if !Named(s, r.name) || r.position == FirstNamed(s, r.name).position then [r] else []
  {
    FilterAppend(Winner(s + [r]), s, [r]);
    forall x | x in s ensures Winner(s + [r])(x) == Winner(s)(x) {
      assert Named(s, x.name) && Named(s + [r], x.name) by { assert x in s + [r]; }
      FirstNamedAppend(s, [r], x.name);
    }
    FilterAgree(Winner(s + [r]), Winner(s), s);
    assert r in s + [r];
    FirstNamedAppend(s, [r], r.name);
  }

  lemma {:induction false} DedupPrefix(s: seq<Row>, t: seq<Row>)
    ensures Dedup(s) <= Dedup(s + t)
    decreases |t|
  {
    if t == [] {
      assert s + t == s;
    } else {
      var n := |t| - 1;
      DedupPrefix(s, t[..n]);
      DedupSnoc(s + t[..n], t[n]);
      assert s + t == s + t[..n] + [t[n]];
    }
  }

  /** The first row of a name is in order before every other one. */
  lemma {:induction false} FirstNamedInOrder(s: seq<Row>, r: Row)
    requires Sorted(s) && r in s
    ensures Named(s, r.name) && (FirstNamed(s, r.name) == r || InOrder(FirstNamed(s, r.name), r))
  {
    if s[0].name == r.name {
      var i :| 0 <= i < |s| && s[i] == r;
      assert i > 0 ==> InOrder(s[0], s[i]);
    } else {
      assert r in s[1..];
      FirstNamedInOrder(s[1..], r);
    }
  }

  /** Two sorted lists that hold each other's first row of a name show it first from the same position. */
  lemma {:induction false} SameLead(s: seq<Row>, t: seq<Row>, n: string)
    requires Sorted(s) && Sorted(t) && Named(s, n) && Named(t, n)
    requires FirstNamed(s, n) in t && FirstNamed(t, n) in s
    ensures FirstNamed(s, n).position == FirstNamed(t, n).position
  {
    var f, g := FirstNamed(s, n), FirstNamed(t, n);
    FirstNamedInOrder(s, g);
    FirstNamedInOrder(t, f);
    KeyLessTotal(KeyOf(f), KeyOf(g));
  }

  // ---------------------------------------------------------------- the filter

  /** The deduplicating filter's memory after a list: the position that first showed each name. */
  function Seen(s: seq<Row>): map<string, int> {
    if s == [] then map[]
    else
      var before, r := Seen(s[..|s| - 1]), s[|s| - 1];
      if r.name in before then before else before[r.name := r.position]
  }

  predicate Accepts(seen: map<string, int>, r: Row) { r.name !in seen || seen[r.name] == r.position }

  /** The rows it lets through, one after the other. */
  function Kept(s: seq<Row>): seq<Row> {
    if s == [] then []
    else
      var r := s[|s| - 1];
      Kept(s[..|s| - 1]) + if Accepts(Seen(s[..|s| - 1]), r) then [r] else []
  }

  lemma {:induction false} SeenIsFirst(s: seq<Row>, n: string)
    ensures n in Seen(s) <==> Named(s, n)
    ensures n in Seen(s) ==> Seen(s)[n] == FirstNamed(s, n).position
  {
    if s != [] {
      var init, r := s[..|s| - 1], s[|s| - 1];
      assert s == init + [r];
      SeenIsFirst(init, n);
      SeenIsFirst(init, r.name);
      assert Named(s, n) <==> Named(init, n) || r.name == n by {
        assert r in s;
        if Named(init, n) {
          var x :| x in init && x.name == n;
          assert x in s;
        }
      }
      if Named(s, n) {
        FirstNamedAppend(init, [r], n);
      }
    }
  }

  lemma {:induction false} KeptIsDedup(s: seq<Row>)
    ensures Kept(s) == Dedup(s)
  {
    if s != [] {
      var init, r := s[..|s| - 1], s[|s| - 1];
      assert s == init + [r];
      KeptIsDedup(init);
      SeenIsFirst(init, r.name);
      DedupSnoc(init, r);
    }
  }

  lemma {:induction false} KeptSnoc(s: seq<Row>, r: Row)
    ensures Kept(s + [r]) == Kept(s) + if Accepts(Seen(s), r) then [r] else []
    ensures Seen(s + [r]) == if r.name in Seen(s) then Seen(s) else Seen(s)[r.name := r.position]
  {
    assert (s + [r])[..|s|] == s;
  }

  /** What the filter has kept, and remembers, of the rows done. */
  ghost predicate Filtered(acc: seq<Row>, seen: map<string, int>, done: seq<Row>) {
    acc == Kept(done) && seen == Seen(done)
  }

  // ---------------------------------------------------------------- does the first source win?

  /** The row's source has the highest priority among those that carry the name. */
  ghost function TopSource(s: seq<Row>): Row -> bool {
    (r: Row) => forall q :: q in s && q.name == r.name ==> r.position <= q.position
  }

  /** The source that shows a name first is the highest-priority one that carries it. */
  ghost predicate TopSourceLeads(s: seq<Row>) {
    forall r :: r in s ==> (assert Named(s, r.name); FirstNamed(s, r.name).position) <= r.position
  }

  lemma {:induction false} WinsIffLeads(s: seq<Row>)
    ensures Dedup(s) == FilterSeq(TopSource(s), s) <==> TopSourceLeads(s)
  {
    FilterEqualIffAgree(Winner(s), TopSource(s), s);
    if TopSourceLeads(s) {
      forall r | r in s ensures Winner(s)(r) == TopSource(s)(r) {
        assert Named(s, r.name);
        var first := FirstNamed(s, r.name);
      }
    } else {
      var r :| r in s && (assert Named(s, r.name); FirstNamed(s, r.name).position) > r.position;
      var first := FirstNamed(s, r.name);
      assert Winner(s)(first) && !TopSource(s)(first);
    }
  }

  /** The highest-priority source that carries the name carries its smallest version, too. */
  ghost predicate TopCarriesSmallest(s: seq<Row>, n: string) {
    exists q :: q in s && q.name == n && TopSource(s)(q) && Smallest(s, q)
  }

  ghost predicate Smallest(s: seq<Row>, q: Row) {
    forall t :: t in s && t.name == q.name ==> !StrLess(t.version, q.version)
  }

  lemma {:induction false} FirstNamedIsSmallest(s: seq<Row>, n: string)
    requires Sorted(s) && Named(s, n)
    ensures Smallest(s, FirstNamed(s, n))
  {
    forall t | t in s && t.name == n ensures !StrLess(t.version, FirstNamed(s, n).version) {
      FirstNamedInOrder(s, t);
      StrLessTotal(t.version, FirstNamed(s, n).version);
      StrLessTotal(n, n);
    }
  }

  lemma {:induction false} TopLeadsName(s: seq<Row>, n: string)
    requires Sorted(s) && Named(s, n)
    ensures TopSource(s)(FirstNamed(s, n)) <==> TopCarriesSmallest(s, n)
  {
    var first := FirstNamed(s, n);
    FirstNamedIsSmallest(s, n);
    if q :| q in s && q.name == n && TopSource(s)(q) && Smallest(s, q) {
      FirstNamedInOrder(s, q);
      StrLessTotal(first.version, q.version);
      StrLessTotal(n, n);
      assert first.position <= q.position;
    }
  }

  lemma LeadsIffCarries(s: seq<Row>)
    requires Sorted(s)
    ensures TopSourceLeads(s) <==> forall r :: r in s ==> TopCarriesSmallest(s, r.name)
  {
    forall r | r in s
      ensures Named(s, r.name)
      ensures TopCarriesSmallest(s, r.name) ==> FirstNamed(s, r.name).position <= r.position
      ensures TopSourceLeads(s) ==> TopCarriesSmallest(s, r.name)
    {
      assert Named(s, r.name);
      TopLeadsName(s, r.name);
    }
  }

  /**
   "The first source in the list wins" holds of a listing if and only if, for every name, the highest-priority source
   that carries it also carries its smallest version.
   */
  lemma {:induction false} FirstSourceWinsIff(s: seq<Row>)
    requires Sorted(s)
    ensures Dedup(s) == FilterSeq(TopSource(s), s) <==> forall r :: r in s ==> TopCarriesSmallest(s, r.name)
  {
    WinsIffLeads(s);
    LeadsIffCarries(s);
  }

  /** A lower-priority source with a smaller version takes the name over. */
  lemma {:induction false} FirstSourceCanLose(n: string, v1: string, v2: string, b: string)
    requires StrLess(v1, v2)
    ensures var s := [Row(n, v1, 1, b), Row(n, v2, 0, b)];
            Sorted(s) && Dedup(s) == [Row(n, v1, 1, b)] && FilterSeq(TopSource(s), s) == [Row(n, v2, 0, b)]
  {
    var x, y := Row(n, v1, 1, b), Row(n, v2, 0, b);
    var s := [x, y];
    assert s[0] == x && s[1] == y && x in s && y in s;
    assert s[1..] == [y] && [y][1..] == [];
    assert Winner(s)(x) && !Winner(s)(y);
    assert !TopSource(s)(x) && TopSource(s)(y);
    FilterPair(Winner(s), x, y);
    FilterPair(TopSource(s), x, y);
  }

  lemma FilterPair(p: Row -> bool, x: Row, y: Row)
    ensures FilterSeq(p, [x, y]) == (if p(x) then [x] else []) + if p(y) then [y] else []
  {
    assert [x, y][1..] == [y] && [y][1..] == [];
    assert FilterSeq(p, [y]) == if p(y) then [y] else [];
  }

  lemma DedupOne(x: Row)
    ensures Dedup([x]) == [x]
  {
    assert [x][0] == x && x in [x];
    assert Winner([x])(x);
    FilterKeepsAll(Winner([x]), [x]);
  }

  lemma DedupTwo(x: Row, y: Row)
    requires x.name != y.name
    ensures Dedup([x, y]) == [x, y]
  {
    var s := [x, y];
    assert x in s && y in s && s[1..] == [y] && y in [y];
    FilterPair(Winner(s), x, y);
  }

  lemma DedupThree(a: Row, b: Row, c: Row)
    requires a.name != b.name && b.name != c.name && a.name != c.name
    ensures Dedup([a, b, c]) == [a, b, c]
  {
    assert [a, b, c] == [a, b] + [c];
    DedupTwo(a, b);
    assert !Named([a, b], c.name);
    DedupSnoc([a, b], c);
  }
}
