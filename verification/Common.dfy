/** Values and sequence facts shared by the models. */
module Common {

  datatype Option<+T> = None | Some(value: T)

  /** The elements of s that satisfy p, in their original order. */
  function FilterSeq<T>(p: T -> bool, s: seq<T>): seq<T> {
    if s == [] then []
    else if p(s[0]) then [s[0]] + FilterSeq(p, s[1..])
    else FilterSeq(p, s[1..])
  }

  lemma {:induction false} FilterMembers<T>(p: T -> bool, s: seq<T>)
    ensures forall x :: x in FilterSeq(p, s) <==> x in s && p(x)
  {
    if s != [] {
      FilterMembers(p, s[1..]);
      assert forall x :: x in s <==> x == s[0] || x in s[1..];
    }
  }

  lemma {:induction false} FilterAppend<T>(p: T -> bool, s: seq<T>, t: seq<T>)
    ensures FilterSeq(p, s + t) == FilterSeq(p, s) + FilterSeq(p, t)
  {
    if s == [] {
      assert s + t == t;
    } else {
      assert (s + t)[1..] == s[1..] + t;
      FilterAppend(p, s[1..], t);
    }
  }

  lemma {:induction false} FilterAgree<T>(p: T -> bool, q: T -> bool, s: seq<T>)
    requires forall x :: x in s ==> p(x) == q(x)
    ensures FilterSeq(p, s) == FilterSeq(q, s)
  {
    if s != [] {
      FilterAgree(p, q, s[1..]);
    }
  }

  /** Two filters leave the same list exactly when they decide every listed element alike. */
  lemma {:induction false} FilterEqualIffAgree<T>(p: T -> bool, q: T -> bool, s: seq<T>)
    ensures FilterSeq(p, s) == FilterSeq(q, s) <==> forall x :: x in s ==> p(x) == q(x)
  {
    if forall x :: x in s ==> p(x) == q(x) {
      FilterAgree(p, q, s);
    } else {
      FilterMembers(p, s);
      FilterMembers(q, s);
    }
  }

  lemma {:induction false} FilterKeepsAll<T>(p: T -> bool, s: seq<T>)
    requires forall x :: x in s ==> p(x)
    ensures FilterSeq(p, s) == s
  {
    if s != [] {
      FilterKeepsAll(p, s[1..]);
    }
  }

  /** A stricter filter gives the same result after a laxer one. */
  lemma {:induction false} FilterThrough<T>(p: T -> bool, q: T -> bool, s: seq<T>)
    requires forall x :: x in s && q(x) ==> p(x)
    ensures FilterSeq(q, FilterSeq(p, s)) == FilterSeq(q, s)
  {
    if s != [] {
      FilterThrough(p, q, s[1..]);
      if p(s[0]) {
        assert FilterSeq(p, s)[1..] == FilterSeq(p, s[1..]);
      }
    }
  }

  function Both<T>(p: T -> bool, q: T -> bool): T -> bool {
    x => p(x) && q(x)
  }

  lemma {:induction false} FilterBoth<T>(p: T -> bool, q: T -> bool, s: seq<T>)
    ensures FilterSeq(q, FilterSeq(p, s)) == FilterSeq(Both(p, q), s)
  {
    if s != [] {
      FilterBoth(p, q, s[1..]);
      if p(s[0]) {
        assert FilterSeq(p, s)[1..] == FilterSeq(p, s[1..]);
      }
    }
  }

  lemma {:induction false} FilterCommutes<T>(p: T -> bool, q: T -> bool, s: seq<T>)
    ensures FilterSeq(p, FilterSeq(q, s)) == FilterSeq(q, FilterSeq(p, s))
  {
    FilterBoth(p, q, s);
    FilterBoth(q, p, s);
    FilterAgree(Both(p, q), Both(q, p), s);
  }

  /** A stricter filter leaves fewer elements, and as many only if it leaves the same. */
  lemma {:induction false} FilterStricter<T>(p: T -> bool, q: T -> bool, s: seq<T>)
    requires forall x :: x in s && p(x) ==> q(x)
    ensures |FilterSeq(p, s)| <= |FilterSeq(q, s)|
    ensures |FilterSeq(p, s)| == |FilterSeq(q, s)| ==> FilterSeq(p, s) == FilterSeq(q, s)
  {
    if s != [] {
      FilterStricter(p, q, s[1..]);
    }
  }

  /** t is s with some elements left out. */
  ghost predicate Subsequence<T>(t: seq<T>, s: seq<T>) {
    t == [] || (s != [] && ((t[0] == s[0] && Subsequence(t[1..], s[1..])) || Subsequence(t, s[1..])))
  }

  /** A filtered list is the original with exactly the failing occurrences left out. */
  lemma {:induction false} FilterCounts<T>(p: T -> bool, s: seq<T>)
    ensures Subsequence(FilterSeq(p, s), s)
    ensures forall x :: multiset(FilterSeq(p, s))[x] == if p(x) then multiset(s)[x] else 0
  {
    if s != [] {
      FilterCounts(p, s[1..]);
      assert s == [s[0]] + s[1..];
      if p(s[0]) {
        assert FilterSeq(p, s)[1..] == FilterSeq(p, s[1..]);
      }
    }
  }
}
