/**
 The streaming, deduplicating reader over the listPlugins query (internal/service/db/impl_plugins.go, impl_mcp.go):
 what a request, and a client that follows the cursors, gets to see of the visible rows.
 */
module Listing {
  import opened Common
  import opened Text
  import opened Keyset
  import opened Deduplication

  function Flatten(pages: seq<seq<Row>>): seq<Row> {
    if pages == [] then [] else pages[0] + Flatten(pages[1..])
  }

  /** The visible rows of every page from a cursor on. */
  ghost function Visible(all: seq<Row>, cursor: Option<Key>, size: nat, visible: Row -> bool): seq<Row>
    requires size >= 1
  {
    FilterSeq(visible, Flatten(Pages(all, cursor, size)))
  }

  lemma VisibleStep(all: seq<Row>, cursor: Option<Key>, size: nat, visible: Row -> bool)
    requires size >= 1
    ensures var page := Page(all, cursor, size);
            Visible(all, cursor, size, visible) ==
            FilterSeq(visible, page) +
            if |page| < size then [] else Visible(all, Some(KeyOf(page[size - 1])), size, visible)
  {
    var page := Page(all, cursor, size);
    if |page| < size {
      assert Flatten([page]) == page + Flatten([]) == page;
    } else {
      var later := Pages(all, Some(KeyOf(page[size - 1])), size);
      assert Pages(all, cursor, size) == [page] + later;
      assert ([page] + later)[1..] == later;
      FilterAppend(visible, page, Flatten(later));
    }
  }

  // ---------------------------------------------------------------- rows lost at the end of a batch

  /** The rows a listing from a cursor is about: every visible row behind it. */
  ghost function Wanted(all: seq<Row>, start: Option<Key>, visible: Row -> bool): seq<Row> {
    FilterSeq(visible, Rest(all, start))
  }

  /** A batch of the first rows ends inside a key and leaves a row of that key behind that satisfies p. */
  ghost predicate CutsOff(rest: seq<Row>, size: nat, p: Row -> bool)
    requires 1 <= size <= |rest|
  {
    exists r :: r in rest[size..] && KeyOf(r) == KeyOf(rest[size - 1]) && p(r)
  }

  /** Some full batch does so. */
  ghost predicate Loses(all: seq<Row>, cursor: Option<Key>, size: nat, p: Row -> bool)
    requires size >= 1
    decreases |Rest(all, cursor)|
  {
    var rest := Rest(all, cursor);
    |rest| >= size &&
    (FewerRest(all, cursor, size);
     CutsOff(rest, size, p) || Loses(all, Some(KeyOf(rest[size - 1])), size, p))
  }

  /** Skipping a key's rows loses those that satisfy p, and nothing else. */
  lemma {:induction false} SkipCount(p: Row -> bool, s: seq<Row>, k: Key)
    requires forall r :: r in SkipKey(s, k) ==> KeyOf(r) != k
    ensures |FilterSeq(p, SkipKey(s, k))| <= |FilterSeq(p, s)|
    ensures if exists r :: r in s && KeyOf(r) == k && p(r)
            then |FilterSeq(p, SkipKey(s, k))| < |FilterSeq(p, s)|
            else FilterSeq(p, SkipKey(s, k)) == FilterSeq(p, s)
  {
    if s != [] && KeyOf(s[0]) == k {
      SkipCount(p, s[1..], k);
      assert s == [s[0]] + s[1..];
    }
  }

  lemma LossStep(all: seq<Row>, cursor: Option<Key>, size: nat, p: Row -> bool)
    requires size >= 1 && Sorted(all) && |Rest(all, cursor)| >= size
    ensures var rest := Rest(all, cursor);
            var last := KeyOf(rest[size - 1]);
            var now, later := FilterSeq(p, rest[..size]), FilterSeq(p, Rest(all, Some(last)));
            if CutsOff(rest, size, p) then |FilterSeq(p, rest)| > |now| + |later| else FilterSeq(p, rest) == now + later
  {
    var rest := Rest(all, cursor);
    var last := KeyOf(rest[size - 1]);
    RestAfterPage(all, cursor, size);
    FilterMembers(Past(Some(last)), all);
    KeyLessTotal(last, last);
    SkipCount(p, rest[size..], last);
    FilterAppend(p, rest[..size], rest[size..]);
    assert rest == rest[..size] + rest[size..];
  }

  lemma ReadStep(all: seq<Row>, cursor: Option<Key>, size: nat, p: Row -> bool)
    requires size >= 1
    ensures var rest := Rest(all, cursor);
            Visible(all, cursor, size, p) ==
            if |rest| < size then FilterSeq(p, rest)
            else FilterSeq(p, rest[..size]) + Visible(all, Some(KeyOf(rest[size - 1])), size, p)
  {
    VisibleStep(all, cursor, size, p);
    if |Rest(all, cursor)| >= size {
      assert Page(all, cursor, size) == Rest(all, cursor)[..size];
    }
  }

  /** The batches show fewer rows where they lose one, and all of them otherwise. */
  lemma {:induction false} LossCount(all: seq<Row>, cursor: Option<Key>, size: nat, p: Row -> bool)
    requires size >= 1 && Sorted(all)
    ensures if Loses(all, cursor, size, p)
            then |Visible(all, cursor, size, p)| < |FilterSeq(p, Rest(all, cursor))|
            else Visible(all, cursor, size, p) == FilterSeq(p, Rest(all, cursor))
    decreases |Rest(all, cursor)|
  {
    var rest := Rest(all, cursor);
    ReadStep(all, cursor, size, p);
    if |rest| >= size {
      var next := Some(KeyOf(rest[size - 1]));
      FewerRest(all, cursor, size);
      LossCount(all, next, size, p);
      assert Loses(all, cursor, size, p) <==> CutsOff(rest, size, p) || Loses(all, next, size, p);
      LossStep(all, cursor, size, p);
    }
  }

  /** Reading in batches shows every visible row if and only if no full batch ends in front of one of its last key. */
  lemma {:induction false} NothingLostIff(all: seq<Row>, start: Option<Key>, size: nat, visible: Row -> bool)
    requires size >= 1 && Sorted(all)
    ensures Visible(all, start, size, visible) == Wanted(all, start, visible) <==> !Loses(all, start, size, visible)
  {
    LossCount(all, start, size, visible);
  }

  // ---------------------------------------------------------------- deduplicating what was read

  /** At or before the bound; everything without one. */
  function UpTo(bound: Option<Key>): Row -> bool {
    (r: Row) => bound.None? || !KeyLess(bound.value, KeyOf(r))
  }

  /** The rows that the deduplicated listing of `wanted` shows up to the bound. */
  ghost function Owed(wanted: seq<Row>, visible: Row -> bool, bound: Option<Key>): Row -> bool {
    (r: Row) => visible(r) && UpTo(bound)(r) && Winner(wanted)(r)
  }

  /** A row past a key read behind the cursor is behind the cursor, too, and in order behind the rows up to that key. */
  lemma RestNested(all: seq<Row>, cursor: Option<Key>, k: Key, r: Row)
    requires Has(Rest(all, cursor), k) && r in Rest(all, Some(k))
    ensures r in Rest(all, cursor)
    ensures forall x :: !Past(Some(k))(x) ==> InOrder(x, r)
  {
    RestOfRest(all, cursor, k);
    FilterMembers(Past(Some(k)), all);
    FilterMembers(Past(Some(k)), Rest(all, cursor));
    forall x | !Past(Some(k))(x) ensures KeyLess(KeyOf(x), KeyOf(r)) {
      KeyLessTotal(KeyOf(x), k);
      if KeyOf(x) != k {
        KeyLessTransitive(KeyOf(x), k, KeyOf(r));
      }
    }
  }

  lemma {:induction false} FlatSorted(all: seq<Row>, cursor: Option<Key>, size: nat)
    requires size >= 1 && Sorted(all)
    ensures var flat := Flatten(Pages(all, cursor, size));
            Sorted(flat) && forall r :: r in flat ==> r in Rest(all, cursor)
    decreases |Rest(all, cursor)|
  {
    var rest := Rest(all, cursor);
    RestSorted(Past(cursor), all);
    PagesStep(all, cursor, size);
    if |rest| < size {
      assert Flatten([rest]) == rest + Flatten([]) == rest;
    } else {
      var page, last := rest[..size], KeyOf(rest[size - 1]);
      var pages := Pages(all, Some(last), size);
      FewerRest(all, cursor, size);
      FlatSorted(all, Some(last), size);
      FlattenStep(page, pages);
      PageThenLater(all, cursor, size, Flatten(pages));
    }
  }

  lemma {:induction false} FlattenStep(page: seq<Row>, pages: seq<seq<Row>>)
    ensures Flatten([page] + pages) == page + Flatten(pages)
  {
    assert ([page] + pages)[1..] == pages;
  }

  lemma PageThenLater(all: seq<Row>, cursor: Option<Key>, size: nat, later: seq<Row>)
    requires 1 <= size <= |Rest(all, cursor)| && Sorted(Rest(all, cursor)) && Sorted(later)
    requires forall r :: r in later ==> r in Rest(all, Some(KeyOf(Rest(all, cursor)[size - 1])))
    ensures var page := Rest(all, cursor)[..size];
            Sorted(page + later) && forall r :: r in page + later ==> r in Rest(all, cursor)
  {
    var rest := Rest(all, cursor);
    var last := KeyOf(rest[size - 1]);
    assert rest[size - 1] in rest;
    KeysAround(rest, size);
    forall r | r in later
      ensures r in rest && forall x :: !Past(Some(last))(x) ==> InOrder(x, r)
    {
      RestNested(all, cursor, last, r);
    }
    SortedAppend(rest[..size], later);
  }

  lemma SortedAppend(a: seq<Row>, b: seq<Row>)
    requires Sorted(a) && Sorted(b) && forall x, y :: x in a && y in b ==> InOrder(x, y)
    ensures Sorted(a + b)
  {
    forall i, j | 0 <= i < j < |a + b| ensures InOrder((a + b)[i], (a + b)[j]) {
      if i < |a| <= j {
        assert a[i] in a && b[j - |a|] in b;
      }
    }
  }

  /** What is read is in order, visible and behind the cursor. */
  lemma VisibleSorted(all: seq<Row>, cursor: Option<Key>, size: nat, visible: Row -> bool)
    requires size >= 1 && Sorted(all)
    ensures Sorted(Visible(all, cursor, size, visible))
  {
    FlatSorted(all, cursor, size);
    RestSorted(visible, Flatten(Pages(all, cursor, size)));
  }

  lemma VisibleWithin(all: seq<Row>, cursor: Option<Key>, size: nat, visible: Row -> bool)
    requires size >= 1 && Sorted(all)
    ensures forall r :: r in Visible(all, cursor, size, visible) ==>
                          visible(r) && r in all && Past(cursor)(r) && r in Rest(all, cursor)
  {
    var flat := Flatten(Pages(all, cursor, size));
    FlatSorted(all, cursor, size);
    FilterMembers(visible, flat);
    FilterMembers(Past(cursor), all);
  }

  lemma ListedWithin(all: seq<Row>, cursor: Option<Key>, size: nat, visible: Row -> bool)
    requires size >= 1 && Sorted(all)
    ensures forall r :: r in Dedup(Visible(all, cursor, size, visible)) ==> Past(cursor)(r) && r in Rest(all, cursor)
  {
    var read := Visible(all, cursor, size, visible);
    VisibleWithin(all, cursor, size, visible);
    FilterMembers(Winner(read), read);
  }

  /** If pl keeps target of s, or fewer rows, then pv keeps target exactly when pl does and the two agree on s. */
  lemma {:induction false} MatchIff(pv: Row -> bool, pl: Row -> bool, s: seq<Row>, target: seq<Row>)
    requires forall x :: x in target ==> pl(x)
    requires |FilterSeq(pl, s)| < |target| || FilterSeq(pl, s) == target
    ensures FilterSeq(pv, s) == target <==> FilterSeq(pl, s) == target && forall x :: x in s ==> pv(x) == pl(x)
  {
    if FilterSeq(pv, s) == target {
      FilterMembers(pv, s);
      FilterStricter(pv, pl, s);
    }
    FilterEqualIffAgree(pv, pl, s);
  }

  /** What the request read up to the bound, and what deduplication owes of it. */
  lemma OwedOfRead(all: seq<Row>, cursor: Option<Key>, size: nat, visible: Row -> bool, wanted: seq<Row>,
                   bound: Option<Key>)
    requires size >= 1
    ensures FilterSeq(Winner(wanted), FilterSeq(UpTo(bound), Visible(all, cursor, size, visible)))
            == Visible(all, cursor, size, Owed(wanted, visible, bound))
  {
    var flat := Flatten(Pages(all, cursor, size));
    FilterBoth(visible, UpTo(bound), flat);
    FilterBoth(Both(visible, UpTo(bound)), Winner(wanted), flat);
    FilterAgree(Both(Both(visible, UpTo(bound)), Winner(wanted)), Owed(wanted, visible, bound), flat);
  }

  /** The cursor lies at or behind the start of the listing. */
  predicate Behind(start: Option<Key>, cursor: Option<Key>) {
    start.Some? ==> cursor.Some? && (cursor == start || KeyLess(start.value, cursor.value))
  }

  lemma PastBehind(start: Option<Key>, cursor: Option<Key>, r: Row)
    requires Behind(start, cursor) && Past(cursor)(r)
    ensures Past(start)(r)
  {
    if start.Some? && cursor != start {
      KeyLessTransitive(start.value, cursor.value, KeyOf(r));
    }
  }

  /** The deduplicated listing behind the cursor, up to the bound, read off the table. */
  lemma OwedOfListing(all: seq<Row>, start: Option<Key>, cursor: Option<Key>, visible: Row -> bool, bound: Option<Key>)
    requires Behind(start, cursor)
    ensures var wanted := Wanted(all, start, visible);
            FilterSeq(UpTo(bound), Rest(Dedup(wanted), cursor))
            == FilterSeq(Owed(wanted, visible, bound), Rest(all, cursor))
  {
    var wanted := Wanted(all, start, visible);
    var w, u, c, s := Winner(wanted), UpTo(bound), Past(cursor), Past(start);
    FilterBoth(s, visible, all);
    FilterBoth(Both(s, visible), w, all);
    FilterBoth(Both(Both(s, visible), w), c, all);
    FilterBoth(Both(Both(Both(s, visible), w), c), u, all);
    FilterBoth(c, Owed(wanted, visible, bound), all);
    forall r | r in all
      ensures Both(Both(Both(Both(s, visible), w), c), u)(r) == Both(c, Owed(wanted, visible, bound))(r)
    {
      if c(r) {
        PastBehind(start, cursor, r);
      }
    }
    FilterAgree(Both(Both(Both(Both(s, visible), w), c), u), Both(c, Owed(wanted, visible, bound)), all);
  }

  /** The first row read of the cursor's name comes from another source than the first one wanted. */
  ghost predicate LeadChanges(read: seq<Row>, wanted: seq<Row>, cursor: Option<Key>) {
    cursor.Some? && var n := cursor.value.name;
    Named(read, n) && Named(wanted, n) && FirstNamed(read, n).position != FirstNamed(wanted, n).position
  }

  lemma ReadIsWanted(all: seq<Row>, start: Option<Key>, cursor: Option<Key>, size: nat, visible: Row -> bool, r: Row)
    requires size >= 1 && Sorted(all) && Behind(start, cursor) && r in Visible(all, cursor, size, visible)
    ensures r in Wanted(all, start, visible)
  {
    VisibleWithin(all, cursor, size, visible);
    PastBehind(start, cursor, r);
    FilterMembers(Past(start), all);
    FilterMembers(visible, Rest(all, start));
  }

  /** An owed row that is not lost is read. */
  lemma {:induction false} OwedIsRead(all: seq<Row>, start: Option<Key>, cursor: Option<Key>, size: nat,
                                      visible: Row -> bool, bound: Option<Key>, f: Row)
    requires size >= 1 && Sorted(all)
    requires var wanted := Wanted(all, start, visible);
             !Loses(all, cursor, size, Owed(wanted, visible, bound)) && f in wanted
             && Past(cursor)(f) && UpTo(bound)(f) && Winner(wanted)(f)
    ensures f in Visible(all, cursor, size, visible)
  {
    var wanted := Wanted(all, start, visible);
    var owed := Owed(wanted, visible, bound);
    LossCount(all, cursor, size, owed);
    FilterMembers(visible, Rest(all, start));
    FilterMembers(Past(start), all);
    FilterMembers(Past(cursor), all);
    FilterMembers(owed, Rest(all, cursor));
    FilterMembers(owed, Flatten(Pages(all, cursor, size)));
    FilterMembers(visible, Flatten(Pages(all, cursor, size)));
  }

  /** With no owed row lost, a name other than the cursor's is led by the same position in what is read and wanted. */
  lemma {:induction false} NameLeadKept(all: seq<Row>, start: Option<Key>, cursor: Option<Key>, size: nat,
                                        visible: Row -> bool, bound: Option<Key>, x: Row)
    requires size >= 1 && Sorted(all) && Behind(start, cursor)
    requires !Loses(all, cursor, size, Owed(Wanted(all, start, visible), visible, bound))
    requires x in Visible(all, cursor, size, visible) && UpTo(bound)(x)
    requires cursor == start || x.name != cursor.value.name
    ensures Winner(Visible(all, cursor, size, visible))(x) == Winner(Wanted(all, start, visible))(x)
  {
    var read, wanted := Visible(all, cursor, size, visible), Wanted(all, start, visible);
    VisibleSorted(all, cursor, size, visible);
    VisibleWithin(all, cursor, size, visible);
    RestSorted(Past(start), all);
    RestSorted(visible, Rest(all, start));
    ReadIsWanted(all, start, cursor, size, visible, x);
    FirstNamedInOrder(wanted, x);
    FirstNamedInOrder(read, x);
    var f, g := FirstNamed(wanted, x.name), FirstNamed(read, x.name);
    ReadIsWanted(all, start, cursor, size, visible, g);
    FirstIsPast(all, start, cursor, visible, f, x);
    FirstIsUpTo(bound, f, x);
    OwedIsRead(all, start, cursor, size, visible, bound, f);
    SameLead(wanted, read, x.name);
  }

  lemma FirstIsPast(all: seq<Row>, start: Option<Key>, cursor: Option<Key>, visible: Row -> bool, f: Row, x: Row)
    requires f in Wanted(all, start, visible) && Past(cursor)(x) && f.name == x.name
    requires start.Some? ==> cursor.Some?
    requires cursor == start || x.name != cursor.value.name
    ensures Past(cursor)(f)
  {
    FilterMembers(visible, Rest(all, start));
    FilterMembers(Past(start), all);
  }

  lemma FirstIsUpTo(bound: Option<Key>, f: Row, x: Row)
    requires (f == x || InOrder(f, x)) && UpTo(bound)(x)
    ensures UpTo(bound)(f)
  {
    if bound.Some? && KeyLess(bound.value, KeyOf(f)) && KeyLess(KeyOf(f), KeyOf(x)) {
      KeyLessTransitive(bound.value, KeyOf(f), KeyOf(x));
    }
  }

  /** Deduplicating the rows read and the rows wanted decides every row read up to the bound alike. */
  ghost predicate SameWinners(read: seq<Row>, wanted: seq<Row>, bound: Option<Key>) {
    forall x :: x in FilterSeq(UpTo(bound), read) ==> Winner(read)(x) == Winner(wanted)(x)
  }

  /** With no owed row lost they do so exactly when the cursor's name keeps its lead. */
  lemma {:induction false} AgreeIff(all: seq<Row>, start: Option<Key>, cursor: Option<Key>, size: nat,
                                    visible: Row -> bool, bound: Option<Key>)
    requires size >= 1 && Sorted(all) && Behind(start, cursor)
    requires !Loses(all, cursor, size, Owed(Wanted(all, start, visible), visible, bound))
    requires LeadWithin(Visible(all, cursor, size, visible), cursor, bound)
    ensures var read, wanted := Visible(all, cursor, size, visible), Wanted(all, start, visible);
            SameWinners(read, wanted, bound) <==> !LeadChanges(read, wanted, cursor)
  {
    var read, wanted := Visible(all, cursor, size, visible), Wanted(all, start, visible);
    FilterMembers(UpTo(bound), read);
    if LeadChanges(read, wanted, cursor) {
      var g := FirstNamed(read, cursor.value.name);
      assert g in FilterSeq(UpTo(bound), read) && Winner(read)(g) && !Winner(wanted)(g);
    } else {
      forall x | x in FilterSeq(UpTo(bound), read) ensures Winner(read)(x) == Winner(wanted)(x) {
        if cursor == start || x.name != cursor.value.name {
          NameLeadKept(all, start, cursor, size, visible, bound, x);
        } else {
          ReadIsWanted(all, start, cursor, size, visible, x);
          assert Named(read, x.name) && Named(wanted, x.name);
        }
      }
    }
  }

  /** The first row read of the cursor's name, if there is one, is within the bound. */
  ghost predicate LeadWithin(read: seq<Row>, cursor: Option<Key>, bound: Option<Key>) {
    cursor.Some? && Named(read, cursor.value.name) ==> UpTo(bound)(FirstNamed(read, cursor.value.name))
  }

  /** Up to the bound, deduplicating what was read gives what the whole listing shows behind the cursor. */
  ghost predicate Matches(all: seq<Row>, start: Option<Key>, cursor: Option<Key>, size: nat, visible: Row -> bool,
                          bound: Option<Key>)
    requires size >= 1
  {
    FilterSeq(UpTo(bound), Dedup(Visible(all, cursor, size, visible)))
    == FilterSeq(UpTo(bound), Rest(Dedup(Wanted(all, start, visible)), cursor))
  }

  lemma {:induction false} BoundedIff(all: seq<Row>, start: Option<Key>, cursor: Option<Key>, size: nat,
                                      visible: Row -> bool, bound: Option<Key>)
    requires size >= 1 && Sorted(all) && Behind(start, cursor)
    ensures var read, wanted := Visible(all, cursor, size, visible), Wanted(all, start, visible);
            Matches(all, start, cursor, size, visible, bound) <==>
            !Loses(all, cursor, size, Owed(wanted, visible, bound)) && SameWinners(read, wanted, bound)
  {
    var read, wanted := Visible(all, cursor, size, visible), Wanted(all, start, visible);
    var owed := Owed(wanted, visible, bound);
    FilterCommutes(UpTo(bound), Winner(read), read);
    OwedOfRead(all, cursor, size, visible, wanted, bound);
    OwedOfListing(all, start, cursor, visible, bound);
    LossCount(all, cursor, size, owed);
    FilterMembers(owed, Rest(all, cursor));
    MatchIff(Winner(read), Winner(wanted), FilterSeq(UpTo(bound), read), FilterSeq(owed, Rest(all, cursor)));
  }

  lemma {:induction false} MatchesIff(all: seq<Row>, start: Option<Key>, cursor: Option<Key>, size: nat,
                                      visible: Row -> bool, bound: Option<Key>)
    requires size >= 1 && Sorted(all) && Behind(start, cursor)
    requires LeadWithin(Visible(all, cursor, size, visible), cursor, bound)
    ensures var read, wanted := Visible(all, cursor, size, visible), Wanted(all, start, visible);
            Matches(all, start, cursor, size, visible, bound) <==>
            !Loses(all, cursor, size, Owed(wanted, visible, bound)) && !LeadChanges(read, wanted, cursor)
  {
    BoundedIff(all, start, cursor, size, visible, bound);
    if !Loses(all, cursor, size, Owed(Wanted(all, start, visible), visible, bound)) {
      AgreeIff(all, start, cursor, size, visible, bound);
    }
  }

  lemma {:induction false} BoundNone(s: seq<Row>)
    ensures FilterSeq(UpTo(None), s) == s
  {
    FilterKeepsAll(UpTo(None), s);
  }

  /**
   What a request from the cursor would list is the rest of the whole deduplicated listing if and only if none of its
   batches loses a row that this rest shows, and the cursor's name is not picked up by another source.
   */
  lemma {:induction false} ResumeIff(all: seq<Row>, start: Option<Key>, cursor: Option<Key>, size: nat,
                                     visible: Row -> bool)
    requires size >= 1 && Sorted(all) && Behind(start, cursor)
    ensures var read, wanted := Visible(all, cursor, size, visible), Wanted(all, start, visible);
            Dedup(read) == Rest(Dedup(wanted), cursor) <==>
            !Loses(all, cursor, size, Owed(wanted, visible, None)) && !LeadChanges(read, wanted, cursor)
  {
    var read, wanted := Visible(all, cursor, size, visible), Wanted(all, start, visible);
    BoundNone(Dedup(read));
    BoundNone(Rest(Dedup(wanted), cursor));
    MatchesIff(all, start, cursor, size, visible, None);
  }

  lemma StartsThere(all: seq<Row>, start: Option<Key>, visible: Row -> bool)
    ensures Rest(Dedup(Wanted(all, start, visible)), start) == Dedup(Wanted(all, start, visible))
  {
    var wanted := Wanted(all, start, visible);
    FilterMembers(Winner(wanted), wanted);
    FilterMembers(visible, Rest(all, start));
    FilterMembers(Past(start), all);
    FilterKeepsAll(Past(start), Dedup(wanted));
  }

  /** A listing from its start is complete if and only if no batch loses a row that deduplication would keep. */
  lemma {:induction false} ListingCompleteIff(all: seq<Row>, start: Option<Key>, size: nat, visible: Row -> bool)
    requires size >= 1 && Sorted(all)
    ensures var wanted := Wanted(all, start, visible);
            Dedup(Visible(all, start, size, visible)) == Dedup(wanted) <==>
            !Loses(all, start, size, Owed(wanted, visible, None))
  {
    var read, wanted := Visible(all, start, size, visible), Wanted(all, start, visible);
    BoundNone(Dedup(read));
    BoundNone(Dedup(wanted));
    StartsThere(all, start, visible);
    BoundedIff(all, start, start, size, visible, None);
    if !Loses(all, start, size, Owed(wanted, visible, None)) {
      forall x | x in FilterSeq(UpTo(None), read) ensures Winner(read)(x) == Winner(wanted)(x) {
        BoundNone(read);
        NameLeadKept(all, start, start, size, visible, None, x);
      }
    }
  }

  /**
   Where the first request's batches lose nothing it owes, the same is the exact condition for what a second request
   would list to be the rest of what the first would list.
   */
  lemma {:induction false} ResumeAgreesIff(all: seq<Row>, start: Option<Key>, cursor: Option<Key>, size: nat,
                                           visible: Row -> bool)
    requires size >= 1 && Sorted(all) && Behind(start, cursor)
    requires !Loses(all, start, size, Owed(Wanted(all, start, visible), visible, None))
    ensures var read, wanted := Visible(all, cursor, size, visible), Wanted(all, start, visible);
            Dedup(read) == Rest(Dedup(Visible(all, start, size, visible)), cursor) <==>
            !Loses(all, cursor, size, Owed(wanted, visible, None)) && !LeadChanges(read, wanted, cursor)
  {
    ListingCompleteIff(all, start, size, visible);
    ResumeIff(all, start, cursor, size, visible);
  }

  // ---------------------------------------------------------------- one request

  /** The answer made of a listing: its first limit rows, and a next cursor exactly when there are more. */
  ghost function Answer(full: seq<Row>, limit: nat): (seq<Row>, Option<Key>)
    requires limit >= 1
  {
    if |full| <= limit then (full, None) else (full[..limit], Some(KeyOf(full[limit - 1])))
  }

  /** The answer ends in front of a row with the cursor's own key: two sources at one position. */
  ghost predicate EndsInsideKey(full: seq<Row>, limit: nat)
    requires limit >= 1
  {
    |full| > limit && KeyOf(full[limit]) == KeyOf(full[limit - 1])
  }

  /** Behind a cut only rows of its last key are up to it, and there are some exactly when the first one is. */
  lemma UpToBehindCut(full: seq<Row>, n: nat)
    requires Sorted(full) && 0 < n < |full|
    ensures var k := KeyOf(full[n - 1]);
            var after := FilterSeq(UpTo(Some(k)), full[n..]);
            (forall r :: r in after ==> KeyOf(r) == k) && (after == [] <==> KeyOf(full[n]) != k)
  {
    var k, tail := KeyOf(full[n - 1]), full[n..];
    var after := FilterSeq(UpTo(Some(k)), tail);
    KeysAround(full, n);
    FilterMembers(UpTo(Some(k)), tail);
    forall r | r in after ensures KeyOf(r) == k {
      var i :| 0 <= i < |tail| && tail[i] == r;
      KeyLessTotal(KeyOf(r), k);
    }
    assert full[n] in tail && !KeyLess(KeyOf(tail[0]), k);
    KeyLessTotal(KeyOf(full[n]), k);
    if KeyOf(full[n]) == k {
      assert full[n] in after;
    } else {
      forall r | r in tail ensures !UpTo(Some(k))(r) {
        LaterKeyIsLater(tail, r, k);
      }
      NoneLeft(UpTo(Some(k)), tail);
    }
  }

  lemma LaterKeyIsLater(tail: seq<Row>, r: Row, k: Key)
    requires Sorted(tail) && r in tail && KeyLess(k, KeyOf(tail[0]))
    ensures KeyLess(k, KeyOf(r))
  {
    var i :| 0 <= i < |tail| && tail[i] == r;
    if i > 0 && KeyLess(KeyOf(tail[0]), KeyOf(r)) {
      KeyLessTransitive(k, KeyOf(tail[0]), KeyOf(r));
    }
    assert i > 0 ==> InOrder(tail[0], tail[i]);
  }

  ghost predicate All(p: Row -> bool, s: seq<Row>) { forall r :: r in s ==> p(r) }

  /** t continues s with rows of its last key only. */
  ghost predicate RunsOn(s: seq<Row>, t: seq<Row>) {
    s != [] && s < t && forall i :: |s| <= i < |t| ==> KeyOf(t[i]) == KeyOf(s[|s| - 1])
  }

  /** The answer holds rows up to the next cursor, and all of those unless it ends inside a key. */
  ghost predicate AnswersUpTo(full: seq<Row>, limit: nat)
    requires limit >= 1
  {
    var (rows, next) := Answer(full, limit);
    var upTo := FilterSeq(UpTo(next), full);
    All(UpTo(next), rows) && if EndsInsideKey(full, limit) then RunsOn(rows, upTo) else rows == upTo
  }

  lemma AnswerUpTo(full: seq<Row>, limit: nat)
    requires limit >= 1 && Sorted(full)
    ensures AnswersUpTo(full, limit)
  {
    if |full| <= limit {
      BoundNone(full);
    } else {
      var rows, tail, k := full[..limit], full[limit..], KeyOf(full[limit - 1]);
      KeysAround(full, limit);
      assert full == rows + tail;
      FilterAppend(UpTo(Some(k)), rows, tail);
      FilterKeepsAll(UpTo(Some(k)), rows);
      UpToBehindCut(full, limit);
    }
  }

  /**
   Nothing comes between a request from the cursor and the rows it should return: the answer does not end inside a
   key, no batch loses a row owed up to the next cursor, and the cursor's name is not picked up by another source.
   */
  ghost predicate Undisturbed(all: seq<Row>, visible: Row -> bool, wanted: seq<Row>, cursor: Option<Key>, limit: nat)
    requires limit >= 1
  {
    var read := Visible(all, cursor, limit + 1, visible);
    && !EndsInsideKey(Dedup(read), limit)
    && !Loses(all, cursor, limit + 1, Owed(wanted, visible, Answer(Dedup(read), limit).1))
    && !LeadChanges(read, wanted, cursor)
  }

  /** Rows of the cursor's name come first, so the first of them is in the answer. */
  lemma LeadInAnswer(read: seq<Row>, cursor: Option<Key>, limit: nat)
    requires limit >= 1 && Sorted(read) && forall r :: r in read ==> Past(cursor)(r)
    ensures LeadWithin(read, cursor, Answer(Dedup(read), limit).1)
  {
    var full := Dedup(read);
    if cursor.Some? && Named(read, cursor.value.name) && |full| > limit {
      var g, y := FirstNamed(read, cursor.value.name), full[limit - 1];
      FilterMembers(Winner(read), read);
      assert y in full;
      StrLessTotal(cursor.value.name, y.name);
      FirstNamedInOrder(read, y);
      KeyLessTotal(KeyOf(y), KeyOf(g));
    }
  }

  lemma ReadUpTo(read: seq<Row>, limit: nat)
    requires limit >= 1 && Sorted(read)
    ensures AnswersUpTo(Dedup(read), limit)
  {
    RestSorted(Winner(read), read);
    AnswerUpTo(Dedup(read), limit);
  }

  lemma RequestUpTo(all: seq<Row>, visible: Row -> bool, cursor: Option<Key>, limit: nat)
    requires limit >= 1 && Sorted(all)
    ensures AnswersUpTo(Dedup(Visible(all, cursor, limit + 1, visible)), limit)
  {
    VisibleSorted(all, cursor, limit + 1, visible);
    ReadUpTo(Visible(all, cursor, limit + 1, visible), limit);
  }

  /** The request from the cursor returns exactly the rows of the whole listing from there up to its next cursor. */
  ghost predicate Returns(all: seq<Row>, visible: Row -> bool, start: Option<Key>, cursor: Option<Key>, limit: nat)
    requires limit >= 1
  {
    var (rows, next) := Answer(Dedup(Visible(all, cursor, limit + 1, visible)), limit);
    rows == FilterSeq(UpTo(next), Rest(Dedup(Wanted(all, start, visible)), cursor))
  }

  /** Rows of one key kept by one deduplication are kept or dropped by another together. */
  lemma AllOwed(read: seq<Row>, wanted: seq<Row>, rows: seq<Row>, upTo: seq<Row>)
    requires RunsOn(rows, upTo) && All(Winner(read), upTo) && All(Winner(wanted), rows)
    ensures All(Winner(wanted), upTo)
  {
    forall x | x in upTo ensures Winner(wanted)(x) {
      var i :| 0 <= i < |upTo| && upTo[i] == x;
      var last := rows[|rows| - 1];
      assert last in rows && upTo[|rows| - 1] == last && last in upTo;
      if i < |rows| {
        assert rows[i] == x && x in rows;
      }
    }
  }

  /** Rows kept and owed are no more than the owed rows behind the cursor. */
  lemma OwedBound(all: seq<Row>, visible: Row -> bool, wanted: seq<Row>, cursor: Option<Key>, size: nat,
                  bound: Option<Key>)
    requires size >= 1 && Sorted(all)
    requires All(Winner(wanted), FilterSeq(UpTo(bound), Dedup(Visible(all, cursor, size, visible))))
    ensures |FilterSeq(UpTo(bound), Dedup(Visible(all, cursor, size, visible)))|
            <= |FilterSeq(Owed(wanted, visible, bound), Rest(all, cursor))|
  {
    var read := Visible(all, cursor, size, visible);
    var part := FilterSeq(UpTo(bound), read);
    FilterCommutes(UpTo(bound), Winner(read), read);
    FilterMembers(Winner(read), part);
    FilterStricter(Winner(read), Winner(wanted), part);
    OwedOfRead(all, cursor, size, visible, wanted, bound);
    LossCount(all, cursor, size, Owed(wanted, visible, bound));
  }

  lemma WinnersOnly(all: seq<Row>, cursor: Option<Key>, visible: Row -> bool, read: seq<Row>, wanted: seq<Row>,
                    bound: Option<Key>)
    ensures All(Winner(read), FilterSeq(UpTo(bound), Dedup(read)))
    ensures All(Winner(wanted), FilterSeq(Owed(wanted, visible, bound), Rest(all, cursor)))
  {
    FilterMembers(Winner(read), read);
    FilterMembers(UpTo(bound), Dedup(read));
    FilterMembers(Owed(wanted, visible, bound), Rest(all, cursor));
  }

  /** An answer that ends inside a key is too short. */
  lemma EndsInsideKeyMisses(all: seq<Row>, visible: Row -> bool, start: Option<Key>, cursor: Option<Key>, limit: nat)
    requires limit >= 1 && Sorted(all) && Behind(start, cursor)
    requires EndsInsideKey(Dedup(Visible(all, cursor, limit + 1, visible)), limit)
    ensures !Returns(all, visible, start, cursor, limit)
  {
    var full := Dedup(Visible(all, cursor, limit + 1, visible));
    var (rows, next) := Answer(full, limit);
    assert RunsOn(rows, FilterSeq(UpTo(next), full)) by {
      RequestUpTo(all, visible, cursor, limit);
    }
    if Returns(all, visible, start, cursor, limit) {
      OwedOfListing(all, start, cursor, visible, next);
      TooShort(all, visible, Wanted(all, start, visible), cursor, limit + 1, next, rows);
    }
  }

  /** The owed rows up to the bound are not cut off inside a key in what is read. */
  lemma TooShort(all: seq<Row>, visible: Row -> bool, wanted: seq<Row>, cursor: Option<Key>, size: nat,
                 bound: Option<Key>, rows: seq<Row>)
    requires size >= 1 && Sorted(all)
    requires RunsOn(rows, FilterSeq(UpTo(bound), Dedup(Visible(all, cursor, size, visible))))
    ensures rows != FilterSeq(Owed(wanted, visible, bound), Rest(all, cursor))
  {
    var read := Visible(all, cursor, size, visible);
    if rows == FilterSeq(Owed(wanted, visible, bound), Rest(all, cursor)) {
      WinnersOnly(all, cursor, visible, read, wanted, bound);
      AllOwed(read, wanted, rows, FilterSeq(UpTo(bound), Dedup(read)));
      OwedBound(all, visible, wanted, cursor, size, bound);
    }
  }

  lemma LeadInRequest(all: seq<Row>, visible: Row -> bool, cursor: Option<Key>, limit: nat)
    requires limit >= 1 && Sorted(all)
    ensures var read := Visible(all, cursor, limit + 1, visible);
            LeadWithin(read, cursor, Answer(Dedup(read), limit).1)
  {
    VisibleSorted(all, cursor, limit + 1, visible);
    VisibleWithin(all, cursor, limit + 1, visible);
    LeadInAnswer(Visible(all, cursor, limit + 1, visible), cursor, limit);
  }

  lemma WholeRequest(all: seq<Row>, visible: Row -> bool, start: Option<Key>, cursor: Option<Key>, limit: nat)
    requires limit >= 1 && Sorted(all)
    requires !EndsInsideKey(Dedup(Visible(all, cursor, limit + 1, visible)), limit)
    ensures var next := Answer(Dedup(Visible(all, cursor, limit + 1, visible)), limit).1;
            Returns(all, visible, start, cursor, limit) <==> Matches(all, start, cursor, limit + 1, visible, next)
  {
    RequestUpTo(all, visible, cursor, limit);
  }

  /** It does so if and only if it is undisturbed. */
  lemma RequestIff(all: seq<Row>, visible: Row -> bool, start: Option<Key>, cursor: Option<Key>, limit: nat)
    requires limit >= 1 && Sorted(all) && Behind(start, cursor)
    ensures Returns(all, visible, start, cursor, limit)
            <==> Undisturbed(all, visible, Wanted(all, start, visible), cursor, limit)
  {
    if EndsInsideKey(Dedup(Visible(all, cursor, limit + 1, visible)), limit) {
      EndsInsideKeyMisses(all, visible, start, cursor, limit);
    } else {
      var next := Answer(Dedup(Visible(all, cursor, limit + 1, visible)), limit).1;
      WholeRequest(all, visible, start, cursor, limit);
      assert LeadWithin(Visible(all, cursor, limit + 1, visible), cursor, next) by {
        LeadInRequest(all, visible, cursor, limit);
      }
      MatchesIff(all, start, cursor, limit + 1, visible, next);
    }
  }

  // ---------------------------------------------------------------- the reader

  lemma FilterSnoc(p: Row -> bool, s: seq<Row>, i: nat)
    requires i < |s|
    ensures FilterSeq(p, s[..i + 1]) == FilterSeq(p, s[..i]) + if p(s[i]) then [s[i]] else []
  {
    assert s[..i + 1] == s[..i] + [s[i]];
    FilterAppend(p, s[..i], [s[i]]);
  }

  /** Read one batch through the visibility and the deduplicating filter. */
  method Absorb(batch: seq<Row>, visible: Row -> bool, acc0: seq<Row>, seen0: map<string, int>, ghost before: seq<Row>)
    returns (acc: seq<Row>, seen: map<string, int>)
    requires Filtered(acc0, seen0, before)
    ensures Filtered(acc, seen, before + FilterSeq(visible, batch))
  {
    acc, seen := acc0, seen0;
    ghost var after := before;
    for i := 0 to |batch|
      invariant after == before + FilterSeq(visible, batch[..i])
      invariant Filtered(acc, seen, after)
    {
      var row := batch[i];
      FilterSnoc(visible, batch, i);
      if visible(row) {
        KeptSnoc(after, row);
        after := after + [row];
        if row.name !in seen {
          seen := seen[row.name := row.position];
          acc := acc + [row];
        } else if row.position == seen[row.name] {
          acc := acc + [row];
        }
      }
    }
    assert batch[..|batch|] == batch;
  }

  /** One batch further: what was read and what is left still make up the listing. */
  lemma Advance(total: seq<Row>, done: seq<Row>, all: seq<Row>, cursor: Option<Key>, size: nat, visible: Row -> bool)
    requires size >= 1 && total == done + Visible(all, cursor, size, visible)
    ensures var batch := Page(all, cursor, size);
            var done' := done + FilterSeq(visible, batch);
            if |batch| < size then total == done'
            else total == done' + Visible(all, Some(KeyOf(batch[size - 1])), size, visible)
                 && |Rest(all, Some(KeyOf(batch[size - 1])))| < |Rest(all, cursor)|
  {
    VisibleStep(all, cursor, size, visible);
    var batch := Page(all, cursor, size);
    var shown := FilterSeq(visible, batch);
    if |batch| < size {
      assert shown + [] == shown;
    } else {
      FewerRest(all, cursor, size);
      Associative(done, shown, Visible(all, Some(KeyOf(batch[size - 1])), size, visible));
    }
  }

  lemma Associative(a: seq<Row>, b: seq<Row>, c: seq<Row>)
    ensures a + (b + c) == a + b + c
  {
  }

  /** Query one batch and absorb it; a short batch is the last. */
  method ReadBatch(all: seq<Row>, visible: Row -> bool, cursor: Option<Key>, size: nat,
                   acc0: seq<Row>, seen0: map<string, int>, ghost total: seq<Row>, ghost done0: seq<Row>)
    returns (acc: seq<Row>, seen: map<string, int>, next: Option<Key>, ghost done: seq<Row>, ghost more: seq<Row>)
    requires size >= 1 && total == done0 + Visible(all, cursor, size, visible)
    requires Filtered(acc0, seen0, done0)
    ensures Filtered(acc, seen, done) && total == done + more
    ensures next.None? ==> more == []
    ensures next.Some? ==> more == Visible(all, next, size, visible) && |Rest(all, next)| < |Rest(all, cursor)|
  {
    var batch := Page(all, cursor, size);
    Advance(total, done0, all, cursor, size, visible);
    acc, seen := Absorb(batch, visible, acc0, seen0, done0);
    done := done0 + FilterSeq(visible, batch);
    if |batch| < size {
      next, more := None, [];
    } else {
      next := Some(KeyOf(batch[|batch| - 1]));
      more := Visible(all, next, size, visible);
    }
  }

  /** Gather rows until there are more than limit, or no more. */
  method Gather(all: seq<Row>, visible: Row -> bool, start: Option<Key>, limit: nat)
    returns (acc: seq<Row>, ghost done: seq<Row>, ghost more: seq<Row>)
    requires limit >= 1
    ensures acc == Kept(done) && Visible(all, start, limit + 1, visible) == done + more && (more == [] || |acc| > limit)
  {
    var cursor, seen := start, map[];
    acc, done := [], [];
    ghost var total := Visible(all, start, limit + 1, visible);
    assert done + total == total;
    while true
      invariant Filtered(acc, seen, done)
      invariant total == done + Visible(all, cursor, limit + 1, visible)
      decreases |Rest(all, cursor)|
    {
      var next;
      acc, seen, next, done, more := ReadBatch(all, visible, cursor, limit + 1, acc, seen, total, done);
      if |acc| >= limit + 1 || next.None? {
        return;
      }
      cursor := next;
    }
  }

  /** Exactly the rows of the whole deduplicated listing of visible rows, up to the next cursor. */
  ghost predicate Faithful(all: seq<Row>, visible: Row -> bool, start: Option<Key>, rows: seq<Row>, next: Option<Key>) {
    rows == FilterSeq(UpTo(next), Dedup(Wanted(all, start, visible)))
  }

  lemma AnswerFaithfulIff(all: seq<Row>, visible: Row -> bool, start: Option<Key>, limit: nat)
    requires limit >= 1
    ensures var (rows, next) := Answer(Dedup(Visible(all, start, limit + 1, visible)), limit);
            Sorted(all) ==> (Faithful(all, visible, start, rows, next) <==>
                             Undisturbed(all, visible, Wanted(all, start, visible), start, limit))
  {
    if Sorted(all) {
      RequestIff(all, visible, start, start, limit);
      StartsThere(all, start, visible);
    }
  }

  /** The first rows gathered, when there are too many or no more to come, answer for the whole listing. */
  lemma {:induction false} Enough(done: seq<Row>, more: seq<Row>, limit: nat)
    requires limit >= 1 && (more == [] || |Kept(done)| > limit)
    ensures Answer(Kept(done), limit) == Answer(Dedup(done + more), limit)
  {
    KeptIsDedup(done);
    DedupPrefix(done, more);
    if more == [] {
      assert done + more == done;
    } else {
      AnswerPrefix(Kept(done), Dedup(done + more), limit);
    }
  }

  lemma AnswerPrefix(s: seq<Row>, t: seq<Row>, limit: nat)
    requires 1 <= limit < |s| && s <= t
    ensures Answer(s, limit) == Answer(t, limit)
  {
    assert s[..limit] == t[..limit];
  }

  /**
   One request: batches of limit + 1 rows until more than limit rows are gathered or the table ends. It answers as if it
   had read all batches, and the answer is faithful to the whole listing if and only if the request is undisturbed.
   */
  method StreamRows(all: seq<Row>, visible: Row -> bool, start: Option<Key>, limit: nat)
    returns (rows: seq<Row>, next: Option<Key>)
    requires limit >= 1
    ensures (rows, next) == Answer(Dedup(Visible(all, start, limit + 1, visible)), limit)
    ensures Sorted(all) ==> (Faithful(all, visible, start, rows, next) <==>
                             Undisturbed(all, visible, Wanted(all, start, visible), start, limit))
  {
    ghost var done, more;
    var acc;
    acc, done, more := Gather(all, visible, start, limit);
    Enough(done, more, limit);
    if |acc| > limit {
      next := Some(KeyOf(acc[limit - 1]));
      rows := acc[..limit];
    } else {
      next := None;
      rows := acc;
    }
    AnswerFaithfulIff(all, visible, start, limit);
  }

  // ---------------------------------------------------------------- following the cursors

  lemma FewerRestBehind(all: seq<Row>, cursor: Option<Key>, r: Row)
    requires r in Rest(all, cursor)
    ensures |Rest(all, Some(KeyOf(r)))| < |Rest(all, cursor)|
  {
    var i :| 0 <= i < |Rest(all, cursor)| && Rest(all, cursor)[i] == r;
    FewerRest(all, cursor, i + 1);
  }

  /** The next cursor is the key of a row that was read. */
  lemma NextIsRead(all: seq<Row>, visible: Row -> bool, cursor: Option<Key>, limit: nat)
    requires limit >= 1 && Sorted(all)
    ensures var next := Answer(Dedup(Visible(all, cursor, limit + 1, visible)), limit).1;
            next.Some? ==> Behind(cursor, next) && |Rest(all, next)| < |Rest(all, cursor)|
  {
    var full := Dedup(Visible(all, cursor, limit + 1, visible));
    if |full| > limit {
      assert full[limit - 1] in full;
      ListedWithin(all, cursor, limit + 1, visible);
      FewerRestBehind(all, cursor, full[limit - 1]);
    }
  }

  /** All rows a client receives that follows the next cursors until there is none. */
  ghost function Received(all: seq<Row>, visible: Row -> bool, cursor: Option<Key>, limit: nat): seq<Row>
    requires limit >= 1 && Sorted(all)
    decreases |Rest(all, cursor)|
  {
    var (rows, next) := Answer(Dedup(Visible(all, cursor, limit + 1, visible)), limit);
    if next.None? then rows
    else
      NextIsRead(all, visible, cursor, limit);
      rows + Received(all, visible, next, limit)
  }

  /** Every one of its requests is undisturbed. */
  ghost predicate AllUndisturbed(all: seq<Row>, visible: Row -> bool, wanted: seq<Row>, cursor: Option<Key>,
                                 limit: nat)
    requires limit >= 1 && Sorted(all)
    decreases |Rest(all, cursor)|
  {
    var next := Answer(Dedup(Visible(all, cursor, limit + 1, visible)), limit).1;
    && Undisturbed(all, visible, wanted, cursor, limit)
    && (next.Some? ==>
          (NextIsRead(all, visible, cursor, limit); AllUndisturbed(all, visible, wanted, next, limit)))
  }

  lemma RowsPast(all: seq<Row>, visible: Row -> bool, cursor: Option<Key>, limit: nat)
    requires limit >= 1 && Sorted(all)
    ensures All(Past(cursor), Answer(Dedup(Visible(all, cursor, limit + 1, visible)), limit).0)
  {
    var full := Dedup(Visible(all, cursor, limit + 1, visible));
    assert All(Past(cursor), full) by {
      ListedWithin(all, cursor, limit + 1, visible);
    }
    AllOfAnswer(Past(cursor), full, limit);
  }

  lemma AllOfAnswer(p: Row -> bool, full: seq<Row>, limit: nat)
    requires limit >= 1 && All(p, full)
    ensures All(p, Answer(full, limit).0)
  {
    forall r | r in Answer(full, limit).0 ensures p(r) {
      assert r in full;
    }
  }

  lemma AllPast(cursor: Option<Key>, next: Option<Key>, s: seq<Row>)
    requires Behind(cursor, next) && All(Past(next), s)
    ensures All(Past(cursor), s)
  {
    forall r | r in s ensures Past(cursor)(r) {
      PastBehind(cursor, next, r);
    }
  }

  lemma {:induction false} ReceivedIsPast(all: seq<Row>, visible: Row -> bool, cursor: Option<Key>, limit: nat)
    requires limit >= 1 && Sorted(all)
    ensures All(Past(cursor), Received(all, visible, cursor, limit))
    decreases |Rest(all, cursor)|
  {
    var next := Answer(Dedup(Visible(all, cursor, limit + 1, visible)), limit).1;
    RowsPast(all, visible, cursor, limit);
    if next.Some? {
      NextIsRead(all, visible, cursor, limit);
      ReceivedIsPast(all, visible, next, limit);
      AllPast(cursor, next, Received(all, visible, next, limit));
    }
  }

  /** A sorted list falls into the rows up to a key and the rows past it. */
  lemma {:induction false} SplitAtKey(s: seq<Row>, k: Key)
    requires Sorted(s)
    ensures s == FilterSeq(UpTo(Some(k)), s) + Rest(s, Some(k))
  {
    if s != [] {
      if UpTo(Some(k))(s[0]) {
        SplitAtKey(s[1..], k);
      } else {
        forall r | r in s ensures Past(Some(k))(r) {
          var i :| 0 <= i < |s| && s[i] == r;
          if i > 0 && KeyLess(KeyOf(s[0]), KeyOf(r)) {
            KeyLessTransitive(k, KeyOf(s[0]), KeyOf(r));
          }
          assert i > 0 ==> InOrder(s[0], s[i]);
        }
        FilterKeepsAll(Past(Some(k)), s);
        NoneLeft(UpTo(Some(k)), s);
      }
    }
  }

  ghost predicate Any(p: Row -> bool, s: seq<Row>) { exists r :: r in s && p(r) }

  lemma SplitEqual(p: Row -> bool, a: seq<Row>, b: seq<Row>, c: seq<Row>, d: seq<Row>)
    requires All(p, a) && All(p, c) && !Any(p, b) && !Any(p, d)
    ensures a + b == c + d <==> a == c && b == d
  {
    FilterAppend(p, a, b);
    FilterAppend(p, c, d);
    FilterKeepsAll(p, a);
    FilterKeepsAll(p, c);
    NoneLeft(p, b);
    NoneLeft(p, d);
    if a + b == c + d {
      assert (a + b)[|a|..] == b && (c + d)[|c|..] == d;
    }
  }

  lemma BehindTransitive(a: Option<Key>, b: Option<Key>, c: Option<Key>)
    requires Behind(a, b) && Behind(b, c)
    ensures Behind(a, c)
  {
    if a.Some? && a != b && b != c {
      KeyLessTransitive(a.value, b.value, c.value);
    }
  }

  /** One page against the listing behind its cursor, the rest against the listing behind the next. */
  lemma {:induction false} ReceivedStep(all: seq<Row>, visible: Row -> bool, start: Option<Key>, cursor: Option<Key>,
                                        limit: nat)
    requires limit >= 1 && Sorted(all) && Behind(start, cursor)
    requires Answer(Dedup(Visible(all, cursor, limit + 1, visible)), limit).1.Some?
    ensures var listing := Dedup(Wanted(all, start, visible));
            var (rows, next) := Answer(Dedup(Visible(all, cursor, limit + 1, visible)), limit);
            rows + Received(all, visible, next, limit) == Rest(listing, cursor) <==>
            Returns(all, visible, start, cursor, limit) && Received(all, visible, next, limit) == Rest(listing, next)
  {
    var listing := Dedup(Wanted(all, start, visible));
    var (rows, next) := Answer(Dedup(Visible(all, cursor, limit + 1, visible)), limit);
    var later := Received(all, visible, next, limit);
    RequestUpTo(all, visible, cursor, limit);
    NextIsRead(all, visible, cursor, limit);
    ReceivedIsPast(all, visible, next, limit);
    NonePast(next.value, later);
    ListingSplits(all, visible, start, cursor, next.value);
    SplitEqual(UpTo(next), rows, later, FilterSeq(UpTo(next), Rest(listing, cursor)), Rest(listing, next));
  }

  lemma NonePast(k: Key, s: seq<Row>)
    requires All(Past(Some(k)), s)
    ensures !Any(UpTo(Some(k)), s)
  {
  }

  lemma ListingSplits(all: seq<Row>, visible: Row -> bool, start: Option<Key>, cursor: Option<Key>, k: Key)
    requires Sorted(all) && Behind(cursor, Some(k))
    ensures var listing := Dedup(Wanted(all, start, visible));
            && Rest(listing, cursor) == FilterSeq(UpTo(Some(k)), Rest(listing, cursor)) + Rest(listing, Some(k))
            && All(UpTo(Some(k)), FilterSeq(UpTo(Some(k)), Rest(listing, cursor)))
            && !Any(UpTo(Some(k)), Rest(listing, Some(k)))
  {
    var wanted := Wanted(all, start, visible);
    RestSorted(Past(start), all);
    RestSorted(visible, Rest(all, start));
    RestSorted(Winner(wanted), wanted);
    RestSorted(Past(cursor), Dedup(wanted));
    SplitAtKey(Rest(Dedup(wanted), cursor), k);
    forall r | Past(Some(k))(r) ensures Past(cursor)(r) {
      PastBehind(cursor, Some(k), r);
    }
    FilterThrough(Past(cursor), Past(Some(k)), Dedup(wanted));
    FilterMembers(UpTo(Some(k)), Rest(Dedup(wanted), cursor));
    FilterMembers(Past(Some(k)), Dedup(wanted));
  }

  /** From any cursor on, the client receives the rest of the listing if and only if every request is undisturbed. */
  lemma {:induction false} ReceivedBehindIff(all: seq<Row>, visible: Row -> bool, start: Option<Key>,
                                             cursor: Option<Key>, limit: nat)
    requires limit >= 1 && Sorted(all) && Behind(start, cursor)
    ensures var wanted := Wanted(all, start, visible);
            Received(all, visible, cursor, limit) == Rest(Dedup(wanted), cursor)
            <==> AllUndisturbed(all, visible, wanted, cursor, limit)
    decreases |Rest(all, cursor)|
  {
    var next := Answer(Dedup(Visible(all, cursor, limit + 1, visible)), limit).1;
    RequestIff(all, visible, start, cursor, limit);
    if next.None? {
      BoundNone(Rest(Dedup(Wanted(all, start, visible)), cursor));
    } else {
      NextIsRead(all, visible, cursor, limit);
      BehindTransitive(start, cursor, next);
      ReceivedBehindIff(all, visible, start, next, limit);
      ReceivedStep(all, visible, start, cursor, limit);
    }
  }

  /**
   A client that follows the cursors from any start to the end receives exactly the deduplicated listing of its visible
   rows, each once and in order, if and only if every request on the way is undisturbed.
   */
  lemma {:induction false} ReceivedIff(all: seq<Row>, visible: Row -> bool, start: Option<Key>, limit: nat)
    requires limit >= 1 && Sorted(all)
    ensures var wanted := Wanted(all, start, visible);
            Received(all, visible, start, limit) == Dedup(wanted)
            <==> AllUndisturbed(all, visible, wanted, start, limit)
  {
    ReceivedBehindIff(all, visible, start, start, limit);
    StartsThere(all, start, visible);
  }
}
