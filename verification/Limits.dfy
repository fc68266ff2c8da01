/** For which tables the limit of the requests makes no difference to what a client receives. */
module Limits {
  import opened Common
  import opened Text
  import opened Keyset
  import opened Deduplication
  import opened Listing

  // ---------------------------------------------------------------- one unbounded read

  /** No row from the third on that satisfies p has a row of its key before it. */
  ghost predicate FirstOfKey(p: Row -> bool, s: seq<Row>) {
    forall i, j :: 0 <= i < j < |s| && 2 <= j && KeyOf(s[i]) == KeyOf(s[j]) ==> !p(s[j])
  }

  lemma FirstOfKeyInSuffix(p: Row -> bool, s: seq<Row>, n: nat)
    requires n <= |s| && FirstOfKey(p, s)
    ensures FirstOfKey(p, s[n..])
  {
    forall i, j | 0 <= i < j < |s[n..]| && 2 <= j && KeyOf(s[n..][i]) == KeyOf(s[n..][j]) ensures !p(s[n..][j]) {
      assert s[n..][i] == s[n + i] && s[n..][j] == s[n + j];
    }
  }

  lemma {:induction false} SkipIsSuffix(s: seq<Row>, k: Key) returns (d: nat)
    ensures d <= |s| && SkipKey(s, k) == s[d..]
  {
    d := 0;
    if s != [] && KeyOf(s[0]) == k {
      d := SkipIsSuffix(s[1..], k);
      d := d + 1;
    }
  }

  /** Behind the key of one of its rows the rest of a table is a suffix. */
  lemma RestIsSuffix(all: seq<Row>, start: Option<Key>, r: Row) returns (d: nat)
    requires Sorted(all) && r in Rest(all, start)
    ensures d <= |Rest(all, start)| && Rest(all, Some(KeyOf(r))) == Rest(all, start)[d..]
  {
    var rest := Rest(all, start);
    var n :| 0 <= n < |rest| && rest[n] == r;
    RestAfterPage(all, start, n + 1);
    d := SkipIsSuffix(rest[n + 1..], KeyOf(r));
    assert rest[n + 1..][d..] == rest[n + 1 + d..];
    d := n + 1 + d;
  }

  lemma FirstOfKeyBehind(p: Row -> bool, all: seq<Row>, cursor: Option<Key>, size: nat)
    requires Sorted(all) && 2 <= size <= |Rest(all, cursor)| && FirstOfKey(p, Rest(all, cursor))
    ensures !CutsOff(Rest(all, cursor), size, p)
    ensures FirstOfKey(p, Rest(all, Some(KeyOf(Rest(all, cursor)[size - 1]))))
  {
    var rest := Rest(all, cursor);
    var last := KeyOf(rest[size - 1]);
    assert rest[size - 1] in rest;
    var d := RestIsSuffix(all, cursor, rest[size - 1]);
    FirstOfKeyInSuffix(p, rest, d);
    forall r | r in rest[size..] && KeyOf(r) == last ensures !p(r) {
      var j :| 0 <= j < |rest[size..]| && rest[size..][j] == r;
      assert rest[size + j] == r;
    }
  }

  lemma {:induction false} NeverLoses(p: Row -> bool, all: seq<Row>, cursor: Option<Key>, size: nat)
    requires size >= 2 && Sorted(all) && FirstOfKey(p, Rest(all, cursor))
    ensures !Loses(all, cursor, size, p)
    decreases |Rest(all, cursor)|
  {
    if |Rest(all, cursor)| >= size {
      FirstOfKeyBehind(p, all, cursor, size);
      FewerRest(all, cursor, size);
      NeverLoses(p, all, Some(KeyOf(Rest(all, cursor)[size - 1])), size);
    }
  }

  /** Between two rows of one key a sorted list holds that key only, so a batch can end right before the second. */
  lemma CanCutOff(p: Row -> bool, all: seq<Row>, cursor: Option<Key>) returns (size: nat)
    requires Sorted(all) && !FirstOfKey(p, Rest(all, cursor))
    ensures size >= 2 && Loses(all, cursor, size, p)
  {
    var rest := Rest(all, cursor);
    RestSorted(Past(cursor), all);
    var i, j :| 0 <= i < j < |rest| && 2 <= j && KeyOf(rest[i]) == KeyOf(rest[j]) && p(rest[j]);
    size := j;
    KeyLessTotal(KeyOf(rest[i]), KeyOf(rest[j - 1]));
    assert InOrder(rest[j - 1], rest[j]);
    assert i < j - 1 ==> InOrder(rest[i], rest[j - 1]);
    assert rest[j..][0] == rest[j] && rest[j] in rest[j..];
  }

  /**
   Reading from the start to the end in batches of any size would list the whole deduplicated listing if and only if
   no row of that listing, from the table's third on, has a row of its key before it in the table, visible or not.
   */
  lemma PageSizeIrrelevantIff(all: seq<Row>, start: Option<Key>, visible: Row -> bool)
    requires Sorted(all)
    ensures var wanted := Wanted(all, start, visible);
            (forall size: nat :: size >= 2 ==> Dedup(Visible(all, start, size, visible)) == Dedup(wanted))
            <==> FirstOfKey(Owed(wanted, visible, None), Rest(all, start))
  {
    var owed := Owed(Wanted(all, start, visible), visible, None);
    if FirstOfKey(owed, Rest(all, start)) {
      forall size: nat | size >= 2
        ensures Dedup(Visible(all, start, size, visible)) == Dedup(Wanted(all, start, visible))
      {
        NeverLoses(owed, all, start, size);
        ListingCompleteIff(all, start, size, visible);
      }
    } else {
      var size := CanCutOff(owed, all, start);
      ListingCompleteIff(all, start, size, visible);
    }
  }

  /** Rows of one key come from sources at different positions. */
  ghost predicate DistinctSources(s: seq<Row>) {
    forall i, j :: 0 <= i < j < |s| && KeyOf(s[i]) == KeyOf(s[j]) ==> s[i].position != s[j].position
  }

  /** Whoever may see a row may see the rows of its key from higher-priority sources. */
  ghost predicate ShownTopDown(visible: Row -> bool, s: seq<Row>) {
    forall i, j :: 0 <= i < j < |s| && KeyOf(s[i]) == KeyOf(s[j]) && visible(s[j]) ==> visible(s[i])
  }

  /** Where the top source leads and hides nothing that lower ones show, such a read would list exactly its rows. */
  lemma TopSourceListed(all: seq<Row>, start: Option<Key>, size: nat, visible: Row -> bool)
    requires size >= 2 && Sorted(all)
    requires DistinctSources(Rest(all, start)) && ShownTopDown(visible, Rest(all, start))
    requires TopSourceLeads(Wanted(all, start, visible))
    ensures var wanted := Wanted(all, start, visible);
            Dedup(Visible(all, start, size, visible)) == FilterSeq(TopSource(wanted), wanted)
  {
    var rest, wanted := Rest(all, start), Wanted(all, start, visible);
    RestSorted(Past(start), all);
    FilterMembers(visible, rest);
    WinsIffLeads(wanted);
    forall i, j | 0 <= i < j < |rest| && KeyOf(rest[i]) == KeyOf(rest[j])
      ensures !Owed(wanted, visible, None)(rest[j])
    {
      assert InOrder(rest[i], rest[j]) && rest[i] in rest;
      KeyLessTotal(KeyOf(rest[i]), KeyOf(rest[i]));
      if visible(rest[j]) {
        assert rest[i] in wanted;
      }
    }
    NeverLoses(Owed(wanted, visible, None), all, start, size);
    ListingCompleteIff(all, start, size, visible);
  }

  // ---------------------------------------------------------------- every limit

  ghost predicate KeysOnce(s: seq<Row>) {
    forall i, j :: 0 <= i < j < |s| ==> KeyOf(s[i]) != KeyOf(s[j])
  }

  /** Behind the key, the key's name is led by the position that leads it in the whole. */
  ghost predicate KeepsLead(wanted: seq<Row>, k: Key) {
    !LeadChanges(Rest(wanted, Some(k)), wanted, Some(k))
  }

  /** The listing shows every key once, and its names keep their lead behind each of its rows but the last. */
  ghost predicate Steady(wanted: seq<Row>) {
    var listing := Dedup(wanted);
    KeysOnce(listing) && forall j :: 0 <= j < |listing| - 1 ==> KeepsLead(wanted, KeyOf(listing[j]))
  }

  /** The rows of the listing are visible rows of the table, in order. */
  lemma ListingRows(all: seq<Row>, start: Option<Key>, visible: Row -> bool)
    requires Sorted(all)
    ensures var wanted := Wanted(all, start, visible);
            && Sorted(wanted) && Sorted(Dedup(wanted))
            && (forall r :: r in wanted <==> r in Rest(all, start) && visible(r))
            && (forall r :: r in Dedup(wanted) <==> r in wanted && Winner(wanted)(r))
  {
    var wanted := Wanted(all, start, visible);
    RestSorted(Past(start), all);
    RestSorted(visible, Rest(all, start));
    RestSorted(Winner(wanted), wanted);
    FilterMembers(visible, Rest(all, start));
    FilterMembers(Winner(wanted), wanted);
  }

  lemma BehindRow(all: seq<Row>, start: Option<Key>, r: Row)
    requires r in Rest(all, start)
    ensures Behind(start, Some(KeyOf(r)))
  {
    FilterMembers(Past(start), all);
  }

  /** With no owed row lost, a lead kept in what is wanted behind the cursor is kept in what is read. */
  lemma {:induction false} LeadKept(all: seq<Row>, start: Option<Key>, cursor: Option<Key>, size: nat,
                                    visible: Row -> bool)
    requires size >= 1 && Sorted(all) && Behind(start, cursor)
    requires var wanted := Wanted(all, start, visible);
             && !Loses(all, cursor, size, Owed(wanted, visible, None))
             && !LeadChanges(Rest(wanted, cursor), wanted, cursor)
    ensures !LeadChanges(Visible(all, cursor, size, visible), Wanted(all, start, visible), cursor)
  {
    var read, wanted := Visible(all, cursor, size, visible), Wanted(all, start, visible);
    var later := Rest(wanted, cursor);
    if cursor.Some? && Named(read, cursor.value.name) {
      var n := cursor.value.name;
      var g := FirstNamed(read, n);
      ReadIsWanted(all, start, cursor, size, visible, g);
      VisibleWithin(all, cursor, size, visible);
      FilterMembers(Past(cursor), wanted);
      assert Named(later, n);
      var f := FirstNamed(later, n);
      assert Named(wanted, n);
      OwedIsRead(all, start, cursor, size, visible, None, f);
      VisibleSorted(all, cursor, size, visible);
      ListingRows(all, start, visible);
      RestSorted(Past(cursor), wanted);
      SameLead(later, read, n);
    }
  }

  /** Behind a row of a listing that shows every key once lie the rows after it. */
  lemma ListingBehind(listing: seq<Row>, m: nat)
    requires Sorted(listing) && KeysOnce(listing) && 0 < m < |listing|
    ensures Rest(listing, Some(KeyOf(listing[m - 1]))) == listing[m..]
  {
    FilterKeepsAll(Past(None), listing);
    RestAfterPage(listing, None, m);
    assert listing[m..][0] == listing[m];
  }

  /** The cursor after m rows of the listing. */
  ghost function After(listing: seq<Row>, start: Option<Key>, m: nat): Option<Key>
    requires m <= |listing|
  {
    if m == 0 then start else Some(KeyOf(listing[m - 1]))
  }

  /** The listing is steady, and no row of it from the table's third on has a row of its key before it in the table. */
  ghost predicate Regular(all: seq<Row>, visible: Row -> bool, start: Option<Key>) {
    var wanted := Wanted(all, start, visible);
    Steady(wanted) && FirstOfKey(Owed(wanted, visible, None), Rest(all, start))
  }

  /** Then a request from there reads the rest of the listing. */
  lemma ReadAfter(all: seq<Row>, visible: Row -> bool, start: Option<Key>, size: nat, m: nat)
    requires size >= 2 && Sorted(all) && Regular(all, visible, start)
    requires m == 0 || m < |Dedup(Wanted(all, start, visible))|
    ensures var listing := Dedup(Wanted(all, start, visible));
            Dedup(Visible(all, After(listing, start, m), size, visible)) == listing[m..]
  {
    var wanted := Wanted(all, start, visible);
    var listing, owed := Dedup(wanted), Owed(wanted, visible, None);
    if m == 0 {
      NeverLoses(owed, all, start, size);
      ListingCompleteIff(all, start, size, visible);
    } else {
      var r := listing[m - 1];
      var cursor := Some(KeyOf(r));
      ListingRows(all, start, visible);
      assert r in listing;
      BehindRow(all, start, r);
      var d := RestIsSuffix(all, start, r);
      FirstOfKeyInSuffix(owed, Rest(all, start), d);
      NeverLoses(owed, all, cursor, size);
      assert KeepsLead(wanted, KeyOf(listing[m - 1]));
      LeadKept(all, start, cursor, size, visible);
      ResumeIff(all, start, cursor, size, visible);
      ListingBehind(listing, m);
    }
  }

  lemma ReceivedStepOf(all: seq<Row>, visible: Row -> bool, cursor: Option<Key>, limit: nat, full: seq<Row>)
    requires limit >= 1 && Sorted(all) && Dedup(Visible(all, cursor, limit + 1, visible)) == full
    ensures Received(all, visible, cursor, limit) ==
            if |full| <= limit then full
            else full[..limit] + Received(all, visible, Some(KeyOf(full[limit - 1])), limit)
  {
  }

  lemma NextAfter(listing: seq<Row>, start: Option<Key>, limit: nat, m: nat)
    requires limit >= 1 && m + limit < |listing|
    ensures Some(KeyOf(listing[m..][limit - 1])) == After(listing, start, m + limit)
  {
  }

  lemma Rejoined(listing: seq<Row>, limit: nat, m: nat)
    requires m + limit <= |listing|
    ensures listing[m..][..limit] + listing[m + limit..] == listing[m..]
  {
  }

  /** A request of a client that is past the first m rows of the listing reads the others. */
  ghost predicate ReadsRest(all: seq<Row>, visible: Row -> bool, start: Option<Key>, limit: nat, listing: seq<Row>,
                            m: nat)
  {
    m == 0 || m < |listing| ==> Dedup(Visible(all, After(listing, start, m), limit + 1, visible)) == listing[m..]
  }

  ghost predicate ReadsOn(all: seq<Row>, visible: Row -> bool, start: Option<Key>, limit: nat, listing: seq<Row>) {
    forall m: nat :: ReadsRest(all, visible, start, limit, listing, m)
  }

  /** And such a client receives them. */
  ghost predicate ReceivesRest(all: seq<Row>, visible: Row -> bool, start: Option<Key>, limit: nat, listing: seq<Row>,
                               m: nat)
    requires limit >= 1 && Sorted(all) && m <= |listing|
  {
    Received(all, visible, After(listing, start, m), limit) == listing[m..]
  }

  lemma PageThenRest(all: seq<Row>, visible: Row -> bool, start: Option<Key>, limit: nat, listing: seq<Row>, m: nat)
    requires limit >= 1 && Sorted(all) && (m == 0 || m < |listing|)
    requires ReadsOn(all, visible, start, limit, listing)
    requires m + limit < |listing| ==> ReceivesRest(all, visible, start, limit, listing, m + limit)
    ensures ReceivesRest(all, visible, start, limit, listing, m)
  {
    assert ReadsRest(all, visible, start, limit, listing, m);
    ReceivedStepOf(all, visible, After(listing, start, m), limit, listing[m..]);
    if |listing| - m > limit {
      NextAfter(listing, start, limit, m);
      Rejoined(listing, limit, m);
    }
  }

  lemma {:induction false} ReceivedAfter(all: seq<Row>, visible: Row -> bool, start: Option<Key>, limit: nat,
                                         listing: seq<Row>, m: nat)
    requires limit >= 1 && Sorted(all) && (m == 0 || m < |listing|)
    requires ReadsOn(all, visible, start, limit, listing)
    ensures ReceivesRest(all, visible, start, limit, listing, m)
    decreases |listing| - m
  {
    if m + limit < |listing| {
      ReceivedAfter(all, visible, start, limit, listing, m + limit);
    }
    PageThenRest(all, visible, start, limit, listing, m);
  }

  lemma ReadsAfter(all: seq<Row>, visible: Row -> bool, start: Option<Key>, limit: nat, m: nat)
    requires limit >= 1 && Sorted(all) && Regular(all, visible, start)
    ensures ReadsRest(all, visible, start, limit, Dedup(Wanted(all, start, visible)), m)
  {
    if m == 0 || m < |Dedup(Wanted(all, start, visible))| {
      ReadAfter(all, visible, start, limit + 1, m);
    }
  }

  /** Whatever the filter hides: on a regular listing every limit is right. */
  lemma {:induction false} EveryLimit(all: seq<Row>, visible: Row -> bool, start: Option<Key>, limit: nat)
    requires limit >= 1 && Sorted(all) && Regular(all, visible, start)
    ensures Received(all, visible, start, limit) == Dedup(Wanted(all, start, visible))
  {
    var listing := Dedup(Wanted(all, start, visible));
    forall m: nat ensures ReadsRest(all, visible, start, limit, listing, m) {
      ReadsAfter(all, visible, start, limit, m);
    }
    ReceivedAfter(all, visible, start, limit, listing, 0);
  }

  // ---------------------------------------------------------------- a limit for every flaw

  lemma {:induction false} FirstWithShown(visible: Row -> bool, s: seq<Row>, f: Row)
    requires ShownTopDown(visible, s) && f in s && visible(f)
    ensures Has(s, KeyOf(f)) && visible(FirstWith(s, KeyOf(f)))
  {
    assert Has(s, KeyOf(f));
    var i :| 0 <= i < |s| && s[i] == f;
    if KeyOf(s[0]) != KeyOf(f) {
      ShownInSuffix(visible, s, 1);
      assert s[1..][i - 1] == f;
      FirstWithShown(visible, s[1..], f);
    }
  }

  lemma ShownInSuffix(visible: Row -> bool, s: seq<Row>, n: nat)
    requires n <= |s| && ShownTopDown(visible, s)
    ensures ShownTopDown(visible, s[n..])
  {
    forall i, j | 0 <= i < j < |s[n..]| && KeyOf(s[n..][i]) == KeyOf(s[n..][j]) && visible(s[n..][j])
      ensures visible(s[n..][i])
    {
      assert s[n..][i] == s[n + i] && s[n..][j] == s[n + j];
    }
  }

  lemma {:induction false} OnPageInFlat(pages: seq<seq<Row>>, i: nat, r: Row)
    requires i < |pages| && r in pages[i]
    ensures r in Flatten(pages)
  {
    if i > 0 {
      OnPageInFlat(pages[1..], i - 1, r);
    }
  }

  /** The first row of a key is always read, and shown if any row of the key is. */
  lemma FirstWithRead(all: seq<Row>, cursor: Option<Key>, size: nat, visible: Row -> bool, f: Row)
    requires size >= 1 && Sorted(all) && ShownTopDown(visible, Rest(all, cursor))
    requires f in Rest(all, cursor) && visible(f)
    ensures Has(Rest(all, cursor), KeyOf(f))
    ensures var q := FirstWith(Rest(all, cursor), KeyOf(f));
            q in Visible(all, cursor, size, visible) && q.position <= f.position
  {
    var rest, k := Rest(all, cursor), KeyOf(f);
    FirstWithShown(visible, rest, f);
    RestSorted(Past(cursor), all);
    FirstIsTopPriority(rest, k);
    EveryKeyOnExactlyOnePage(all, cursor, size, k);
    var pages := Pages(all, cursor, size);
    var i :| 0 <= i < |pages| && FirstWith(rest, k) in pages[i];
    OnPageInFlat(pages, i, FirstWith(rest, k));
    FilterMembers(visible, Flatten(pages));
  }

  lemma Between(f: Row, g: Row, q: Row)
    requires (f == g || InOrder(f, g)) && (g == q || InOrder(g, q)) && KeyOf(f) == KeyOf(q) && q.position <= f.position
    ensures g.position == f.position
  {
    KeyLessTotal(KeyOf(f), KeyOf(g));
  }

  /** A lead that changes in what is wanted behind the cursor changes in what is read. */
  lemma LeadChangeRead(all: seq<Row>, start: Option<Key>, cursor: Option<Key>, size: nat, visible: Row -> bool)
    requires size >= 1 && Sorted(all) && Behind(start, cursor) && ShownTopDown(visible, Rest(all, cursor))
    requires var wanted := Wanted(all, start, visible); LeadChanges(Rest(wanted, cursor), wanted, cursor)
    ensures LeadChanges(Visible(all, cursor, size, visible), Wanted(all, start, visible), cursor)
  {
    var read, wanted := Visible(all, cursor, size, visible), Wanted(all, start, visible);
    var later, n := Rest(wanted, cursor), cursor.value.name;
    var f := FirstNamed(later, n);
    ListingRows(all, start, visible);
    FilterMembers(Past(cursor), wanted);
    FilterMembers(Past(cursor), all);
    FilterMembers(Past(start), all);
    FirstWithRead(all, cursor, size, visible, f);
    var q := FirstWith(Rest(all, cursor), KeyOf(f));
    assert Named(read, n);
    var g := FirstNamed(read, n);
    ReadIsWanted(all, start, cursor, size, visible, g);
    VisibleWithin(all, cursor, size, visible);
    VisibleSorted(all, cursor, size, visible);
    RestSorted(Past(cursor), wanted);
    FirstNamedInOrder(later, g);
    FirstNamedInOrder(read, q);
    Between(f, g, q);
  }

  /** A client with limit j + 1 that receives the listing resumes behind its row j, and that request is undisturbed. */
  lemma ResumesBehind(all: seq<Row>, visible: Row -> bool, start: Option<Key>, j: nat)
    requires Sorted(all) && j + 1 < |Dedup(Wanted(all, start, visible))|
    requires Received(all, visible, start, j + 1) == Dedup(Wanted(all, start, visible))
    ensures var wanted := Wanted(all, start, visible);
            var k := KeyOf(Dedup(wanted)[j]);
            Undisturbed(all, visible, wanted, Some(k), j + 1) && KeyOf(Dedup(wanted)[j + 1]) != k
  {
    var wanted := Wanted(all, start, visible);
    var listing := Dedup(wanted);
    var (rows, next) := Answer(Dedup(Visible(all, start, j + 2, visible)), j + 1);
    ReceivedIff(all, visible, start, j + 1);
    RequestIff(all, visible, start, start, j + 1);
    StartsThere(all, start, visible);
    BoundNone(listing);
    assert next.Some?;
    NextIsRead(all, visible, start, j + 1);
    assert rows == listing[..j + 1] && next == Some(KeyOf(listing[j]));
    ListingRows(all, start, visible);
    AnswerUpTo(listing, j + 1);
  }

  /** Two rows that a filter keeps stay in their order. */
  lemma {:induction false} FilterKeepsOrder(p: Row -> bool, s: seq<Row>, i: nat, j: nat) returns (a: nat, b: nat)
    requires i < j < |s| && p(s[i]) && p(s[j])
    ensures a < b < |FilterSeq(p, s)| && FilterSeq(p, s)[a] == s[i] && FilterSeq(p, s)[b] == s[j]
  {
    if i > 0 {
      a, b := FilterKeepsOrder(p, s[1..], i - 1, j - 1);
      if p(s[0]) {
        a, b := a + 1, b + 1;
      }
    } else {
      FilterMembers(p, s[1..]);
      assert s[1..][j - 1] == s[j];
      var t := FilterSeq(p, s[1..]);
      var c :| 0 <= c < |t| && t[c] == s[j];
      a, b := 0, c + 1;
    }
  }

  /** So two owed rows of one key would show that key twice. */
  lemma OwedOnce(all: seq<Row>, start: Option<Key>, visible: Row -> bool, i: nat, j: nat)
    requires var wanted := Wanted(all, start, visible);
             && KeysOnce(Dedup(wanted)) && i < j < |Rest(all, start)|
             && Owed(wanted, visible, None)(Rest(all, start)[i]) && Owed(wanted, visible, None)(Rest(all, start)[j])
    ensures KeyOf(Rest(all, start)[i]) != KeyOf(Rest(all, start)[j])
  {
    var wanted := Wanted(all, start, visible);
    var a, b := FilterKeepsOrder(visible, Rest(all, start), i, j);
    var c, d := FilterKeepsOrder(Winner(wanted), wanted, a, b);
  }

  /** In a sorted list a row before another in strict order has the smaller index. */
  lemma IndexLess(s: seq<Row>, i: nat, j: nat)
    requires Sorted(s) && i < |s| && j < |s| && KeyLess(KeyOf(s[i]), KeyOf(s[j]))
    ensures i < j
  {
    KeyLessTotal(KeyOf(s[i]), KeyOf(s[j]));
  }

  /** The listing's row before g has g's name, if the name's first row lies in front of g. */
  lemma NameBefore(listing: seq<Row>, f: Row, g: Row) returns (b: nat)
    requires Sorted(listing) && f in listing && g in listing && f.name == g.name && KeyLess(KeyOf(f), KeyOf(g))
    ensures 0 < b < |listing| && listing[b] == g && listing[b - 1].name == g.name
  {
    var a :| 0 <= a < |listing| && listing[a] == f;
    b :| 0 <= b < |listing| && listing[b] == g;
    IndexLess(listing, a, b);
    assert InOrder(listing[b - 1], g);
    assert a < b - 1 ==> InOrder(f, listing[b - 1]);
    StrLessTotal(f.name, listing[b - 1].name);
  }

  /** The row g is owed, h of its key stands before it at another position: behind the row before g the lead changes. */
  lemma DroppedBefore(wanted: seq<Row>, h: Row, g: Row) returns (j: nat)
    requires Sorted(wanted) && Sorted(Dedup(wanted)) && h in wanted && g in wanted
    requires KeyOf(h) == KeyOf(g) && h.position < g.position && Winner(wanted)(g) && KeysOnce(Dedup(wanted))
    ensures j + 1 < |Dedup(wanted)| && !KeepsLead(wanted, KeyOf(Dedup(wanted)[j]))
  {
    var listing := Dedup(wanted);
    FilterMembers(Winner(wanted), wanted);
    FirstNamedInOrder(wanted, h);
    var b := NameBefore(listing, FirstNamed(wanted, g.name), g);
    j := b - 1;
    assert InOrder(listing[j], listing[b]);
    OtherLead(wanted, b, h, g);
  }

  lemma OtherLead(wanted: seq<Row>, b: nat, h: Row, g: Row)
    requires Sorted(wanted) && Sorted(Dedup(wanted)) && h in wanted && 0 < b < |Dedup(wanted)| && Dedup(wanted)[b] == g
    requires Winner(wanted)(g) && KeyOf(h) == KeyOf(g) && h.position < g.position
    requires var k := KeyOf(Dedup(wanted)[b - 1]); k.name == g.name && KeyLess(k, KeyOf(g))
    ensures !KeepsLead(wanted, KeyOf(Dedup(wanted)[b - 1]))
  {
    var k, n := KeyOf(Dedup(wanted)[b - 1]), g.name;
    var later := Rest(wanted, Some(k));
    FilterMembers(Past(Some(k)), wanted);
    assert h in later && Named(later, n);
    var f := FirstNamed(later, n);
    RestSorted(Past(Some(k)), wanted);
    FirstNamedInOrder(later, h);
    if f.position == FirstNamed(wanted, n).position {
      FilterMembers(Winner(wanted), wanted);
      NothingBetween(Dedup(wanted), b, f, h);
    }
  }

  /** No row of the listing lies behind the one before g and in front of h. */
  lemma NothingBetween(listing: seq<Row>, b: nat, f: Row, h: Row)
    requires Sorted(listing) && 0 < b < |listing| && KeyLess(KeyOf(listing[b - 1]), KeyOf(f))
    requires (f == h || InOrder(f, h)) && KeyOf(h) == KeyOf(listing[b]) && h.position < f.position
    ensures f !in listing
  {
    if f in listing {
      var c :| 0 <= c < |listing| && listing[c] == f;
      IndexLess(listing, b - 1, c);
      assert b < c ==> InOrder(listing[b], listing[c]);
      KeyLessTotal(KeyOf(f), KeyOf(h));
    }
  }

  /** A steady listing holds only first rows of their keys, unless a higher-priority row is hidden. */
  lemma SteadyFirstOfKey(all: seq<Row>, visible: Row -> bool, start: Option<Key>)
    requires Sorted(all) && ShownTopDown(visible, Rest(all, start)) && Steady(Wanted(all, start, visible))
    ensures FirstOfKey(Owed(Wanted(all, start, visible), visible, None), Rest(all, start))
  {
    var rest, wanted := Rest(all, start), Wanted(all, start, visible);
    ListingRows(all, start, visible);
    RestSorted(Past(start), all);
    forall i, j | 0 <= i < j < |rest| && 2 <= j && KeyOf(rest[i]) == KeyOf(rest[j])
      ensures !Owed(wanted, visible, None)(rest[j])
    {
      NotOwedBehind(all, visible, start, i, j);
    }
  }

  lemma NotOwedBehind(all: seq<Row>, visible: Row -> bool, start: Option<Key>, i: nat, j: nat)
    requires Sorted(all) && ShownTopDown(visible, Rest(all, start)) && Steady(Wanted(all, start, visible))
    requires i < j < |Rest(all, start)| && KeyOf(Rest(all, start)[i]) == KeyOf(Rest(all, start)[j])
    ensures !Owed(Wanted(all, start, visible), visible, None)(Rest(all, start)[j])
  {
    var rest, wanted := Rest(all, start), Wanted(all, start, visible);
    var h, g := rest[i], rest[j];
    if Owed(wanted, visible, None)(g) {
      ListingRows(all, start, visible);
      RestSorted(Past(start), all);
      KeyLessTotal(KeyOf(h), KeyOf(g));
      assert InOrder(h, g) && h in wanted && g in wanted;
      if h.position == g.position {
        OwedOnce(all, start, visible, i, j);
      } else {
        var c := DroppedBefore(wanted, h, g);
      }
      assert false;
    }
  }

  /** With every limit a client that follows the cursors receives exactly these rows. */
  ghost predicate AlwaysReceived(all: seq<Row>, visible: Row -> bool, start: Option<Key>, rows: seq<Row>)
    requires Sorted(all)
  {
    forall limit: nat :: limit >= 1 ==> Received(all, visible, start, limit) == rows
  }

  /** If every limit shows the whole listing, the listing is steady. */
  lemma EveryLimitSteady(all: seq<Row>, visible: Row -> bool, start: Option<Key>)
    requires Sorted(all) && ShownTopDown(visible, Rest(all, start))
    requires AlwaysReceived(all, visible, start, Dedup(Wanted(all, start, visible)))
    ensures Steady(Wanted(all, start, visible))
  {
    var wanted := Wanted(all, start, visible);
    var listing := Dedup(wanted);
    forall j: nat | j + 1 < |listing|
      ensures KeyOf(listing[j + 1]) != KeyOf(listing[j]) && KeepsLead(wanted, KeyOf(listing[j]))
    {
      LimitShowsFlaw(all, visible, start, j);
    }
    ListingRows(all, start, visible);
    NeighboursDiffer(listing);
  }

  lemma NeighboursDiffer(s: seq<Row>)
    requires Sorted(s) && forall j: nat :: j + 1 < |s| ==> KeyOf(s[j + 1]) != KeyOf(s[j])
    ensures KeysOnce(s)
  {
    forall i, j | 0 <= i < j < |s| ensures KeyOf(s[i]) != KeyOf(s[j]) {
      assert KeyOf(s[j - 1 + 1]) != KeyOf(s[j - 1]);
      KeyLessTotal(KeyOf(s[i]), KeyOf(s[j - 1]));
      assert InOrder(s[j - 1], s[j]);
      assert i < j - 1 ==> InOrder(s[i], s[j - 1]);
    }
  }

  /** With limit j + 1 a client sees whether the listing is steady behind its row j. */
  lemma LimitShowsFlaw(all: seq<Row>, visible: Row -> bool, start: Option<Key>, j: nat)
    requires Sorted(all) && ShownTopDown(visible, Rest(all, start)) && j + 1 < |Dedup(Wanted(all, start, visible))|
    requires Received(all, visible, start, j + 1) == Dedup(Wanted(all, start, visible))
    ensures var wanted := Wanted(all, start, visible);
            var listing := Dedup(wanted);
            KeyOf(listing[j + 1]) != KeyOf(listing[j]) && KeepsLead(wanted, KeyOf(listing[j]))
  {
    var wanted := Wanted(all, start, visible);
    var r := Dedup(wanted)[j];
    var cursor := Some(KeyOf(r));
    ResumesBehind(all, visible, start, j);
    ListingRows(all, start, visible);
    assert r in Dedup(wanted);
    BehindRow(all, start, r);
    var d := RestIsSuffix(all, start, r);
    ShownInSuffix(visible, Rest(all, start), d);
    if LeadChanges(Rest(wanted, cursor), wanted, cursor) {
      LeadChangeRead(all, start, cursor, j + 2, visible);
    }
  }

  /**
   Where whoever may see a row may see the higher-priority rows of its key: a client that follows the cursors receives
   the whole deduplicated listing with every limit if and only if that listing is steady.
   */
  lemma EveryLimitIff(all: seq<Row>, visible: Row -> bool, start: Option<Key>)
    requires Sorted(all) && ShownTopDown(visible, Rest(all, start))
    ensures var wanted := Wanted(all, start, visible);
            AlwaysReceived(all, visible, start, Dedup(wanted)) <==> Steady(wanted)
  {
    var wanted := Wanted(all, start, visible);
    if AlwaysReceived(all, visible, start, Dedup(wanted)) {
      EveryLimitSteady(all, visible, start);
    }
    if Steady(wanted) {
      SteadyFirstOfKey(all, visible, start);
      forall limit: nat | limit >= 1 ensures Received(all, visible, start, limit) == Dedup(wanted) {
        EveryLimit(all, visible, start, limit);
      }
    }
  }

  /** A limit above the table's length asks once and reads one batch. */
  lemma {:induction false} AmpleLimit(all: seq<Row>, visible: Row -> bool, start: Option<Key>)
    requires Sorted(all)
    ensures Received(all, visible, start, |Rest(all, start)| + 1) == Dedup(Wanted(all, start, visible))
  {
    var wanted, limit := Wanted(all, start, visible), |Rest(all, start)| + 1;
    ListingCompleteIff(all, start, limit + 1, visible);
    FilterNoLonger(visible, Rest(all, start));
    FilterNoLonger(Winner(wanted), wanted);
    ReceivedStepOf(all, visible, start, limit, Dedup(wanted));
  }

  /**
   "The first source in the list wins" for clients: with every limit they receive exactly the rows of the
   highest-priority source of each name if and only if that source carries the name's smallest version, for every
   name, and the listing is steady.
   */
  lemma FirstSourceReceivedIff(all: seq<Row>, visible: Row -> bool, start: Option<Key>)
    requires Sorted(all) && ShownTopDown(visible, Rest(all, start))
    ensures var wanted := Wanted(all, start, visible);
            AlwaysReceived(all, visible, start, FilterSeq(TopSource(wanted), wanted)) <==>
            (forall r :: r in wanted ==> TopCarriesSmallest(wanted, r.name)) && Steady(wanted)
  {
    var wanted := Wanted(all, start, visible);
    ListingRows(all, start, visible);
    AmpleLimit(all, visible, start);
    EveryLimitIff(all, visible, start);
    FirstSourceWinsIff(wanted);
  }
}
