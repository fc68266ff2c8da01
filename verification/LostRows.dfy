/** Listings that go wrong: the smallest tables on which the streaming reader does not return what it should. */
module LostRows {
  import opened Common
  import opened Text
  import opened Keyset
  import opened Deduplication
  import opened Listing
  import opened Limits

  /** A hidden row of a higher-priority source can end a batch in front of the visible one of the same key. */
  lemma HiddenRowCutsOff(all: seq<Row>, cursor: Option<Key>, x: Row, g: Row, h: Row, visible: Row -> bool)
    requires Sorted(all) && Rest(all, cursor) == [x, h, g]
    requires KeyOf(g) == KeyOf(h) && visible(x) && !visible(h) && visible(g)
    ensures Visible(all, cursor, 2, visible) == [x] && Wanted(all, cursor, visible) == [x, g]
  {
    var k := KeyOf(h);
    var rest := [x, h, g];
    RestAfterPage(all, cursor, 2);
    assert rest[2..] == [g] && rest[1] == h && [g][1..] == [];
    assert SkipKey([g], k) == [];
    ReadStep(all, cursor, 2, visible);
    ReadStep(all, Some(k), 2, visible);
    assert rest[..2] == [x, h];
    FilterPair(visible, x, h);
    assert rest == [x] + [h, g];
    FilterPair(visible, h, g);
  }

  /** A batch that holds the whole table shows everything. */
  lemma WholeBatch(all: seq<Row>, visible: Row -> bool)
    requires |all| == 3 && Sorted(all)
    ensures Visible(all, None, 3, visible) == Wanted(all, None, visible)
  {
    FilterKeepsAll(Past(None), all);
    ReadStep(all, None, 3, visible);
    RestAfterPage(all, None, 3);
    ReadStep(all, Some(KeyOf(all[2])), 3, visible);
    assert all[..3] == all && all[3..] == [];
  }

  /**
   Three rows: x, and g from two sources, the first of which the client may not see. With limit 1 no request ever
   returns its g, with limit 2 the first one does.
   */
  lemma RowNeverReturned(x: Row, h: Row, g: Row)
    requires StrLess(x.name, h.name) && KeyOf(g) == KeyOf(h) && h.position < g.position
    ensures var all, visible := [x, h, g], (r: Row) => r != h;
            && Sorted(all) && Dedup(Wanted(all, None, visible)) == [x, g]
            && Received(all, visible, None, 1) == [x] && Received(all, visible, None, 2) == [x, g]
  {
    var all, visible := [x, h, g], (r: Row) => r != h;
    StrLessTotal(x.name, h.name);
    assert Sorted(all);
    FilterKeepsAll(Past(None), all);
    HiddenRowCutsOff(all, None, x, g, h, visible);
    DedupOne(x);
    DedupTwo(x, g);
    WholeBatch(all, visible);
  }

  /** A client with limit 1 whose second request answers with the only row it reads. */
  lemma {:induction false} TwoRequests(all: seq<Row>, visible: Row -> bool, full: seq<Row>, y: Row)
    requires Sorted(all) && |full| > 1
    requires Dedup(Visible(all, None, 2, visible)) == full
    requires Dedup(Visible(all, Some(KeyOf(full[0])), 2, visible)) == [y]
    ensures Received(all, visible, None, 1) == [full[0], y]
  {
    NextIsRead(all, visible, None, 1);
    assert full[..1] == [full[0]];
  }

  lemma RestsOfFour(a: Row, x: Row, h: Row, g: Row)
    requires Sorted([a, x, h, g]) && KeyLess(KeyOf(x), KeyOf(h)) && KeyOf(g) == KeyOf(h)
    ensures var all := [a, x, h, g];
            Rest(all, None) == all && Rest(all, Some(KeyOf(x))) == [h, g] && Rest(all, Some(KeyOf(g))) == []
  {
    var all := [a, x, h, g];
    FilterKeepsAll(Past(None), all);
    RestAfterPage(all, None, 2);
    assert all[2..] == [h, g];
    KeyLessTotal(KeyOf(x), KeyOf(h));
    RestAfterPage(all, None, 4);
    assert all[4..] == [];
  }

  /** From two batches: the first two rows, and what is visible of the two behind them. */
  lemma TwoBatches(a: Row, x: Row, h: Row, g: Row, visible: Row -> bool)
    requires Sorted([a, x, h, g]) && KeyLess(KeyOf(x), KeyOf(h)) && KeyOf(g) == KeyOf(h)
    requires visible(a) && visible(x) && !visible(h) && visible(g)
    ensures Visible([a, x, h, g], None, 2, visible) == [a, x, g]
  {
    var all := [a, x, h, g];
    RestsOfFour(a, x, h, g);
    assert all[..2] == [a, x] && [h, g][..2] == [h, g];
    ReadStep(all, None, 2, visible);
    ReadStep(all, Some(KeyOf(x)), 2, visible);
    ReadStep(all, Some(KeyOf(g)), 2, visible);
    FilterPair(visible, a, x);
    FilterPair(visible, h, g);
  }

  lemma BehindFirst(a: Row, x: Row, h: Row, g: Row)
    requires Sorted([a, x, h, g]) && KeyLess(KeyOf(a), KeyOf(x))
    ensures Rest([a, x, h, g], Some(KeyOf(a))) == [x, h, g]
  {
    var all := [a, x, h, g];
    FilterKeepsAll(Past(None), all);
    RestAfterPage(all, None, 1);
    assert all[1..] == [x, h, g];
    KeyLessTotal(KeyOf(a), KeyOf(x));
  }

  lemma FourInOrder(a: Row, x: Row, h: Row, g: Row)
    requires StrLess(a.name, x.name) && StrLess(x.name, h.name) && KeyOf(g) == KeyOf(h) && h.position < g.position
    ensures Sorted([a, x, h, g]) && a.name != x.name && x.name != h.name && a.name != h.name
  {
    StrLessTransitive(a.name, x.name, h.name);
    StrLessTotal(a.name, x.name);
    StrLessTotal(x.name, h.name);
    StrLessTotal(a.name, h.name);
  }

  /**
   With one more row in front the first request reads every visible row; the second starts one row later, its batch
   ends inside the key, and the row is lost although no other source picks up a name.
   */
  lemma RowLostOnResuming(a: Row, x: Row, h: Row, g: Row)
    requires StrLess(a.name, x.name) && StrLess(x.name, h.name) && KeyOf(g) == KeyOf(h) && h.position < g.position
    ensures var all, visible := [a, x, h, g], (r: Row) => r != h;
            && Sorted(all) && Dedup(Visible(all, None, 2, visible)) == [a, x, g]
            && Dedup(Visible(all, Some(KeyOf(a)), 2, visible)) == [x]
            && !LeadChanges(Visible(all, Some(KeyOf(a)), 2, visible), [a, x, g], Some(KeyOf(a)))
            && Received(all, visible, None, 1) == [a, x]
  {
    var all, visible := [a, x, h, g], (r: Row) => r != h;
    FourInOrder(a, x, h, g);
    TwoBatches(a, x, h, g, visible);
    BehindFirst(a, x, h, g);
    HiddenRowCutsOff(all, Some(KeyOf(a)), x, g, h, visible);
    DedupThree(a, x, g);
    DedupOne(x);
    TwoRequests(all, visible, [a, x, g], x);
  }

  /** Two versions from one source around one from another: the resumed request switches to the other source. */
  lemma SourceSwitches(a: Row, b: Row, c: Row)
    requires a.name == b.name == c.name && StrLess(a.version, b.version) && StrLess(b.version, c.version)
    requires a.position == c.position != b.position
    ensures var all, visible := [a, b, c], (r: Row) => true;
            && Sorted(all) && Dedup(Wanted(all, None, visible)) == [a, c]
            && Received(all, visible, None, 1) == [a, b] && Received(all, visible, None, 2) == [a, c]
  {
    var all, visible := [a, b, c], (r: Row) => true;
    ThreeVersions(a, b, c);
    ReadWhole(all, None, visible);
    ReadWhole(all, Some(KeyOf(a)), visible);
    FilterKeepsAll(visible, all);
    FilterKeepsAll(visible, [b, c]);
    SwitchedDedups(a, b, c);
    TwoRequests(all, visible, [a, c], b);
    WholeBatch(all, visible);
  }

  lemma ThreeVersions(a: Row, b: Row, c: Row)
    requires a.name == b.name == c.name && StrLess(a.version, b.version) && StrLess(b.version, c.version)
    ensures Sorted([a, b, c]) && Rest([a, b, c], None) == [a, b, c] && Rest([a, b, c], Some(KeyOf(a))) == [b, c]
    ensures forall p :: FirstOfKey(p, [a, b, c]) && FirstOfKey(p, [b, c])
  {
    var all := [a, b, c];
    StrLessTransitive(a.version, b.version, c.version);
    StrLessTotal(a.version, b.version);
    StrLessTotal(b.version, c.version);
    StrLessTotal(a.version, c.version);
    FilterKeepsAll(Past(None), all);
    RestAfterPage(all, None, 1);
    assert all[1..] == [b, c];
  }

  lemma SwitchedDedups(a: Row, b: Row, c: Row)
    requires a.name == b.name == c.name && a.position == c.position != b.position
    ensures Dedup([a, b, c]) == [a, c] && Dedup([b, c]) == [b]
  {
    DedupOne(a);
    DedupOne(b);
    assert [a] + [b] == [a, b] && [a, b] + [c] == [a, b, c] && [b] + [c] == [b, c];
    assert a in [a] && a in [a, b] && b in [b];
    DedupSnoc([a], b);
    DedupSnoc([a, b], c);
    DedupSnoc([b], c);
  }

  lemma ReadWhole(all: seq<Row>, cursor: Option<Key>, visible: Row -> bool)
    requires Sorted(all) && FirstOfKey(visible, Rest(all, cursor))
    ensures Visible(all, cursor, 2, visible) == Wanted(all, cursor, visible)
  {
    NeverLoses(visible, all, cursor, 2);
    NothingLostIff(all, cursor, 2, visible);
  }
}
