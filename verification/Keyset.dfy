/** Listing plugins page by page: the listPlugins query (internal/db/sqlc/plugins.sql.go) and its cursor. */
module Keyset {
  import opened Common
  import opened Text

  /** A joined row; position is the priority of its source in the registry, lower first. */
  datatype Row = Row(name: string, version: string, position: int, body: string)

  datatype Key = Key(name: string, version: string)

  function KeyOf(r: Row): Key { Key(r.name, r.version) }

  /** (a.name, a.version) < (b.name, b.version), compared as a row value. */
  predicate KeyLess(a: Key, b: Key) {
    StrLess(a.name, b.name) || (a.name == b.name && StrLess(a.version, b.version))
  }

  lemma KeyLessTotal(a: Key, b: Key)
    ensures !(KeyLess(a, b) && KeyLess(b, a))
    ensures a == b <==> !KeyLess(a, b) && !KeyLess(b, a)
  {
    StrLessTotal(a.name, b.name);
    StrLessTotal(a.version, b.version);
  }

  lemma KeyLessTransitive(a: Key, b: Key, c: Key)
    requires KeyLess(a, b) && KeyLess(b, c)
    ensures KeyLess(a, c)
  {
    if StrLess(a.name, b.name) && StrLess(b.name, c.name) {
      StrLessTransitive(a.name, b.name, c.name);
    } else if a.name == b.name == c.name {
      StrLessTransitive(a.version, b.version, c.version);
    }
  }

  /** ORDER BY name, version, position. */
  predicate InOrder(a: Row, b: Row) {
    KeyLess(KeyOf(a), KeyOf(b)) || (KeyOf(a) == KeyOf(b) && a.position <= b.position)
  }

  ghost predicate Sorted(s: seq<Row>) {
    forall i, j :: 0 <= i < j < |s| ==> InOrder(s[i], s[j])
  }

  // ---------------------------------------------------------------- the query

  /** The cursor condition: no cursor, or strictly after it. */
  function Past(cursor: Option<Key>): Row -> bool {
    (r: Row) => cursor.None? || KeyLess(cursor.value, KeyOf(r))
  }

  function Rest(all: seq<Row>, cursor: Option<Key>): seq<Row> { FilterSeq(Past(cursor), all) }

  /** The query over the sorted matching rows: cursor condition, then LIMIT. */
  function Page(all: seq<Row>, cursor: Option<Key>, size: nat): seq<Row> {
    var rest := Rest(all, cursor);
    if |rest| <= size then rest else rest[..size]
  }

  lemma {:induction false} RestSorted(p: Row -> bool, all: seq<Row>)
    requires Sorted(all)
    ensures Sorted(FilterSeq(p, all))
  {
    if all != [] {
      RestSorted(p, all[1..]);
      FilterMembers(p, all[1..]);
      var rest := FilterSeq(p, all[1..]);
      forall j | 0 <= j < |rest| ensures InOrder(all[0], rest[j]) {
        assert rest[j] in rest;
        var i :| 0 <= i < |all[1..]| && all[1..][i] == rest[j];
        assert InOrder(all[0], all[i + 1]);
      }
    }
  }

  /** Leave out the leading rows with key k. */
  function SkipKey(s: seq<Row>, k: Key): (r: seq<Row>)
    ensures |r| <= |s|
  {
    if s != [] && KeyOf(s[0]) == k then SkipKey(s[1..], k) else s
  }

  lemma {:induction false} SkipKeyIsRest(s: seq<Row>, k: Key)
    requires Sorted(s) && forall i :: 0 <= i < |s| ==> !KeyLess(KeyOf(s[i]), k)
    ensures SkipKey(s, k) == Rest(s, Some(k))
  {
    if s != [] {
      KeyLessTotal(KeyOf(s[0]), k);
      if KeyOf(s[0]) == k {
        SkipKeyIsRest(s[1..], k);
      } else {
        forall x | x in s ensures Past(Some(k))(x) {
          var i :| 0 <= i < |s| && s[i] == x;
          if i > 0 {
            assert InOrder(s[0], s[i]);
            if KeyLess(KeyOf(s[0]), KeyOf(s[i])) {
              KeyLessTransitive(k, KeyOf(s[0]), KeyOf(s[i]));
            }
          }
        }
        FilterKeepsAll(Past(Some(k)), s);
      }
    }
  }

  lemma {:induction false} NoneLeft(p: Row -> bool, s: seq<Row>)
    requires forall x :: x in s ==> !p(x)
    ensures FilterSeq(p, s) == []
  {
    if s != [] {
      NoneLeft(p, s[1..]);
    }
  }

  /** Nothing up to position n of a sorted list lies past its own last key, and nothing after it before. */
  lemma KeysAround(rest: seq<Row>, n: nat)
    requires Sorted(rest) && 0 < n <= |rest|
    ensures forall x :: x in rest[..n] ==> !Past(Some(KeyOf(rest[n - 1])))(x)
    ensures forall i :: 0 <= i < |rest[n..]| ==> !KeyLess(KeyOf(rest[n..][i]), KeyOf(rest[n - 1]))
  {
    var k := KeyOf(rest[n - 1]);
    forall x | x in rest[..n] ensures !Past(Some(k))(x) {
      var i :| 0 <= i < n && rest[i] == x;
      if i < n - 1 {
        assert InOrder(rest[i], rest[n - 1]);
      }
      KeyLessTotal(KeyOf(x), k);
    }
    forall i | 0 <= i < |rest[n..]| ensures !KeyLess(KeyOf(rest[n..][i]), k) {
      assert InOrder(rest[n - 1], rest[n + i]);
      KeyLessTotal(KeyOf(rest[n + i]), k);
    }
  }

  /** The rows past a key of the rest are the rest's own rows past it. */
  lemma RestOfRest(all: seq<Row>, cursor: Option<Key>, k: Key)
    requires exists r :: r in Rest(all, cursor) && KeyOf(r) == k
    ensures Rest(all, Some(k)) == Rest(Rest(all, cursor), Some(k))
  {
    FilterMembers(Past(cursor), all);
    forall x | x in all && Past(Some(k))(x) ensures Past(cursor)(x) {
      if cursor.Some? {
        KeyLessTransitive(cursor.value, k, KeyOf(x));
      }
    }
    FilterThrough(Past(cursor), Past(Some(k)), all);
  }

  /** Following the last row of a full page continues behind that page and its key. */
  lemma RestAfterPage(all: seq<Row>, cursor: Option<Key>, n: nat)
    requires Sorted(all) && 0 < n <= |Rest(all, cursor)|
    ensures var rest := Rest(all, cursor);
            Rest(all, Some(KeyOf(rest[n - 1]))) == SkipKey(rest[n..], KeyOf(rest[n - 1]))
  {
    var rest := Rest(all, cursor);
    var k := KeyOf(rest[n - 1]);
    assert rest[n - 1] in rest;
    RestOfRest(all, cursor, k);
    RestSorted(Past(cursor), all);
    KeysAround(rest, n);
    assert rest == rest[..n] + rest[n..];
    FilterAppend(Past(Some(k)), rest[..n], rest[n..]);
    NoneLeft(Past(Some(k)), rest[..n]);
    SkipKeyIsRest(rest[n..], k);
  }

  // ---------------------------------------------------------------- following the cursor to the end

  /** The pages read by following each full page's last key until a short page. */
  function Pages(all: seq<Row>, cursor: Option<Key>, size: nat): (r: seq<seq<Row>>)
    requires size >= 1
    ensures |r| >= 1
    decreases |Rest(all, cursor)|
  {
    var page := Page(all, cursor, size);
    if |page| < size then [page]
    else
      var next := Some(KeyOf(page[size - 1]));
      FewerRest(all, cursor, size);
      [page] + Pages(all, next, size)
  }

  lemma FewerRest(all: seq<Row>, cursor: Option<Key>, n: nat)
    requires 0 < n <= |Rest(all, cursor)|
    ensures |Rest(all, Some(KeyOf(Rest(all, cursor)[n - 1])))| < |Rest(all, cursor)|
  {
    var rest := Rest(all, cursor);
    var k := KeyOf(rest[n - 1]);
    assert rest[n - 1] in rest;
    RestOfRest(all, cursor, k);
    KeyLessTotal(k, k);
    FilterShorter(Past(Some(k)), rest, n - 1);
  }

  lemma {:induction false} FilterShorter(p: Row -> bool, s: seq<Row>, i: nat)
    requires i < |s| && !p(s[i])
    ensures |FilterSeq(p, s)| < |s|
  {
    if i > 0 {
      FilterShorter(p, s[1..], i - 1);
    } else {
      FilterNoLonger(p, s[1..]);
    }
  }

  lemma {:induction false} FilterNoLonger(p: Row -> bool, s: seq<Row>)
    ensures |FilterSeq(p, s)| <= |s|
  {
    if s != [] {
      FilterNoLonger(p, s[1..]);
    }
  }

  ghost predicate Has(s: seq<Row>, k: Key) { exists r :: r in s && KeyOf(r) == k }

  /** The first row with key k: the one from the highest-priority source. */
  function FirstWith(s: seq<Row>, k: Key): (r: Row)
    requires Has(s, k)
    ensures r in s && KeyOf(r) == k
  {
    if KeyOf(s[0]) == k then s[0] else assert Has(s[1..], k); FirstWith(s[1..], k)
  }

  lemma {:induction false} FirstIsTopPriority(s: seq<Row>, k: Key)
    requires Has(s, k) && Sorted(s)
    ensures forall r :: r in s && KeyOf(r) == k ==> FirstWith(s, k).position <= r.position
  {
    if KeyOf(s[0]) == k {
      forall r | r in s && KeyOf(r) == k ensures s[0].position <= r.position {
        var i :| 0 <= i < |s| && s[i] == r;
        if i > 0 {
          assert InOrder(s[0], s[i]);
          KeyLessTotal(k, k);
        }
      }
    } else {
      assert Has(s[1..], k);
      FirstIsTopPriority(s[1..], k);
    }
  }

  /** Key k is on page i and on no other, and page i shows its highest-priority row. */
  ghost predicate OnExactlyOne(pages: seq<seq<Row>>, k: Key, top: Row) {
    exists i :: 0 <= i < |pages| && top in pages[i] && forall j :: 0 <= j < |pages| && Has(pages[j], k) ==> j == i
  }

  lemma {:induction false} FirstInPrefix(s: seq<Row>, n: nat, k: Key)
    requires n <= |s| && Has(s[..n], k) && Has(s, k)
    ensures FirstWith(s, k) in s[..n]
  {
    if KeyOf(s[0]) != k {
      assert s[1..][..n - 1] == s[..n][1..];
      assert Has(s[1..], k);
      var r :| r in s[..n] && KeyOf(r) == k;
      assert r in s[..n][1..];
      FirstInPrefix(s[1..], n - 1, k);
    }
  }

  lemma {:induction false} FirstBehind(s: seq<Row>, n: nat, k: Key)
    requires n <= |s| && !Has(s[..n], k) && Has(s, k)
    ensures Has(s[n..], k) && FirstWith(s[n..], k) == FirstWith(s, k)
  {
    if n > 0 {
      assert s[0] in s[..n];
      assert KeyOf(s[0]) != k;
      var r :| r in s && KeyOf(r) == k;
      assert r in s[1..];
      assert s[1..][..n - 1] == s[..n][1..];
      assert s[1..][n - 1..] == s[n..];
      FirstBehind(s[1..], n - 1, k);
    } else {
      assert s[n..] == s;
    }
  }

  lemma {:induction false} FirstAfterSkip(s: seq<Row>, skip: Key, k: Key)
    requires Has(s, k) && k != skip
    ensures Has(SkipKey(s, skip), k) && FirstWith(SkipKey(s, skip), k) == FirstWith(s, k)
  {
    if s != [] && KeyOf(s[0]) == skip {
      assert Has(s[1..], k);
      FirstAfterSkip(s[1..], skip, k);
    }
  }

  /** No later page shows a key at or before the cursor. */
  lemma {:induction false} PagesPast(all: seq<Row>, cursor: Key, size: nat, k: Key)
    requires size >= 1 && !KeyLess(cursor, k)
    ensures forall j :: 0 <= j < |Pages(all, Some(cursor), size)| ==> !Has(Pages(all, Some(cursor), size)[j], k)
    decreases |Rest(all, Some(cursor))|
  {
    var page := Page(all, Some(cursor), size);
    FilterMembers(Past(Some(cursor)), all);
    forall r | r in page ensures KeyOf(r) != k {
      assert r in Rest(all, Some(cursor));
    }
    if |page| == size {
      var next := KeyOf(page[size - 1]);
      assert page[size - 1] in Rest(all, Some(cursor));
      if KeyLess(next, k) {
        KeyLessTransitive(cursor, next, k);
      }
      FewerRest(all, Some(cursor), size);
      PagesPast(all, next, size, k);
    }
  }

  lemma PagesStep(all: seq<Row>, cursor: Option<Key>, size: nat)
    requires size >= 1
    ensures var rest := Rest(all, cursor);
            Pages(all, cursor, size) ==
            if |rest| < size then [rest] else [rest[..size]] + Pages(all, Some(KeyOf(rest[size - 1])), size)
  {
    var rest := Rest(all, cursor);
    assert |rest| == size ==> rest[..size] == rest;
  }

  /** A key on a full page is on no later one. */
  lemma KeyOnFullPage(all: seq<Row>, rest: seq<Row>, size: nat, k: Key)
    requires 1 <= size <= |rest| && Sorted(rest) && Has(rest[..size], k) && Has(rest, k)
    ensures OnExactlyOne([rest[..size]] + Pages(all, Some(KeyOf(rest[size - 1])), size), k, FirstWith(rest, k))
  {
    FirstInPrefix(rest, size, k);
    LastIsLargest(rest[..size], k);
    PagesPast(all, KeyOf(rest[size - 1]), size, k);
    OnFirstPage(rest[..size], Pages(all, Some(KeyOf(rest[size - 1])), size), k, FirstWith(rest, k));
  }

  /** A key behind a full page keeps its first row behind the cursor. */
  lemma KeyBehindPage(rest: seq<Row>, size: nat, k: Key)
    requires 1 <= size <= |rest| && !Has(rest[..size], k) && Has(rest, k)
    ensures var behind := SkipKey(rest[size..], KeyOf(rest[size - 1]));
            Has(behind, k) && FirstWith(behind, k) == FirstWith(rest, k)
  {
    FirstBehind(rest, size, k);
    assert rest[..size][size - 1] == rest[size - 1];
    assert rest[size - 1] in rest[..size];
    FirstAfterSkip(rest[size..], KeyOf(rest[size - 1]), k);
  }

  /**
   On a fixed table, following the cursor puts every key that lies past the starting cursor on exactly one page, and
   that page shows the row of its highest-priority source, even where a page ends inside the key's rows.
   */
  lemma {:induction false} EveryKeyOnExactlyOnePage(all: seq<Row>, cursor: Option<Key>, size: nat, k: Key)
    requires size >= 1 && Sorted(all) && Has(Rest(all, cursor), k)
    ensures OnExactlyOne(Pages(all, cursor, size), k, FirstWith(Rest(all, cursor), k))
    decreases |Rest(all, cursor)|
  {
    var rest := Rest(all, cursor);
    PagesStep(all, cursor, size);
    if |rest| < size {
      OnOnlyPage(rest, k);
    } else {
      RestSorted(Past(cursor), all);
      if Has(rest[..size], k) {
        KeyOnFullPage(all, rest, size, k);
      } else {
        var last := KeyOf(rest[size - 1]);
        FewerRest(all, cursor, size);
        RestAfterPage(all, cursor, size);
        KeyBehindPage(rest, size, k);
        EveryKeyOnExactlyOnePage(all, Some(last), size, k);
        OnLaterPage(rest[..size], Pages(all, Some(last), size), k, FirstWith(rest, k));
      }
    }
  }

  lemma {:induction false} OnOnlyPage(page: seq<Row>, k: Key)
    requires Has(page, k)
    ensures OnExactlyOne([page], k, FirstWith(page, k))
  {
    assert [page][0] == page;
  }

  lemma OnFirstPage(page: seq<Row>, later: seq<seq<Row>>, k: Key, top: Row)
    requires top in page && forall j :: 0 <= j < |later| ==> !Has(later[j], k)
    ensures OnExactlyOne([page] + later, k, top)
  {
    var pages := [page] + later;
    assert pages[0] == page;
    assert forall j :: 1 <= j < |pages| ==> pages[j] == later[j - 1];
  }

  lemma OnLaterPage(page: seq<Row>, later: seq<seq<Row>>, k: Key, top: Row)
    requires !Has(page, k) && OnExactlyOne(later, k, top)
    ensures OnExactlyOne([page] + later, k, top)
  {
    var pages := [page] + later;
    var i :| 0 <= i < |later| && top in later[i] && forall j :: 0 <= j < |later| && Has(later[j], k) ==> j == i;
    assert pages[i + 1] == later[i];
    forall j | 0 <= j < |pages| && Has(pages[j], k) ensures j == i + 1 {
      assert j > 0 ==> pages[j] == later[j - 1];
    }
  }

  lemma LastIsLargest(page: seq<Row>, k: Key)
    requires page != [] && Sorted(page) && Has(page, k)
    ensures !KeyLess(KeyOf(page[|page| - 1]), k)
  {
    var r :| r in page && KeyOf(r) == k;
    var i :| 0 <= i < |page| && page[i] == r;
    KeyLessTotal(k, KeyOf(page[|page| - 1]));
    if i < |page| - 1 {
      assert InOrder(page[i], page[|page| - 1]);
    }
  }
}
