/** Version order and publishable versions (internal/versions); precedence is section 11 of SemVer 2.0.0. */
module Versions {
  import opened Common
  import opened Text

  const MAX_VERSION_LENGTH := 255

  datatype Ident = Num(n: nat) | Alpha(s: string)

  /** An empty prerelease means a release. */
  datatype Version = Version(major: nat, minor: nat, patch: nat, pre: seq<Ident>)

  // ---------------------------------------------------------------- reading

  predicate IsNumeral(s: string) { s != "" && AllIn(s, IsDigit) }

  /** No leading zero. */
  predicate IsCanonical(s: string) { IsNumeral(s) && (|s| == 1 || s[0] != '0') }

  function Value(s: string): nat
    requires AllIn(s, IsDigit)
  {
    if s == "" then 0 else Value(s[..|s| - 1]) * 10 + (s[|s| - 1] - '0') as nat
  }

  predicate IsIdentChar(c: char) { IsDigit(c) || IsLetter(c) || c == '-' }

  /** A prerelease identifier: letters, digits, hyphens, and no leading zero when all digits. */
  predicate IsIdent(s: string) {
    s != "" && AllIn(s, IsIdentChar) && (IsNumeral(s) ==> IsCanonical(s))
  }

  function ToIdent(s: string): Ident { if IsNumeral(s) then Num(Value(s)) else Alpha(s) }

  function ToIdents(parts: seq<string>): seq<Ident> { seq(|parts|, i requires 0 <= i < |parts| => ToIdent(parts[i])) }

  function StripV(s: string): string { if s != "" && s[0] == 'v' then s[1..] else s }

  /** Build metadata: dot-separated, non-empty. */
  predicate IsMetadata(s: string) {
    forall p | p in Split(s, '.') :: p != "" && AllIn(p, IsIdentChar)
  }

  /** One to three numbers; strictly, exactly three without leading zeros. */
  predicate IsCore(nums: seq<string>, strict: bool) {
    if strict then |nums| == 3 && forall i | 0 <= i < |nums| :: IsCanonical(nums[i])
    else 1 <= |nums| <= 3 && forall i | 0 <= i < |nums| :: IsNumeral(nums[i])
  }

  /** The library's parser after the optional "v"; strict is StrictNewVersion, otherwise NewVersion. */
  function Parse(body: string, strict: bool): Option<Version> {
    var (head, meta) := Cut(body, '+');
    var (core, pre) := Cut(head, '-');
    var nums := Split(core, '.');
    if !IsCore(nums, strict) then None
    else if meta.Some? && !IsMetadata(meta.value) then None
    else if pre.Some? && !(forall p | p in Split(pre.value, '.') :: IsIdent(p)) then None
    else
      Some(Version(Value(nums[0]),
                   if |nums| > 1 then Value(nums[1]) else 0,
                   if |nums| > 2 then Value(nums[2]) else 0,
                   if pre.Some? then ToIdents(Split(pre.value, '.')) else []))
  }

  predicate IsPublishable(s: string) {
    s != "" && |s| <= MAX_VERSION_LENGTH && '+' !in s && Parse(StripV(s), true).Some?
  }

  function Read(s: string): Option<Version> { Parse(StripV(s), false) }

  /** newVersion is strictly greater than oldVersion. */
  predicate IsNewerVersion(newVersion: string, oldVersion: string) {
    if Read(newVersion).None? || Read(oldVersion).None? then StrLess(oldVersion, newVersion)
    else Precedes(Read(oldVersion).value, Read(newVersion).value)
  }

  // ---------------------------------------------------------------- precedence

  predicate IdentLess(a: Ident, b: Ident) {
    match (a, b)
    case (Num(x), Num(y)) => x < y
    case (Num(_), Alpha(_)) => true
    case (Alpha(_), Num(_)) => false
    case (Alpha(x), Alpha(y)) => StrLess(x, y)
  }

  predicate PreLess(a: seq<Ident>, b: seq<Ident>) {
    if b == [] then false
    else if a == [] then true
    else if a[0] != b[0] then IdentLess(a[0], b[0])
    else PreLess(a[1..], b[1..])
  }

  predicate Precedes(a: Version, b: Version) {
    if a.major != b.major then a.major < b.major
    else if a.minor != b.minor then a.minor < b.minor
    else if a.patch != b.patch then a.patch < b.patch
    else if a.pre == [] then false
    else if b.pre == [] then true
    else PreLess(a.pre, b.pre)
  }

  lemma IdentLessTotal(a: Ident, b: Ident)
    ensures !(IdentLess(a, b) && IdentLess(b, a))
    ensures a == b <==> !IdentLess(a, b) && !IdentLess(b, a)
  {
    if a.Alpha? && b.Alpha? {
      StrLessTotal(a.s, b.s);
    }
  }

  lemma IdentLessTransitive(a: Ident, b: Ident, c: Ident)
    requires IdentLess(a, b) && IdentLess(b, c)
    ensures IdentLess(a, c)
  {
    if a.Alpha? {
      StrLessTransitive(a.s, b.s, c.s);
    }
  }

  lemma {:induction false} PreLessTotal(a: seq<Ident>, b: seq<Ident>)
    ensures !(PreLess(a, b) && PreLess(b, a))
    ensures a == b <==> !PreLess(a, b) && !PreLess(b, a)
  {
    if a != [] && b != [] {
      IdentLessTotal(a[0], b[0]);
      PreLessTotal(a[1..], b[1..]);
      assert a == [a[0]] + a[1..] && b == [b[0]] + b[1..];
    }
  }

  lemma {:induction false} PreLessTransitive(a: seq<Ident>, b: seq<Ident>, c: seq<Ident>)
    requires PreLess(a, b) && PreLess(b, c)
    ensures PreLess(a, c)
  {
    if a != [] {
      IdentLessTotal(a[0], b[0]);
      IdentLessTotal(b[0], c[0]);
      IdentLessTotal(a[0], c[0]);
      if a[0] == b[0] == c[0] {
        PreLessTransitive(a[1..], b[1..], c[1..]);
      } else if a[0] != b[0] && b[0] != c[0] {
        IdentLessTransitive(a[0], b[0], c[0]);
      }
    }
  }

  /** Precedence is a strict total order on parsed versions. */
  lemma PrecedesTotal(a: Version, b: Version)
    ensures !(Precedes(a, b) && Precedes(b, a))
    ensures a == b <==> !Precedes(a, b) && !Precedes(b, a)
  {
    PreLessTotal(a.pre, b.pre);
  }

  lemma PrecedesTransitive(a: Version, b: Version, c: Version)
    requires Precedes(a, b) && Precedes(b, c)
    ensures Precedes(a, c)
  {
    if a.pre != [] && b.pre != [] && c.pre != [] && PreLess(a.pre, b.pre) && PreLess(b.pre, c.pre) {
      PreLessTransitive(a.pre, b.pre, c.pre);
    }
  }

  /** Major, minor and patch compared in this order (section 11.2). */
  predicate CoreLess(a: Version, b: Version) {
    || a.major < b.major
    || (a.major == b.major && a.minor < b.minor)
    || (a.major == b.major && a.minor == b.minor && a.patch < b.patch)
  }

  /** The first differing identifier decides; a longer list of otherwise equal ones is larger (section 11.4). */
  ghost predicate PreLower(a: seq<Ident>, b: seq<Ident>) {
    exists k :: 0 <= k <= |a| && k < |b| && a[..k] == b[..k] && (k == |a| || IdentLess(a[k], b[k]))
  }

  lemma PreLowerTail(a: seq<Ident>, b: seq<Ident>)
    requires a != [] && b != [] && a[0] == b[0] && PreLower(a[1..], b[1..])
    ensures PreLower(a, b)
  {
    var x, y := a[1..], b[1..];
    var j :| 0 <= j <= |x| && j < |y| && x[..j] == y[..j] && (j == |x| || IdentLess(x[j], y[j]));
    assert a[..j + 1] == [a[0]] + x[..j] && b[..j + 1] == [b[0]] + y[..j];
  }

  lemma PreLowerOfTail(a: seq<Ident>, b: seq<Ident>)
    requires a != [] && b != [] && a[0] == b[0] && PreLower(a, b)
    ensures PreLower(a[1..], b[1..])
  {
    IdentLessTotal(a[0], b[0]);
    var x, y := a[1..], b[1..];
    var k :| 0 <= k <= |a| && k < |b| && a[..k] == b[..k] && (k == |a| || IdentLess(a[k], b[k]));
    assert x[..k - 1] == a[..k][1..] && y[..k - 1] == b[..k][1..];
  }

  lemma {:induction false} PreLessMeaning(a: seq<Ident>, b: seq<Ident>)
    ensures PreLess(a, b) <==> PreLower(a, b)
  {
    if a != [] && b != [] && a[0] == b[0] {
      PreLessMeaning(a[1..], b[1..]);
      if PreLower(a, b) {
        PreLowerOfTail(a, b);
      } else if PreLower(a[1..], b[1..]) {
        PreLowerTail(a, b);
      }
    } else if PreLess(a, b) {
      assert a[..0] == b[..0];
    }
  }

  /** Precedence as section 11 states it: the numbers, then a prerelease below its release, then the identifiers. */
  lemma PrecedesIsSection11(a: Version, b: Version)
    ensures Precedes(a, b) <==>
            || CoreLess(a, b)
            || (a.(pre := b.pre) == b && a.pre != [] && (b.pre == [] || PreLower(a.pre, b.pre)))
  {
    PreLessMeaning(a.pre, b.pre);
  }

  // ---------------------------------------------------------------- publishable versions are orderable

  /** The gate's promise: what may be published never falls back to comparing strings. */
  lemma PublishableIsOrderable(s: string)
    requires IsPublishable(s)
    ensures Read(s) == Parse(StripV(s), true)
  {
    var (head, meta) := Cut(StripV(s), '+');
    var (core, pre) := Cut(head, '-');
    assert IsCore(Split(core, '.'), false);
  }

  /** Where an unparsable version stands, as a text, between two parsable ones, these go up in precedence too. */
  ghost predicate Orderly(vs: seq<string>) {
    forall a, b, c :: a in vs && b in vs && c in vs && Splits(a, b, c) ==> Precedes(Read(a).value, Read(b).value)
  }

  /** The unparsable c stands between the parsable a and b. */
  predicate Splits(a: string, b: string, c: string) {
    Read(a).Some? && Read(b).Some? && Read(c).None? && StrLess(a, c) && StrLess(c, b)
  }

  /** In particular listings that parse throughout, as those of publishable versions do. */
  lemma PublishableOrderly(vs: seq<string>)
    requires forall s :: s in vs ==> IsPublishable(s)
    ensures Orderly(vs)
  {
    forall s | s in vs ensures Read(s).Some? {
      PublishableIsOrderable(s);
    }
  }

  /** Neither version is newer. */
  predicate Tied(a: string, b: string) { !IsNewerVersion(a, b) && !IsNewerVersion(b, a) }

  /** Ties are equal parsed versions, or the same text; of two versions one is newer or they tie. */
  lemma TiedIff(a: string, b: string)
    ensures Tied(a, b) <==> Read(a) == Read(b) && (Read(a).None? ==> a == b)
    ensures !(IsNewerVersion(a, b) && IsNewerVersion(b, a))
  {
    StrLessTotal(a, b);
    if Read(a).Some? && Read(b).Some? {
      PrecedesTotal(Read(a).value, Read(b).value);
    }
  }

  lemma NewerTransitive(vs: seq<string>, a: string, b: string, c: string)
    requires Orderly(vs) && a in vs && b in vs && c in vs
    requires IsNewerVersion(a, b) && IsNewerVersion(b, c)
    ensures IsNewerVersion(a, c)
  {
    StrLessTotal(a, c);
    if Read(a).Some? && Read(b).Some? && Read(c).Some? {
      PrecedesTransitive(Read(c).value, Read(b).value, Read(a).value);
    } else if Read(a).Some? && Read(c).Some? {
      assert Splits(c, a, b);
    } else if Read(a).Some? && Read(b).Some? {
      PrecedesTotal(Read(a).value, Read(b).value);
      assert StrLess(a, c) ==> Splits(a, b, c);
    } else if Read(b).Some? && Read(c).Some? {
      PrecedesTotal(Read(b).value, Read(c).value);
      assert StrLess(a, c) ==> Splits(b, c, a);
    } else {
      StrLessTransitive(c, b, a);
    }
  }

  lemma TiedTransitive(a: string, b: string, c: string)
    requires Tied(a, b) && Tied(b, c)
    ensures Tied(a, c)
  {
    TiedIff(a, b);
    TiedIff(b, c);
    TiedIff(a, c);
  }

  ghost predicate Transitive(newer: (string, string) -> bool, vs: seq<string>) {
    forall a, b, c :: a in vs && b in vs && c in vs && newer(a, b) && newer(b, c) ==> newer(a, c)
  }

  ghost predicate Asymmetric(newer: (string, string) -> bool, vs: seq<string>) {
    forall a, b :: a in vs && b in vs && newer(a, b) ==> !newer(b, a)
  }

  /** Asymmetric, transitive, and with transitive ties on the listed versions. */
  ghost predicate StrictWeakOrderOn(vs: seq<string>) {
    Asymmetric(IsNewerVersion, vs) && Transitive(IsNewerVersion, vs) && Transitive(Tied, vs)
  }

  lemma OrderlyTransitive(vs: seq<string>)
    requires Orderly(vs)
    ensures Transitive(IsNewerVersion, vs)
  {
    forall a, b, c | a in vs && b in vs && c in vs && IsNewerVersion(a, b) && IsNewerVersion(b, c)
      ensures IsNewerVersion(a, c)
    {
      NewerTransitive(vs, a, b, c);
    }
  }

  lemma Disorder(vs: seq<string>) returns (a: string, b: string, c: string)
    requires !Orderly(vs)
    ensures a in vs && b in vs && c in vs && Splits(a, b, c) && !Precedes(Read(a).value, Read(b).value)
    ensures IsNewerVersion(b, c) && IsNewerVersion(c, a) && !IsNewerVersion(b, a)
  {
    a, b, c :| a in vs && b in vs && c in vs && Splits(a, b, c) && !Precedes(Read(a).value, Read(b).value);
  }

  lemma NotTransitive(newer: (string, string) -> bool, vs: seq<string>, a: string, b: string, c: string)
    requires a in vs && b in vs && c in vs && newer(b, c) && newer(c, a) && !newer(b, a)
    ensures !Transitive(newer, vs)
  {
  }

  /** IsNewerVersion orders a listing if and only if the listing is orderly. */
  lemma StrictWeakOrderIff(vs: seq<string>)
    ensures StrictWeakOrderOn(vs) <==> Orderly(vs)
  {
    if Orderly(vs) {
      OrderlyTransitive(vs);
    } else {
      var a, b, c := Disorder(vs);
      NotTransitive(IsNewerVersion, vs, a, b, c);
    }
    forall a, b | IsNewerVersion(a, b) ensures !IsNewerVersion(b, a) {
      TiedIff(a, b);
    }
    forall a, b, c | Tied(a, b) && Tied(b, c) ensures Tied(a, c) {
      TiedTransitive(a, b, c);
    }
  }

  ghost predicate Newest(v: string, vs: seq<string>) {
    v in vs && forall s :: s in vs ==> !IsNewerVersion(s, v)
  }

  /** The scan: keep the newer of the two. */
  function Highest(vs: seq<string>): (best: string)
    ensures vs != [] ==> best in vs
  {
    if vs == [] then ""
    else if |vs| == 1 then vs[0]
    else
      var n := |vs| - 1;
      var best := Highest(vs[..n]);
      if IsNewerVersion(vs[n], best) then vs[n] else best
  }

  /** The loop is the scan; on an orderly listing no listed version is newer than its result. */
  method FindHighestVersion(vs: seq<string>) returns (best: string)
    ensures best == Highest(vs)
    ensures vs == [] ==> best == ""
    ensures vs != [] && Orderly(vs) ==> Newest(best, vs)
  {
    if |vs| == 0 {
      return "";
    }
    best := vs[0];
    for i := 1 to |vs|
      invariant best == Highest(vs[..i])
    {
      assert vs[..i + 1][..i] == vs[..i];
      if IsNewerVersion(vs[i], best) {
        best := vs[i];
      }
    }
    assert vs[..|vs|] == vs;
    if Orderly(vs) {
      HighestIsNewest(vs);
    }
  }

  lemma NotNewerThan(v: string)
    ensures !IsNewerVersion(v, v)
  {
    TiedIff(v, v);
  }

  /** Nothing newer than the newer of two was left behind. */
  lemma NewerKept(vs: seq<string>, was: string, x: string, s: string)
    requires Orderly(vs) && was in vs && x in vs && s in vs
    requires IsNewerVersion(x, was) && (s == x || !IsNewerVersion(s, was))
    ensures !IsNewerVersion(s, x)
  {
    NotNewerThan(x);
    if IsNewerVersion(s, x) {
      NewerTransitive(vs, s, x, was);
    }
  }

  lemma {:induction false} HighestIsNewest(vs: seq<string>)
    requires vs != [] && Orderly(vs)
    ensures Newest(Highest(vs), vs)
  {
    if |vs| == 1 {
      NotNewerThan(vs[0]);
    } else {
      var init, x := vs[..|vs| - 1], vs[|vs| - 1];
      assert vs == init + [x];
      PartOrderly(init, vs);
      HighestIsNewest(init);
      var was := Highest(init);
      forall s | s in vs ensures !IsNewerVersion(s, Highest(vs)) {
        assert s in init || s == x;
        if IsNewerVersion(x, was) {
          NewerKept(vs, was, x, s);
        }
      }
    }
  }

  /** Some of the listed versions, in any order. */
  ghost predicate DrawnFrom(ws: seq<string>, vs: seq<string>) { ws != [] && forall s :: s in ws ==> s in vs }

  lemma HighestOfThree(a: string, b: string, c: string)
    requires Splits(a, b, c) && !Precedes(Read(a).value, Read(b).value)
    ensures Highest([a, b, c]) == c
  {
    assert [a, b, c][..2] == [a, b] && [a, b][..1] == [a];
    assert Highest([a]) == a && Highest([a, b]) == a;
  }

  lemma DisorderMisleads(vs: seq<string>) returns (ws: seq<string>)
    requires !Orderly(vs)
    ensures DrawnFrom(ws, vs) && !Newest(Highest(ws), ws)
  {
    var a, b, c := Disorder(vs);
    ws := [a, b, c];
    HighestOfThree(a, b, c);
    assert b in ws;
  }

  /**
   The scan finds a newest version in every arrangement of every part of a listing if and only if the listing is
   orderly: otherwise two parsable versions and the unparsable one between them, scanned in this order, end at the
   unparsable one, with a newer one listed.
   */
  lemma HighestIsNewestIff(vs: seq<string>)
    ensures Orderly(vs) <==> forall ws :: DrawnFrom(ws, vs) ==> Newest(Highest(ws), ws)
  {
    if Orderly(vs) {
      forall ws | DrawnFrom(ws, vs) ensures Newest(Highest(ws), ws) {
        PartOrderly(ws, vs);
        HighestIsNewest(ws);
      }
    } else {
      var ws := DisorderMisleads(vs);
    }
  }

  lemma PartOrderly(ws: seq<string>, vs: seq<string>)
    requires DrawnFrom(ws, vs) && Orderly(vs)
    ensures Orderly(ws)
  {
  }

  /** Whatever the publication order, the newest version is the same up to equal precedence. */
  lemma NewestUnique(vs: seq<string>, ws: seq<string>, v: string, w: string)
    requires forall s :: s in vs <==> s in ws
    requires Newest(v, vs) && Newest(w, ws)
    ensures Read(v) == Read(w) && (Read(v).None? ==> v == w)
  {
    TiedIff(v, w);
  }

  lemma {:induction false} JoinChars(parts: seq<string>, sep: char)
    requires forall i :: 0 <= i < |parts| ==> IsNumeral(parts[i])
    ensures forall c :: c in Join(parts, sep) ==> IsDigit(c) || c == sep
    ensures parts != [] ==> Join(parts, sep) != "" && parts[0] != "" && Join(parts, sep)[0] == parts[0][0]
  {
    assert parts != [] ==> IsNumeral(parts[0]);
    if |parts| > 1 {
      JoinChars(parts[1..], sep);
    }
  }

  /** Leniently one, two or three numerals make a version, strictly three without leading zeros. */
  lemma CoreIff(a: string, b: string, c: string)
    ensures IsCore([a], false) <==> IsNumeral(a)
    ensures IsCore([a, b], false) <==> IsNumeral(a) && IsNumeral(b)
    ensures IsCore([a, b, c], false) <==> IsNumeral(a) && IsNumeral(b) && IsNumeral(c)
    ensures IsCore([a, b, c], true) <==> IsCanonical(a) && IsCanonical(b) && IsCanonical(c)
    ensures !IsCore([a], true) && !IsCore([a, b], true)
  {
    var nums := [a, b, c];
    assert nums[0] == a && nums[1] == b && nums[2] == c && [a, b][1] == b && [a][0] == a && [a, b][0] == a;
  }

  /** Three canonical numbers joined by dots may be published. */
  lemma {:induction false} NumbersPublishable(nums: seq<string>)
    requires IsCore(nums, true) && |Join(nums, '.')| <= MAX_VERSION_LENGTH
    ensures IsPublishable(Join(nums, '.'))
  {
    var s := Join(nums, '.');
    JoinChars(nums, '.');
    CutAbsent(s, '+');
    CutAbsent(s, '-');
    SplitOfJoin(nums, '.');
  }

  /** One to three numbers joined by dots read as that release, the missing ones as zero. */
  lemma {:induction false} ReadNumbers(nums: seq<string>)
    requires IsCore(nums, false)
    ensures Read(Join(nums, '.')) ==
            Some(Version(Value(nums[0]), if |nums| > 1 then Value(nums[1]) else 0,
                         if |nums| > 2 then Value(nums[2]) else 0, []))
  {
    var s := Join(nums, '.');
    JoinChars(nums, '.');
    CutAbsent(s, '+');
    CutAbsent(s, '-');
    SplitOfJoin(nums, '.');
  }

  /** An unparsable version between two parsable ones whose string order is the reverse of their precedence. */
  ghost predicate Cyclic(a: string, b: string, c: string) {
    Splits(a, b, c) && Precedes(Read(b).value, Read(a).value)
  }

  /** In a cycle of three each has a newer one. */
  lemma NoNewest(newer: (string, string) -> bool, a: string, b: string, c: string, v: string)
    requires newer(a, b) && newer(b, c) && newer(c, a) && v in [a, b, c]
    ensures exists s :: s in [a, b, c] && newer(s, v)
  {
    var vs := [a, b, c];
    assert vs[0] in vs && vs[1] in vs && vs[2] in vs;
  }

  /** Then each is newer than the next and the listing has no newest version. */
  lemma MixedListingCycles(a: string, b: string, c: string)
    ensures Cyclic(a, b, c) ==> IsNewerVersion(a, b) && IsNewerVersion(b, c) && IsNewerVersion(c, a)
    ensures Cyclic(a, b, c) ==> forall v :: v in [a, b, c] ==> exists s :: s in [a, b, c] && IsNewerVersion(s, v)
  {
    if Cyclic(a, b, c) {
      forall v | v in [a, b, c] ensures exists s :: s in [a, b, c] && IsNewerVersion(s, v) {
        NoNewest((x, y) => IsNewerVersion(x, y), a, b, c, v);
      }
    }
  }

  /** A text without dots, signs and leading "v" that is no number does not parse. */
  lemma WordUnreadable(s: string)
    requires '.' !in s && '+' !in s && '-' !in s && StripV(s) == s && !IsNumeral(s)
    ensures Read(s).None?
  {
    CutAbsent(s, '+');
    CutAbsent(s, '-');
    SplitWhole(s, '.');
  }

  lemma TenAndNine()
    ensures IsNumeral("10") && IsNumeral("9") && IsNumeral("0") && Value("10") == 10 && Value("9") == 9
  {
    assert "1"[..0] == "" && "10"[..1] == "1" && "9"[..0] == "";
    assert Value("1") == 1;
  }

  lemma MixedListingExists()
    ensures Cyclic(Join(["10", "0", "0"], '.'), Join(["9", "0", "0"], '.'), "5x")
  {
    var x, y := ["10", "0", "0"], ["9", "0", "0"];
    TenAndNine();
    ReadNumbers(x);
    ReadNumbers(y);
    JoinChars(x, '.');
    JoinChars(y, '.');
    assert !IsDigit("5x"[1]);
    WordUnreadable("5x");
  }

  // ---------------------------------------------------------------- equal precedence is equal text

  function Digits(n: nat): string {
    var d := ['0' + (n % 10) as char];
    if n < 10 then d else Digits(n / 10) + d
  }

  lemma DigitsStep(n: nat, d: nat)
    requires n > 0 && d < 10
    ensures Digits(n * 10 + d) == Digits(n) + ['0' + d as char]
  {
    assert (n * 10 + d) / 10 == n && (n * 10 + d) % 10 == d;
  }

  lemma {:induction false} DigitsOfValue(s: string)
    requires IsCanonical(s)
    ensures Digits(Value(s)) == s
    ensures |s| > 1 ==> Value(s) > 0
  {
    var d := (s[|s| - 1] - '0') as nat;
    var rest := s[..|s| - 1];
    assert s == rest + [s[|s| - 1]];
    if |s| == 1 {
      assert rest == "" && Value(s) == d;
    } else {
      assert IsCanonical(rest);
      DigitsOfValue(rest);
      if |rest| == 1 {
        assert rest[..0] == "" && Value(rest) == (rest[0] - '0') as nat;
      }
      DigitsStep(Value(rest), d);
    }
  }

  function PrintIdent(i: Ident): string { if i.Num? then Digits(i.n) else i.s }

  function PrintIdents(ids: seq<Ident>): seq<string> { seq(|ids|, i requires 0 <= i < |ids| => PrintIdent(ids[i])) }

  function Print(v: Version): string {
    Join([Digits(v.major), Digits(v.minor), Digits(v.patch)], '.')
    + (if v.pre == [] then "" else ['-'] + Join(PrintIdents(v.pre), '.'))
  }

  lemma {:induction false} PrintOfCore(core: string)
    requires IsCore(Split(core, '.'), true)
    ensures var nums := Split(core, '.');
            Join([Digits(Value(nums[0])), Digits(Value(nums[1])), Digits(Value(nums[2]))], '.') == core
  {
    var nums := Split(core, '.');
    JoinOfSplit(core, '.');
    DigitsOfValue(nums[0]);
    DigitsOfValue(nums[1]);
    DigitsOfValue(nums[2]);
    assert [nums[0], nums[1], nums[2]] == nums;
  }

  lemma {:induction false} PrintOfPre(pre: string)
    requires forall p :: p in Split(pre, '.') ==> IsIdent(p)
    ensures ToIdents(Split(pre, '.')) != []
    ensures Join(PrintIdents(ToIdents(Split(pre, '.'))), '.') == pre
  {
    var parts := Split(pre, '.');
    JoinOfSplit(pre, '.');
    forall i | 0 <= i < |parts| ensures PrintIdent(ToIdent(parts[i])) == parts[i] {
      assert parts[i] in parts;
      if IsNumeral(parts[i]) {
        DigitsOfValue(parts[i]);
      }
    }
    assert PrintIdents(ToIdents(parts)) == parts;
  }

  /** A strictly parsed version without build metadata prints back to the text it came from. */
  lemma PrintOfParse(body: string)
    requires '+' !in body && Parse(body, true).Some?
    ensures Print(Parse(body, true).value) == body
  {
    CutAbsent(body, '+');
    var (core, pre) := Cut(body, '-');
    PrintOfCore(core);
    if pre.Some? {
      PrintOfPre(pre.value);
    }
  }

  /** Publishable versions of equal precedence are the same text up to the leading "v". */
  lemma PublishableTiesAreSpellings(a: string, b: string)
    requires IsPublishable(a) && IsPublishable(b)
    ensures Tied(a, b) <==> StripV(a) == StripV(b)
  {
    PublishableIsOrderable(a);
    PublishableIsOrderable(b);
    PrecedesTotal(Read(a).value, Read(b).value);
    PrintOfParse(StripV(a));
    PrintOfParse(StripV(b));
  }

  // ---------------------------------------------------------------- every version can be published

  /** An identifier that is not a number, or a number. */
  predicate WellFormedIdent(i: Ident) {
    i.Alpha? ==> i.s != "" && AllIn(i.s, IsIdentChar) && !IsNumeral(i.s)
  }

  predicate WellFormed(v: Version) { forall i :: 0 <= i < |v.pre| ==> WellFormedIdent(v.pre[i]) }

  lemma {:induction false} ValueOfDigits(n: nat)
    ensures IsCanonical(Digits(n)) && Value(Digits(n)) == n && (n > 0 ==> Digits(n)[0] != '0')
  {
    var c := '0' + (n % 10) as char;
    if n < 10 {
      assert [c][..0] == "";
      assert Value([c]) == Value("") * 10 + (c - '0') as nat;
    } else {
      ValueOfDigits(n / 10);
      var d := Digits(n / 10);
      assert (d + [c])[..|d|] == d && (d + [c])[|d|] == c && (d + [c])[0] == d[0];
      assert (c - '0') as nat == n % 10;
    }
  }

  lemma IdentOfPrint(i: Ident)
    requires WellFormedIdent(i)
    ensures IsIdent(PrintIdent(i)) && ToIdent(PrintIdent(i)) == i && '.' !in PrintIdent(i) && '+' !in PrintIdent(i)
  {
    if i.Num? {
      ValueOfDigits(i.n);
    }
  }

  lemma PreOfPrint(pre: seq<Ident>)
    requires pre != [] && forall i :: 0 <= i < |pre| ==> WellFormedIdent(pre[i])
    ensures var text := Join(PrintIdents(pre), '.');
            && ToIdents(Split(text, '.')) == pre && (forall p :: p in Split(text, '.') ==> IsIdent(p)) && '+' !in text
  {
    var parts := PrintIdents(pre);
    forall p | p in parts ensures IsIdent(p) && '.' !in p && '+' !in p {
      var i :| 0 <= i < |pre| && p == PrintIdent(pre[i]);
      IdentOfPrint(pre[i]);
    }
    SplitOfJoin(parts, '.');
    JoinMembers(parts, '.');
    forall i | 0 <= i < |pre| ensures ToIdent(parts[i]) == pre[i] {
      IdentOfPrint(pre[i]);
    }
  }

  function CoreText(v: Version): string { Join([Digits(v.major), Digits(v.minor), Digits(v.patch)], '.') }

  lemma CoreOfPrint(v: Version)
    ensures var nums := Split(CoreText(v), '.');
            && IsCore(nums, true) && IsCore(nums, false)
            && Value(nums[0]) == v.major && Value(nums[1]) == v.minor && Value(nums[2]) == v.patch
    ensures '-' !in CoreText(v) && '+' !in CoreText(v) && CoreText(v) != "" && CoreText(v)[0] != 'v'
  {
    var nums := [Digits(v.major), Digits(v.minor), Digits(v.patch)];
    ValueOfDigits(v.major);
    ValueOfDigits(v.minor);
    ValueOfDigits(v.patch);
    SplitOfJoin(nums, '.');
    JoinChars(nums, '.');
  }

  /** Parsing, strictly or not, gives back every version that is printed. */
  lemma ParseOfPrint(v: Version, strict: bool)
    requires WellFormed(v)
    ensures Parse(Print(v), strict) == Some(v) && '+' !in Print(v) && StripV(Print(v)) == Print(v) && Print(v) != ""
  {
    var core := CoreText(v);
    CoreOfPrint(v);
    if v.pre == [] {
      assert Print(v) == core;
      CutAbsent(core, '+');
      CutAbsent(core, '-');
    } else {
      var pre := Join(PrintIdents(v.pre), '.');
      PreOfPrint(v.pre);
      assert Print(v) == core + ['-'] + pre;
      CutAbsent(Print(v), '+');
      CutPresent(core, '-', pre);
    }
  }

  lemma ParsedIsWellFormed(body: string)
    requires Parse(body, true).Some?
    ensures WellFormed(Parse(body, true).value)
  {
    var (head, meta) := Cut(body, '+');
    var (core, pre) := Cut(head, '-');
    if pre.Some? {
      var parts := Split(pre.value, '.');
      assert forall i :: 0 <= i < |parts| ==> parts[i] in parts;
    }
  }

  /**
   What may be published: exactly the texts of up to 255 bytes that print a version, prereleases included, with or
   without a leading "v".
   */
  lemma PublishableIff(s: string)
    ensures IsPublishable(s) <==> |s| <= 255 && exists v :: WellFormed(v) && (s == Print(v) || s == "v" + Print(v))
  {
    if IsPublishable(s) {
      var v := Parse(StripV(s), true).value;
      PrintOfParse(StripV(s));
      ParsedIsWellFormed(StripV(s));
      assert s == StripV(s) || s == "v" + StripV(s);
      assert WellFormed(v) && (s == Print(v) || s == "v" + Print(v));
    }
    if v :| WellFormed(v) && (s == Print(v) || s == "v" + Print(v)) {
      ParseOfPrint(v, true);
      assert s != Print(v) ==> s[1..] == Print(v);
    }
  }

  /** Metadata is valid when it is non-empty parts of letters, digits and hyphens between dots. */
  lemma {:induction false} MetadataIff(parts: seq<string>)
    requires parts != [] && forall p :: p in parts ==> '.' !in p
    ensures IsMetadata(Join(parts, '.')) <==>
            forall p :: p in parts ==>
              |p| > 0 && forall i :: 0 <= i < |p| ==>
                'a' <= p[i] <= 'z' || 'A' <= p[i] <= 'Z' || '0' <= p[i] <= '9' || p[i] == '-'
  {
    SplitOfJoin(parts, '.');
  }

  /** Valid build metadata changes nothing, invalid metadata makes the version unreadable. */
  lemma MetadataIgnored(s: string, meta: string)
    requires '+' !in s
    ensures Read(s + "+" + meta) == if IsMetadata(meta) then Read(s) else None
  {
    var body := StripV(s);
    assert StripV(s + "+" + meta) == body + "+" + meta;
    CutPresent(body, '+', meta);
    CutAbsent(body, '+');
    assert body + ['+'] + meta == body + "+" + meta;
  }
}
