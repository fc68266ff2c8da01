/** Which request paths skip authentication (internal/auth/config.go), over path.Clean of the Go library. */
module PublicPath {
  import opened Text

  // ---------------------------------------------------------------- path.Clean

  predicate Rooted(p: string) { p != "" && p[0] == '/' }

  /** One segment on top of the cleaned ones. */
  function Enter(stack: seq<string>, seg: string, rooted: bool): seq<string> {
    if seg == "" || seg == "." then stack
    else if seg != ".." then stack + [seg]
    else if stack != [] && stack[|stack| - 1] != ".." then stack[..|stack| - 1]
    else if rooted then stack
    else stack + [".."]
  }

  function Reduce(stack: seq<string>, segs: seq<string>, rooted: bool): seq<string>
    decreases |segs|
  {
    if segs == [] then stack else Reduce(Enter(stack, segs[0], rooted), segs[1..], rooted)
  }

  function Clean(p: string): string {
    var segs := Reduce([], Split(p, '/'), Rooted(p));
    if Rooted(p) then "/" + Join(segs, '/') else if segs == [] then "." else Join(segs, '/')
  }

  // ---------------------------------------------------------------- the check

  predicate Contains(s: string, sub: string) {
    exists i | 0 <= i <= |s| :: sub <= s[i..]
  }

  predicate Encoded(p: string) { Contains(Lower(p), "%2f") || Contains(Lower(p), "%2e") }

  /** Clean, with a leading slash. */
  function Slashed(p: string): string {
    var c := Clean(p);
    if HasPrefix(c, "/") then c else "/" + c
  }

  predicate Covers(publicPath: string, cleanPath: string) {
    var p := Slashed(publicPath);
    p == "/" || cleanPath == p || HasPrefix(cleanPath, p + "/")
  }

  predicate IsPublicPath(requestPath: string, publicPaths: seq<string>) {
    !Encoded(requestPath) && exists q | q in publicPaths :: Covers(q, Slashed(requestPath))
  }

  // ---------------------------------------------------------------- segments

  /** The segments of a path after cleaning; an unrooted path that cleans to nothing is the segment ".". */
  function Segments(p: string): seq<string> {
    var segs := Reduce([], Split(p, '/'), Rooted(p));
    if !Rooted(p) && segs == [] then ["."] else segs
  }

  ghost predicate Plain(segs: seq<string>) {
    forall s :: s in segs ==> s != "" && '/' !in s
  }

  lemma {:induction false} ReducePlain(stack: seq<string>, segs: seq<string>, rooted: bool)
    requires Plain(stack) && forall s :: s in segs ==> '/' !in s
    ensures Plain(Reduce(stack, segs, rooted))
    decreases |segs|
  {
    if segs != [] {
      assert segs[0] in segs;
      ReducePlain(Enter(stack, segs[0], rooted), segs[1..], rooted);
    }
  }

  lemma SegmentsPlain(p: string)
    ensures Plain(Segments(p))
  {
    ReducePlain([], Split(p, '/'), Rooted(p));
  }

  /** The checked string is the segments, each after a slash. */
  lemma SlashedSegments(p: string)
    ensures Slashed(p) == "/" + Join(Segments(p), '/')
  {
    SegmentsPlain(p);
    var segs := Segments(p);
    if !Rooted(p) {
      assert segs[0] in segs;
      assert Join(segs, '/')[0] == segs[0][0];
    }
  }

  lemma {:induction false} JoinAppend(a: seq<string>, b: seq<string>)
    requires a != [] && b != []
    ensures Join(a + b, '/') == Join(a, '/') + "/" + Join(b, '/')
  {
    if |a| == 1 {
      assert (a + b)[1..] == b;
    } else {
      assert (a + b)[1..] == a[1..] + b;
      JoinAppend(a[1..], b);
    }
  }

  lemma {:induction false} StringGivesSegments(a: seq<string>, b: seq<string>, t: string)
    requires Plain(a) && Plain(b) && a != [] && b != []
    requires Join(b, '/') == Join(a, '/') + "/" + t
    ensures a <= b
  {
    SplitOfJoin(a, '/');
    SplitOfJoin(b, '/');
    SplitAppend(Join(a, '/'), t, '/');
  }

  lemma {:induction false} SegmentsGiveString(a: seq<string>, b: seq<string>)
    requires a != [] && a < b
    ensures HasPrefix("/" + Join(b, '/'), "/" + Join(a, '/') + "/")
  {
    assert b == a + b[|a|..];
    JoinAppend(a, b[|a|..]);
  }

  lemma {:induction false} SameStringSameSegments(a: seq<string>, b: seq<string>)
    requires Plain(a) && Plain(b) && a != [] && b != [] && Join(a, '/') == Join(b, '/')
    ensures a == b
  {
    SplitOfJoin(a, '/');
    SplitOfJoin(b, '/');
  }

  lemma {:induction false} JoinNonempty(a: seq<string>)
    requires Plain(a) && a != []
    ensures Join(a, '/') != ""
  {
    assert a[0] in a;
  }

  /** On cleaned paths, "equal or followed by a slash" is exactly "a prefix, segment by segment". */
  lemma {:induction false} PrefixIffSegmentPrefix(a: seq<string>, b: seq<string>)
    requires Plain(a) && Plain(b) && a != []
    ensures var p, r := "/" + Join(a, '/'), "/" + Join(b, '/');
            r == p || HasPrefix(r, p + "/") <==> a <= b
  {
    JoinNonempty(a);
    assert a <= b && |a| == |b| ==> a == b;
    if b != [] {
      StringPrefix(a, b);
      if a <= b && |a| < |b| {
        SegmentsGiveString(a, b);
      }
    }
  }

  lemma {:induction false} StringPrefix(a: seq<string>, b: seq<string>)
    requires Plain(a) && Plain(b) && a != [] && b != []
    ensures var p, r := "/" + Join(a, '/'), "/" + Join(b, '/');
            r == p || HasPrefix(r, p + "/") ==> a <= b
  {
    var p, r := "/" + Join(a, '/'), "/" + Join(b, '/');
    if r == p {
      assert Join(a, '/') == p[1..] == r[1..] == Join(b, '/');
      SameStringSameSegments(a, b);
    } else if HasPrefix(r, p + "/") {
      var t := r[|p| + 1..];
      assert r == p + "/" + t;
      assert Join(b, '/') == r[1..] == Join(a, '/') + "/" + t;
      StringGivesSegments(a, b, t);
    }
  }

  /**
   A path is public exactly when it holds no encoded separator and some public path's segments begin its own: for every
   request path and every list of public paths, rooted or not.
   */
  lemma PublicIffSegmentPrefix(requestPath: string, publicPaths: seq<string>)
    ensures IsPublicPath(requestPath, publicPaths) <==>
            !Encoded(requestPath) && exists q :: q in publicPaths && Segments(q) <= Segments(requestPath)
  {
    SlashedSegments(requestPath);
    SegmentsPlain(requestPath);
    forall q ensures Covers(q, Slashed(requestPath)) <==> Segments(q) <= Segments(requestPath) {
      SlashedSegments(q);
      SegmentsPlain(q);
      if Segments(q) != [] {
        PrefixIffSegmentPrefix(Segments(q), Segments(requestPath));
        assert Segments(q)[0] in Segments(q);
      }
    }
  }

  /** A longer list only makes more paths public. */
  lemma PublicMonotone(requestPath: string, a: seq<string>, b: seq<string>)
    requires forall q :: q in a ==> q in b
    ensures IsPublicPath(requestPath, a) ==> IsPublicPath(requestPath, b)
  {
  }

  // ---------------------------------------------------------------- traversal

  lemma {:induction false} ReduceAppend(stack: seq<string>, s: seq<string>, t: seq<string>, rooted: bool)
    ensures Reduce(stack, s + t, rooted) == Reduce(Reduce(stack, s, rooted), t, rooted)
    decreases |s|
  {
    if s == [] {
      assert s + t == t;
    } else {
      assert (s + t)[1..] == s[1..] + t;
      ReduceAppend(Enter(stack, s[0], rooted), s[1..], t, rooted);
    }
  }

  lemma {:induction false} NoDotsWhenRooted(stack: seq<string>, segs: seq<string>)
    requires forall s :: s in stack ==> s != ".." && s != "." && s != ""
    ensures forall s :: s in Reduce(stack, segs, true) ==> s != ".." && s != "." && s != ""
    decreases |segs|
  {
    if segs != [] {
      NoDotsWhenRooted(Enter(stack, segs[0], true), segs[1..]);
    }
  }

  /** What a rooted path is matched by never contains a traversal step. */
  lemma RootedSegmentsHaveNoTraversal(p: string)
    requires Rooted(p)
    ensures forall s :: s in Segments(p) ==> s != ".." && s != "." && s != ""
  {
    NoDotsWhenRooted([], Split(p, '/'));
  }

  /** A detour that leaves every stack as it was. */
  ghost predicate Detour(segs: seq<string>, rooted: bool) {
    forall stack :: Reduce(stack, segs, rooted) == stack
  }

  lemma StandardDetours(x: string, rooted: bool)
    requires x != "" && x != "." && x != ".."
    ensures Detour([""], rooted) && Detour(["."], rooted) && Detour([x, ".."], rooted)
  {
    forall stack ensures Reduce(stack, [""], rooted) == stack && Reduce(stack, ["."], rooted) == stack
                         && Reduce(stack, [x, ".."], rooted) == stack
    {
      assert [""][1..] == [] && ["."][1..] == [] && [x, ".."][1..] == [".."] && [".."][1..] == [];
      assert Reduce(stack + [x], [".."], rooted) == Reduce((stack + [x])[..|stack|], [], rooted);
      assert (stack + [x])[..|stack|] == stack;
    }
  }

  /** Inserting a detour between two slashes changes neither the segments nor, therefore, any decision. */
  lemma {:induction false} DetourIsInvisible(a: string, d: string, b: string, publicPaths: seq<string>)
    requires Detour(Split(d, '/'), Rooted(a + "/" + b))
    ensures Segments(a + "/" + d + "/" + b) == Segments(a + "/" + b)
    ensures !Encoded(a + "/" + b) && !Encoded(a + "/" + d + "/" + b) ==>
              IsPublicPath(a + "/" + d + "/" + b, publicPaths) == IsPublicPath(a + "/" + b, publicPaths)
  {
    var rooted := Rooted(a + "/" + b);
    var long := a + "/" + d + "/" + b;
    assert long == a + "/" + (d + "/" + b);
    assert Rooted(long) == rooted by {
      assert a != "" ==> long[0] == a[0] && (a + "/" + b)[0] == a[0];
    }
    SplitAppend(a, d + "/" + b, '/');
    SplitAppend(d, b, '/');
    SplitAppend(a, b, '/');
    var sa, sd, sb := Split(a, '/'), Split(d, '/'), Split(b, '/');
    ReduceAppend([], sa, sd + sb, rooted);
    ReduceAppend(Reduce([], sa, rooted), sd, sb, rooted);
    ReduceAppend([], sa, sb, rooted);
    PublicIffSegmentPrefix(long, publicPaths);
    PublicIffSegmentPrefix(a + "/" + b, publicPaths);
  }

  /** In particular "//", "/./" and "/x/../" inside a path. */
  lemma CommonDetours(a: string, x: string, b: string)
    requires '/' !in x && x != "" && x != "." && x != ".."
    ensures Segments(a + "/" + "" + "/" + b) == Segments(a + "/" + b)
    ensures Segments(a + "/" + "." + "/" + b) == Segments(a + "/" + b)
    ensures Segments(a + "/" + (x + "/..") + "/" + b) == Segments(a + "/" + b)
  {
    var rooted := Rooted(a + "/" + b);
    StandardDetours(x, rooted);
    SplitWhole("", '/');
    SplitWhole(".", '/');
    SplitWhole("..", '/');
    SplitWhole(x, '/');
    assert x + "/.." == x + "/" + "..";
    SplitAppend(x, "..", '/');
    assert Split(x + "/..", '/') == [x, ".."];
    DetourIsInvisible(a, "", b, []);
    DetourIsInvisible(a, ".", b, []);
    DetourIsInvisible(a, x + "/..", b, []);
  }

  // ---------------------------------------------------------------- what the segments are

  /** A file or directory name. */
  predicate Ordinary(s: string) { s != "" && s != "." && s != ".." && '/' !in s }

  function Ups(n: nat): seq<string> { seq(n, _ => "..") }

  lemma {:induction false} ReduceOrdinary(stack: seq<string>, segs: seq<string>, rooted: bool)
    requires forall s :: s in segs ==> Ordinary(s)
    ensures Reduce(stack, segs, rooted) == stack + segs
    decreases |segs|
  {
    if segs == [] {
      assert stack + segs == stack;
    } else {
      assert segs[0] in segs;
      ReduceOrdinary(stack + [segs[0]], segs[1..], rooted);
      assert stack + [segs[0]] + segs[1..] == stack + segs;
    }
  }

  lemma {:induction false} ReduceUps(k: nat, n: nat, rooted: bool)
    requires rooted ==> k == 0
    ensures Reduce(Ups(k), Ups(n), rooted) == if rooted then [] else Ups(k + n)
    decreases n
  {
    if n > 0 {
      assert Ups(n)[1..] == Ups(n - 1);
      if rooted {
        ReduceUps(0, n - 1, rooted);
      } else {
        assert Ups(k) + [".."] == Ups(k + 1);
        ReduceUps(k + 1, n - 1, rooted);
      }
    }
  }

  /**
   Paths made of n steps up and then names: below the root the steps up are dropped, elsewhere they are kept. With the
   detours above this says what every path is matched by.
   */
  lemma {:induction false} SegmentsOfPath(n: nat, names: seq<string>)
    requires (forall s :: s in names ==> Ordinary(s)) && Ups(n) + names != []
    ensures Segments("/" + Join(Ups(n) + names, '/')) == names
    ensures Segments(Join(Ups(n) + names, '/')) == Ups(n) + names
  {
    var segs := Ups(n) + names;
    SplitOfPath(segs);
    ReduceUpsThenNames(n, names, true);
    ReduceUpsThenNames(n, names, false);
    ReduceSlash(segs);
  }

  lemma {:induction false} SplitOfPath(segs: seq<string>)
    requires Plain(segs) && segs != []
    ensures var path := Join(segs, '/');
            Split(path, '/') == segs && Split("/" + path, '/') == [""] + segs && !Rooted(path)
  {
    var path := Join(segs, '/');
    SplitOfJoin(segs, '/');
    SplitCons('/', path, '/');
    assert segs[0] in segs && path[0] == segs[0][0];
  }

  lemma {:induction false} ReduceSlash(segs: seq<string>)
    ensures Reduce([], [""] + segs, true) == Reduce([], segs, true)
  {
    assert ([""] + segs)[1..] == segs;
  }

  lemma {:induction false} ReduceUpsThenNames(n: nat, names: seq<string>, rooted: bool)
    requires forall s :: s in names ==> Ordinary(s)
    ensures Reduce([], Ups(n) + names, rooted) == if rooted then names else Ups(n) + names
  {
    assert Ups(0) == [];
    ReduceAppend([], Ups(n), names, rooted);
    ReduceUps(0, n, rooted);
    ReduceOrdinary(if rooted then [] else Ups(n), names, rooted);
    assert [] + names == names;
  }

  /** The root itself, and the empty path. */
  lemma SegmentsOfRoot()
    ensures Segments("/") == [] && Segments("") == ["."]
  {
    assert "/"[1..] == "";
    assert Split("/", '/') == ["", ""];
    assert ["", ""][1..] == [""] && [""][1..] == [];
  }

  /** A final ".." takes the last name away; at the root there is none, and from an unrooted path it may lead upward. */
  lemma ParentSegments(p: string)
    requires p != ""
    ensures var s := Segments(p);
            Segments(p + "/..") ==
            if Rooted(p) then (if s == [] then [] else s[..|s| - 1])
            else if s == ["."] then [".."]
            else if s[|s| - 1] == ".." then s + [".."]
            else if |s| == 1 then ["."] else s[..|s| - 1]
  {
    var segs, rooted := Split(p, '/'), Rooted(p);
    assert p + "/.." == p + "/" + ".." && (p + "/..")[0] == p[0];
    SplitAppend(p, "..", '/');
    SplitWhole("..", '/');
    ReduceAppend([], segs, [".."], rooted);
    EnterUp(Reduce([], segs, rooted), rooted);
    NoDotSegment([], segs, rooted);
    if rooted {
      RootedSegmentsHaveNoTraversal(p);
      var s := Segments(p);
      assert s != [] ==> s[|s| - 1] in s;
    }
  }

  lemma {:induction false} EnterUp(stack: seq<string>, rooted: bool)
    ensures Reduce(stack, [".."], rooted) == Enter(stack, "..", rooted)
  {
    assert [".."][1..] == [];
  }

  lemma {:induction false} NoDotSegment(stack: seq<string>, segs: seq<string>, rooted: bool)
    requires "." !in stack
    ensures "." !in Reduce(stack, segs, rooted)
    decreases |segs|
  {
    if segs != [] {
      NoDotSegment(Enter(stack, segs[0], rooted), segs[1..], rooted);
    }
  }

  /** A request for plain names is public under a path of plain names exactly when that path's names begin its own. */
  lemma {:induction false} PlainPathPublicIff(request: seq<string>, publicPath: seq<string>)
    requires forall s :: s in request || s in publicPath ==> Ordinary(s)
    requires request != [] && publicPath != []
    ensures var r, q := "/" + Join(request, '/'), "/" + Join(publicPath, '/');
            IsPublicPath(r, [q]) <==> !Encoded(r) && publicPath <= request
  {
    var r, q := "/" + Join(request, '/'), "/" + Join(publicPath, '/');
    assert Ups(0) + request == request && Ups(0) + publicPath == publicPath;
    SegmentsOfPath(0, request);
    SegmentsOfPath(0, publicPath);
    PublicIffSegmentPrefix(r, [q]);
    assert q in [q];
  }

  /** "%2f" or "%2e" at position i, in either case. */
  predicate EncodedAt(p: string, i: nat) {
    i + 2 < |p| && p[i] == '%' && p[i + 1] == '2'
    && (p[i + 2] == 'f' || p[i + 2] == 'F' || p[i + 2] == 'e' || p[i + 2] == 'E')
  }

  /** The three characters stand at position i. */
  predicate At(s: string, i: nat, a: char, b: char, c: char) {
    i + 2 < |s| && s[i] == a && s[i + 1] == b && s[i + 2] == c
  }

  lemma ContainsThree(s: string, a: char, b: char, c: char)
    ensures Contains(s, [a, b, c]) <==> exists i: nat :: At(s, i, a, b, c)
  {
    if i: nat :| At(s, i, a, b, c) {
      assert [a, b, c] <= s[i..];
    }
    if Contains(s, [a, b, c]) {
      var i: nat :| i <= |s| && [a, b, c] <= s[i..];
      assert s[i..][0] == s[i] && s[i..][1] == s[i + 1] && s[i..][2] == s[i + 2];
      assert At(s, i, a, b, c);
    }
  }

  lemma EncodedIff(p: string)
    ensures Encoded(p) <==> exists i: nat :: EncodedAt(p, i)
  {
    var l := Lower(p);
    assert "%2f" == ['%', '2', 'f'] && "%2e" == ['%', '2', 'e'];
    ContainsThree(l, '%', '2', 'f');
    ContainsThree(l, '%', '2', 'e');
    forall i: nat ensures EncodedAt(p, i) <==> At(l, i, '%', '2', 'f') || At(l, i, '%', '2', 'e') {
      LowerEncoded(p, i);
    }
  }

  lemma LowerEncoded(p: string, i: nat)
    ensures EncodedAt(p, i) <==> At(Lower(p), i, '%', '2', 'f') || At(Lower(p), i, '%', '2', 'e')
  {
  }
}
