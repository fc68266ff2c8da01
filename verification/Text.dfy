/** Go's string helpers, on strings with one char per byte. */
module Text {
  import opened Common

  /** One character in front of a text that is already split. */
  function Prepend(c: char, r: seq<string>, sep: char): (r': seq<string>)
    requires |r| >= 1
    ensures |r'| >= 1
  {
    if c == sep then [""] + r else [[c] + r[0]] + r[1..]
  }

  /** strings.Split with a one-byte separator. */
  function Split(s: string, sep: char): (r: seq<string>)
    ensures |r| >= 1
    ensures forall p :: p in r ==> sep !in p
  {
    if s == "" then [""] else Prepend(s[0], Split(s[1..], sep), sep)
  }

  /** strings.Join with a one-byte separator. */
  function Join(parts: seq<string>, sep: char): string {
    if parts == [] then ""
    else if |parts| == 1 then parts[0]
    else parts[0] + [sep] + Join(parts[1..], sep)
  }

  lemma {:induction false} JoinPrepend(c: char, r: seq<string>, sep: char)
    requires |r| >= 1
    ensures Join(Prepend(c, r, sep), sep) == [c] + Join(r, sep)
  {
    var t := Prepend(c, r, sep);
    if c == sep {
      assert t[1..] == r;
    } else {
      assert t[1..] == r[1..];
    }
  }

  lemma {:induction false} JoinOfSplit(s: string, sep: char)
    ensures Join(Split(s, sep), sep) == s
  {
    if s != "" {
      JoinOfSplit(s[1..], sep);
      JoinPrepend(s[0], Split(s[1..], sep), sep);
    }
  }

  lemma PrependAppend(c: char, r: seq<string>, t: seq<string>, sep: char)
    requires |r| >= 1
    ensures Prepend(c, r + t, sep) == Prepend(c, r, sep) + t
  {
    if c != sep {
      assert (r + t)[1..] == r[1..] + t;
    }
  }

  lemma {:induction false} SplitCons(c: char, s: string, sep: char)
    ensures Split([c] + s, sep) == Prepend(c, Split(s, sep), sep)
  {
    assert ([c] + s)[1..] == s;
  }

  lemma {:induction false} SplitAppend(p: string, s: string, sep: char)
    ensures Split(p + [sep] + s, sep) == Split(p, sep) + Split(s, sep)
  {
    if p == "" {
      assert p + [sep] + s == [sep] + s;
      SplitCons(sep, s, sep);
    } else {
      var tail := p[1..] + [sep] + s;
      assert p + [sep] + s == [p[0]] + tail;
      SplitCons(p[0], tail, sep);
      SplitAppend(p[1..], s, sep);
      PrependAppend(p[0], Split(p[1..], sep), Split(s, sep), sep);
    }
  }

  lemma {:induction false} SplitWhole(p: string, sep: char)
    requires sep !in p
    ensures Split(p, sep) == [p]
  {
    if p != "" {
      SplitWhole(p[1..], sep);
      assert p == [p[0]] + p[1..];
    }
  }

  lemma {:induction false} SplitOfJoin(parts: seq<string>, sep: char)
    requires parts != [] && forall p :: p in parts ==> sep !in p
    ensures Split(Join(parts, sep), sep) == parts
  {
    SplitWhole(parts[0], sep);
    if |parts| == 1 {
      assert parts == [parts[0]];
    } else {
      SplitOfJoin(parts[1..], sep);
      SplitAppend(parts[0], Join(parts[1..], sep), sep);
      assert parts == [parts[0]] + parts[1..];
    }
  }

  lemma {:induction false} SplitOnce(s: string, sep: char)
    ensures |Split(s, sep)| == 1 <==> sep !in s
  {
    if sep !in s {
      SplitWhole(s, sep);
    } else {
      JoinOfSplit(s, sep);
    }
  }

  /** Every character of a joined text is the separator or comes from a part. */
  lemma {:induction false} JoinMembers(parts: seq<string>, sep: char)
    ensures forall c :: c in Join(parts, sep) ==> c == sep || exists p :: p in parts && c in p
  {
    if |parts| > 1 {
      JoinMembers(parts[1..], sep);
      forall c | c in Join(parts, sep) && c != sep ensures exists p :: p in parts && c in p {
        if c in parts[0] {
          assert parts[0] in parts;
        } else {
          assert c in Join(parts[1..], sep);
          var p :| p in parts[1..] && c in p;
          assert p in parts;
        }
      }
    } else if |parts| == 1 {
      assert parts[0] in parts;
    }
  }

  /** The text before the first sep, and the text after it if sep occurs. */
  function Cut(s: string, sep: char): (r: (string, Option<string>))
    ensures sep !in r.0
    ensures r.1.None? ==> r.0 == s
    ensures r.1.Some? ==> s == r.0 + [sep] + r.1.value
  {
    if s == "" then ("", None)
    else if s[0] == sep then ("", Some(s[1..]))
    else
      var (a, b) := Cut(s[1..], sep);
      assert s == [s[0]] + s[1..];
      ([s[0]] + a, b)
  }

  lemma {:induction false} CutAbsent(s: string, sep: char)
    requires sep !in s
    ensures Cut(s, sep) == (s, None)
  {
    if s != "" {
      CutAbsent(s[1..], sep);
      assert s == [s[0]] + s[1..];
    }
  }

  lemma {:induction false} CutPresent(a: string, c: char, b: string)
    requires c !in a
    ensures Cut(a + [c] + b, c) == (a, Some(b))
  {
    if a == "" {
      assert a + [c] + b == [c] + b;
    } else {
      CutPresent(a[1..], c, b);
      assert (a + [c] + b)[1..] == a[1..] + [c] + b;
      assert a == [a[0]] + a[1..];
    }
  }

  predicate IsSpace(c: char) { c == ' ' || '\t' <= c <= '\r' }

  /** Tab, line feed, vertical tab, form feed, carriage return and the space. */
  lemma SpaceIff(c: char)
    ensures IsSpace(c) <==> c as int == 32 || 9 <= c as int <= 13
  {
  }

  function TrimLeft(s: string): string { if s != "" && IsSpace(s[0]) then TrimLeft(s[1..]) else s }

  function TrimRight(s: string): string {
    if s != "" && IsSpace(s[|s| - 1]) then TrimRight(s[..|s| - 1]) else s
  }

  function TrimSpace(s: string): string { TrimRight(TrimLeft(s)) }

  lemma {:induction false} TrimLeftOf(pre: string, s: string)
    requires AllIn(pre, IsSpace) && (s != "" ==> !IsSpace(s[0]))
    ensures TrimLeft(pre + s) == s
  {
    if pre == "" {
      assert pre + s == s;
    } else {
      assert (pre + s)[1..] == pre[1..] + s;
      TrimLeftOf(pre[1..], s);
    }
  }

  lemma {:induction false} TrimRightOf(s: string, post: string)
    requires AllIn(post, IsSpace) && (s != "" ==> !IsSpace(s[|s| - 1]))
    ensures TrimRight(s + post) == s
  {
    if post == "" {
      assert s + post == s;
    } else {
      var n := |post| - 1;
      assert (s + post)[..|s + post| - 1] == s + post[..n] && (s + post)[|s + post| - 1] == post[n];
      TrimRightOf(s, post[..n]);
    }
  }

  /** Exactly the white space around a text is cut off. */
  lemma TrimSpaceOf(pre: string, s: string, post: string)
    requires AllIn(pre, IsSpace) && AllIn(post, IsSpace) && s != "" && !IsSpace(s[0]) && !IsSpace(s[|s| - 1])
    ensures TrimSpace(pre + s + post) == s
  {
    assert pre + s + post == pre + (s + post) && (s + post)[0] == s[0];
    TrimLeftOf(pre, s + post);
    TrimRightOf(s, post);
  }

  lemma TrimSpaceOfBlank(s: string)
    requires AllIn(s, IsSpace)
    ensures TrimSpace(s) == ""
  {
    assert s + "" == s;
    TrimLeftOf(s, "");
  }

  predicate HasPrefix(s: string, p: string) { p <= s }

  predicate AllIn(s: string, p: char -> bool) {
    forall i :: 0 <= i < |s| ==> p(s[i])
  }

  predicate IsDigit(c: char) { '0' <= c <= '9' }

  predicate IsLetter(c: char) { 'a' <= c <= 'z' || 'A' <= c <= 'Z' }

  function LowerChar(c: char): char { if 'A' <= c <= 'Z' then c - 'A' + 'a' else c }

  function Lower(s: string): string { seq(|s|, i requires 0 <= i < |s| => LowerChar(s[i])) }

  /** Upper-case letters move up by 32, everything else stays. */
  lemma LowerMeaning(s: string, i: nat)
    requires i < |s|
    ensures |Lower(s)| == |s|
    ensures Lower(s)[i] as int == s[i] as int + (if 65 <= s[i] as int <= 90 then 32 else 0)
  {
  }

  /** Bytewise lexicographic order. */
  predicate StrLess(a: string, b: string) {
    if b == "" then false
    else if a == "" then true
    else if a[0] != b[0] then a[0] < b[0]
    else StrLess(a[1..], b[1..])
  }

  lemma {:induction false} StrLessTotal(a: string, b: string)
    ensures !(StrLess(a, b) && StrLess(b, a))
    ensures a == b <==> !StrLess(a, b) && !StrLess(b, a)
  {
    if a != "" && b != "" {
      StrLessTotal(a[1..], b[1..]);
      assert a == [a[0]] + a[1..] && b == [b[0]] + b[1..];
    }
  }

  lemma {:induction false} StrLessTransitive(a: string, b: string, c: string)
    requires StrLess(a, b) && StrLess(b, c)
    ensures StrLess(a, c)
  {
    if a != "" && a[0] == b[0] == c[0] {
      StrLessTransitive(a[1..], b[1..], c[1..]);
    }
  }

  /** The order read off the first difference: a is a proper prefix of b, or smaller where they first differ. */
  lemma {:induction false} StrLessMeaning(a: string, b: string)
    ensures StrLess(a, b) <==>
            exists k :: 0 <= k <= |a| && k < |b| && a[..k] == b[..k] && (k == |a| || a[k] < b[k])
  {
    if a != "" && b != "" && a[0] == b[0] {
      StrLessMeaning(a[1..], b[1..]);
      if k :| 0 <= k <= |a| && k < |b| && a[..k] == b[..k] && (k == |a| || a[k] < b[k]) {
        assert k > 0 ==> a[1..][..k - 1] == a[..k][1..] && b[1..][..k - 1] == b[..k][1..];
      }
      if j :| 0 <= j <= |a[1..]| && j < |b[1..]| && a[1..][..j] == b[1..][..j]
              && (j == |a[1..]| || a[1..][j] < b[1..][j]) {
        assert a[..j + 1] == [a[0]] + a[1..][..j] && b[..j + 1] == [b[0]] + b[1..][..j];
      }
    } else if StrLess(a, b) {
      assert a[..0] == b[..0];
    }
  }
}
