/** Page cursors (internal/service/cursor.go) over base64 as in section 4 of RFC 4648, and server names. */
module Cursor {
  import opened Common
  import opened Text
  import opened Versions

  predicate IsBytes(s: string) { forall i :: 0 <= i < |s| ==> s[i] as int < 256 }

  /** A Go string: one char per byte. */
  type Bytes = s: string | IsBytes(s)

  // ---------------------------------------------------------------- base64

  type Byte = n: int | 0 <= n < 256

  /** Six bits, or the padding mark. */
  type Sextet = n: int | 0 <= n <= 64

  const PAD: Sextet := 64

  function Symbol(v: Sextet): char {
    if v < 26 then 'A' + v as char
    else if v < 52 then 'a' + (v - 26) as char
    else if v < 62 then '0' + (v - 52) as char
    else if v == 62 then '+' else if v == 63 then '/' else '='
  }

  function SymbolValue(c: char): Option<Sextet> {
    if 'A' <= c <= 'Z' then Some((c - 'A') as int)
    else if 'a' <= c <= 'z' then Some((c - 'a') as int + 26)
    else if '0' <= c <= '9' then Some((c - '0') as int + 52)
    else if c == '+' then Some(62) else if c == '/' then Some(63) else if c == '=' then Some(PAD) else None
  }

  /** Three bytes to four sextets, the last group padded. */
  function Pack(d: seq<Byte>): seq<Sextet> {
    if |d| == 0 then []
    else if |d| == 1 then [d[0] / 4, d[0] % 4 * 16, PAD, PAD]
    else if |d| == 2 then [d[0] / 4, d[0] % 4 * 16 + d[1] / 16, d[1] % 16 * 4, PAD]
    else [d[0] / 4, d[0] % 4 * 16 + d[1] / 16, d[1] % 16 * 4 + d[2] / 64, d[2] % 64] + Pack(d[3..])
  }

  function First(v0: int, v1: int): Byte
    requires 0 <= v0 < 64 && 0 <= v1 < 64
  {
    v0 * 4 + v1 / 16
  }

  function Second(v1: int, v2: int): Byte
    requires 0 <= v1 < 64 && 0 <= v2 < 64
  {
    v1 % 16 * 16 + v2 / 4
  }

  function Third(v2: int, v3: int): Byte
    requires 0 <= v2 < 64 && 0 <= v3 < 64
  {
    v2 % 4 * 64 + v3
  }

  /** Four sextets to three bytes; padding only in the last group; spare bits ignored, as by the non-strict decoder. */
  function Unpack(v: seq<Sextet>): Option<seq<Byte>> {
    if |v| == 0 then Some([])
    else if |v| < 4 || v[0] == PAD || v[1] == PAD then None
    else if v[2] == PAD then
      if v[3] == PAD && |v| == 4 then Some([First(v[0], v[1])]) else None
    else if v[3] == PAD then
      if |v| == 4 then Some([First(v[0], v[1]), Second(v[1], v[2])]) else None
    else
      var rest := Unpack(v[4..]);
      if rest.None? then None
      else Some([First(v[0], v[1]), Second(v[1], v[2]), Third(v[2], v[3])] + rest.value)
  }

  function Symbols(v: seq<Sextet>): string { seq(|v|, i requires 0 <= i < |v| => Symbol(v[i])) }

  /** None when a character is not in the alphabet. */
  function Values(s: string): Option<seq<Sextet>> {
    if s == "" then Some([])
    else
      var v, rest := SymbolValue(s[0]), Values(s[1..]);
      if v.None? || rest.None? then None else Some([v.value] + rest.value)
  }

  function BytesOf(s: Bytes): seq<Byte> { seq(|s|, i requires 0 <= i < |s| => s[i] as int) }

  function TextOf(d: seq<Byte>): Bytes { seq(|d|, i requires 0 <= i < |d| => d[i] as char) }

  function Encode(s: Bytes): string { Symbols(Pack(BytesOf(s))) }

  /** Line breaks in the input are skipped. */
  function Decode(s: string): Option<Bytes> {
    var v := Values(FilterSeq(c => c != '\r' && c != '\n', s));
    var d := if v.None? then None else Unpack(v.value);
    if d.None? then None else Some(TextOf(d.value))
  }

  /** The three bytes behind four sextets that came from bytes a, b and c. */
  lemma GroupArithmetic(a: Byte, b: Byte, c: Byte, v0: int, v1: int, v2: int, v3: int)
    requires v0 == a / 4 && v1 == a % 4 * 16 + b / 16 && v2 == b % 16 * 4 + c / 64 && v3 == c % 64
    ensures 0 <= v0 < 64 && 0 <= v1 < 64 && 0 <= v2 < 64 && 0 <= v3 < 64
    ensures First(v0, v1) == a && Second(v1, v2) == b && Third(v2, v3) == c
  {
  }

  lemma SingleArithmetic(a: Byte, v0: int, v1: int)
    requires v0 == a / 4 && v1 == a % 4 * 16
    ensures 0 <= v0 < 64 && 0 <= v1 < 64 && First(v0, v1) == a
  {
  }

  lemma {:induction false} UnpackGroup(v: seq<Sextet>)
    requires |v| >= 4 && v[0] < 64 && v[1] < 64 && v[2] < 64 && v[3] < 64 && Unpack(v[4..]).Some?
    ensures Unpack(v) == Some([First(v[0], v[1]), Second(v[1], v[2]), Third(v[2], v[3])] + Unpack(v[4..]).value)
  {
  }

  lemma {:induction false} UnpackOfPack(d: seq<Byte>)
    ensures Unpack(Pack(d)) == Some(d)
  {
    if |d| > 2 {
      UnpackOfPack(d[3..]);
      var v := Pack(d);
      GroupArithmetic(d[0], d[1], d[2], v[0], v[1], v[2], v[3]);
      assert v[4..] == Pack(d[3..]);
      UnpackGroup(v);
      assert [d[0], d[1], d[2]] + d[3..] == d;
    } else if |d| == 2 {
      UnpackPair(d);
    } else if |d| == 1 {
      UnpackSingle(d);
    }
  }

  lemma {:induction false} UnpackPair(d: seq<Byte>)
    requires |d| == 2
    ensures Unpack(Pack(d)) == Some(d)
  {
    var v := Pack(d);
    GroupArithmetic(d[0], d[1], 0, v[0], v[1], v[2], 0);
    assert Unpack(v) == Some([First(v[0], v[1]), Second(v[1], v[2])]);
    assert [d[0], d[1]] == d;
  }

  lemma {:induction false} UnpackSingle(d: seq<Byte>)
    requires |d| == 1
    ensures Unpack(Pack(d)) == Some(d)
  {
    var v := Pack(d);
    SingleArithmetic(d[0], v[0], v[1]);
    assert Unpack(v) == Some([First(v[0], v[1])]);
    assert [d[0]] == d;
  }

  lemma {:induction false} ValuesOfSymbols(v: seq<Sextet>)
    ensures Values(Symbols(v)) == Some(v)
    ensures forall c :: c in Symbols(v) ==> c != '\r' && c != '\n'
  {
    if v != [] {
      ValuesOfSymbols(v[1..]);
      assert Symbols(v)[1..] == Symbols(v[1..]);
      assert SymbolValue(Symbol(v[0])) == Some(v[0]);
      assert Symbols(v) == [Symbol(v[0])] + Symbols(v[1..]);
      assert [v[0]] + v[1..] == v;
    }
  }

  /** Decoding inverts encoding on every byte string. */
  lemma Base64RoundTrip(s: Bytes)
    ensures Decode(Encode(s)) == Some(s)
  {
    var v := Pack(BytesOf(s));
    ValuesOfSymbols(v);
    FilterKeepsAll(c => c != '\r' && c != '\n', Symbols(v));
    UnpackOfPack(BytesOf(s));
    assert TextOf(BytesOf(s)) == s;
  }

  /** Test vectors of section 10 of RFC 4648, one for each padding. */
  lemma Rfc4648Vectors()
    ensures Encode("f") == "Zg==" && Encode("fo") == "Zm8=" && Encode("foo") == "Zm9v"
  {
    assert BytesOf("f") == [102] && BytesOf("fo") == [102, 111] && BytesOf("foo") == [102, 111, 111];
    assert Pack([102]) == [25, 32, PAD, PAD];
    assert Pack([102, 111]) == [25, 38, 60, PAD];
    assert [102, 111, 111][3..] == [];
    assert Pack([102, 111, 111]) == [25, 38, 61, 47];
  }

  /** Whole groups of four, padding in the last one or two places only. */
  predicate WellPadded(v: seq<Sextet>) {
    && |v| % 4 == 0 && (forall i :: 0 <= i < |v| - 2 ==> v[i] != PAD)
    && (|v| > 0 && v[|v| - 2] == PAD ==> v[|v| - 1] == PAD)
  }

  lemma {:induction false} UnpackIff(v: seq<Sextet>)
    ensures Unpack(v).Some? <==> WellPadded(v)
    ensures Unpack(v).Some? ==> |Unpack(v).value| == |v| / 4 * 3 - (if |v| > 0 && v[|v| - 2] == PAD then 2
                                                                  else if |v| > 0 && v[|v| - 1] == PAD then 1 else 0)
  {
    if |v| > 4 {
      UnpackIff(v[4..]);
      assert WellPadded(v) <==> v[0] != PAD && v[1] != PAD && v[2] != PAD && v[3] != PAD && WellPadded(v[4..]) by {
        assert forall i :: 0 <= i < |v[4..]| ==> v[4..][i] == v[i + 4];
      }
    }
  }

  predicate InAlphabet(c: char) {
    'A' <= c <= 'Z' || 'a' <= c <= 'z' || '0' <= c <= '9' || c == '+' || c == '/'
  }

  lemma {:induction false} ValuesIff(s: string)
    ensures Values(s).Some? <==> forall c :: c in s ==> InAlphabet(c) || c == '='
    ensures Values(s).Some? ==>
              |Values(s).value| == |s| && forall i :: 0 <= i < |s| ==> (Values(s).value[i] == PAD <==> s[i] == '=')
  {
    if s != "" {
      ValuesIff(s[1..]);
      assert SymbolValue(s[0]).Some? <==> InAlphabet(s[0]) || s[0] == '=';
      assert forall c :: c in s <==> c == s[0] || c in s[1..];
      assert s[0] in s;
    }
  }

  /** What decodes: line breaks aside, whole groups of the alphabet with "=" in the last one or two places only. */
  lemma {:induction false} DecodableIff(s: string)
    ensures var t := FilterSeq(c => c != '\r' && c != '\n', s);
            Decode(s).Some? <==>
            && |t| % 4 == 0 && (forall i :: 0 <= i < |t| - 2 ==> InAlphabet(t[i]))
            && (|t| > 0 ==> (InAlphabet(t[|t| - 1]) || t[|t| - 1] == '=')
                            && (InAlphabet(t[|t| - 2]) || (t[|t| - 2] == '=' && t[|t| - 1] == '=')))
  {
    var t := FilterSeq(c => c != '\r' && c != '\n', s);
    ValuesIff(t);
    if Values(t).Some? {
      UnpackIff(Values(t).value);
      assert forall i :: 0 <= i < |t| ==> t[i] in t;
    } else {
      var c :| c in t && !InAlphabet(c) && c != '=';
      var i :| 0 <= i < |t| && t[i] == c;
    }
  }

  // ---------------------------------------------------------------- cursors

  datatype Position = Position(name: string, version: string) | Malformed

  function EncodeCursor(name: Bytes, version: Bytes): string { Encode(name + "," + version) }

  function DecodeCursor(cursor: string): Position {
    if cursor == "" then Position("", "")
    else
      var decoded := Decode(cursor);
      if decoded.None? then Malformed
      else
        var parts := Split(decoded.value, ',');
        if |parts| != 2 then Malformed else Position(parts[0], parts[1])
  }

  /** A cursor decodes to the pair it was made from, or, with a comma in either part, to an error: never to another. */
  lemma CursorRoundTrip(name: Bytes, version: Bytes)
    ensures EncodeCursor(name, version) != ""
    ensures DecodeCursor(EncodeCursor(name, version)) ==
            if ',' in name || ',' in version then Malformed else Position(name, version)
  {
    Base64RoundTrip(name + "," + version);
    SplitAppend(name, version, ',');
    SplitOnce(name, ',');
    SplitOnce(version, ',');
    JoinOfSplit(name, ',');
    JoinOfSplit(version, ',');
    assert |BytesOf(name + "," + version)| >= 1;
  }

  /** No cursor is the first page; any other gives a pair exactly when it decodes to two texts around one comma. */
  lemma DecodeCursorIff(cursor: string, name: string, version: string)
    ensures DecodeCursor("") == Position("", "")
    ensures cursor != "" ==>
              (DecodeCursor(cursor) == Position(name, version) <==>
               ',' !in name && ',' !in version && Decode(cursor).Some? && Decode(cursor).value == name + "," + version)
  {
    if cursor != "" && Decode(cursor).Some? {
      var text := Decode(cursor).value;
      var parts := Split(text, ',');
      JoinOfSplit(text, ',');
      if text == name + "," + version && ',' !in name && ',' !in version {
        SplitAppend(name, version, ',');
        SplitWhole(name, ',');
        SplitWhole(version, ',');
      }
      if |parts| == 2 {
        assert parts[1..] == [parts[1]] && text == parts[0] + "," + parts[1];
        assert parts[0] in parts && parts[1] in parts;
      }
    }
  }

  // ---------------------------------------------------------------- names and versions never hold a comma

  predicate IsAlphanumeric(c: char) { IsLetter(c) || IsDigit(c) }

  /** ^[a-zA-Z0-9]([a-zA-Z0-9 and the extra characters]*[a-zA-Z0-9])?$ */
  predicate MatchesPattern(s: string, underscore: bool) {
    && s != "" && IsAlphanumeric(s[0]) && IsAlphanumeric(s[|s| - 1])
    && forall i | 0 <= i < |s| :: IsAlphanumeric(s[i]) || s[i] == '.' || s[i] == '-' || (underscore && s[i] == '_')
  }

  const MIN_NAME_LENGTH := 3
  const MAX_NAME_LENGTH := 200

  /** The trimmed name, or None when it is refused. */
  function ValidateServerName(name: string): Option<string> {
    var s := TrimSpace(name);
    var parts := Split(s, '/');
    if s == "" || |parts| != 2 || parts[0] == "" || parts[1] == "" then None
    else if !(MIN_NAME_LENGTH <= |s| <= MAX_NAME_LENGTH) then None
    else if !MatchesPattern(parts[0], false) || !MatchesPattern(parts[1], true) then None
    else Some(s)
  }

  /** The two patterns, character by character. */
  lemma MatchesPatternIff(s: string, underscore: bool)
    ensures MatchesPattern(s, underscore) <==>
            && |s| >= 1
            && forall i :: 0 <= i < |s| ==>
                 || 'a' <= s[i] <= 'z' || 'A' <= s[i] <= 'Z' || '0' <= s[i] <= '9'
                 || (0 < i < |s| - 1 && (s[i] == '.' || s[i] == '-' || (underscore && s[i] == '_')))
  {
  }

  /** What is accepted: white space aside, 3 to 200 characters in two parts around one slash that match the patterns. */
  lemma ServerNameIff(name: string)
    ensures var s := TrimSpace(name);
            ValidateServerName(name) ==
            if 3 <= |s| <= 200
               && exists a, b :: s == a + "/" + b && MatchesPattern(a, false) && MatchesPattern(b, true)
            then Some(s) else None
  {
    var s := TrimSpace(name);
    var parts := Split(s, '/');
    JoinOfSplit(s, '/');
    if |parts| == 2 {
      assert parts[1..] == [parts[1]] && s == parts[0] + "/" + parts[1];
    }
    if a, b :| s == a + "/" + b && MatchesPattern(a, false) && MatchesPattern(b, true) {
      assert '/' !in a && '/' !in b;
      SplitAppend(a, b, '/');
      SplitWhole(a, '/');
      SplitWhole(b, '/');
    }
  }

  lemma ValidNameChars(name: string)
    requires ValidateServerName(name).Some?
    ensures var s := ValidateServerName(name).value;
            IsBytes(s) && ',' !in s
  {
    var s := TrimSpace(name);
    var parts := Split(s, '/');
    JoinOfSplit(s, '/');
    JoinMembers(parts, '/');
    forall i | 0 <= i < |s| ensures s[i] as int < 256 && s[i] != ',' {
      assert s[i] in s;
      if s[i] != '/' {
        var p :| p in parts && s[i] in p;
        assert p == parts[0] || p == parts[1];
      }
    }
  }

  /** An accepted name is accepted again, unchanged. */
  lemma ValidateIdempotent(name: string)
    requires ValidateServerName(name).Some?
    ensures ValidateServerName(ValidateServerName(name).value) == ValidateServerName(name)
  {
    var s := ValidateServerName(name).value;
    var parts := Split(s, '/');
    JoinOfSplit(s, '/');
    assert s == parts[0] + "/" + parts[1];
    assert !IsSpace(s[0]) && !IsSpace(s[|s| - 1]);
  }

  lemma PublishableChars(v: string)
    requires IsPublishable(v)
    ensures forall c :: c in v ==> IsIdentChar(c) || c == '.'
  {
    var body := StripV(v);
    CutAbsent(body, '+');
    var (core, pre) := Cut(body, '-');
    CoreChars(core);
    if pre.Some? {
      PreChars(pre.value);
      assert forall c :: c in body ==> c in core || c == '-' || c in pre.value;
    }
    assert forall c :: c in v ==> c == 'v' || c in body;
  }

  lemma {:induction false} CoreChars(core: string)
    requires IsCore(Split(core, '.'), true)
    ensures forall c :: c in core ==> IsIdentChar(c) || c == '.'
  {
    var nums := Split(core, '.');
    JoinOfSplit(core, '.');
    JoinMembers(nums, '.');
    forall c | c in core && c != '.' ensures IsIdentChar(c) {
      var p :| p in nums && c in p;
      var i :| 0 <= i < |nums| && nums[i] == p;
      assert IsCanonical(nums[i]);
    }
  }

  lemma {:induction false} PreChars(pre: string)
    requires forall p :: p in Split(pre, '.') ==> IsIdent(p)
    ensures forall c :: c in pre ==> IsIdentChar(c) || c == '.'
  {
    JoinOfSplit(pre, '.');
    JoinMembers(Split(pre, '.'), '.');
    forall c | c in pre && c != '.' ensures IsIdentChar(c) {
      var p :| p in Split(pre, '.') && c in p;
      assert IsIdent(p);
    }
  }

  lemma PlainChars(v: string)
    requires forall c :: c in v ==> IsIdentChar(c) || c == '.'
    ensures IsBytes(v) && ',' !in v
  {
    assert forall i :: 0 <= i < |v| ==> v[i] in v;
  }

  lemma PlainPairRoundTrips(n: string, v: string)
    requires IsBytes(n) && IsBytes(v) && ',' !in n && ',' !in v
    ensures DecodeCursor(EncodeCursor(n, v)) == Position(n, v)
  {
    CursorRoundTrip(n, v);
  }

  /** So every accepted name with every publishable version makes a cursor that comes back as it was. */
  lemma AcceptedEntriesRoundTrip(name: string, version: string)
    requires ValidateServerName(name).Some? && IsPublishable(version)
    ensures var n := ValidateServerName(name).value;
            IsBytes(n) && IsBytes(version) && DecodeCursor(EncodeCursor(n, version)) == Position(n, version)
  {
    ValidNameChars(name);
    PublishableChars(version);
    PlainChars(version);
    PlainPairRoundTrips(ValidateServerName(name).value, version);
  }
}
