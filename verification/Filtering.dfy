/** Name, tag and registry filtering (internal/filtering, internal/registry/tags.go). */
module Filtering {
  import opened Common

  /** Outcome of matching one glob pattern against one name. */
  datatype Verdict = Match | NoMatch | Invalid

  /** The glob library: pattern, then name. */
  type Matcher = (string, string) -> Verdict

  datatype Json =
    | JNull
    | JBool(b: bool)
    | JNumber(n: int)
    | JString(s: string)
    | JArray(elems: seq<Json>)
    | JObject(fields: map<string, Json>)

  datatype Server = Server(name: string, publisherProvided: Option<map<string, Json>>, body: string)
  datatype Artifact = Artifact(ns: string, name: string, body: string)  // a skill or a plugin
  datatype Data = Data(servers: seq<Server>, skills: seq<Artifact>, plugins: seq<Artifact>)
  datatype Registry = Registry(schema: string, version: string, lastUpdated: string, data: Data)

  datatype Lists = Lists(incl: seq<string>, excl: seq<string>)
  datatype Filter = Filter(names: Option<Lists>, tags: Option<Lists>)

  const NO_LISTS := Lists([], [])

  function ListsOf(o: Option<Lists>): Lists {
    if o.Some? then o.value else NO_LISTS
  }

  // ---------------------------------------------------------------- names

  /** The first pattern, in order, that matches or is invalid decides; NoMatch when none does. */
  function FirstDecisive(m: Matcher, patterns: seq<string>, name: string): Verdict {
    if patterns == [] then NoMatch
    else if m(patterns[0], name) != NoMatch then m(patterns[0], name)
    else FirstDecisive(m, patterns[1..], name)
  }

  predicate NameIncluded(m: Matcher, name: string, l: Lists) {
    FirstDecisive(m, l.excl, name) == NoMatch
    && (l.incl == [] || FirstDecisive(m, l.incl, name) == Match)
  }

  lemma {:induction false} FirstDecisiveMeaning(m: Matcher, patterns: seq<string>, name: string)
    ensures FirstDecisive(m, patterns, name) == NoMatch
            <==> forall p :: p in patterns ==> m(p, name) == NoMatch
    ensures FirstDecisive(m, patterns, name) == Match
            <==> exists i :: 0 <= i < |patterns| && m(patterns[i], name) == Match
                             && forall j :: 0 <= j < i ==> m(patterns[j], name) != Invalid
  {
    if patterns != [] {
      var rest := patterns[1..];
      FirstDecisiveMeaning(m, rest, name);
      assert forall p :: p in patterns <==> p == patterns[0] || p in rest;
      if m(patterns[0], name) == NoMatch {
        if FirstDecisive(m, rest, name) == Match {
          var i :| 0 <= i < |rest| && m(rest[i], name) == Match
                   && forall j :: 0 <= j < i ==> m(rest[j], name) != Invalid;
          assert patterns[i + 1] == rest[i];
          forall j | 0 <= j < i + 1 ensures m(patterns[j], name) != Invalid {
            assert j > 0 ==> patterns[j] == rest[j - 1];
          }
        }
        if i :| 0 <= i < |patterns| && m(patterns[i], name) == Match
                && forall j :: 0 <= j < i ==> m(patterns[j], name) != Invalid {
          assert rest[i - 1] == patterns[i];
          assert forall j :: 0 <= j < i - 1 ==> rest[j] == patterns[j + 1];
        }
      }
    }
  }

  /** Exclusion wins; an include list, when present, must match before it hits an invalid pattern. */
  lemma NameRule(m: Matcher, name: string, l: Lists)
    ensures NameIncluded(m, name, l) <==>
            && (forall p :: p in l.excl ==> m(p, name) == NoMatch)
            && (l.incl == [] ||
                exists i :: 0 <= i < |l.incl| && m(l.incl[i], name) == Match
                            && forall j :: 0 <= j < i ==> m(l.incl[j], name) != Invalid)
  {
    FirstDecisiveMeaning(m, l.excl, name);
    FirstDecisiveMeaning(m, l.incl, name);
  }

  ghost predicate AllValid(m: Matcher, patterns: seq<string>, name: string) {
    forall p :: p in patterns ==> m(p, name) != Invalid
  }

  /** Both lists hold the same patterns, in whatever order and however often. */
  ghost predicate SamePatterns(a: Lists, b: Lists) {
    (forall p :: p in a.incl <==> p in b.incl) && (forall p :: p in a.excl <==> p in b.excl)
  }

  /** The name is excluded, or no include pattern is invalid, or none matches. */
  ghost predicate OrderFree(m: Matcher, name: string, l: Lists) {
    || (exists p :: p in l.excl && m(p, name) != NoMatch)
    || AllValid(m, l.incl, name)
    || (forall p :: p in l.incl ==> m(p, name) != Match)
  }

  /** Then only the set of patterns matters, not their order or repetition. */
  lemma NameOrderIrrelevant(m: Matcher, name: string, a: Lists, b: Lists)
    requires OrderFree(m, name, a) && SamePatterns(a, b)
    ensures NameIncluded(m, name, a) == NameIncluded(m, name, b)
  {
    NameRule(m, name, a);
    NameRule(m, name, b);
    assert a.incl == [] <==> b.incl == [] by {
      assert a.incl != [] ==> a.incl[0] in b.incl;
      assert b.incl != [] ==> b.incl[0] in a.incl;
    }
    if p :| p in a.incl && m(p, name) == Match {
      var i :| 0 <= i < |a.incl| && a.incl[i] == p;
      var j :| 0 <= j < |b.incl| && b.incl[j] == p;
      assert m(a.incl[i], name) == Match && m(b.incl[j], name) == Match;
    }
  }

  lemma {:induction false} FirstPatternDecides(m: Matcher, name: string, first: string, l: Lists)
    requires first in l.incl && m(first, name) != NoMatch && FirstDecisive(m, l.excl, name) == NoMatch
    ensures SamePatterns(l, Lists([first] + l.incl, l.excl))
    ensures NameIncluded(m, name, Lists([first] + l.incl, l.excl)) <==> m(first, name) == Match
  {
  }

  /**
   The pattern lists decide a name as sets, whatever order they are written in, if and only if the name is excluded
   anyway, or no include pattern is invalid, or none matches; otherwise some order includes it and some does not.
   */
  lemma NameOrderIrrelevantIff(m: Matcher, name: string, a: Lists)
    ensures OrderFree(m, name, a) <==>
            forall b :: SamePatterns(a, b) ==> NameIncluded(m, name, a) == NameIncluded(m, name, b)
  {
    if OrderFree(m, name, a) {
      forall b | SamePatterns(a, b) ensures NameIncluded(m, name, a) == NameIncluded(m, name, b) {
        NameOrderIrrelevant(m, name, a, b);
      }
    } else {
      var bad :| bad in a.incl && m(bad, name) == Invalid;
      var good :| good in a.incl && m(good, name) == Match;
      FirstDecisiveMeaning(m, a.excl, name);
      FirstPatternDecides(m, name, bad, a);
      FirstPatternDecides(m, name, good, a);
    }
  }

  // ---------------------------------------------------------------- tags

  /** The values of a publisher entry's "tags" array, or none. */
  predicate ListsTag(entry: Json, t: string) {
    entry.JObject? && "tags" in entry.fields && entry.fields["tags"].JArray?
    && JString(t) in entry.fields["tags"].elems
  }

  /** Tag t occurs two levels down in the publisher-provided metadata. */
  ghost predicate Declares(server: Server, t: string) {
    server.publisherProvided.Some?
    && var meta := server.publisherProvided.value;
    exists k1, k2 :: k1 in meta && meta[k1].JObject? && k2 in meta[k1].fields
                     && ListsTag(meta[k1].fields[k2], t)
  }

  /** Where a tag has to stand: in the array "tags" of an object inside an object of the metadata; nowhere else. */
  lemma DeclaredAt(name: string, body: string, outer: string, inner: string, key: string, elems: seq<Json>, t: string)
    ensures var entry := JObject(map[key := JArray(elems)]);
            && (Declares(Server(name, Some(map[outer := JObject(map[inner := entry])]), body), t)
                <==> key == "tags" && JString(t) in elems)
            && !Declares(Server(name, Some(map[outer := entry]), body), t)
            && !Declares(Server(name, None, body), t)
  {
    var entry := JObject(map[key := JArray(elems)]);
    var meta := map[outer := JObject(map[inner := entry])];
    assert outer in meta && inner in meta[outer].fields;
  }

  method StringElements(elems: seq<Json>) returns (tags: seq<string>)
    ensures forall t :: t in tags <==> JString(t) in elems
  {
    tags := [];
    for i := 0 to |elems|
      invariant forall t :: t in tags <==> JString(t) in elems[..i]
    {
      assert elems[..i + 1] == elems[..i] + [elems[i]];
      if elems[i].JString? {
        tags := tags + [elems[i].s];
      }
    }
    assert elems[..|elems|] == elems;
  }

  method TagsOfGroup(group: map<string, Json>) returns (tags: seq<string>)
    ensures forall t :: t in tags <==> exists k :: k in group && ListsTag(group[k], t)
  {
    tags := [];
    var todo := group.Keys;
    while todo != {}
      invariant todo <= group.Keys
      invariant forall t :: t in tags <==> exists k :: k in group && k !in todo && ListsTag(group[k], t)
    {
      var k :| k in todo;
      todo := todo - {k};
      var entry := group[k];
      if entry.JObject? && "tags" in entry.fields && entry.fields["tags"].JArray? {
        var more := StringElements(entry.fields["tags"].elems);
        tags := tags + more;
      }
    }
  }

  /** Maps are iterated in an arbitrary order, so only the set of tags is determined. */
  method ExtractTags(server: Server) returns (tags: seq<string>)
    ensures forall t :: t in tags <==> Declares(server, t)
  {
    tags := [];
    if server.publisherProvided.Some? {
      var meta := server.publisherProvided.value;
      var todo := meta.Keys;
      while todo != {}
        invariant todo <= meta.Keys
        invariant forall t :: t in tags <==>
                    exists k1, k2 :: k1 in meta && k1 !in todo && meta[k1].JObject? && k2 in meta[k1].fields
                                     && ListsTag(meta[k1].fields[k2], t)
      {
        var k :| k in todo;
        todo := todo - {k};
        if meta[k].JObject? {
          var more := TagsOfGroup(meta[k].fields);
          tags := tags + more;
        }
      }
    }
  }

  predicate TagIncluded(tags: seq<string>, l: Lists) {
    (forall t | t in tags :: t !in l.excl) && (l.incl == [] || exists t | t in tags :: t in l.incl)
  }

  /** The tag rule as a property of the server alone. */
  ghost predicate TagRule(server: Server, l: Lists) {
    && (forall t :: Declares(server, t) ==> t !in l.excl)
    && (l.incl == [] || exists t :: Declares(server, t) && t in l.incl)
  }

  /** The early-returning search of the tag filter. */
  method TagShouldInclude(tags: seq<string>, l: Lists) returns (ok: bool)
    ensures ok == TagIncluded(tags, l)
  {
    if |l.excl| > 0 {
      for i := 0 to |tags|
        invariant forall t :: t in tags[..i] ==> t !in l.excl
      {
        assert tags[..i + 1] == tags[..i] + [tags[i]];
        for j := 0 to |l.excl|
          invariant tags[i] !in l.excl[..j]
        {
          assert l.excl[..j + 1] == l.excl[..j] + [l.excl[j]];
          if tags[i] == l.excl[j] {
            assert tags[i] in tags;
            return false;
          }
        }
        assert l.excl[..|l.excl|] == l.excl;
      }
      assert tags[..|tags|] == tags;
    }
    if |l.incl| > 0 {
      for i := 0 to |tags|
        invariant forall t :: t in tags[..i] ==> t !in l.incl
      {
        assert tags[..i + 1] == tags[..i] + [tags[i]];
        for j := 0 to |l.incl|
          invariant tags[i] !in l.incl[..j]
        {
          assert l.incl[..j + 1] == l.incl[..j] + [l.incl[j]];
          if tags[i] == l.incl[j] {
            assert tags[i] in tags;
            return true;
          }
        }
        assert l.incl[..|l.incl|] == l.incl;
      }
      assert tags[..|tags|] == tags;
      return false;
    }
    return true;
  }

  // ---------------------------------------------------------------- registries

  ghost function KeepsServer(m: Matcher, f: Filter): Server -> bool {
    (s: Server) => NameIncluded(m, s.name, ListsOf(f.names)) && TagRule(s, ListsOf(f.tags))
  }

  /** Skills and plugins are matched by "namespace/name" and never by tag. */
  ghost function KeepsArtifact(m: Matcher, f: Filter): Artifact -> bool {
    (a: Artifact) => NameIncluded(m, a.ns + "/" + a.name, ListsOf(f.names))
  }

  ghost function FilteredData(m: Matcher, f: Option<Filter>, d: Data): Data {
    if f.None? then d
    else Data(FilterSeq(KeepsServer(m, f.value), d.servers),
              FilterSeq(KeepsArtifact(m, f.value), d.skills),
              FilterSeq(KeepsArtifact(m, f.value), d.plugins))
  }

  method FilterArtifacts(m: Matcher, f: Filter, items: seq<Artifact>)
    returns (kept: seq<Artifact>, included: nat, excluded: nat)
    ensures kept == FilterSeq(KeepsArtifact(m, f), items)
    ensures included == |kept| && included + excluded == |items|
  {
    kept, included, excluded := [], 0, 0;
    for i := 0 to |items|
      invariant kept == FilterSeq(KeepsArtifact(m, f), items[..i])
      invariant included == |kept| && included + excluded == i
    {
      assert items[..i + 1] == items[..i] + [items[i]];
      FilterAppend(KeepsArtifact(m, f), items[..i], [items[i]]);
      if NameIncluded(m, items[i].ns + "/" + items[i].name, ListsOf(f.names)) {
        kept, included := kept + [items[i]], included + 1;
      } else {
        excluded := excluded + 1;
      }
    }
    assert items[..|items|] == items;
  }

  /** The registry with its entries filtered; included and excluded count the servers. */
  method ApplyFilters(m: Matcher, reg: Registry, filter: Option<Filter>)
    returns (r: Registry, included: nat, excluded: nat)
    ensures r == reg.(data := FilteredData(m, filter, reg.data))
    ensures filter.Some? ==> included == |r.data.servers| && included + excluded == |reg.data.servers|
  {
    included, excluded := 0, 0;
    if filter.None? {
      return reg, 0, 0;
    }
    var f := filter.value;
    var servers := reg.data.servers;
    var kept := [];
    for i := 0 to |servers|
      invariant kept == FilterSeq(KeepsServer(m, f), servers[..i])
      invariant included == |kept| && included + excluded == i
    {
      assert servers[..i + 1] == servers[..i] + [servers[i]];
      FilterAppend(KeepsServer(m, f), servers[..i], [servers[i]]);
      var tags := ExtractTags(servers[i]);
      var ok := NameIncluded(m, servers[i].name, ListsOf(f.names));
      if ok {
        ok := TagShouldInclude(tags, ListsOf(f.tags));
      }
      if ok {
        kept, included := kept + [servers[i]], included + 1;
      } else {
        excluded := excluded + 1;
      }
    }
    assert servers[..|servers|] == servers;
    var skills, _, _ := FilterArtifacts(m, f, reg.data.skills);
    var plugins, _, _ := FilterArtifacts(m, f, reg.data.plugins);
    r := Registry(reg.schema, reg.version, reg.lastUpdated, Data(kept, skills, plugins));
  }

  /** A server survives exactly once per listing, in place, when its name passes the patterns and its tags the lists. */
  lemma FilteredServers(m: Matcher, f: Filter, d: Data)
    ensures var names := if f.names.Some? then f.names.value else Lists([], []);
            var tags := if f.tags.Some? then f.tags.value else Lists([], []);
            var kept := FilteredData(m, Some(f), d).servers;
            Subsequence(kept, d.servers)
            && forall s :: multiset(kept)[s] ==
                           if && PatternsPass(m, s.name, names)
                              && (forall t :: Declares(s, t) ==> t !in tags.excl)
                              && (tags.incl == [] || exists t :: Declares(s, t) && t in tags.incl)
                           then multiset(d.servers)[s] else 0
  {
    FilterCounts(KeepsServer(m, f), d.servers);
    forall s: Server ensures NameIncluded(m, s.name, ListsOf(f.names)) <==> PatternsPass(m, s.name, ListsOf(f.names)) {
      NameRule(m, s.name, ListsOf(f.names));
    }
  }

  /** The name rule, written out. */
  ghost predicate PatternsPass(m: Matcher, name: string, l: Lists) {
    && (forall p :: p in l.excl ==> m(p, name) == NoMatch)
    && (l.incl == [] ||
        exists i :: 0 <= i < |l.incl| && m(l.incl[i], name) == Match
                    && forall j :: 0 <= j < i ==> m(l.incl[j], name) != Invalid)
  }

  /** A skill or plugin survives exactly once per listing, in place, when "namespace/name" passes the patterns. */
  lemma FilteredArtifacts(m: Matcher, f: Filter, d: Data)
    ensures var l := if f.names.Some? then f.names.value else Lists([], []);
            var kept := FilteredData(m, Some(f), d);
            && Subsequence(kept.skills, d.skills) && Subsequence(kept.plugins, d.plugins)
            && forall a: Artifact ::
                 var passes := PatternsPass(m, a.ns + "/" + a.name, l);
                 && multiset(kept.skills)[a] == (if passes then multiset(d.skills)[a] else 0)
                 && multiset(kept.plugins)[a] == (if passes then multiset(d.plugins)[a] else 0)
  {
    FilterCounts(KeepsArtifact(m, f), d.skills);
    FilterCounts(KeepsArtifact(m, f), d.plugins);
    forall a: Artifact ensures KeepsArtifact(m, f)(a) <==> PatternsPass(m, a.ns + "/" + a.name, ListsOf(f.names)) {
      NameRule(m, a.ns + "/" + a.name, ListsOf(f.names));
    }
  }

  lemma FilterIdempotent(m: Matcher, f: Option<Filter>, d: Data)
    ensures FilteredData(m, f, FilteredData(m, f, d)) == FilteredData(m, f, d)
  {
    if f.Some? {
      var ps, pa := KeepsServer(m, f.value), KeepsArtifact(m, f.value);
      FilterMembers(ps, d.servers);
      FilterKeepsAll(ps, FilterSeq(ps, d.servers));
      FilterMembers(pa, d.skills);
      FilterKeepsAll(pa, FilterSeq(pa, d.skills));
      FilterMembers(pa, d.plugins);
      FilterKeepsAll(pa, FilterSeq(pa, d.plugins));
    }
  }

  function MoreExcludes(o: Option<Lists>, extra: seq<string>): Option<Lists> {
    Some(Lists(ListsOf(o).incl, ListsOf(o).excl + extra))
  }

  /** Adding exclusions (valid or not) is the same as filtering the already filtered registry again. */
  lemma ExcludesOnlyShrink(m: Matcher, f: Filter, names: seq<string>, tags: seq<string>, d: Data)
    ensures var g := Filter(MoreExcludes(f.names, names), MoreExcludes(f.tags, tags));
            FilteredData(m, Some(g), d) == FilteredData(m, Some(g), FilteredData(m, Some(f), d))
  {
    var g := Filter(MoreExcludes(f.names, names), MoreExcludes(f.tags, tags));
    forall name | NameIncluded(m, name, ListsOf(g.names)) ensures NameIncluded(m, name, ListsOf(f.names)) {
      NameRule(m, name, ListsOf(f.names));
      NameRule(m, name, ListsOf(g.names));
    }
    FilterThrough(KeepsServer(m, f), KeepsServer(m, g), d.servers);
    FilterThrough(KeepsArtifact(m, f), KeepsArtifact(m, g), d.skills);
    FilterThrough(KeepsArtifact(m, f), KeepsArtifact(m, g), d.plugins);
  }

  /** The decision of an optional filter; no filter keeps everything. */
  ghost function DecidesServer(m: Matcher, f: Option<Filter>): Server -> bool {
    (s: Server) => f.None? || KeepsServer(m, f.value)(s)
  }

  ghost function DecidesArtifact(m: Matcher, f: Option<Filter>): Artifact -> bool {
    (a: Artifact) => f.None? || KeepsArtifact(m, f.value)(a)
  }

  lemma FilteredByDecisions(m: Matcher, f: Option<Filter>, d: Data)
    ensures FilteredData(m, f, d) == Data(FilterSeq(DecidesServer(m, f), d.servers),
                                          FilterSeq(DecidesArtifact(m, f), d.skills),
                                          FilterSeq(DecidesArtifact(m, f), d.plugins))
  {
    if f.None? {
      FilterKeepsAll(DecidesServer(m, f), d.servers);
      FilterKeepsAll(DecidesArtifact(m, f), d.skills);
      FilterKeepsAll(DecidesArtifact(m, f), d.plugins);
    } else {
      FilterAgree(DecidesServer(m, f), KeepsServer(m, f.value), d.servers);
      FilterAgree(DecidesArtifact(m, f), KeepsArtifact(m, f.value), d.skills);
      FilterAgree(DecidesArtifact(m, f), KeepsArtifact(m, f.value), d.plugins);
    }
  }

  /** Both filters make the same decision on every entry of d. */
  ghost predicate SameDecisions(m: Matcher, f: Option<Filter>, g: Option<Filter>, d: Data) {
    && (forall s :: s in d.servers ==> DecidesServer(m, f)(s) == DecidesServer(m, g)(s))
    && (forall a :: a in d.skills ==> DecidesArtifact(m, f)(a) == DecidesArtifact(m, g)(a))
    && (forall a :: a in d.plugins ==> DecidesArtifact(m, f)(a) == DecidesArtifact(m, g)(a))
  }

  /** Two filter configurations publish the same data exactly when no fetched entry is decided differently. */
  lemma SameDataIffSameDecisions(m: Matcher, f: Option<Filter>, g: Option<Filter>, d: Data)
    ensures FilteredData(m, f, d) == FilteredData(m, g, d) <==> SameDecisions(m, f, g, d)
  {
    FilteredByDecisions(m, f, d);
    FilteredByDecisions(m, g, d);
    FilterEqualIffAgree(DecidesServer(m, f), DecidesServer(m, g), d.servers);
    FilterEqualIffAgree(DecidesArtifact(m, f), DecidesArtifact(m, g), d.skills);
    FilterEqualIffAgree(DecidesArtifact(m, f), DecidesArtifact(m, g), d.plugins);
  }
}
