/** The in-flight request gauge (internal/telemetry/middleware.go). */
module Gauge {
  import opened Text

  datatype Method = CONNECT | DELETE | GET | HEAD | OPTIONS | PATCH | POST | PUT | TRACE | OTHER
  datatype Scheme = HTTP | HTTPS
  datatype Label = Label(verb: Method, scheme: Scheme)

  datatype Request = Request(verb: string, forwardedProto: string, tls: bool)

  /** Known methods by exact, case-sensitive name; anything else is OTHER. */
  function MethodAttr(m: string): Method {
    if m == "CONNECT" then CONNECT else if m == "DELETE" then DELETE else if m == "GET" then GET
    else if m == "HEAD" then HEAD else if m == "OPTIONS" then OPTIONS else if m == "PATCH" then PATCH
    else if m == "POST" then POST else if m == "PUT" then PUT else if m == "TRACE" then TRACE else OTHER
  }

  const KNOWN: set<string> := {"CONNECT", "DELETE", "GET", "HEAD", "OPTIONS", "PATCH", "POST", "PUT", "TRACE"}

  /** The text of a label; unknown methods are reported as one. */
  function MethodText(m: Method): string {
    match m
    case CONNECT => "CONNECT" case DELETE => "DELETE" case GET => "GET" case HEAD => "HEAD" case OPTIONS => "OPTIONS"
    case PATCH => "PATCH" case POST => "POST" case PUT => "PUT" case TRACE => "TRACE" case OTHER => "_OTHER"
  }

  /** Known methods keep their own labels, and only unknown ones share OTHER. */
  lemma MethodsKeptApart(a: string, b: string)
    ensures MethodText(MethodAttr(a)) == if a in KNOWN then a else "_OTHER"
    ensures MethodAttr(a) == OTHER <==> a !in KNOWN
    ensures MethodAttr(a) == MethodAttr(b) <==> a == b || (a !in KNOWN && b !in KNOWN)
  {
  }

  /** The first entry of X-Forwarded-Proto when it is http or https, else the connection's own scheme. */
  function RequestScheme(r: Request): Scheme {
    var first := Lower(TrimSpace(Cut(r.forwardedProto, ',').0));
    if first == "http" then HTTP else if first == "https" then HTTPS else if r.tls then HTTPS else HTTP
  }

  /** The scheme for a header whose first entry is s, with or without white space around it and entries behind it. */
  lemma SchemeRule(verb: string, pre: string, s: string, post: string, rest: string, tls: bool)
    requires AllIn(pre, IsSpace) && AllIn(post, IsSpace) && s != "" && !IsSpace(s[0]) && !IsSpace(s[|s| - 1])
    requires ',' !in s
    ensures var scheme := if Lower(s) == "https" then HTTPS else if Lower(s) == "http" then HTTP
                          else if tls then HTTPS else HTTP;
            && RequestScheme(Request(verb, pre + s + post, tls)) == scheme
            && RequestScheme(Request(verb, pre + s + post + "," + rest, tls)) == scheme
    ensures RequestScheme(Request(verb, "", tls)) == if tls then HTTPS else HTTP
  {
    var entry := pre + s + post;
    TrimSpaceOf(pre, s, post);
    assert ',' !in entry;
    CutAbsent(entry, ',');
    CutPresent(entry, ',', rest);
    assert entry + [','] + rest == entry + "," + rest;
    TrimSpaceOfBlank("");
  }

  function LabelOf(r: Request): Label { Label(MethodAttr(r.verb), RequestScheme(r)) }

  // ---------------------------------------------------------------- interleavings

  /** Requests start and end in any order; an aborted handler never reaches the decrement. */
  datatype Event = Start(id: nat, r: Request) | Return(id: nat) | Abort(id: nat)

  datatype Active = Active(id: nat, l: Label)

  datatype State = State(serving: seq<Active>, aborted: multiset<Label>, gauge: map<Label, int>)

  function Reading(st: State, l: Label): int { if l in st.gauge then st.gauge[l] else 0 }

  function Added(gauge: map<Label, int>, l: Label, n: int): map<Label, int> {
    gauge[l := (if l in gauge then gauge[l] else 0) + n]
  }

  /** Where a request stands among those being served; the length when it is not there. */
  function Find(serving: seq<Active>, id: nat): (i: nat)
    ensures i <= |serving|
    ensures i < |serving| ==> serving[i].id == id
    ensures forall j :: 0 <= j < i ==> serving[j].id != id
  {
    if serving == [] || serving[0].id == id then 0 else 1 + Find(serving[1..], id)
  }

  function Without(serving: seq<Active>, i: nat): seq<Active>
    requires i < |serving|
  {
    serving[..i] + serving[i + 1..]
  }

  function Started(st: State, id: nat, l: Label): State {
    State(st.serving + [Active(id, l)], st.aborted, Added(st.gauge, l, 1))
  }

  function Returned(st: State, i: nat): State
    requires i < |st.serving|
  {
    State(Without(st.serving, i), st.aborted, Added(st.gauge, st.serving[i].l, -1))
  }

  function Aborted(st: State, i: nat): State
    requires i < |st.serving|
  {
    st.(serving := Without(st.serving, i), aborted := st.aborted + multiset{st.serving[i].l})
  }

  function Next(st: State, e: Event): State {
    var i := Find(st.serving, e.id);
    match e
    case Start(id, r) => if i < |st.serving| then st else Started(st, id, LabelOf(r))
    case Return(_) => if i < |st.serving| then Returned(st, i) else st
    case Abort(_) => if i < |st.serving| then Aborted(st, i) else st
  }

  function Run(st: State, events: seq<Event>): State
    decreases |events|
  {
    if events == [] then st else Run(Next(st, events[0]), events[1..])
  }

  const IDLE := State([], multiset{}, map[])

  /** How many of the requests being served carry a label. */
  function InFlight(serving: seq<Active>, l: Label): nat {
    if serving == [] then 0 else (if serving[0].l == l then 1 else 0) + InFlight(serving[1..], l)
  }

  lemma {:induction false} InFlightAppend(a: seq<Active>, b: seq<Active>, l: Label)
    ensures InFlight(a + b, l) == InFlight(a, l) + InFlight(b, l)
  {
    if a == [] {
      assert a + b == b;
    } else {
      assert (a + b)[1..] == a[1..] + b;
      InFlightAppend(a[1..], b, l);
    }
  }

  lemma {:induction false} InFlightWithout(s: seq<Active>, i: nat, l: Label)
    requires i < |s|
    ensures InFlight(s, l) == InFlight(Without(s, i), l) + if s[i].l == l then 1 else 0
  {
    InFlightAppend(s[..i], s[i + 1..], l);
    InFlightAppend(s[..i], [s[i]] + s[i + 1..], l);
    InFlightAppend([s[i]], s[i + 1..], l);
    assert s == s[..i] + ([s[i]] + s[i + 1..]);
  }

  ghost predicate Accounted(st: State) {
    forall l :: Reading(st, l) == InFlight(st.serving, l) + st.aborted[l]
  }

  lemma AccountedStart(st: State, id: nat, k: Label)
    requires Accounted(st)
    ensures Accounted(Started(st, id, k))
  {
    forall l ensures Reading(Started(st, id, k), l) == InFlight(Started(st, id, k).serving, l) + st.aborted[l] {
      assert Reading(st, l) == InFlight(st.serving, l) + st.aborted[l];
      InFlightAppend(st.serving, [Active(id, k)], l);
    }
  }

  lemma AccountedReturn(st: State, i: nat)
    requires Accounted(st) && i < |st.serving|
    ensures Accounted(Returned(st, i))
  {
    forall l ensures Reading(Returned(st, i), l) == InFlight(Returned(st, i).serving, l) + st.aborted[l] {
      assert Reading(st, l) == InFlight(st.serving, l) + st.aborted[l];
      InFlightWithout(st.serving, i, l);
    }
  }

  lemma AccountedAbort(st: State, i: nat)
    requires Accounted(st) && i < |st.serving|
    ensures Accounted(Aborted(st, i))
  {
    forall l ensures Reading(st, l) == InFlight(Aborted(st, i).serving, l) + Aborted(st, i).aborted[l] {
      assert Reading(st, l) == InFlight(st.serving, l) + st.aborted[l];
      InFlightWithout(st.serving, i, l);
    }
  }

  lemma AccountedStep(st: State, e: Event)
    requires Accounted(st)
    ensures Accounted(Next(st, e))
  {
    var i := Find(st.serving, e.id);
    match e
    case Start(id, r) => AccountedStart(st, id, LabelOf(r));
    case Return(_) =>
      if i < |st.serving| {
        AccountedReturn(st, i);
      }
    case Abort(_) =>
      if i < |st.serving| {
        AccountedAbort(st, i);
      }
  }

  /**
   In every interleaving the gauge of each label reads the requests now being served under it plus those whose handler
   was aborted, so a label whose requests have all ended is back at zero exactly when none of them was aborted.
   */
  lemma {:induction false} GaugeReadsInFlight(st: State, events: seq<Event>)
    requires Accounted(st)
    ensures Accounted(Run(st, events))
    ensures var end := Run(st, events);
            forall l :: InFlight(end.serving, l) == 0 ==> (Reading(end, l) == 0 <==> end.aborted[l] == 0)
    decreases |events|
  {
    if events != [] {
      AccountedStep(st, events[0]);
      GaugeReadsInFlight(Next(st, events[0]), events[1..]);
    }
  }

  /** Handlers that all return leave nothing behind. */
  lemma {:induction false} NothingAborted(st: State, events: seq<Event>)
    requires forall e :: e in events ==> !e.Abort?
    ensures Run(st, events).aborted == st.aborted
    decreases |events|
  {
    if events != [] {
      assert events[0] in events;
      NothingAborted(Next(st, events[0]), events[1..]);
    }
  }

  /** Without aborts, in every interleaving from idle, each series reads exactly its requests in flight. */
  lemma {:induction false} GaugeExact(events: seq<Event>, l: Label)
    requires forall e :: e in events ==> !e.Abort?
    ensures Reading(Run(IDLE, events), l) == InFlight(Run(IDLE, events).serving, l)
  {
    GaugeReadsInFlight(IDLE, events);
    NothingAborted(IDLE, events);
  }

  // ---------------------------------------------------------------- cardinality

  function MethodIndex(m: Method): (i: nat)
    ensures i < 10
  {
    match m
    case CONNECT => 0 case DELETE => 1 case GET => 2 case HEAD => 3 case OPTIONS => 4
    case PATCH => 5 case POST => 6 case PUT => 7 case TRACE => 8 case OTHER => 9
  }

  function Index(l: Label): (i: nat)
    ensures i < 20
  {
    MethodIndex(l.verb) * 2 + if l.scheme == HTTP then 0 else 1
  }

  lemma IndexInjective(a: Label, b: Label)
    requires Index(a) == Index(b)
    ensures a == b
  {
    assert MethodIndex(a.verb) == MethodIndex(b.verb);
  }

  lemma {:induction false} AtMost(labels: set<Label>, n: nat)
    requires forall l :: l in labels ==> Index(l) < n
    ensures |labels| <= n
  {
    if n == 0 {
      assert labels == {};
    } else {
      var top := set l | l in labels && Index(l) == n - 1;
      var rest := labels - top;
      AtMost(rest, n - 1);
      if top != {} {
        var x :| x in top;
        forall y | y in top ensures y == x {
          IndexInjective(y, x);
        }
        assert top == {x};
      }
      assert labels == rest + top;
    }
  }

  /** Whatever methods and headers clients send, at most twenty series ever exist. */
  lemma {:induction false} AtMostTwentySeries(events: seq<Event>)
    ensures |Run(IDLE, events).gauge.Keys| <= 20
  {
    AtMost(Run(IDLE, events).gauge.Keys, 20);
  }
}
