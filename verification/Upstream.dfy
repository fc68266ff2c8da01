/** Fetching every page of an upstream registry (internal/sources/api_upstream.go). */
module Upstream {
  import opened Common

  const MAX_PAGES := 1000
  const MAX_SERVERS := 100_000

  datatype Reply = Page(servers: seq<string>, nextCursor: string) | Failed

  /** Any upstream: the reply may depend on how often it was asked and on the cursor. */
  type Server = (nat, string) -> Reply

  /** The cursor sent with request i (counting from 0) and the reply to it. */
  function CursorAt(up: Server, i: nat): string
    decreases i, 0
  {
    if i == 0 then "" else var r := ReplyAt(up, i - 1); if r.Page? then r.nextCursor else ""
  }

  function ReplyAt(up: Server, i: nat): Reply
    decreases i, 1
  {
    up(i, CursorAt(up, i))
  }

  /** The servers of the first n replies, in order. */
  function Servers(up: Server, n: nat): seq<string> {
    if n == 0 then []
    else Servers(up, n - 1) + var r := ReplyAt(up, n - 1); if r.Page? then r.servers else []
  }

  /** The first n replies are pages that each announce another. */
  ghost predicate KeepsGoing(up: Server, n: nat) {
    forall i :: 0 <= i < n ==> ReplyAt(up, i).Page? && ReplyAt(up, i).nextCursor != ""
  }

  /** The listing is complete after exactly n requests. */
  ghost predicate EndsAfter(up: Server, n: nat) {
    n >= 1 && KeepsGoing(up, n - 1) && ReplyAt(up, n - 1).Page? && ReplyAt(up, n - 1).nextCursor == ""
  }

  /** The first request goes without a cursor, every later one with the cursor of the reply before it. */
  lemma CursorFollows(up: Server, i: nat)
    requires ReplyAt(up, i).Page?
    ensures ReplyAt(up, 0) == up(0, "") && ReplyAt(up, i + 1) == up(i + 1, ReplyAt(up, i).nextCursor)
  {
  }

  /** Reply i contributes its servers right after those of the replies before it. */
  lemma ServersOfReply(up: Server, i: nat, n: nat)
    requires i < n && ReplyAt(up, i).Page?
    ensures Servers(up, 0) == []
    ensures var at := |Servers(up, i)|;
            && at + |ReplyAt(up, i).servers| <= |Servers(up, n)|
            && Servers(up, n)[at..at + |ReplyAt(up, i).servers|] == ReplyAt(up, i).servers
            && |Servers(up, i + 1)| == at + |ReplyAt(up, i).servers|
  {
    ServersGrow(up, i + 1, n);
    var at, more := |Servers(up, i)|, ReplyAt(up, i).servers;
    assert Servers(up, i + 1)[at..at + |more|] == more;
    assert Servers(up, n)[..at + |more|] == Servers(up, i + 1);
  }

  lemma {:induction false} ServersGrow(up: Server, m: nat, n: nat)
    requires m <= n
    ensures Servers(up, m) <= Servers(up, n)
    decreases n
  {
    if m < n {
      ServersGrow(up, m, n - 1);
    }
  }

  /**
   Succeeds exactly when the listing ends within the page bound and fits the server bound, and then returns all pages in
   order; otherwise returns nothing. In every case at most 1000 requests are made.
   */
  method FetchAllServers(up: Server) returns (result: Option<seq<string>>, requests: nat)
    ensures requests <= 1000
    ensures result.Some? ==> EndsAfter(up, requests) && result.value == Servers(up, requests)
                             && |result.value| <= 100_000
    ensures result.None? <==> forall n: nat :: EndsAfter(up, n) ==> n > 1000 || |Servers(up, n)| > 100_000
  {
    var all: seq<string> := [];
    var cursor := "";
    var pageCount := 0;
    requests := 0;
    while true
      invariant pageCount == requests <= MAX_PAGES
      invariant KeepsGoing(up, requests) && cursor == CursorAt(up, requests)
      invariant all == Servers(up, requests) && |all| <= MAX_SERVERS
      decreases MAX_PAGES - pageCount
    {
      pageCount := pageCount + 1;
      if pageCount > MAX_PAGES {
        NoEndWithin(up, requests);
        return None, requests;
      }
      var reply := up(requests, cursor);
      requests := requests + 1;
      if reply.Failed? {
        NoEndPast(up, requests);
        return None, requests;
      }
      if |all| + |reply.servers| > MAX_SERVERS {
        TooMany(up, requests);
        return None, requests;
      }
      all := all + reply.servers;
      if reply.nextCursor == "" {
        assert EndsAfter(up, requests);
        return Some(all), requests;
      }
      cursor := reply.nextCursor;
    }
  }

  lemma NoEndWithin(up: Server, n: nat)
    requires KeepsGoing(up, n)
    ensures forall k: nat :: EndsAfter(up, k) ==> k > n
  {
  }

  lemma NoEndPast(up: Server, n: nat)
    requires n >= 1 && KeepsGoing(up, n - 1) && ReplyAt(up, n - 1).Failed?
    ensures forall k: nat :: !EndsAfter(up, k)
  {
    NoEndWithin(up, n - 1);
  }

  lemma {:induction false} TooMany(up: Server, n: nat)
    requires n >= 1 && KeepsGoing(up, n - 1) && |Servers(up, n)| > MAX_SERVERS
    ensures forall k: nat :: EndsAfter(up, k) ==> |Servers(up, k)| > MAX_SERVERS
  {
    NoEndWithin(up, n - 1);
    forall k: nat | EndsAfter(up, k) ensures |Servers(up, k)| > MAX_SERVERS {
      ServersGrow(up, n, k);
    }
  }
}
