/** Listing a bucket page by page, against a server that may answer anything. */
module Listing {
  import opened Text

  // One entry of a page, and a page: None stands for a missing field of the answer.
  datatype Entry = Entry(key: Option<text>, modified: Option<int>)
  datatype Page = Page(contents: seq<Entry>, truncated: bool, next: text)
  datatype Item = Item(key: text, modified: int)

  // The answer to the n-th request, which carries this continuation token; None is an error.
  type Server = (nat, text) -> Option<Page>

  function TokenAt(server: Server, n: nat): text
    decreases n, 0
  {
    if n == 0 then []
    else
      var page := PageAt(server, n - 1);
      if page.Some? then page.value.next else []
  }

  function PageAt(server: Server, n: nat): Option<Page>
    decreases n, 1
  {
    server(n, TokenAt(server, n))
  }

  predicate Whole(e: Entry) { e.key.Some? && e.modified.Some? }
  predicate AllWhole(contents: seq<Entry>) { forall i :: 0 <= i < |contents| ==> Whole(contents[i]) }

  function Items(contents: seq<Entry>): seq<Item>
    requires AllWhole(contents)
  {
    seq(|contents|, i requires 0 <= i < |contents| => Item(contents[i].key.value, contents[i].modified.value))
  }

  // The first n pages arrived, say there is more, and each leads on by a token of its own.
  ghost predicate LeadsOn(server: Server, n: nat) {
    && (forall i: nat :: i < n ==>
          && PageAt(server, i).Some? && AllWhole(PageAt(server, i).value.contents)
          && PageAt(server, i).value.truncated && PageAt(server, i).value.next != [])
    && (forall i: nat, j: nat :: i < j < n ==> PageAt(server, i).value.next != PageAt(server, j).value.next)
  }

  // Page n is the last one.
  ghost predicate EndsAt(server: Server, n: nat) {
    && LeadsOn(server, n)
    && PageAt(server, n).Some? && AllWhole(PageAt(server, n).value.contents) && !PageAt(server, n).value.truncated
  }

  // The contents of the first n pages, in order.
  function Gathered(server: Server, n: nat): seq<Item> {
    if n == 0 then []
    else
      var page := PageAt(server, n - 1);
      Gathered(server, n - 1) + if page.Some? && AllWhole(page.value.contents) then Items(page.value.contents) else []
  }

  // Where the items of the n-th page begin.
  function Offset(server: Server, n: nat): nat {
    if n == 0 then 0
    else Offset(server, n - 1) + if PageAt(server, n - 1).Some? then |PageAt(server, n - 1).value.contents| else 0
  }

  // The j-th entry of the i-th page, in its place.
  ghost predicate EntryIn(server: Server, items: seq<Item>, i: nat, j: nat)
    requires PageAt(server, i).Some? && j < |PageAt(server, i).value.contents|
  {
    var e := PageAt(server, i).value.contents[j];
    && Offset(server, i) + j < |items| && e.key.Some? && e.modified.Some?
    && items[Offset(server, i) + j] == Item(e.key.value, e.modified.value)
  }

  // Every entry of every page is there, in order, and nothing else.
  ghost predicate HasAll(server: Server, n: nat, items: seq<Item>) {
    && |items| == Offset(server, n)
    && forall i: nat, j: nat :: i < n ==>
         PageAt(server, i).Some? && (j < |PageAt(server, i).value.contents| ==> EntryIn(server, items, i, j))
  }

  lemma {:induction false} GatheredHasAll(server: Server, n: nat)
    requires forall i: nat :: i < n ==> PageAt(server, i).Some? && AllWhole(PageAt(server, i).value.contents)
    ensures HasAll(server, n, Gathered(server, n))
  {
    hide PageAt;
    if n > 0 {
      GatheredHasAll(server, n - 1);
      forall i: nat, j: nat | i < n && j < |PageAt(server, i).value.contents|
        ensures EntryIn(server, Gathered(server, n), i, j)
      {
        if i < n - 1 { assert EntryIn(server, Gathered(server, n - 1), i, j); }
      }
    }
  }

  method AddAll(objects: seq<Item>, contents: seq<Entry>) returns (all: seq<Item>, ok: bool)
    ensures ok <==> AllWhole(contents)
    ensures ok ==> all == objects + Items(contents)
  {
    all := objects;
    for i := 0 to |contents|
      invariant forall j :: 0 <= j < i ==> Whole(contents[j])
      invariant all == objects + Items(contents[..i])
    {
      if !Whole(contents[i]) { return all, false; }
      all := all + [Item(contents[i].key.value, contents[i].modified.value)];
    }
    return all, true;
  }

  // The tokens seen on the first n pages.
  function Tokens(server: Server, n: nat): set<text> {
    if n == 0 then {} else Tokens(server, n - 1) + {TokenAt(server, n)}
  }

  lemma {:induction false} TokenSeen(server: Server, n: nat, i: nat)
    requires 1 <= i <= n
    ensures TokenAt(server, i) in Tokens(server, n)
  {
    if i < n { TokenSeen(server, n - 1, i); }
  }

  lemma {:induction false} SeenToken(server: Server, n: nat, token: text) returns (i: nat)
    requires token in Tokens(server, n)
    ensures 1 <= i <= n && TokenAt(server, i) == token
  {
    if token == TokenAt(server, n) { i := n; } else { i := SeenToken(server, n - 1, token); }
  }

  lemma NextToken(server: Server, n: nat)
    ensures PageAt(server, n) == server(n, TokenAt(server, n))
    ensures PageAt(server, n).Some? ==> TokenAt(server, n + 1) == PageAt(server, n).value.next
  {
  }

  lemma OneMore(server: Server, n: nat)
    requires LeadsOn(server, n) && PageAt(server, n).Some?
    ensures var page := PageAt(server, n).value;
            LeadsOn(server, n + 1) <==>
              AllWhole(page.contents) && page.truncated && page.next != [] && page.next !in Tokens(server, n)
  {
    hide PageAt, AllWhole;
    var page := PageAt(server, n).value;
    forall i: nat | i < n ensures PageAt(server, i).value.next in Tokens(server, n) {
      NextToken(server, i);
      TokenSeen(server, n, i + 1);
    }
    if page.next in Tokens(server, n) {
      var j := SeenToken(server, n, page.next);
      NextToken(server, j - 1);
      assert PageAt(server, j - 1).value.next == page.next;
    }
  }

  lemma Shorter(server: Server, n: nat, m: nat)
    requires n <= m
    ensures LeadsOn(server, m) ==> LeadsOn(server, n)
  {
    hide PageAt, AllWhole;
  }

  // A chain of pages that breaks at page n ends nowhere.
  lemma NoEnd(server: Server, n: nat)
    requires LeadsOn(server, n) && !LeadsOn(server, n + 1) && !EndsAt(server, n)
    ensures forall m: nat :: !EndsAt(server, m)
  {
    hide PageAt, AllWhole;
    forall m: nat ensures !EndsAt(server, m) {
      if m > n { Shorter(server, n + 1, m); }
    }
  }

  // Whatever the server answers, as long as its continuation tokens come from some finite
  // set, listing ends, after at most one request more than there are tokens. It succeeds
  // exactly when the chain of pages does end, and then has everything in order, dated.
  method List(server: Server, ghost universe: set<text>) returns (r: Option<seq<Item>>, ghost requests: nat)
    requires forall n: nat, t: text :: server(n, t).Some? && server(n, t).value.truncated ==>
      server(n, t).value.next in universe
    ensures r.Some? <==> exists n: nat :: EndsAt(server, n)
    ensures r.Some? ==> requests > 0 && EndsAt(server, requests - 1) && r.value == Gathered(server, requests)
    ensures r.Some? ==> HasAll(server, requests, r.value)
    ensures requests <= |universe| + 1
  {
    hide PageAt, TokenAt, LeadsOn, EndsAt, AllWhole, Items, HasAll;
    var objects: seq<Item> := [];
    var tokens: set<text> := {};
    var more, n, token: text := true, 0, [];
    requests := 0;
    Start(server);
    while more
      invariant requests == n <= |universe| + 1 && tokens <= universe && LeadsOnOrEnds(server, n, more)
      invariant objects == Gathered(server, n)
      invariant more ==> token == TokenAt(server, n) && tokens == Tokens(server, n) && |tokens| == n
      decreases |universe| + 1 - n
    {
      Bounded(tokens, universe);
      requests := requests + 1;
      NextToken(server, n);
      var page := server(n, token);
      if page.None? { Broken(server, n); NoEnd(server, n); return None, requests; }
      OneMore(server, n);
      EndsHere(server, n);
      var all, ok := AddAll(objects, page.value.contents);
      if !ok { NoEnd(server, n); return None, requests; }
      objects := all;
      more := page.value.truncated;
      if more {
        token := page.value.next;
        if token == [] || token in tokens { NoEnd(server, n); return None, requests; }
        tokens := tokens + {token};
      }
      n := n + 1;
    }
    AllArrived(server, n);
    GatheredHasAll(server, n);
    return Some(objects), requests;
  }

  lemma AllArrived(server: Server, n: nat)
    requires n > 0 && EndsAt(server, n - 1)
    ensures forall i: nat :: i < n ==> PageAt(server, i).Some? && AllWhole(PageAt(server, i).value.contents)
  {
    hide PageAt, AllWhole;
  }

  ghost predicate LeadsOnOrEnds(server: Server, n: nat, more: bool) {
    if more then LeadsOn(server, n) else n > 0 && EndsAt(server, n - 1)
  }

  lemma Start(server: Server)
    ensures LeadsOn(server, 0) && TokenAt(server, 0) == []
  {
  }

  lemma Bounded(tokens: set<text>, universe: set<text>)
    requires tokens <= universe
    ensures |tokens| <= |universe|
  {
    assert universe == tokens + (universe - tokens);
  }

  lemma Broken(server: Server, n: nat)
    requires PageAt(server, n).None?
    ensures !LeadsOn(server, n + 1) && !EndsAt(server, n)
  {
    hide PageAt;
  }

  lemma EndsHere(server: Server, n: nat)
    requires LeadsOn(server, n) && PageAt(server, n).Some?
    ensures EndsAt(server, n) <==> AllWhole(PageAt(server, n).value.contents) && !PageAt(server, n).value.truncated
  {
    hide PageAt, AllWhole, LeadsOn;
  }
}
