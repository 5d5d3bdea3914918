/** The page-accumulation loop shared by the rule and hotspot collectors:
    request page 1, 2, ... of 500 items each and keep going while the page
    just received held exactly 500 items. The server is a finite sequence
    of pages; a page past its end comes back empty. */
module Pagination {

  const PageSize: nat := 500

  /** What one run of the loop produced: the items in arrival order and the
      page numbers requested, in order. */
  datatype Fetched<T> = Fetched(items: seq<T>, requests: seq<nat>)

  /** Page `p` (counted from 1) as the server answers it. */
  function PageAt<T>(pages: seq<seq<T>>, p: nat): seq<T> {
    if 1 <= p <= |pages| then pages[p - 1] else []
  }

  /** Page `p` holds exactly a page size of items, so the loop asks again. */
  predicate Full<T>(pages: seq<seq<T>>, p: nat) {
    |PageAt(pages, p)| == PageSize
  }

  /** The loop stops after request `n`: pages 1..n-1 were full and page n was not. */
  predicate StopsAt<T>(pages: seq<seq<T>>, n: nat) {
    && n >= 1
    && (forall p :: 1 <= p < n ==> Full(pages, p))
    && !Full(pages, n)
  }

  /** Pages 1..n concatenated in order. */
  function Concat<T>(pages: seq<seq<T>>, n: nat): seq<T>
    decreases n
  {
    if n == 0 then [] else Concat(pages, n - 1) + PageAt(pages, n)
  }

  /** The requests 1, 2, ..., n. */
  predicate CountsUp(requests: seq<nat>) {
    forall i :: 0 <= i < |requests| ==> requests[i] == i + 1
  }

  /** Only the first page that is not full can stop the loop, so the stopping
      point is unique. */
  lemma StopsAtUnique<T>(pages: seq<seq<T>>, n: nat, m: nat)
    requires StopsAt(pages, n) && StopsAt(pages, m)
    ensures n == m
  {
  }

  /** Two request logs that both count up from 1 and have the same length agree. */
  lemma CountsUpUnique(a: seq<nat>, b: seq<nat>)
    requires CountsUp(a) && CountsUp(b) && |a| == |b|
    ensures a == b
  {
  }

  /** A full page lies inside the server's sequence. */
  lemma FullIsServed<T>(pages: seq<seq<T>>, p: nat)
    requires Full(pages, p)
    ensures 1 <= p <= |pages|
  {
  }

  /** The do-while loop from page `page` on, with `acc` accumulated so far. */
  function FetchFrom<T>(pages: seq<seq<T>>, page: nat, acc: seq<T>, requests: seq<nat>): (r: Fetched<T>)
    requires 1 <= page <= |pages| + 1
    requires |requests| == page - 1 && CountsUp(requests)
    requires acc == Concat(pages, page - 1)
    requires forall p :: 1 <= p < page ==> Full(pages, p)
    ensures CountsUp(r.requests) && StopsAt(pages, |r.requests|)
    ensures |r.requests| <= |pages| + 1
    ensures r.items == Concat(pages, |r.requests|)
    decreases |pages| + 1 - page
  {
    var items := PageAt(pages, page);
    var acc' := acc + items;
    var requests' := requests + [page];
    if |items| == PageSize then
      FullIsServed(pages, page);
      FetchFrom(pages, page + 1, acc', requests')
    else
      Fetched(acc', requests')
  }

  /** The whole loop, started at page 1 with nothing accumulated. */
  function Paginate<T>(pages: seq<seq<T>>): (r: Fetched<T>)
    ensures |r.requests| >= 1 && CountsUp(r.requests)
    ensures StopsAt(pages, |r.requests|)
    ensures |r.requests| <= |pages| + 1
    ensures r.items == Concat(pages, |r.requests|)
  {
    FetchFrom(pages, 1, [], [])
  }

  /** The item count: a page size per full page plus the last page's items. */
  lemma {:induction false} ConcatLength<T>(pages: seq<seq<T>>, n: nat)
    requires n >= 1
    requires forall p :: 1 <= p < n ==> Full(pages, p)
    ensures |Concat(pages, n)| == PageSize * (n - 1) + |PageAt(pages, n)|
    decreases n
  {
    if n > 1 {
      ConcatLength(pages, n - 1);
      assert Full(pages, n - 1);
    }
  }

  /** All items of the server's pages, in order. */
  function Flatten<T>(pages: seq<seq<T>>): seq<T>
    decreases |pages|
  {
    if |pages| == 0 then [] else Flatten(pages[..|pages| - 1]) + pages[|pages| - 1]
  }

  /** The first n pages are a prefix of everything the server holds. */
  lemma {:induction false} ConcatIsPrefix<T>(pages: seq<seq<T>>, n: nat)
    ensures |Concat(pages, n)| <= |Flatten(pages)|
    ensures Concat(pages, n) == Flatten(pages)[..|Concat(pages, n)|]
    decreases n
  {
    if n == 0 {
    } else if n > |pages| {
      ConcatIsPrefix(pages, n - 1);
      if n - 1 > |pages| {
      } else {
        ConcatAll(pages);
      }
      assert PageAt(pages, n) == [];
      assert Concat(pages, n) == Concat(pages, n - 1);
    } else {
      ConcatPrefix(pages, n);
      FlattenAppend(pages[..n], pages[n..]);
      assert pages[..n] + pages[n..] == pages;
    }
  }

  /** Requesting pages 1..n of a server with at least n pages yields
      exactly those pages. */
  lemma {:induction false} ConcatPrefix<T>(pages: seq<seq<T>>, n: nat)
    requires n <= |pages|
    ensures Concat(pages, n) == Flatten(pages[..n])
    decreases n
  {
    if n > 0 {
      ConcatPrefix(pages, n - 1);
      assert pages[..n][..n - 1] == pages[..n - 1];
    }
  }

  /** Requesting one page past the end yields everything. */
  lemma ConcatAll<T>(pages: seq<seq<T>>)
    ensures Concat(pages, |pages|) == Flatten(pages)
  {
    ConcatPrefix(pages, |pages|);
    assert pages[..|pages|] == pages;
  }

  lemma {:induction false} FlattenAppend<T>(a: seq<seq<T>>, b: seq<seq<T>>)
    ensures Flatten(a + b) == Flatten(a) + Flatten(b)
    decreases |b|
  {
    if |b| == 0 {
      assert a + b == a;
    } else {
      var b', last := b[..|b| - 1], b[|b| - 1];
      assert Flatten(a + b) == Flatten(a + b') + last by {
        assert (a + b)[..|a + b| - 1] == a + b';
        assert (a + b)[|a + b| - 1] == last;
      }
      FlattenAppend(a, b');
      assert Flatten(b) == Flatten(b') + last;
      assert (Flatten(a) + Flatten(b')) + last == Flatten(a) + (Flatten(b') + last);
    }
  }

  /** What the loop returns never exceeds, and always starts, what the
      server holds: the result is a prefix of all items in page order. */
  lemma PaginateIsPrefix<T>(pages: seq<seq<T>>)
    ensures var r := Paginate(pages);
            |r.items| <= |Flatten(pages)| && r.items == Flatten(pages)[..|r.items|]
  {
    ConcatIsPrefix(pages, |Paginate(pages).requests|);
  }

  /** Nothing is made up: every item collected is an item of some page the
      server holds. */
  lemma {:induction false} ConcatFromPages<T>(pages: seq<seq<T>>, n: nat, i: nat)
    requires i < |Concat(pages, n)|
    ensures exists k, j :: 0 <= k < |pages| && 0 <= j < |pages[k]| && Concat(pages, n)[i] == pages[k][j]
    decreases n
  {
    var prev := Concat(pages, n - 1);
    if i < |prev| {
      ConcatFromPages(pages, n - 1, i);
    } else {
      var k, j := n - 1, i - |prev|;
      assert Concat(pages, n)[i] == pages[k][j];
    }
  }

  /** The loop in the script's shape: a do-while that appends each page and
      stops on the first page whose length is not the page size. */
  method FetchAll<T>(pages: seq<seq<T>>) returns (items: seq<T>, requests: seq<nat>)
    ensures |requests| >= 1 && CountsUp(requests)
    ensures StopsAt(pages, |requests|)
    ensures items == Concat(pages, |requests|)
    ensures |items| == PageSize * (|requests| - 1) + |PageAt(pages, |requests|)|
    ensures items == Paginate(pages).items && requests == Paginate(pages).requests
  {
    var page: nat := 1;
    items := [];
    requests := [];
    var nbResults := PageSize;
    while nbResults == PageSize
      invariant 1 <= page <= |pages| + 2
      invariant |requests| == page - 1 && CountsUp(requests)
      invariant items == Concat(pages, page - 1)
      invariant forall p :: 1 <= p < page - 1 ==> Full(pages, p)
      invariant page > 1 ==> nbResults == |PageAt(pages, page - 1)|
      invariant page == 1 ==> nbResults == PageSize
      invariant nbResults == PageSize ==> page <= |pages| + 1
      decreases |pages| + 2 - page
    {
      var received := PageAt(pages, page);
      requests := requests + [page];
      page := page + 1;
      nbResults := |received|;
      items := items + received;
      if nbResults == PageSize {
        FullIsServed(pages, page - 1);
      }
    }
    assert StopsAt(pages, |requests|);
    ConcatLength(pages, |requests|);
    var r := Paginate(pages);
    assert |requests| == |r.requests| by { StopsAtUnique(pages, |requests|, |r.requests|); }
    CountsUpUnique(requests, r.requests);
  }

  /** `f` applied to every item, in order. */
  function MapItems<T, U>(f: T -> U, s: seq<T>): (r: seq<U>)
    ensures |r| == |s|
    ensures forall i :: 0 <= i < |s| ==> r[i] == f(s[i])
  {
    seq(|s|, i requires 0 <= i < |s| => f(s[i]))
  }

  /** `f` applied to every page. */
  function MapPages<T, U>(f: T -> U, pages: seq<seq<T>>): (r: seq<seq<U>>)
    ensures |r| == |pages|
    ensures forall i :: 0 <= i < |pages| ==> r[i] == MapItems(f, pages[i])
  {
    seq(|pages|, i requires 0 <= i < |pages| => MapItems(f, pages[i]))
  }

  lemma MapItemsAppend<T, U>(f: T -> U, a: seq<T>, b: seq<T>)
    ensures MapItems(f, a + b) == MapItems(f, a) + MapItems(f, b)
  {
  }

  lemma {:induction false} ConcatMap<T, U>(f: T -> U, pages: seq<seq<T>>, n: nat)
    ensures Concat(MapPages(f, pages), n) == MapItems(f, Concat(pages, n))
    decreases n
  {
    if n > 0 {
      ConcatMap(f, pages, n - 1);
      MapItemsAppend(f, Concat(pages, n - 1), PageAt(pages, n));
      assert PageAt(MapPages(f, pages), n) == MapItems(f, PageAt(pages, n));
    }
  }

  /** Mapping each page as it arrives (as both collectors do) requests the
      same pages as the raw loop and yields the mapped concatenation: the
      stopping test sees the same page lengths either way. */
  lemma PaginateMap<T, U>(f: T -> U, pages: seq<seq<T>>)
    ensures Paginate(MapPages(f, pages)).requests == Paginate(pages).requests
    ensures Paginate(MapPages(f, pages)).items == MapItems(f, Paginate(pages).items)
  {
    var mapped := MapPages(f, pages);
    var n := |Paginate(pages).requests|;
    forall p: nat
      ensures Full(mapped, p) <==> Full(pages, p)
    {
      assert |PageAt(mapped, p)| == |PageAt(pages, p)|;
    }
    assert StopsAt(mapped, n);
    StopsAtUnique(mapped, n, |Paginate(mapped).requests|);
    CountsUpUnique(Paginate(mapped).requests, Paginate(pages).requests);
    ConcatMap(f, pages, n);
  }

  /** Pages of 500, 500 and 137 items: three requests, 1137 items. */
  lemma ThreePagesExample(a: seq<int>, b: seq<int>, c: seq<int>)
    requires |a| == 500 && |b| == 500 && |c| == 137
    ensures |Paginate([a, b, c]).requests| == 3
    ensures |Paginate([a, b, c]).items| == 1137
    ensures Paginate([a, b, c]).items == a + b + c
  {
    var pages := [a, b, c];
    assert PageAt(pages, 1) == a && PageAt(pages, 2) == b && PageAt(pages, 3) == c;
    assert StopsAt(pages, 3);
    var r := Paginate(pages);
    assert |r.requests| == 3 by { StopsAtUnique(pages, |r.requests|, 3); }
    assert Concat(pages, 3) == a + b + c by {
      assert Concat(pages, 1) == a;
      assert Concat(pages, 2) == a + b;
    }
  }

  /** An empty first page: one request and nothing returned. */
  lemma EmptyFirstPageExample<T>(rest: seq<seq<T>>)
    ensures Paginate([[]] + rest).requests == [1]
    ensures Paginate([[]] + rest).items == []
  {
    var pages := [[]] + rest;
    assert StopsAt(pages, 1);
    StopsAtUnique(pages, |Paginate(pages).requests|, 1);
  }

  /** A first page longer than the page size also stops the loop. */
  lemma OversizedPageExample(a: seq<int>, b: seq<int>)
    requires |a| == 501
    ensures Paginate([a, b]).requests == [1]
    ensures Paginate([a, b]).items == a
  {
    var pages := [a, b];
    assert StopsAt(pages, 1) by { assert PageAt(pages, 1) == a; }
    StopsAtUnique(pages, |Paginate(pages).requests|, 1);
  }
}
