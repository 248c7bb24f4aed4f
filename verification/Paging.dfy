/** Folding the service's pages back into one library, and paging the result of a
  * query over it. `library` is what the database holds, newest first. */
module Paging {
  import opened Strings
  import opened Wrappers

  /** A document as a query sees it. Strings are in lower case, `rank` orders
    * documents by the value of the sort key, and `at` is `uploaded_at`. */
  datatype Doc = Doc(id: string, name: string, counterparty: string, kind: string, status: string, rank: int, at: int)

  const UPSTREAM_PAGE_SIZE := 100

  const MAX_PAGES := 20

  function Min(a: nat, b: nat): nat {
    if a < b then a else b
  }

  /** `max(1, ceil(total / size))`. */
  function PageCount(total: nat, size: nat): (r: nat)
    requires size > 0
    ensures r >= 1
  {
    var q := (total + size - 1) / size;
    if q < 1 then 1 else q
  }

  /** `offset((page - 1) * size).limit(size)`, and `slice` of an array. */
  function Page<T>(all: seq<T>, page: nat, size: nat): (r: seq<T>)
    requires page > 0
    ensures |r| <= size
  {
    var from := Min((page - 1) * size, |all|);
    all[from..Min(from + size, |all|)]
  }

  /** Pages `first`, `first + 1`, ... up to `last`, one behind the other. */
  function Fold<T>(all: seq<T>, size: nat, first: nat, last: nat): seq<T>
    requires 0 < first
    decreases last - first
  {
    if first > last then [] else Page(all, first, size) + Fold(all, size, first + 1, last)
  }

  datatype FetchError = LibraryTooLarge(total: nat)

  function FetchAll<T>(library: seq<T>): Result<seq<T>, FetchError> {
    var first := Page(library, 1, UPSTREAM_PAGE_SIZE);
    var pageCount := PageCount(|library|, UPSTREAM_PAGE_SIZE);
    if pageCount > MAX_PAGES then Failure(LibraryTooLarge(|library|))
    else if pageCount == 1 then Success(first)
    else Success(first + Fold(library, UPSTREAM_PAGE_SIZE, 2, pageCount))
  }

  // ---- Queries ----

  datatype Query = Query(search: string, kind: string, status: string, descending: bool, size: nat)

  predicate Selected(d: Doc, q: Query) {
    && (q.kind == "All" || d.kind == q.kind)
    && (q.status == "All" || d.status == q.status)
    && (q.search == "" || IndexOf(d.name, q.search, 0) != -1 || IndexOf(d.id, q.search, 0) != -1
        || IndexOf(d.counterparty, q.search, 0) != -1)
  }

  function Filtered(all: seq<Doc>, q: Query): seq<Doc> {
    if all == [] then []
    else
      var n := |all| - 1;
      Filtered(all[..n], q) + if Selected(all[n], q) then [all[n]] else []
  }

  predicate NotAfter(a: Doc, b: Doc, descending: bool) {
    if descending then a.rank >= b.rank else a.rank <= b.rank
  }

  function Insert(ds: seq<Doc>, d: Doc, descending: bool): seq<Doc> {
    if ds == [] || NotAfter(ds[|ds| - 1], d, descending) then ds + [d]
    else Insert(ds[..|ds| - 1], d, descending) + [ds[|ds| - 1]]
  }

  /** A stable sort. */
  function Sorted(ds: seq<Doc>, descending: bool): seq<Doc> {
    if ds == [] then [] else Insert(Sorted(ds[..|ds| - 1], descending), ds[|ds| - 1], descending)
  }

  datatype ResultPage = ResultPage(rows: seq<Doc>, total: nat, page: nat, pageCount: nat)

  function ApplyQuery(all: seq<Doc>, q: Query, page: nat): ResultPage
    requires page > 0 && q.size > 0
  {
    var sorted := Sorted(Filtered(all, q), q.descending);
    var pageCount := PageCount(|sorted|, q.size);
    var shown := Min(page, pageCount);
    ResultPage(Page(sorted, shown, q.size), |sorted|, shown, pageCount)
  }

  // ---- Pages put together ----

  lemma PageCountCovers(total: nat, size: nat)
    requires size > 0
    ensures PageCount(total, size) * size >= total
    ensures if total > 0 then (PageCount(total, size) - 1) * size < total else PageCount(total, size) == 1
  {
    var n := total + size - 1;
    var q := n / size;
    assert n == q * size + n % size;
    assert (q - 1) * size == q * size - size;
    if q < 1 {
      assert q == 0 && q * size == 0;
    }
  }

  lemma {:induction false} OffsetsGrow(first: nat, last: nat, size: nat)
    requires first <= last
    ensures first * size <= last * size
  {
    if first < last {
      OffsetsGrow(first, last - 1, size);
      assert last * size == (last - 1) * size + size;
    }
  }

  /** The list between two offsets. */
  function Between<T>(all: seq<T>, from: nat, to: nat): seq<T>
    requires from <= to
  {
    all[Min(from, |all|)..Min(to, |all|)]
  }

  lemma BetweenJoins<T>(all: seq<T>, a: nat, b: nat, c: nat)
    requires a <= b <= c
    ensures Between(all, a, b) + Between(all, b, c) == Between(all, a, c)
  {
  }

  lemma PageIsBetween<T>(all: seq<T>, page: nat, size: nat)
    requires page > 0
    ensures (page - 1) * size + size == page * size
    ensures Page(all, page, size) == Between(all, (page - 1) * size, page * size)
  {
    assert page * size == (page - 1) * size + size;
    var offset := (page - 1) * size;
    assert Min(offset + size, |all|) >= Min(offset, |all|);
  }

  /** From page `first` on, pages continue where the page before ends. */
  lemma {:induction false} FoldIsBetween<T>(all: seq<T>, size: nat, first: nat, last: nat)
    requires 0 < first <= last + 1
    ensures (first - 1) * size <= last * size
    ensures Fold(all, size, first, last) == Between(all, (first - 1) * size, last * size)
    decreases last + 1 - first
  {
    OffsetsGrow(first - 1, last, size);
    if first > last {
      assert first - 1 == last;
    } else {
      FoldIsBetween(all, size, first + 1, last);
      PageIsBetween(all, first, size);
      assert Fold(all, size, first, last) == Page(all, first, size) + Fold(all, size, first + 1, last);
      assert first + 1 - 1 == first;
      hide *;
      BetweenJoins(all, (first - 1) * size, first * size, last * size);
    }
  }

  /** All pages in order are the whole list. */
  lemma PagesRebuild<T>(all: seq<T>, size: nat)
    requires size > 0
    ensures Fold(all, size, 1, PageCount(|all|, size)) == all
  {
    hide *;
    var last := PageCount(|all|, size);
    PageCountCovers(|all|, size);
    FoldIsBetween(all, size, 1, last);
    BetweenAll(all, last * size);
    assert (1 - 1) * size == 0;
  }

  lemma BetweenAll<T>(all: seq<T>, end: nat)
    requires end >= |all|
    ensures Between(all, 0, end) == all
  {
  }

  /** The fold returns the library, complete and in order, iff it holds at most
    * 2000 documents; past that it refuses and returns nothing. */
  lemma FetchAllExactly<T>(library: seq<T>)
    ensures |library| <= 2000 <==> FetchAll(library) == Success(library)
    ensures |library| > 2000 <==> FetchAll(library) == Failure(LibraryTooLarge(|library|))
  {
    var size := UPSTREAM_PAGE_SIZE;
    PagesRebuild(library, size);
    var pages := PageCount(|library|, size);
    assert pages > MAX_PAGES <==> |library| > MAX_PAGES * UPSTREAM_PAGE_SIZE;
    assert Fold(library, size, 1, pages) == Page(library, 1, size) + Fold(library, size, 2, pages);
    assert Fold(library, size, 2, 1) == [];
    var first := Page(library, 1, size);
    assert first + [] == first;
    hide Page, Fold, PageCount;
  }

  // ---- Ties in the upstream order ----

  ghost predicate NewestFirst(ds: seq<Doc>) {
    forall i, j :: 0 <= i < j < |ds| ==> ds[i].at >= ds[j].at
  }

  /** What `ORDER BY uploaded_at DESC` may answer: equal times come in any order. */
  ghost predicate Answers(library: seq<Doc>, order: seq<Doc>) {
    NewestFirst(order) && multiset(order) == multiset(library)
  }

  /** The fold when each request sees its own order. */
  function FoldAcross(orders: seq<seq<Doc>>, size: nat, k: nat): seq<Doc>
    requires k <= |orders|
  {
    if k == 0 then [] else FoldAcross(orders, size, k - 1) + Page(orders[k - 1], k, size)
  }

  /** With one order for all requests this is the fold of one list. */
  lemma {:induction false} SameOrderIsOneFold(order: seq<Doc>, orders: seq<seq<Doc>>, size: nat, k: nat)
    requires k <= |orders| && forall i :: 0 <= i < k ==> orders[i] == order
    ensures FoldAcross(orders, size, k) == Fold(order, size, 1, k)
  {
    if k > 0 {
      SameOrderIsOneFold(order, orders, size, k - 1);
      FoldSnoc(order, size, 1, k);
    }
  }

  lemma {:induction false} FoldSnoc<T>(all: seq<T>, size: nat, first: nat, last: nat)
    requires 0 < first <= last
    ensures Fold(all, size, first, last) == Fold(all, size, first, last - 1) + Page(all, last, size)
    decreases last - first
  {
    if first < last {
      FoldSnoc(all, size, first + 1, last);
    } else {
      assert Fold(all, size, first, last) == Page(all, first, size) + [];
    }
  }

  /** Documents uploaded at one time stand on both sides of a page's end. */
  predicate Straddled(library: seq<Doc>, k: nat)
    requires 0 < k * 100 < |library|
  {
    library[k * 100 - 1].at == library[k * 100].at
  }

  /** Where the documents of time `t` and later end. */
  lemma {:induction false} LateOnes(ds: seq<Doc>, t: int) returns (j: nat)
    requires NewestFirst(ds)
    ensures j <= |ds| && forall i :: 0 <= i < |ds| ==> (i < j <==> ds[i].at >= t)
  {
    j := |ds|;
    if ds != [] && ds[|ds| - 1].at < t {
      var before := ds[..|ds| - 1];
      j := LateOnes(before, t);
      assert forall i :: 0 <= i < |before| ==> before[i] == ds[i];
    }
  }

  /** A part that holds exactly the documents of time `t` and later counts each of them in full. */
  lemma LatePart(ds: seq<Doc>, t: int, j: nat, d: Doc)
    requires j <= |ds| && forall i :: 0 <= i < |ds| ==> (i < j <==> ds[i].at >= t)
    ensures multiset(ds[..j])[d] == if d.at >= t then multiset(ds)[d] else 0
  {
    assert ds == ds[..j] + ds[j..];
    assert multiset(ds)[d] == multiset(ds[..j])[d] + multiset(ds[j..])[d];
    if d.at >= t {
      assert d !in ds[j..];
    } else {
      assert d !in ds[..j];
    }
  }

  /** Orders of one library agree, as sets of documents, up to every place without a tie. */
  lemma OrdersAgreeBetweenTies(library: seq<Doc>, order: seq<Doc>, j: nat)
    requires NewestFirst(library) && Answers(library, order)
    requires 0 < j < |library| && library[j - 1].at != library[j].at
    ensures |order| == |library| && multiset(order[..j]) == multiset(library[..j])
  {
    var t := library[j - 1].at;
    assert forall i :: 0 <= i < |library| ==> (i < j <==> library[i].at >= t);
    assert multiset(order) == multiset(library) && |multiset(order)| == |multiset(library)|;
    var b := LateOnes(order, t);
    hide *;
    forall d
      ensures multiset(order[..b])[d] == multiset(library[..j])[d]
    {
      LatePart(library, t, j, d);
      LatePart(order, t, b, d);
    }
    assert multiset(order[..b]) == multiset(library[..j]);
    assert |multiset(order[..b])| == b && |multiset(library[..j])| == j;
  }

  /** Where the pages up to `k` end. */
  function PageEnd(n: nat, k: nat): (e: nat)
    ensures e <= n
  {
    Min(k * UPSTREAM_PAGE_SIZE, n)
  }

  lemma PageIsSlice<T>(all: seq<T>, k: nat)
    requires k > 0
    ensures PageEnd(|all|, k - 1) <= PageEnd(|all|, k)
    ensures Page(all, k, UPSTREAM_PAGE_SIZE) == all[PageEnd(|all|, k - 1)..PageEnd(|all|, k)]
  {
  }

  lemma SlicesAgree(s: seq<Doc>, t: seq<Doc>, a: nat, b: nat)
    requires a <= b <= |s| == |t| && multiset(s[..a]) == multiset(t[..a]) && multiset(s[..b]) == multiset(t[..b])
    ensures multiset(s[a..b]) == multiset(t[a..b])
  {
    assert s[..b] == s[..a] + s[a..b] && t[..b] == t[..a] + t[a..b];
    assert multiset(s[a..b]) == multiset(s[..b]) - multiset(s[..a]);
    assert multiset(t[a..b]) == multiset(t[..b]) - multiset(t[..a]);
  }

  /** The pages read so far, whatever order each request saw. */
  lemma FoldAcrossTurn(orders: seq<seq<Doc>>, k: nat, n: nat)
    requires k <= |orders|
    ensures k == 0 ==> FoldAcross(orders, UPSTREAM_PAGE_SIZE, k) == [] && PageEnd(n, k) == 0
    ensures k > 0 ==> FoldAcross(orders, UPSTREAM_PAGE_SIZE, k)
                      == FoldAcross(orders, UPSTREAM_PAGE_SIZE, k - 1) + Page(orders[k - 1], k, UPSTREAM_PAGE_SIZE)
  {
    hide Page;
  }

  lemma {:induction false} FoldAcrossKeeps(library: seq<Doc>, orders: seq<seq<Doc>>, k: nat)
    requires NewestFirst(library) && k <= |orders| && forall i :: 0 <= i < k ==> Answers(library, orders[i])
    requires NoneStraddled(library)
    ensures multiset(FoldAcross(orders, UPSTREAM_PAGE_SIZE, k)) == multiset(library[..PageEnd(|library|, k)])
  {
    hide *;
    FoldAcrossTurn(orders, k, |library|);
    if k > 0 {
      FoldAcrossKeeps(library, orders, k - 1);
      PageKeeps(library, orders[k - 1], k);
    } else {
      assert library[..0] == [];
    }
  }

  lemma PageKeeps(library: seq<Doc>, order: seq<Doc>, k: nat)
    requires NewestFirst(library) && Answers(library, order) && NoneStraddled(library) && k > 0
    ensures multiset(library[..PageEnd(|library|, k)])
         == multiset(library[..PageEnd(|library|, k - 1)]) + multiset(Page(order, k, UPSTREAM_PAGE_SIZE))
  {
    hide *;
    var a, b := PageEnd(|library|, k - 1), PageEnd(|library|, k);
    AgreeAt(library, order, k - 1);
    AgreeAt(library, order, k);
    PageIsSlice(order, k);
    SlicesAgree(order, library, a, b);
    assert library[..b] == library[..a] + library[a..b];
  }

  ghost predicate NoneStraddled(library: seq<Doc>) {
    forall k: nat :: 0 < k * 100 < |library| ==> !Straddled(library, k)
  }

  lemma AgreeAt(library: seq<Doc>, order: seq<Doc>, k: nat)
    requires NewestFirst(library) && Answers(library, order)
    requires NoneStraddled(library)
    ensures |order| == |library|
    ensures multiset(order[..PageEnd(|library|, k)]) == multiset(library[..PageEnd(|library|, k)])
  {
    assert |multiset(order)| == |multiset(library)|;
    if 0 < k * UPSTREAM_PAGE_SIZE < |library| {
      assert !Straddled(library, k);
      OrdersAgreeBetweenTies(library, order, k * UPSTREAM_PAGE_SIZE);
    } else if k > 0 {
      assert order[..|library|] == order && library[..|library|] == library;
    }
  }

  /** The library with the two documents around a page's end exchanged. */
  function Exchanged(library: seq<Doc>, j: nat): seq<Doc>
    requires 0 < j < |library|
  {
    library[j - 1 := library[j]][j := library[j - 1]]
  }

  lemma ExchangeAnswers(library: seq<Doc>, j: nat)
    requires NewestFirst(library) && 0 < j < |library| && library[j - 1].at == library[j].at
    ensures Answers(library, Exchanged(library, j))
  {
    var order := Exchanged(library, j);
    assert forall i :: 0 <= i < |library| ==> order[i].at == library[i].at;
    assert NewestFirst(order);
    ExchangeKeeps(library, j);
  }

  lemma ExchangeKeeps(library: seq<Doc>, j: nat)
    requires 0 < j < |library|
    ensures multiset(Exchanged(library, j)) == multiset(library)
  {
    var a, b, x, y := library[..j - 1], library[j + 1..], library[j - 1], library[j];
    assert library == a + [x] + [y] + b;
    assert Exchanged(library, j) == a + [y] + [x] + b;
  }

  /** What the fold returns when one request sees the exchange. */
  function Twice(library: seq<Doc>, j: nat): seq<Doc>
    requires 0 < j < |library|
  {
    library[j := library[j - 1]]
  }

  lemma ExchangedPage(library: seq<Doc>, k: nat, m: nat)
    requires 0 < k * UPSTREAM_PAGE_SIZE < |library| && m > 0
    ensures PageEnd(|library|, m - 1) <= PageEnd(|library|, m)
    ensures Page(if m - 1 == k then Exchanged(library, k * UPSTREAM_PAGE_SIZE) else library, m, UPSTREAM_PAGE_SIZE)
         == Twice(library, k * UPSTREAM_PAGE_SIZE)[PageEnd(|library|, m - 1)..PageEnd(|library|, m)]
  {
  }

  lemma {:induction false} ExchangedFold(library: seq<Doc>, orders: seq<seq<Doc>>, k: nat, m: nat)
    requires 0 < k * UPSTREAM_PAGE_SIZE < |library| && m <= |orders|
    requires forall i :: 0 <= i < m ==>
      orders[i] == if i == k then Exchanged(library, k * UPSTREAM_PAGE_SIZE) else library
    ensures FoldAcross(orders, UPSTREAM_PAGE_SIZE, m)
         == Twice(library, k * UPSTREAM_PAGE_SIZE)[..PageEnd(|library|, m)]
  {
    hide *;
    FoldAcrossStep(orders, UPSTREAM_PAGE_SIZE, m);
    TwiceIsAsLong(library, k * UPSTREAM_PAGE_SIZE);
    if m == 0 {
      assert Twice(library, k * UPSTREAM_PAGE_SIZE)[..0] == [];
    } else {
      ExchangedFold(library, orders, k, m - 1);
      ExchangedPage(library, k, m);
      var a, b, all := PageEnd(|library|, m - 1), PageEnd(|library|, m), Twice(library, k * UPSTREAM_PAGE_SIZE);
      assert all[..b] == all[..a] + all[a..b];
    }
  }

  lemma FoldAcrossStep(orders: seq<seq<Doc>>, size: nat, m: nat)
    requires m <= |orders|
    ensures m == 0 ==> FoldAcross(orders, size, m) == []
    ensures m > 0 ==> FoldAcross(orders, size, m) == FoldAcross(orders, size, m - 1) + Page(orders[m - 1], m, size)
    ensures forall n :: PageEnd(n, 0) == 0
  {
    hide Page;
  }

  lemma TwiceIsAsLong(library: seq<Doc>, j: nat)
    requires 0 < j < |library|
    ensures |Twice(library, j)| == |library|
  {
  }

  lemma TwiceLoses(library: seq<Doc>, j: nat)
    requires 0 < j < |library| && library[j - 1] != library[j]
    ensures multiset(Twice(library, j)) != multiset(library)
  {
    assert multiset(Twice(library, j))[library[j]] == multiset(library)[library[j]] - 1;
  }

  /** One request sees the exchange: a document comes twice and another is lost. */
  lemma ExchangeLoses(library: seq<Doc>, k: nat) returns (orders: seq<seq<Doc>>)
    requires NewestFirst(library) && 0 < k * UPSTREAM_PAGE_SIZE < |library| && Straddled(library, k)
    requires library[k * UPSTREAM_PAGE_SIZE - 1] != library[k * UPSTREAM_PAGE_SIZE]
    ensures |orders| == LastPage(library) && (forall o :: o in orders ==> Answers(library, o))
    ensures multiset(FoldAcross(orders, UPSTREAM_PAGE_SIZE, |orders|)) != multiset(library)
  {
    hide *;
    var j := k * UPSTREAM_PAGE_SIZE;
    var other := Exchanged(library, j);
    orders := seq(LastPage(library), i => if i == k then other else library);
    StraddledIs(library, k);
    ExchangeAnswers(library, j);
    LastPageEnds(library);
    ExchangedFold(library, orders, k, |orders|);
    TwiceLoses(library, j);
    assert Twice(library, j)[..|library|] == Twice(library, j);
  }

  lemma StraddledIs(library: seq<Doc>, k: nat)
    requires 0 < k * UPSTREAM_PAGE_SIZE < |library|
    ensures Straddled(library, k) <==> library[k * UPSTREAM_PAGE_SIZE - 1].at == library[k * UPSTREAM_PAGE_SIZE].at
    ensures NewestFirst(library) ==> Answers(library, library)
  {
  }

  function LastPage(library: seq<Doc>): nat {
    PageCount(|library|, UPSTREAM_PAGE_SIZE)
  }

  lemma LastPageEnds(library: seq<Doc>)
    ensures PageEnd(|library|, LastPage(library)) == |library|
    ensures forall j: nat :: 0 < j < |library| ==> |Twice(library, j)| == |library|
  {
  }

  /** If documents differ, the fold returns every one of them under every order the
    * database may choose per request, exactly when no tie straddles a page's end. */
  lemma FetchSurvivesTiesExactly(library: seq<Doc>)
    requires NewestFirst(library) && forall i, j :: 0 <= i < j < |library| ==> library[i] != library[j]
    ensures (forall orders: seq<seq<Doc>> ::
               |orders| == PageCount(|library|, 100) && (forall o :: o in orders ==> Answers(library, o)) ==>
               multiset(FoldAcross(orders, 100, |orders|)) == multiset(library))
       <==> NoneStraddled(library)
  {
    if !NoneStraddled(library) {
      var k: nat :| 0 < k * UPSTREAM_PAGE_SIZE < |library| && Straddled(library, k);
      var orders := ExchangeLoses(library, k);
    } else {
      LastPageEnds(library);
      forall orders: seq<seq<Doc>> | |orders| == LastPage(library) && (forall o :: o in orders ==> Answers(library, o))
        ensures multiset(FoldAcross(orders, UPSTREAM_PAGE_SIZE, |orders|)) == multiset(library)
      {
        FoldAcrossKeeps(library, orders, |orders|);
        assert library[..|library|] == library;
      }
    }
  }

  // ---- What a query shows ----

  ghost predicate InOrder(ds: seq<Doc>, descending: bool) {
    forall i, j :: 0 <= i < j < |ds| ==> NotAfter(ds[i], ds[j], descending)
  }

  lemma {:induction false} InsertKeeps(ds: seq<Doc>, d: Doc, descending: bool)
    ensures multiset(Insert(ds, d, descending)) == multiset(ds) + multiset{d}
  {
    if ds != [] && !NotAfter(ds[|ds| - 1], d, descending) {
      var before, last := ds[..|ds| - 1], ds[|ds| - 1];
      InsertKeeps(before, d, descending);
      assert ds == before + [last];
    }
  }

  lemma {:induction false} InsertOrders(ds: seq<Doc>, d: Doc, descending: bool)
    requires InOrder(ds, descending)
    ensures InOrder(Insert(ds, d, descending), descending)
  {
    if ds != [] && !NotAfter(ds[|ds| - 1], d, descending) {
      var before, last := ds[..|ds| - 1], ds[|ds| - 1];
      InsertOrders(before, d, descending);
      InsertKeeps(before, d, descending);
      assert forall x :: x in before ==> NotAfter(x, last, descending);
      LastInOrder(Insert(before, d, descending), last, before, d, descending);
    }
  }

  lemma LastInOrder(ds: seq<Doc>, last: Doc, before: seq<Doc>, d: Doc, descending: bool)
    requires InOrder(ds, descending) && multiset(ds) == multiset(before) + multiset{d}
    requires NotAfter(d, last, descending) && forall x :: x in before ==> NotAfter(x, last, descending)
    ensures InOrder(ds + [last], descending)
  {
    forall i | 0 <= i < |ds|
      ensures NotAfter(ds[i], last, descending)
    {
      assert ds[i] in multiset(ds);
      hide NotAfter;
      assert ds[i] in before || ds[i] == d;
    }
  }

  lemma {:induction false} SortedIsSorted(ds: seq<Doc>, descending: bool)
    ensures InOrder(Sorted(ds, descending), descending)
    ensures var sorted := Sorted(ds, descending);
            forall i, j :: 0 <= i < j < |sorted| ==>
              if descending then sorted[i].rank >= sorted[j].rank else sorted[i].rank <= sorted[j].rank
    ensures multiset(Sorted(ds, descending)) == multiset(ds)
  {
    hide *;
    SortStep(ds, descending);
    if ds != [] {
      var before, last := ds[..|ds| - 1], ds[|ds| - 1];
      SortedIsSorted(before, descending);
      InsertOrders(Sorted(before, descending), last, descending);
      InsertKeeps(Sorted(before, descending), last, descending);
      assert ds == before + [last];
    }
    InOrderIs(Sorted(ds, descending), descending);
  }

  lemma InOrderIs(ds: seq<Doc>, descending: bool)
    ensures InOrder(ds, descending)
       <==> forall i, j :: 0 <= i < j < |ds| ==> if descending then ds[i].rank >= ds[j].rank else ds[i].rank <= ds[j].rank
    ensures InOrder([], descending)
  {
  }

  /** The document, if it has the rank. */
  function IfRank(d: Doc, rank: int): seq<Doc> { if d.rank == rank then [d] else [] }

  /** The documents of one rank, in their order. */
  function OfRank(ds: seq<Doc>, rank: int): seq<Doc> {
    if ds == [] then [] else OfRank(ds[..|ds| - 1], rank) + IfRank(ds[|ds| - 1], rank)
  }

  lemma OfRankSnoc(ds: seq<Doc>, d: Doc, rank: int)
    ensures OfRank(ds + [d], rank) == OfRank(ds, rank) + IfRank(d, rank)
  {
    assert (ds + [d])[..|ds|] == ds;
  }

  /** Either end of an insertion: behind the last document, or before it. */
  lemma InsertGoes(ds: seq<Doc>, d: Doc, descending: bool)
    ensures ds == [] || NotAfter(ds[|ds| - 1], d, descending) ==> Insert(ds, d, descending) == ds + [d]
    ensures ds != [] && !NotAfter(ds[|ds| - 1], d, descending) ==>
              Insert(ds, d, descending) == Insert(ds[..|ds| - 1], d, descending) + [ds[|ds| - 1]]
              && d.rank != ds[|ds| - 1].rank
  {
  }

  /** Two documents of different ranks pass each other. */
  lemma RanksApart(a: Doc, b: Doc, rank: int, before: seq<Doc>)
    requires a.rank != b.rank
    ensures before + IfRank(a, rank) + IfRank(b, rank) == before + IfRank(b, rank) + IfRank(a, rank)
  {
  }

  lemma {:induction false} InsertIsStable(ds: seq<Doc>, d: Doc, descending: bool, rank: int)
    ensures OfRank(Insert(ds, d, descending), rank) == OfRank(ds, rank) + IfRank(d, rank)
  {
    hide *;
    InsertGoes(ds, d, descending);
    if ds == [] || NotAfter(ds[|ds| - 1], d, descending) {
      OfRankSnoc(ds, d, rank);
    } else {
      var before, last := ds[..|ds| - 1], ds[|ds| - 1];
      InsertIsStable(before, d, descending, rank);
      OfRankSnoc(Insert(before, d, descending), last, rank);
      OfRankSnoc(before, last, rank);
      assert ds == before + [last];
      RanksApart(d, last, rank, OfRank(before, rank));
    }
  }

  lemma SortStep(ds: seq<Doc>, descending: bool)
    ensures ds == [] ==> Sorted(ds, descending) == []
    ensures ds != [] ==>
              Sorted(ds, descending) == Insert(Sorted(ds[..|ds| - 1], descending), ds[|ds| - 1], descending)
  {
    hide Insert;
  }

  /** Documents of one rank keep the order in which they came, whichever way the ranks run. */
  lemma {:induction false} SortIsStable(ds: seq<Doc>, descending: bool, rank: int)
    ensures OfRank(Sorted(ds, descending), rank) == OfRank(ds, rank)
  {
    hide *;
    SortStep(ds, descending);
    if ds != [] {
      var before, last := ds[..|ds| - 1], ds[|ds| - 1];
      SortIsStable(before, descending, rank);
      InsertIsStable(Sorted(before, descending), last, descending, rank);
      OfRankSnoc(before, last, rank);
      assert ds == before + [last];
    }
  }

  /** What a query asks of a document: its kind and its status, or all, and the search in its name, id or counterparty. */
  ghost predicate Wanted(d: Doc, q: Query) {
    && q.kind in {"All", d.kind} && q.status in {"All", d.status}
    && (q.search == "" || Contains(d.name, q.search) || Contains(d.id, q.search) || Contains(d.counterparty, q.search))
  }

  lemma IndexOfContains(s: string, p: string)
    ensures IndexOf(s, p, 0) != -1 <==> Contains(s, p)
  {
    if Contains(s, p) {
      var i :| OccursAt(s, p, i);
      assert 0 <= i;
    }
  }

  lemma SelectedIsWanted(d: Doc, q: Query)
    ensures Selected(d, q) <==> Wanted(d, q)
  {
    hide IndexOf, Contains;
    IndexOfContains(d.name, q.search);
    IndexOfContains(d.id, q.search);
    IndexOfContains(d.counterparty, q.search);
  }

  lemma {:induction false} FilteredKeeps(all: seq<Doc>, q: Query, d: Doc)
    ensures multiset(Filtered(all, q))[d] == if Selected(d, q) then multiset(all)[d] else 0
  {
    if all != [] {
      var before, last := all[..|all| - 1], all[|all| - 1];
      FilteredKeeps(before, q, d);
      assert all == before + [last];
      hide Selected;
    }
  }

  /** The rows of integer pages 1 up to the page count, one page after the other. */
  function ShownRows(all: seq<Doc>, q: Query, page: nat): seq<Doc>
    requires page > 0 && q.size > 0
    decreases ApplyQuery(all, q, page).pageCount - page
  {
    var r := ApplyQuery(all, q, page);
    r.rows + if page >= r.pageCount then [] else ShownRows(all, q, page + 1)
  }

  lemma {:induction false} ShownRowsFold(all: seq<Doc>, q: Query, page: nat)
    requires q.size > 0 && 0 < page <= ApplyQuery(all, q, 1).pageCount
    ensures var sorted := Sorted(Filtered(all, q), q.descending);
            ShownRows(all, q, page) == Fold(sorted, q.size, page, PageCount(|sorted|, q.size))
    decreases ApplyQuery(all, q, 1).pageCount - page
  {
    if page < ApplyQuery(all, q, 1).pageCount {
      ShownRowsFold(all, q, page + 1);
    }
  }

  /** Walking through all pages shows every selected document of the library, each
    * exactly as often as it is there, and in order across page ends. */
  lemma WalkShowsEverySelected(library: seq<Doc>, q: Query)
    requires q.size > 0 && |library| <= 2000
    ensures FetchAll(library) == Success(library)
    ensures var shown := ShownRows(library, q, 1);
            && (forall i, j :: 0 <= i < j < |shown| ==>
                  if q.descending then shown[i].rank >= shown[j].rank else shown[i].rank <= shown[j].rank)
            && (forall rank :: OfRank(shown, rank) == OfRank(Filtered(library, q), rank))
            && forall d :: multiset(shown)[d] == if Wanted(d, q) then multiset(library)[d] else 0
  {
    hide *;
    FetchAllExactly(library);
    var filtered := Filtered(library, q);
    var sorted := Sorted(filtered, q.descending);
    FirstPageIsThere(library, q);
    ShownRowsFold(library, q, 1);
    PagesRebuild(sorted, q.size);
    SortedIsSorted(filtered, q.descending);
    forall rank
      ensures OfRank(sorted, rank) == OfRank(filtered, rank)
    {
      SortIsStable(filtered, q.descending, rank);
    }
    forall d
      ensures multiset(sorted)[d] == if Wanted(d, q) then multiset(library)[d] else 0
    {
      FilteredKeeps(library, q, d);
      SelectedIsWanted(d, q);
    }
  }

  lemma FirstPageIsThere(all: seq<Doc>, q: Query)
    requires q.size > 0
    ensures 0 < 1 <= ApplyQuery(all, q, 1).pageCount
  {
    hide Sorted, Filtered;
  }

  /** `rows` stand in `all` from `from` on. */
  predicate StandsFrom<T(==)>(rows: seq<T>, all: seq<T>, from: int)
    requires from >= 0
  {
    forall i :: 0 <= i < |rows| ==> from + i < |all| && rows[i] == all[from + i]
  }

  lemma PageStands<T>(all: seq<T>, page: nat, size: nat, from: nat)
    requires page > 0 && from == (page - 1) * size
    ensures |Page(all, page, size)| <= size && StandsFrom(Page(all, page, size), all, from)
  {
    assert Page(all, page, size) == all[Min(from, |all|)..Min(from + size, |all|)];
  }

  lemma ApplyQueryIs(all: seq<Doc>, q: Query, page: nat)
    requires page > 0 && q.size > 0
    ensures var sorted, r := Sorted(Filtered(all, q), q.descending), ApplyQuery(all, q, page);
            && r.pageCount == PageCount(|sorted|, q.size) >= 1
            && r.page == (if page <= r.pageCount then page else r.pageCount)
            && r.total == |sorted| && r.rows == Page(sorted, r.page, q.size)
  {
    hide Sorted, Filtered, Page, PageCount;
  }

  /** As many pages of `size` as a list of `total` needs, and one for none. */
  predicate PagesFor(total: nat, size: nat, pages: nat) {
    pages * size >= total && if total > 0 then (pages - 1) * size < total else pages == 1
  }

  lemma PageCountIsPagesFor(total: nat, size: nat)
    requires size > 0
    ensures PagesFor(total, size, PageCount(total, size))
  {
    PageCountCovers(total, size);
  }

  /** `rows` are the `page`-th slice of `size` of a list. */
  predicate SliceOf<T(==)>(rows: seq<T>, all: seq<T>, page: nat, size: nat)
    requires page > 0
  {
    var from := (page - 1) * size;
    |rows| <= size && from >= 0 && StandsFrom(rows, all, from)
  }

  lemma PageIsSliceOf<T>(all: seq<T>, page: nat, size: nat)
    requires page > 0
    ensures SliceOf(Page(all, page, size), all, page, size)
  {
    var from := (page - 1) * size;
    assert from >= 0;
    hide Page, StandsFrom;
    PageStands(all, page, size, from);
  }

  /** One answer: a page past the last is the last one, and a page is the slice of the sorted selection it numbers. */
  lemma AnswerIsItsPage(all: seq<Doc>, q: Query, page: nat)
    requires page > 0 && q.size > 0
    ensures var r, sorted := ApplyQuery(all, q, page), Sorted(Filtered(all, q), q.descending);
            && r.total == |sorted| && PagesFor(r.total, q.size, r.pageCount)
            && r.page == (if page <= r.pageCount then page else r.pageCount) && r.page > 0
            && SliceOf(r.rows, sorted, r.page, q.size)
  {
    hide *;
    ApplyQueryIs(all, q, page);
    var sorted, r := Sorted(Filtered(all, q), q.descending), ApplyQuery(all, q, page);
    PageCountIsPagesFor(|sorted|, q.size);
    PageIsSliceOf(sorted, r.page, q.size);
  }
}
