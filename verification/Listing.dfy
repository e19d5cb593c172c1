/** The session listing: the page window, the filter, the total order, and what pages add up to. */
module Listing {
  import opened Arithmetic
  import opened Entities

  // ----- The page window -------------------------------------------------

  const DEFAULT_PAGE: int := 1
  const DEFAULT_LIMIT: int := 20
  const MAX_LIMIT: int := 100

  datatype Pagination = Pagination(page: int, limit: int)

  function Normalized(p: Pagination): (n: Pagination)
    ensures DEFAULT_PAGE <= n.page && 1 <= n.limit <= MAX_LIMIT
    ensures 1 <= p.page && 1 <= p.limit <= 100 ==> n == p
    ensures (p.page < 1 ==> n.page == 1) && (p.page >= 1 ==> n.page == p.page)
    ensures (p.limit < 1 ==> n.limit == 20) && (p.limit > 100 ==> n.limit == 100)
  {
    var page := if p.page < DEFAULT_PAGE then DEFAULT_PAGE else p.page;
    var limit := if p.limit < 1 then DEFAULT_LIMIT else p.limit;
    Pagination(page, if limit > MAX_LIMIT then MAX_LIMIT else limit)
  }

  function Offset(p: Pagination): int {
    var n := Normalized(p);
    Wrap64((n.page - 1) * n.limit)
  }

  /** LIMIT and OFFSET as the query builder renders them: an offset that is not positive is left out. */
  function Window<T>(s: seq<T>, limit: nat, offset: int): (r: seq<T>)
    ensures |r| <= limit
  {
    var from := if offset > 0 then offset else 0;
    if from >= |s| then [] else if from + limit >= |s| then s[from..] else s[from..from + limit]
  }

  // ----- Filter and order ------------------------------------------------

  predicate Active(row: TokenRow, userId: Uuid, now: Instant) {
    row.userId == userId && row.expiresAt > now
  }

  function ActiveRows(tokens: map<Digest, TokenRow>, userId: Uuid, now: Instant): set<TokenRow> {
    set d | d in tokens && Active(tokens[d], userId, now) :: tokens[d]
  }

  predicate Newer(a: TokenRow, b: TokenRow) {
    a.createdAt > b.createdAt || (a.createdAt == b.createdAt && a.id > b.id)
  }

  /** The primary key of the token table. */
  ghost predicate DistinctIds(rows: set<TokenRow>) {
    forall a, b :: a in rows && b in rows && a.id == b.id ==> a == b
  }

  ghost predicate Newest(r: TokenRow, rows: set<TokenRow>) {
    r in rows && forall x :: x in rows ==> !Newer(x, r)
  }

  ghost predicate NewestFirst(s: seq<TokenRow>) {
    forall i, j :: 0 <= i < j < |s| ==> Newer(s[i], s[j])
  }

  lemma {:induction false} NewestExists(rows: set<TokenRow>)
    requires rows != {}
    ensures exists r :: Newest(r, rows)
  {
    var x :| x in rows;
    var rest := rows - {x};
    if rest == {} {
      assert rows == {x};
      assert Newest(x, rows);
    } else {
      NewestExists(rest);
      var y :| Newest(y, rest);
      assert forall z :: z in rows ==> z == x || z in rest;
      if Newer(x, y) {
        assert Newest(x, rows);
      } else {
        assert Newest(y, rows);
      }
    }
  }

  /** ORDER BY created_at DESC, id DESC. */
  ghost function Sorted(rows: set<TokenRow>): seq<TokenRow> {
    if rows == {} then [] else
      NewestExists(rows);
      var r :| Newest(r, rows);
      [r] + Sorted(rows - {r})
  }

  ghost function ListActive(tokens: map<Digest, TokenRow>, userId: Uuid, now: Instant, limit: nat,
                            offset: int): seq<TokenRow> {
    Window(Sorted(ActiveRows(tokens, userId, now)), limit, offset)
  }

  /** The ordering lists every row of the filter, and nothing else. */
  lemma {:induction false} SortedHasAll(rows: set<TokenRow>)
    ensures |Sorted(rows)| == |rows| && forall r :: r in Sorted(rows) <==> r in rows
  {
    if rows != {} {
      var s := Sorted(rows);
      NewestExists(rows);
      assert Newest(s[0], rows);
      assert s == [s[0]] + Sorted(rows - {s[0]});
      SortedHasAll(rows - {s[0]});
    }
  }

  /** The ordering lists every row of the filter once, strictly newest first. */
  lemma {:induction false} SortedIsExact(rows: set<TokenRow>)
    requires DistinctIds(rows)
    ensures |Sorted(rows)| == |rows|
    ensures forall r :: r in Sorted(rows) <==> r in rows
    ensures NewestFirst(Sorted(rows))
  {
    SortedHasAll(rows);
    if rows != {} {
      var s := Sorted(rows);
      NewestExists(rows);
      assert Newest(s[0], rows);
      assert s == [s[0]] + Sorted(rows - {s[0]});
      SortedIsExact(rows - {s[0]});
      forall i, j | 0 <= i < j < |s| ensures Newer(s[i], s[j]) {
        if i == 0 {
          assert s[j] in rows - {s[0]};
        }
      }
    }
  }

  /** A strictly descending sequence is determined by its elements, so any sorting algorithm gives this one. */
  lemma {:induction false} DescendingIsUnique(s: seq<TokenRow>, t: seq<TokenRow>)
    requires NewestFirst(s) && NewestFirst(t)
    requires forall r :: r in s <==> r in t
    ensures s == t
  {
    if s == [] {
      assert forall k :: 0 <= k < |t| ==> t[k] in t;
    } else {
      assert s[0] in t;
      var k :| 0 <= k < |t| && t[k] == s[0];
      assert t[0] in s;
      assert k == 0;
      forall r ensures r in s[1..] <==> r in t[1..] {
        if r in s[1..] { assert r in s && r != s[0]; }
        if r in t[1..] { assert r in t && r != t[0]; }
      }
      DescendingIsUnique(s[1..], t[1..]);
      assert s == [s[0]] + s[1..] && t == [t[0]] + t[1..];
    }
  }

  // ----- What the pages add up to ----------------------------------------

  /** Pages 1 to n, one after the other. */
  ghost function Pages(tokens: map<Digest, TokenRow>, userId: Uuid, now: Instant, limit: int, n: nat): seq<TokenRow> {
    if n == 0 then [] else
      var p := Normalized(Pagination(n, limit));
      Pages(tokens, userId, now, limit, n - 1) + ListActive(tokens, userId, now, p.limit, Offset(p))
  }

  lemma ProductBound(a: nat, b: nat, limit: nat)
    requires b <= limit
    ensures 0 <= a * b <= a * limit
  {
  }

  /** Offset is the mathematical offset exactly while that fits 63 bits. */
  lemma OffsetExactness(p: Pagination)
    ensures var n := Normalized(p);
            Offset(p) == (n.page - 1) * n.limit <==> (n.page - 1) * n.limit < TWO_63
    ensures p.page - 1 <= (TWO_63 - 1) / MAX_LIMIT ==> Offset(p) == (Normalized(p).page - 1) * Normalized(p).limit
  {
    var n := Normalized(p);
    ProductBound(n.page - 1, n.limit, MAX_LIMIT);
  }

  function Prefix<T>(s: seq<T>, n: nat): seq<T> {
    if n <= |s| then s[..n] else s
  }

  lemma WindowExtendsPrefix<T>(s: seq<T>, from: nat, limit: nat)
    ensures Prefix(s, from) + Window(s, limit, from) == Prefix(s, from + limit)
  {
  }

  lemma PageOffset(n: int, limit: int)
    requires 1 <= n && 1 <= limit <= MAX_LIMIT && (n - 1) * limit < TWO_63
    ensures Normalized(Pagination(n, limit)) == Pagination(n, limit)
    ensures Offset(Pagination(n, limit)) == (n - 1) * limit
  {
  }

  lemma PageStep(tokens: map<Digest, TokenRow>, userId: Uuid, now: Instant, limit: int, n: nat, from: int)
    requires 1 <= limit <= MAX_LIMIT && 1 <= n && from == (n - 1) * limit && from < TWO_63
    ensures Pages(tokens, userId, now, limit, n)
            == Pages(tokens, userId, now, limit, n - 1) + Window(Sorted(ActiveRows(tokens, userId, now)), limit, from)
  {
    PageOffset(n, limit);
  }

  lemma {:induction false} PagesArePrefix(tokens: map<Digest, TokenRow>, userId: Uuid, now: Instant, limit: int,
                                          n: nat, covered: int)
    requires 1 <= limit <= MAX_LIMIT && covered == n * limit && covered < TWO_63
    ensures 0 <= covered
    ensures Pages(tokens, userId, now, limit, n) == Prefix(Sorted(ActiveRows(tokens, userId, now)), covered)
  {
    if n > 0 {
      var from := covered - limit;
      assert from == (n - 1) * limit;
      PagesArePrefix(tokens, userId, now, limit, n - 1, from);
      PageStep(tokens, userId, now, limit, n, from);
      WindowExtendsPrefix(Sorted(ActiveRows(tokens, userId, now)), from, limit);
    }
  }

  /**
   The pages partition the active rows: as soon as the pages asked for cover the
   total, their concatenation is every active row exactly once, newest first.
   */
  lemma PagesPartition(tokens: map<Digest, TokenRow>, userId: Uuid, now: Instant, limit: int, n: nat)
    requires DistinctIds(ActiveRows(tokens, userId, now))
    requires 1 <= limit <= MAX_LIMIT
    requires |ActiveRows(tokens, userId, now)| <= n * limit < TWO_63
    ensures var pages := Pages(tokens, userId, now, limit, n);
            && |pages| == |ActiveRows(tokens, userId, now)|
            && (forall r :: r in pages <==> r in ActiveRows(tokens, userId, now))
            && NewestFirst(pages)
  {
    SortedIsExact(ActiveRows(tokens, userId, now));
    PagesArePrefix(tokens, userId, now, limit, n, n * limit);
  }

  /**
   A page past the last one is empty exactly when its 64-bit offset did not wrap
   to something before the end of the listing, or there is nothing to list.
   */
  lemma LaterPageIsEmpty(tokens: map<Digest, TokenRow>, userId: Uuid, now: Instant, p: Pagination)
    requires DistinctIds(ActiveRows(tokens, userId, now))
    requires var n := Normalized(p); (n.page - 1) * n.limit >= |ActiveRows(tokens, userId, now)|
    ensures ListActive(tokens, userId, now, Normalized(p).limit, Offset(p)) == []
            <==> Offset(p) >= |ActiveRows(tokens, userId, now)| || ActiveRows(tokens, userId, now) == {}
    ensures p.page - 1 <= (TWO_63 - 1) / MAX_LIMIT
            ==> ListActive(tokens, userId, now, Normalized(p).limit, Offset(p)) == []
  {
    SortedIsExact(ActiveRows(tokens, userId, now));
    OffsetExactness(p);
  }

  /** A page shows the first page exactly when its offset wrapped to zero or below, or there is nothing to list. */
  lemma RepeatsTheFirstExactly(tokens: map<Digest, TokenRow>, userId: Uuid, now: Instant, p: Pagination)
    requires DistinctIds(ActiveRows(tokens, userId, now))
    ensures var n := Normalized(p);
            ListActive(tokens, userId, now, n.limit, Offset(p))
                == ListActive(tokens, userId, now, n.limit, Offset(Pagination(1, n.limit)))
            <==> Offset(p) <= 0 || ActiveRows(tokens, userId, now) == {}
  {
    var limit, sorted := Normalized(p).limit, Sorted(ActiveRows(tokens, userId, now));
    SortedIsExact(ActiveRows(tokens, userId, now));
    assert Offset(Pagination(1, limit)) == 0;
    if 0 < Offset(p) < |sorted| {
      assert Window(sorted, limit, Offset(p))[0] == sorted[Offset(p)];
      assert Window(sorted, limit, 0)[0] == sorted[0];
      assert Newer(sorted[0], sorted[Offset(p)]);
    }
  }

  /** Page 2^62 + 1 at four rows a page is such a page. */
  lemma SomePageWraps()
    ensures var p := Pagination(TWO_63 / 2 + 1, 4);
            (Normalized(p).page - 1) * Normalized(p).limit == TWO_64 && Offset(p) == 0
  {
  }
}
