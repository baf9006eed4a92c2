/**
  The search handler over a fixed index: page arithmetic, cache keys, and the fact the cache exists for,
  that nobody can tell its answers from freshly computed ones.
 */
module Search {
  import opened Options
  import Cache
  import Decimal
  import Lru
  import Sanitizer
  import Text

  const PAGE_SIZE := 10
  const MAX_INT64 := 0x7FFF_FFFF_FFFF_FFFF
  const MIN_INT64 := -0x8000_0000_0000_0000

  // ---------- pages ----------

  /** Two's complement wrap-around to 64 bits. */
  function Wrap64(n: int): int {
    (n - MIN_INT64) % 0x1_0000_0000_0000_0000 + MIN_INT64
  }

  function Offset(page: int): int {
    Wrap64((page - 1) * PAGE_SIZE)
  }

  /** LIMIT 10 OFFSET offset: a negative offset counts as zero. */
  function Slice<T>(all: seq<T>, offset: int): seq<T> {
    var from := if offset < 0 then 0 else if offset > |all| then |all| else offset;
    var to := if from + PAGE_SIZE > |all| then |all| else from + PAGE_SIZE;
    all[from..to]
  }

  function PageOf<T>(all: seq<T>, page: int): seq<T> {
    Slice(all, Offset(page))
  }

  function Pages(total: int): int {
    var pages := (total + PAGE_SIZE - 1) / PAGE_SIZE;
    if pages < 1 then 1 else pages
  }

  /** The pages 1 to n, one after the other. */
  function FirstPages<T>(all: seq<T>, n: nat): seq<T> {
    if n == 0 then [] else FirstPages(all, n - 1) + PageOf(all, n)
  }

  /** The largest page whose offset fits in 64 bits. */
  const LAST_SAFE_PAGE := MAX_INT64 / PAGE_SIZE + 1

  /** The offset is ten rows for each page before this one, up to a multiple of 2^64. */
  lemma OffsetExactly(page: int)
    ensures -0x8000_0000_0000_0000 <= Offset(page) < 0x8000_0000_0000_0000
    ensures (Offset(page) - 10 * (page - 1)) % 0x1_0000_0000_0000_0000 == 0
  {
    var n := (page - 1) * PAGE_SIZE + 0x8000_0000_0000_0000;
    assert Offset(page) == n % 0x1_0000_0000_0000_0000 - 0x8000_0000_0000_0000;
    assert n == n / 0x1_0000_0000_0000_0000 * 0x1_0000_0000_0000_0000 + n % 0x1_0000_0000_0000_0000;
    var k := -(n / 0x1_0000_0000_0000_0000);
    assert Offset(page) - 10 * (page - 1) == k * 0x1_0000_0000_0000_0000;
    MultipleLeavesNothing(k);
  }

  lemma MultipleLeavesNothing(k: int)
    ensures k * 0x1_0000_0000_0000_0000 % 0x1_0000_0000_0000_0000 == 0
  {
  }

  /** A page is the ten matches from its offset on, or as many as there are; a negative offset counts as 0. */
  lemma PageExactly<T>(all: seq<T>, page: int)
    ensures var from := if Offset(page) < 0 then 0 else Offset(page);
      PageOf(all, page) == if from >= |all| then [] else if |all| - from <= 10 then all[from..] else all[from..from + 10]
  {
    hide Offset;
  }

  lemma OffsetIsExact(page: int)
    requires 1 <= page <= LAST_SAFE_PAGE
    ensures Offset(page) == (page - 1) * PAGE_SIZE
  {
  }

  lemma TwoSlices<T>(all: seq<T>, i: nat, j: nat)
    requires i <= j <= |all|
    ensures all[..i] + all[i..j] == all[..j]
  {
  }

  lemma PageIs<T>(all: seq<T>, n: nat)
    requires 1 <= n <= Pages(|all|) <= LAST_SAFE_PAGE
    ensures (n - 1) * 10 <= |all|
    ensures PageOf(all, n) == all[(n - 1) * 10..if n * 10 < |all| then n * 10 else |all|]
  {
    OffsetIsExact(n);
    hide Offset;
  }

  lemma {:induction false} FirstPagesArePrefix<T>(all: seq<T>, n: nat)
    requires n <= Pages(|all|) <= LAST_SAFE_PAGE
    ensures FirstPages(all, n) == all[..if n * 10 < |all| then n * 10 else |all|]
  {
    hide PageOf, Pages;
    if n == 0 {
    } else {
      FirstPagesArePrefix(all, n - 1);
      PageIs(all, n);
      TwoSlices(all, (n - 1) * 10, if n * 10 < |all| then n * 10 else |all|);
    }
  }

  /** The pages cover the whole ranked list, in order and without overlap; every later page that is in range is empty. */
  lemma PagesCoverAll<T>(all: seq<T>)
    requires |all| <= MAX_INT64
    ensures FirstPages(all, Pages(|all|)) == all
    ensures forall p :: 1 <= p <= 922_337_203_685_477_581 ==> |PageOf(all, p)| <= 10
    ensures forall p :: Pages(|all|) < p <= 922_337_203_685_477_581 ==> PageOf(all, p) == []
    ensures forall p :: 1 <= p < Pages(|all|) ==> |PageOf(all, p)| == 10
    ensures if all == [] then Pages(|all|) == 1 else PageOf(all, Pages(|all|)) != []
  {
    assert Pages(|all|) <= LAST_SAFE_PAGE;
    FirstPagesArePrefix(all, Pages(|all|));
    hide PageOf, Pages;
    forall p | 1 <= p <= LAST_SAFE_PAGE
      ensures |PageOf(all, p)| <= PAGE_SIZE
      ensures p > Pages(|all|) ==> PageOf(all, p) == []
      ensures p < Pages(|all|) ==> |PageOf(all, p)| == PAGE_SIZE
    {
      PageLength(all, p);
    }
    LastPage(all);
  }

  lemma LastPage<T>(all: seq<T>)
    requires Pages(|all|) <= LAST_SAFE_PAGE
    ensures if all == [] then Pages(|all|) == 1 else PageOf(all, Pages(|all|)) != []
  {
    OffsetIsExact(Pages(|all|));
    hide Offset;
  }

  lemma PageLength<T>(all: seq<T>, p: int)
    requires 1 <= p <= LAST_SAFE_PAGE
    ensures |PageOf(all, p)| <= PAGE_SIZE
    ensures p > Pages(|all|) ==> PageOf(all, p) == []
    ensures p < Pages(|all|) ==> |PageOf(all, p)| == PAGE_SIZE
  {
    OffsetIsExact(p);
    hide Offset;
  }

  /** Beyond the safe pages the 64-bit offset wraps: the largest page number shows the first page again. */
  lemma LargestPageWraps<T>(all: seq<T>)
    ensures PageOf(all, MAX_INT64) == PageOf(all, 1)
  {
  }

  /** Which pages past the end are not empty: exactly those whose wrapped offset falls before the end. */
  lemma PagePastTheEnd<T>(all: seq<T>, page: int)
    requires all != []
    ensures PageOf(all, page) == [] <==> Offset(page) >= |all|
  {
  }

  // ---------- cache keys ----------

  datatype Request = Request(q: string, ext: string, since: string, page: int)

  const BAR := '|'

  function Key(r: Request): string {
    r.q + "|" + r.ext + "|" + r.since + "|" + Decimal.Format(r.page)
  }

  predicate PlainFilters(r: Request) {
    BAR !in r.ext && BAR !in r.since
  }

  predicate Plain(r: Request) {
    PlainFilters(r) && BAR !in r.q
  }

  /** A string is cut at its last bar in only one way. */
  lemma LastBar(a: string, b: string, c: string, d: string)
    requires BAR !in b && BAR !in d && a + "|" + b == c + "|" + d
    ensures a == c && b == d
  {
    NoLaterBar(a, b, c, d);
    NoLaterBar(c, d, a, b);
    var s, t := a + "|" + b, c + "|" + d;
    assert s[..|a|] == a && t[..|c|] == c;
    assert s[|a| + 1..] == b && t[|c| + 1..] == d;
  }

  lemma NoLaterBar(a: string, b: string, c: string, d: string)
    requires BAR !in b && a + "|" + b == c + "|" + d
    ensures |c| <= |a|
  {
    var s := a + "|" + b;
    assert forall j :: |a| < j < |s| ==> s[j] == b[j - |a| - 1];
    assert s[|c|] == (c + "|" + d)[|c|];
  }

  /** Requests whose filters have no bar have different keys, even when their queries have bars. */
  lemma KeysInjective(r: Request, t: Request)
    requires PlainFilters(r) && PlainFilters(t) && Key(r) == Key(t)
    ensures r == t
  {
    LastBar(r.q + "|" + r.ext + "|" + r.since, Decimal.Format(r.page), t.q + "|" + t.ext + "|" + t.since, Decimal.Format(t.page));
    LastBar(r.q + "|" + r.ext, r.since, t.q + "|" + t.ext, t.since);
    LastBar(r.q, r.ext, t.q, t.ext);
    Decimal.FormatInjective(r.page, t.page);
  }

  /** The request as the handler sees it: trimmed query, page at least 1. */
  function Normalised(r: Request): Request {
    r.(q := Sanitizer.TrimSpace(r.q), page := if r.page < 1 then 1 else r.page)
  }

  /** The requests whose key the handler builds: normalised, and with a query. */
  predicate LookedUp(r: Request) {
    r == Normalised(r) && r.q != ""
  }

  lemma NormalisedTwice(r: Request)
    ensures Normalised(Normalised(r)) == Normalised(r)
  {
    Sanitizer.TrimmedEnds(r.q);
  }

  lemma LookedUpEnds(r: Request)
    ensures LookedUp(r) <==>
              r.page >= 1 && r.q != "" && !Text.IsSpace(r.q[0]) && !Text.IsSpace(r.q[|r.q| - 1])
  {
    Sanitizer.TrimmedEnds(r.q);
  }

  /** Two looked-up requests with one key. */
  predicate Collide(r: Request, t: Request) {
    LookedUp(r) && LookedUp(t) && t != r && Key(t) == Key(r)
  }

  function Rest(r: Request): string {
    r.ext + "|" + r.since
  }

  lemma KeyParts(r: Request)
    ensures Key(r) == (r.q + "|" + Rest(r)) + "|" + Decimal.Format(r.page)
    ensures BAR !in Decimal.Format(r.page)
  {
    assert r.q + "|" + r.ext + "|" + r.since == r.q + "|" + Rest(r);
  }

  lemma SameKey(r: Request, t: Request)
    ensures Key(t) == Key(r) <==> t.page == r.page && t.q + "|" + Rest(t) == r.q + "|" + Rest(r)
  {
    KeyParts(r);
    KeyParts(t);
    hide Key, Rest, Decimal.Format;
    if Key(t) == Key(r) {
      LastBar(t.q + "|" + Rest(t), Decimal.Format(t.page), r.q + "|" + Rest(r), Decimal.Format(r.page));
      Decimal.FormatInjective(t.page, r.page);
    }
  }

  /** The query can be cut at a bar in it, leaving a query that needs no trimming. */
  predicate CutInQuery(r: Request, p: int) {
    0 < p < |r.q| && r.q[p] == BAR && !Text.IsSpace(r.q[p - 1])
  }

  /** The query can be extended to a bar in the filters that is not their last, without ending in white space. */
  predicate CutInFilters(r: Request, k: int) {
    0 <= k < |Rest(r)| && Rest(r)[k] == BAR && BAR in Rest(r)[k + 1..] && (k == 0 || !Text.IsSpace(Rest(r)[k - 1]))
  }

  /** Two ways to cut one string at a bar, compared by where they cut. */
  lemma TwoCuts(a: string, x: string, b: string, y: string)
    requires a + "|" + x == b + "|" + y
    ensures |a| < |b| ==> b[|a|] == BAR && a == b[..|a|]
    ensures |a| == |b| ==> a == b && x == y
    ensures |a| > |b| ==> CutsAt(a, x, b, y, |a| - |b| - 1)
  {
    var s, m, n := a + "|" + x, |a|, |b|;
    assert s[..m] == a && s[m] == BAR && s[m + 1..] == x;
    assert s[..n] == b && s[n] == BAR && s[n + 1..] == y;
    if m > n {
      var k := m - n - 1;
      assert s[n + 1..][k] == s[m];
      assert s[n + 1..][k + 1..] == s[m + 1..];
      assert s[..m] == s[..n] + "|" + s[n + 1..][..k];
    }
  }

  /** `a` is `b`, a bar, and what `y` has before its k-th character, which is a bar too. */
  predicate CutsAt(a: string, x: string, b: string, y: string, k: int) {
    0 <= k < |y| && y[k] == BAR && y[k + 1..] == x && a == b + "|" + y[..k]
  }

  /** The requests that share the key of `r`, by the length of their query. */
  lemma CollisionShape(r: Request, t: Request)
    requires Collide(r, t)
    ensures |t.q| < |r.q| ==> CutInQuery(r, |t.q|) && t.q == r.q[..|t.q|]
    ensures |t.q| == |r.q| ==> t.q == r.q && !PlainFilters(r)
    ensures |t.q| > |r.q| ==> CutInFilters(r, |t.q| - |r.q| - 1) && !PlainFilters(r)
  {
    SameKey(r, t);
    LookedUpEnds(t);
    TwoCuts(t.q, Rest(t), r.q, Rest(r));
    hide LookedUp, Key, Text.IsSpace, PlainFilters;
    if |t.q| == |r.q| {
      if PlainFilters(r) { OneBar(r, t); }
    } else if |t.q| > |r.q| {
      var k := |t.q| - |r.q| - 1;
      assert Rest(t)[|t.ext|] == BAR;
      assert Rest(r)[k + 1..][|t.ext|] == Rest(r)[k + 1 + |t.ext|];
      TwoBars(r, k, k + 1 + |t.ext|);
      assert t.q[|t.q| - 1] == if k == 0 then BAR else Rest(r)[k - 1];
    }
  }

  lemma BarAtExtOnly(r: Request, k: nat)
    requires PlainFilters(r) && k < |Rest(r)| && Rest(r)[k] == BAR
    ensures k == |r.ext|
  {
  }

  lemma TwoBars(r: Request, j: nat, k: nat)
    requires j < k < |Rest(r)| && Rest(r)[j] == BAR && Rest(r)[k] == BAR
    ensures !PlainFilters(r)
  {
    if PlainFilters(r) {
      BarAtExtOnly(r, j);
      BarAtExtOnly(r, k);
    }
  }

  lemma OneBar(r: Request, t: Request)
    requires PlainFilters(r) && Rest(t) == Rest(r)
    ensures t.ext == r.ext && t.since == r.since
  {
    assert Rest(t)[|t.ext|] == BAR;
    BarAtExtOnly(r, |t.ext|);
    assert Rest(t)[..|t.ext|] == t.ext && Rest(r)[..|t.ext|] == r.ext;
    assert Rest(t)[|t.ext| + 1..] == t.since && Rest(r)[|t.ext| + 1..] == r.since;
  }

  lemma FiltersDiffer(r: Request, t: Request)
    requires Collide(r, t)
    ensures t.ext != r.ext || t.since != r.since
    ensures t.page == r.page
  {
    SameKey(r, t);
    if Rest(t) == Rest(r) {
      assert (t.q + "|" + Rest(t))[..|t.q|] == t.q && (r.q + "|" + Rest(r))[..|r.q|] == r.q;
    }
  }

  lemma {:induction false} FirstBar(s: string) returns (u: string, v: string)
    requires BAR in s
    ensures s == u + "|" + v && |u| < |s|
  {
    if s[0] == BAR {
      u, v := "", s[1..];
    } else {
      u, v := FirstBar(s[1..]);
      u := [s[0]] + u;
    }
  }

  /** A bar in the query: the request whose query ends there. */
  lemma ShorterCollider(r: Request, p: int) returns (t: Request)
    requires LookedUp(r) && CutInQuery(r, p)
    ensures Collide(r, t) && t.q == r.q[..p]
  {
    t := Request(r.q[..p], r.q[p + 1..] + "|" + r.ext, r.since, r.page);
    assert r.q == r.q[..p] + "|" + r.q[p + 1..];
    assert t.q + "|" + Rest(t) == r.q + "|" + Rest(r);
    SameKey(r, t);
    LookedUpEnds(r);
    LookedUpEnds(t);
  }

  /** A bar in a filter: the request with the same query whose filters are divided there. */
  lemma SameQueryCollider(r: Request) returns (t: Request)
    requires LookedUp(r) && !PlainFilters(r)
    ensures Collide(r, t) && t.q == r.q
  {
    if BAR in r.ext {
      var u, v := FirstBar(r.ext);
      t := r.(ext := u, since := v + "|" + r.since);
    } else {
      var u, v := FirstBar(r.since);
      t := r.(ext := r.ext + "|" + u, since := v);
      assert |t.ext| > |r.ext|;
    }
    assert Rest(t) == Rest(r);
    SameKey(r, t);
  }

  /** Two bars in the filters: the request whose query reaches up to the first of them. */
  lemma LongerCollider(r: Request, k: int) returns (t: Request)
    requires LookedUp(r) && CutInFilters(r, k)
    ensures Collide(r, t) && t.q == r.q + "|" + Rest(r)[..k]
  {
    var u, v := FirstBar(Rest(r)[k + 1..]);
    t := Request(r.q + "|" + Rest(r)[..k], u, v, r.page);
    LookedUpEnds(r);
    LookedUpEnds(t);
    SameKey(r, t);
    hide Key, LookedUp, Text.IsSpace;
    assert Rest(r) == Rest(r)[..k] + "|" + Rest(t);
    assert t.q + "|" + Rest(t) == r.q + "|" + Rest(r);
    assert t.q[|t.q| - 1] == if k == 0 then BAR else Rest(r)[k - 1];
    assert !Text.IsSpace(BAR) by { BarIsNoSpace(); }
  }

  lemma BarIsNoSpace()
    ensures !Text.IsSpace(BAR)
  {
  }

  /**
    Exactly when another request that the handler looks up has the same key: when a filter has a bar, or the query
    has one that is neither its first character nor behind white space.
   */
  lemma KeyAmbiguous(r: Request)
    requires LookedUp(r)
    ensures (exists t :: Collide(r, t)) <==> !PlainFilters(r) || exists p :: CutInQuery(r, p)
  {
    hide Collide, CutInQuery, PlainFilters;
    if t :| Collide(r, t) {
      CollisionShape(r, t);
      assert CutInQuery(r, |t.q|) || !PlainFilters(r);
    }
    if !PlainFilters(r) {
      var t := SameQueryCollider(r);
    } else if p :| CutInQuery(r, p) {
      var t := ShorterCollider(r, p);
    }
  }

  // ---------- the handler ----------

  /** A search result as the index returns it; the cache has a type of its own with the same fields. */
  datatype Found = Found(path: string, snippet: string)

  function ToCache(found: seq<Found>): seq<Lru.Result> {
    seq(|found|, i requires 0 <= i < |found| => Lru.Result(found[i].path, found[i].snippet))
  }

  function FromCache(results: seq<Lru.Result>): seq<Found> {
    seq(|results|, i requires 0 <= i < |results| => Found(results[i].path, results[i].snippet))
  }

  /** The fixed index: the ranked matches of a sanitized query under the filters. */
  type Index = (string, string, string) -> seq<Found>

  /** Whether one of the two database calls of a search fails. */
  datatype Fault = NoFault | SearchFails | CountFails

  datatype Response =
    | Answer(results: seq<Found>, total: int, page: int, pages: int, cached: bool)
    | Failed

  /** The answer with no cache at all. */
  function Direct(index: Index, r: Request): Response {
    if r.q == "" then Answer([], 0, r.page, 1, false)
    else match Sanitizer.Sanitize(r.q)
      case Query(safe) =>
        var all := index(safe, r.ext, r.since);
        Answer(PageOf(all, r.page), |all|, r.page, Pages(|all|), false)
      case _ => Failed
  }

  /** The entry a computed answer leaves in the cache. */
  function Entry(cfg: Lru.Config, r: Request, a: Response, now: int): Lru.Item
    requires a.Answer?
  {
    Lru.Item(Key(r), ToCache(a.results), a.total, now + cfg.ttl)
  }

  /** The handler's answer to a normalised request, and the cache contents it leaves. */
  function Handled(cfg: Lru.Config, index: Index, s: Lru.Recency, r: Request, now: int, fault: Fault)
    : (Lru.Recency, Response)
  {
    var direct := Direct(index, r);
    if r.q == "" then (s, direct)
    else
      var t := Lru.AfterGet(s, Key(r), now);
      match Lru.GetAnswer(s, Key(r), now)
      case Some(a) => (t, Answer(FromCache(a.results), a.total, r.page, Pages(a.total), true))
      case None =>
        if fault != NoFault || direct.Failed? then (t, Failed)
        else if direct.results == [] then (t, direct)
        else (Lru.AfterSet(cfg, t, Entry(cfg, r, direct, now)), direct)
  }

  method CopyToCache(found: seq<Found>) returns (items: seq<Lru.Result>)
    ensures items == ToCache(found)
    ensures |items| == |found|
    ensures forall i :: 0 <= i < |found| ==> items[i].path == found[i].path && items[i].snippet == found[i].snippet
  {
    items := [];
    for i := 0 to |found|
      invariant items == ToCache(found[..i])
    {
      items := items + [Lru.Result(found[i].path, found[i].snippet)];
    }
    assert found[..|found|] == found;
  }

  method CopyFromCache(items: seq<Lru.Result>) returns (found: seq<Found>)
    ensures found == FromCache(items)
    ensures |found| == |items|
    ensures forall i :: 0 <= i < |items| ==> found[i].path == items[i].path && found[i].snippet == items[i].snippet
  {
    found := [];
    for i := 0 to |items|
      invariant found == FromCache(items[..i])
    {
      found := found + [Found(items[i].path, items[i].snippet)];
    }
    assert items[..|items|] == items;
  }

  /** What the handler makes of a request: the query trimmed, and page 1 when no page, or none from 1 on, was given. */
  lemma NormalisedExactly(raw: Request)
    ensures var r := Normalised(raw);
      && r.q == Sanitizer.TrimSpace(raw.q) && r.ext == raw.ext && r.since == raw.since
      && (raw.page < 1 ==> r.page == 1) && (raw.page >= 1 ==> r.page == raw.page)
  {
  }

  function KeyOf(q: string, raw: Request): string {
    q + "|" + raw.ext + "|" + raw.since + "|" + Decimal.Format(if raw.page < 1 then 1 else raw.page)
  }

  function PageCount(total: int): int {
    if total <= 10 then 1 else (total + 9) / 10
  }

  predicate IsFresh(item: Lru.Item, key: string, now: int) {
    item.key == key && now <= item.exp
  }

  /** An empty query is answered with nothing, and the cache stays as it is. */
  lemma EmptyQueryExactly(cfg: Lru.Config, index: Index, s: Lru.Recency, raw: Request, now: int, fault: Fault)
    requires Sanitizer.TrimSpace(raw.q) == ""
    ensures Handled(cfg, index, s, Normalised(raw), now, fault)
         == (s, Answer([], 0, if raw.page < 1 then 1 else raw.page, 1, false))
  {
  }

  /** A fresh entry of the request's key answers it, marked as cached, and moves to the front. */
  lemma HitExactly(cfg: Lru.Config, index: Index, s: Lru.Recency, raw: Request, now: int, fault: Fault, i: int)
    requires Sanitizer.TrimSpace(raw.q) != "" && Lru.DistinctKeys(s)
    requires 0 <= i < |s| && IsFresh(s[i], KeyOf(Sanitizer.TrimSpace(raw.q), raw), now)
    ensures var (t, resp) := Handled(cfg, index, s, Normalised(raw), now, fault);
      && t == [s[i]] + s[..i] + s[i + 1..]
      && resp.Answer? && resp.cached && |resp.results| == |s[i].results|
      && (forall j :: 0 <= j < |resp.results| ==> resp.results[j] == Found(s[i].results[j].path, s[i].results[j].snippet))
      && resp.total == s[i].total && resp.pages == PageCount(s[i].total)
      && resp.page == if raw.page < 1 then 1 else raw.page
  {
    Lru.GetExactly(s, s[i].key, now);
  }

  /**
    Without a fresh entry the request is computed: it fails when a database call does or the query is refused; otherwise
    it is answered with its page of the matches, their number and the number of pages, and, unless that page is empty,
    the page goes to the front of the cache for one time to live. An expired entry of the key is dropped in any case.
   */
  lemma MissExactly(cfg: Lru.Config, index: Index, s: Lru.Recency, raw: Request, now: int, fault: Fault)
    requires Sanitizer.TrimSpace(raw.q) != "" && Lru.DistinctKeys(s)
    requires forall i :: 0 <= i < |s| ==> !IsFresh(s[i], KeyOf(Sanitizer.TrimSpace(raw.q), raw), now)
    ensures var (t, resp) := Handled(cfg, index, s, Normalised(raw), now, fault);
      var key := KeyOf(Sanitizer.TrimSpace(raw.q), raw);
      var safe := Sanitizer.Sanitize(Sanitizer.TrimSpace(raw.q));
      if fault != NoFault || !safe.Query? then resp == Failed && t == Lru.AfterGet(s, key, now)
      else
        var all := index(safe.text, raw.ext, raw.since);
        var page := if raw.page < 1 then 1 else raw.page;
        && resp == Answer(PageOf(all, page), |all|, page, PageCount(|all|), false)
        && t == if resp.results == [] then Lru.AfterGet(s, key, now)
                else Lru.AfterSet(cfg, Lru.AfterGet(s, key, now), Lru.Item(key, ToCache(resp.results), |all|, now + cfg.ttl))
  {
    hide Lru.AfterGet, Lru.AfterSet, Sanitizer.Sanitize, Sanitizer.TrimSpace, PageOf, Lru.GetAnswer;
    Lru.GetExactly(s, KeyOf(Sanitizer.TrimSpace(raw.q), raw), now);
    NoFreshEntry(s, KeyOf(Sanitizer.TrimSpace(raw.q), raw), now);
  }

  lemma NoFreshEntry(s: Lru.Recency, key: string, now: int)
    requires Lru.DistinctKeys(s) && forall i :: 0 <= i < |s| ==> !IsFresh(s[i], key, now)
    ensures Lru.GetAnswer(s, key, now) == None
  {
    Lru.GetExactly(s, key, now);
    if i :| 0 <= i < |s| && s[i].key == key { assert now > s[i].exp by { assert !IsFresh(s[i], key, now); } }
  }

  /** In particular a request without a page gets the first ten matches, as page 1. */
  lemma FirstPageByDefault(cfg: Lru.Config, index: Index, raw: Request, now: int)
    requires raw.page < 1 && Sanitizer.Sanitize(Sanitizer.TrimSpace(raw.q)).Query?
    ensures var resp := Handled(cfg, index, [], Normalised(raw), now, NoFault).1;
      var all := index(Sanitizer.Sanitize(Sanitizer.TrimSpace(raw.q)).text, raw.ext, raw.since);
      && resp.Answer? && resp.page == 1 && resp.total == |all|
      && resp.results == if |all| <= 10 then all else all[..10]
  {
    assert Sanitizer.TrimSpace(raw.q) != "" by { Sanitizer.TrimmedEnds(raw.q); }
    assert Offset(1) == 0;
    MissExactly(cfg, index, [], raw, now, NoFault);
    hide Handled, Offset, PageOf, Normalised, Sanitizer.Sanitize, Sanitizer.TrimSpace;
    var all := index(Sanitizer.Sanitize(Sanitizer.TrimSpace(raw.q)).text, raw.ext, raw.since);
    PageExactly(all, 1);
  }

  class Server {
    const index: Index
    const cache: Cache.Cache

    constructor (index: Index, cache: Cache.Cache)
      ensures this.index == index && this.cache == cache
    {
      this.index, this.cache := index, cache;
    }

    method HandleSearch(raw: Request, now: int, fault: Fault) returns (resp: Response)
      requires cache.Valid()
      modifies cache, cache.repr
      ensures cache.Valid()
      ensures (cache.contents, resp) == Handled(cache.Config(), index, old(cache.contents), Normalised(raw), now, fault)
    {
      hide Lru.AfterGet, Lru.AfterSet, Lru.GetAnswer, Cache.Cache.Valid, Sanitizer.Sanitize;
      var r := Normalised(raw);
      var offset := Offset(r.page);
      var results: seq<Found>, total := [], 0;
      if r.q != "" {
        var held, heldTotal, ok := cache.Get(Key(r), now);
        if ok {
          var copied := CopyFromCache(held);
          return Answer(copied, heldTotal, r.page, Pages(heldTotal), true);
        }
        if fault == SearchFails { return Failed; }
        var safe := Sanitizer.Sanitize(r.q);
        if !safe.Query? { return Failed; }
        var all := index(safe.text, r.ext, r.since);
        results := Slice(all, offset);
        if fault == CountFails { return Failed; }
        total := |all|;
        if |results| > 0 {
          var items := CopyToCache(results);
          cache.Set(Key(r), items, total, now);
        }
      }
      return Answer(results, total, r.page, Pages(total), false);
    }
  }

  // ---------- the cache is transparent ----------

  /** The entry holds the answer to request `r`. */
  predicate Holds(index: Index, item: Lru.Item, r: Request) {
    var direct := Direct(index, r);
    r.q != "" && item.key == Key(r) && direct.Answer? && item.results == ToCache(direct.results) && item.total == direct.total
  }

  /** Every entry holds the answer to some request of the kind `served`. */
  ghost predicate Faithful(index: Index, s: Lru.Recency, served: Request -> bool) {
    forall item :: item in s ==> exists r :: served(r) && Holds(index, item, r)
  }

  /** The two answers are the same, apart from the mark that says where they come from. */
  predicate Agree(a: Response, b: Response) {
    if a.Failed? || b.Failed? then a == b else a.(cached := false) == b.(cached := false)
  }

  lemma HandledStaysFaithful(cfg: Lru.Config, index: Index, s: Lru.Recency, r: Request, now: int, fault: Fault, served: Request -> bool)
    requires Faithful(index, s, served) && served(r)
    ensures Faithful(index, Handled(cfg, index, s, r, now, fault).0, served)
  {
    var direct := Direct(index, r);
    if r.q != "" {
      var t := Lru.AfterGet(s, Key(r), now);
      Lru.AfterGetMembers(s, Key(r), now);
      hide Lru.AfterGet, Lru.AfterSet, Lru.GetAnswer;
      if direct.Answer? {
        var entry := Entry(cfg, r, direct, now);
        Lru.AfterSetMembers(cfg, t, entry);
        assert Holds(index, entry, r);
      }
    }
  }

  lemma CopiesAgree(found: seq<Found>)
    ensures FromCache(ToCache(found)) == found
  {
  }

  /** The request's answer can be in the cache. */
  predicate Cacheable(index: Index, r: Request) {
    r.q != "" && Direct(index, r).Answer?
  }

  /** An answer served from a faithful cache is the direct one when no other request that can be in it has the same key. */
  lemma AnswerIsDirect(cfg: Lru.Config, index: Index, s: Lru.Recency, r: Request, now: int, fault: Fault, served: Request -> bool)
    requires Faithful(index, s, served)
    requires forall t :: served(t) && Cacheable(index, t) && Key(t) == Key(r) ==> t == r
    ensures var resp := Handled(cfg, index, s, r, now, fault).1;
      Agree(resp, Direct(index, r)) || (fault != NoFault && resp.Failed?)
  {
    var item := Lru.Lookup(s, Key(r));
    Lru.LookupFinds(s, Key(r));
    if r.q != "" && item.Some? && now <= item.value.exp {
      var t :| served(t) && Holds(index, item.value, t);
      assert t == r;
      CopiesAgree(Direct(index, r).results);
    }
    hide Lru.AfterGet, Lru.AfterSet, Key, Direct, Lru.Lookup;
  }

  /** What happens to the cache while the index stays the same. */
  datatype Event =
    | Ask(raw: Request, now: int, fault: Fault)
    | FlushCache
    | Invalidate(path: string)

  function Next(cfg: Lru.Config, index: Index, s: Lru.Recency, e: Event): Lru.Recency {
    match e
    case Ask(raw, now, fault) => Handled(cfg, index, s, Normalised(raw), now, fault).0
    case FlushCache => []
    case Invalidate(path) => Lru.AfterInvalidate(s, path)
  }

  function Run(cfg: Lru.Config, index: Index, s: Lru.Recency, events: seq<Event>): Lru.Recency
    decreases |events|
  {
    if events == [] then s else Run(cfg, index, Next(cfg, index, s, events[0]), events[1..])
  }

  lemma {:induction false} RunStaysFaithful(cfg: Lru.Config, index: Index, s: Lru.Recency, events: seq<Event>, served: Request -> bool)
    requires Faithful(index, s, served)
    requires forall i :: 0 <= i < |events| && events[i].Ask? ==> served(Normalised(events[i].raw))
    ensures Faithful(index, Run(cfg, index, s, events), served)
    decreases |events|
  {
    if events == [] {
    } else {
      var t := Next(cfg, index, s, events[0]);
      match events[0] {
        case Ask(raw, now, fault) => HandledStaysFaithful(cfg, index, s, Normalised(raw), now, fault, served);
        case FlushCache =>
        case Invalidate(path) => Lru.SurvivingMembers(s, Lru.KeySet(s), path);
      }
      RunStaysFaithful(cfg, index, t, events[1..], served);
    }
  }

  /**
    Transparency: after any run of requests whose filters have no bar, with evictions, expiries, flushes and
    invalidations anywhere, a request gets the results, the total and the page count it would get with no cache.
   */
  lemma CacheIsTransparent(cfg: Lru.Config, index: Index, events: seq<Event>, raw: Request, now: int, fault: Fault)
    requires forall i :: 0 <= i < |events| && events[i].Ask? ==> PlainFilters(events[i].raw)
    requires PlainFilters(raw)
    ensures var r := Normalised(raw);
      var resp := Handled(cfg, index, Run(cfg, index, [], events), r, now, fault).1;
      Agree(resp, Direct(index, r)) || (fault != NoFault && resp.Failed?)
  {
    var served := (r: Request) => PlainFilters(r);
    var r := Normalised(raw);
    RunStaysFaithful(cfg, index, [], events, served);
    forall t | served(t) && Key(t) == Key(r) ensures t == r { KeysInjective(t, r); }
    AnswerIsDirect(cfg, index, Run(cfg, index, [], events), r, now, fault, served);
  }

  /**
    A request that can be given a wrong answer: some query that shares its key is not refused. Either the query can be
    cut at a bar and what is before the bar is not refused; or a filter has a bar and the query itself is not refused,
    or can be extended to a bar in the filters.
   */
  ghost predicate Misled(r: Request) {
    || (exists p :: CutInQuery(r, p) && Sanitizer.Sanitize(r.q[..p]).Query?)
    || (!PlainFilters(r) && (Sanitizer.Sanitize(r.q).Query? || exists k :: CutInFilters(r, k)))
  }

  lemma MisledCollides(r: Request)
    requires LookedUp(r)
    ensures Misled(r) <==> exists t :: Collide(r, t) && Sanitizer.Sanitize(t.q).Query?
  {
    hide Collide, CutInFilters, Sanitizer.Sanitize, PlainFilters;
    if t :| Collide(r, t) && Sanitizer.Sanitize(t.q).Query? {
      CollisionShape(r, t);
      assert |t.q| < |r.q| ==> CutInQuery(r, |t.q|);
      assert |t.q| > |r.q| ==> CutInFilters(r, |t.q| - |r.q| - 1);
    }
    if p :| CutInQuery(r, p) && Sanitizer.Sanitize(r.q[..p]).Query? {
      var t := ShorterCollider(r, p);
    } else if !PlainFilters(r) && Sanitizer.Sanitize(r.q).Query? {
      var t := SameQueryCollider(r);
    } else if k :| !PlainFilters(r) && CutInFilters(r, k) {
      var t := LongerCollider(r, k);
      assert t.q[|r.q|] == BAR;
      Sanitizer.MarkIsEnough(t.q, |r.q|);
    }
  }

  /** Of two requests with one key and different answers, the second is served the first one's. */
  lemma ServedTheOtherAnswer(cfg: Lru.Config, index: Index, first: Request, second: Request, now: int)
    requires cfg.Valid() && first.q != "" && second.q != "" && Key(first) == Key(second)
    requires Direct(index, first).Answer? && Direct(index, first).results != []
    requires !Agree(Direct(index, first).(page := second.page), Direct(index, second))
    ensures var s := Handled(cfg, index, [], first, now, NoFault).0;
      !Agree(Handled(cfg, index, s, second, now, NoFault).1, Direct(index, second))
  {
    var direct := Direct(index, first);
    var entry := Entry(cfg, first, direct, now);
    CopiesAgree(direct.results);
    hide Key, Direct;
    assert Lru.AfterGet([], Key(first), now) == [];
    assert Lru.AfterSet(cfg, [], entry) == [entry];
    assert Lru.Lookup([entry], Key(second)) == Some(entry);
  }

  /** An index that has enough matches to fill the request's page, and none under any other filters. */
  function Telling(t: Request): Index {
    var n := if Offset(t.page) < 0 then 1 else Offset(t.page) + 1;
    (safe, ext, since) => if ext == t.ext && since == t.since then seq(n, _ => Found("", "")) else []
  }

  /** A collision with a query that is not refused, turned into a first request, an index and a wrong answer. */
  lemma CollidingRequestIsServedTheWrongAnswer(cfg: Lru.Config, first: Request, second: Request, now: int)
    requires cfg.Valid() && Collide(second, first) && Sanitizer.Sanitize(first.q).Query?
    ensures var index := Telling(first);
      !Agree(Handled(cfg, index, Run(cfg, index, [], [Ask(first, now, NoFault)]), second, now, NoFault).1, Direct(index, second))
  {
    var index := Telling(first);
    var first' := Direct(index, first);
    FiltersDiffer(second, first);
    hide Sanitizer.Sanitize, Key, LookedUp;
    assert first'.results != [] && first'.total > 0;
    assert Direct(index, second).Answer? ==> Direct(index, second).total == 0;
    ServedTheOtherAnswer(cfg, index, first, second, now);
    assert Normalised(first) == first by { assert Collide(second, first); }
    assert Run(cfg, index, [], [Ask(first, now, NoFault)])
        == Run(cfg, index, Next(cfg, index, [], Ask(first, now, NoFault)), []);
  }

  /** Some index and some history make the handler answer the request differently than with no cache. */
  ghost predicate CanBeWronged(cfg: Lru.Config, r: Request) {
    exists index: Index, events, now ::
      !Agree(Handled(cfg, index, Run(cfg, index, [], events), r, now, NoFault).1, Direct(index, r))
  }

  /** A request that is not misled is answered as if there were no cache, whatever has been asked before. */
  lemma CacheIsTransparentUnlessMisled(
    cfg: Lru.Config, index: Index, events: seq<Event>, raw: Request, now: int, fault: Fault)
    requires var r := Normalised(raw); r.q != "" ==> !Misled(r)
    ensures var r := Normalised(raw);
      var resp := Handled(cfg, index, Run(cfg, index, [], events), r, now, fault).1;
      Agree(resp, Direct(index, r)) || (fault != NoFault && resp.Failed?)
  {
    var served := (t: Request) => t == Normalised(t);
    var r := Normalised(raw);
    if r.q != "" {
      NormalisedTwice(raw);
      forall i | 0 <= i < |events| && events[i].Ask? ensures served(Normalised(events[i].raw)) {
        NormalisedTwice(events[i].raw);
      }
      RunStaysFaithful(cfg, index, [], events, served);
      MisledCollides(r);
      hide Misled, Handled, Key;
      forall t | served(t) && Cacheable(index, t) && Key(t) == Key(r) ensures t == r {
        assert t == r || Collide(r, t);
      }
      AnswerIsDirect(cfg, index, Run(cfg, index, [], events), r, now, fault, served);
    }
  }

  /** Exactly which requests a cache keyed this way can answer wrongly. */
  lemma WrongAnswersExactly(cfg: Lru.Config, raw: Request)
    requires cfg.Valid()
    ensures var r := Normalised(raw); CanBeWronged(cfg, r) <==> r.q != "" && Misled(r)
  {
    var r := Normalised(raw);
    NormalisedTwice(raw);
    hide Misled, Handled, Run, Direct, Agree, Sanitizer.Sanitize, Collide;
    if r.q == "" || !Misled(r) {
      forall index: Index, events, now
        ensures Agree(Handled(cfg, index, Run(cfg, index, [], events), r, now, NoFault).1, Direct(index, r))
      {
        CacheIsTransparentUnlessMisled(cfg, index, events, raw, now, NoFault);
      }
    } else {
      MisledCollides(r);
      var t :| Collide(r, t) && Sanitizer.Sanitize(t.q).Query?;
      CollidingRequestIsServedTheWrongAnswer(cfg, t, r, 0);
      assert CanBeWronged(cfg, r);
    }
  }

  /** In particular a request without any bar is never answered wrongly. */
  lemma CacheIsTransparentToPlainRequests(
    cfg: Lru.Config, index: Index, events: seq<Event>, raw: Request, now: int, fault: Fault)
    requires Plain(Normalised(raw))
    ensures var r := Normalised(raw);
      var resp := Handled(cfg, index, Run(cfg, index, [], events), r, now, fault).1;
      Agree(resp, Direct(index, r)) || (fault != NoFault && resp.Failed?)
  {
    CacheIsTransparentUnlessMisled(cfg, index, events, raw, now, fault);
  }

  /** The shortest collision: the bar belongs to the query of one request and to the filter of the other. */
  lemma ShortestCollision()
    ensures Collide(Request("a|b", "c", "", 1), Request("a", "b|c", "", 1))
  {
    var r, t := Request("a|b", "c", "", 1), Request("a", "b|c", "", 1);
    assert t.q + "|" + Rest(t) == "a|b|c|" == r.q + "|" + Rest(r);
    SameKey(r, t);
    LookedUpEnds(r);
    LookedUpEnds(t);
  }
}
