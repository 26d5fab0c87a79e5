/** The sampler of the finder screen (screens/FinderScreen.tsx:48-126): probe
    the match count, draw up to six random pages of forty games, pool them,
    and pick three distinct games; plus the screen state it writes.

    The catalogue API is an oracle: `probe` is the answer to the count request
    and `pages(p)` the answer for page p, None standing for any request that
    throws. Math.random() is the stream `rand` of PickRandom, read from rand(0)
    on: one value per attempt of the page loop, then the shuffle's. */
module Finder {
  import opened Wrappers
  import opened Models
  import opened PickRandom
  import Rawg

  const PageSize: nat := 40
  const MaxAttempts: nat := 6
  const BucketCap: nat := 120
  const PickCount: nat := 3

  const MsgNoMatches: string := "No games found with these filters."
  const MsgNoneFound: string := "No games found (try different filters)."
  const MsgFailure: string := "Failed to fetch games. Check API key / network."

  /** How one run of fetchRandom3 ends. */
  datatype Outcome = Success(picks: seq<Game>) | NoMatches | NoneFound | Failure

  /** The probe's count passes `!total || total <= 0`. */
  predicate HasMatches(probe: Option<ListResponse>) {
    probe.Some? && probe.value.count.Some? && probe.value.count.value > 0
  }

  /** Math.max(1, Math.ceil(total / PAGE_SIZE)) */
  function MaxPage(total: int): int {
    var pages := (total + PageSize - 1) / PageSize;
    if pages > 1 then pages else 1
  }

  /** 1 + Math.floor(Math.random() * maxPage) */
  function DrawPage(u: nat, maxPage: int): int
    requires maxPage >= 1
  {
    1 + ScaledDraw(u, maxPage)
  }

  /** The error text the screen shows for an outcome. */
  function Message(outcome: Outcome): Option<string> {
    match outcome
    case Success(_) => None
    case NoMatches => Some(MsgNoMatches)
    case NoneFound => Some(MsgNoneFound)
    case Failure => Some(MsgFailure)
  }

  /* ---------------------------------------------------------------------
     The page space
     --------------------------------------------------------------------- */

  /** maxPage is at least 1, and for a positive total it is the ceiling of
      total / 40: the fewest 40-game pages that hold total games. */
  lemma MaxPageIsCeiling(total: int)
    ensures MaxPage(total) >= 1
    ensures total > 0 ==> (MaxPage(total) - 1) * PageSize < total <= MaxPage(total) * PageSize
  {
  }

  /** Every drawn page lies in 1..maxPage, and every page there can be drawn. */
  lemma DrawPageRange(u: nat, maxPage: int)
    requires u < RandomScale && maxPage >= 1
    ensures 1 <= DrawPage(u, maxPage) <= maxPage
  {
    ScaledDrawRange(u, maxPage);
  }

  lemma DrawPageOnto(page: int, maxPage: int)
    requires 1 <= page <= maxPage <= RandomScale
    ensures exists u :: 0 <= u < RandomScale && DrawPage(u, maxPage) == page
  {
    ScaledDrawOnto(page - 1, maxPage);
    var u := ((page - 1) * RandomScale + maxPage - 1) / maxPage;
    assert DrawPage(u, maxPage) == page;
  }

  /** The pages 1..m. */
  function PageRange(m: nat): (r: set<int>)
    ensures |r| == m
    ensures forall p :: p in r <==> 1 <= p <= m
  {
    if m == 0 then {} else PageRange(m - 1) + {m}
  }

  lemma SubsetCard(a: set<int>, b: set<int>)
    requires a <= b
    ensures |a| <= |b|
  {
    assert b == a + (b - a);
    assert a * (b - a) == {};
  }

  /** Pigeonhole: distinct pages drawn from 1..m are at most m. */
  lemma DistinctPagesBound(ps: seq<int>, m: nat)
    requires NoRepeats(ps)
    requires forall i :: 0 <= i < |ps| ==> 1 <= ps[i] <= m
    ensures |ps| <= m
  {
    DistinctCard(ps);
    SubsetCard((set x | x in ps), PageRange(m));
  }

  lemma IdsEmpty(games: seq<Game>)
    ensures Ids(games) == {} <==> games == []
  {
    if games != [] {
      assert games[0].id in Ids(games);
    }
  }

  /* ---------------------------------------------------------------------
     The page requests
     --------------------------------------------------------------------- */

  /** The page attempt a of the loop draws: it reads rand(a). */
  function PageDraws(rand: nat -> nat, maxPage: int): nat -> int
    requires maxPage >= 1
  {
    (a: nat) => DrawPage(rand(a), maxPage)
  }

  /** The pages the first n attempts draw, in order. */
  function Draws(draw: nat -> int, n: nat): (r: seq<int>)
    ensures |r| == n
  {
    if n == 0 then [] else Draws(draw, n - 1) + [draw(n - 1)]
  }

  /** What the triedPages Set lets through: each drawn page at its first
      drawing, in order. */
  function Untried(drawn: seq<int>): (r: seq<int>)
    ensures |r| <= |drawn|
  {
    if drawn == [] then []
    else
      var r := Untried(drawn[..|drawn| - 1]);
      var page := drawn[|drawn| - 1];
      if page in r then r else r + [page]
  }

  /** Every page is requested at most once, every drawn page is requested, and
      nothing else is. */
  lemma {:induction false} UntriedFacts(drawn: seq<int>)
    ensures NoRepeats(Untried(drawn))
    ensures forall p :: p in Untried(drawn) <==> p in drawn
  {
    if drawn != [] {
      var init := drawn[..|drawn| - 1];
      UntriedFacts(init);
      assert drawn == init + [drawn[|drawn| - 1]];
    }
  }

  /** The games the page requests returned, concatenated in request order;
      None as soon as one of them threw. */
  function Fetched(pages: int -> Option<ListResponse>, requested: seq<int>): Option<seq<Game>> {
    if requested == [] then Some([])
    else
      var before :- Fetched(pages, requested[..|requested| - 1]);
      var resp :- pages(requested[|requested| - 1]);
      Some(before + resp.results)
  }

  /** One more page request, after requests that fetched `bucket`. */
  lemma FetchedStep(pages: int -> Option<ListResponse>, requested: seq<int>, bucket: seq<Game>, page: int)
    requires Fetched(pages, requested) == Some(bucket)
    ensures Fetched(pages, requested + [page]) ==
      if pages(page).None? then None else Some(bucket + pages(page).value.results)
  {
    assert (requested + [page])[..|requested|] == requested;
  }

  /** Every page was requested while the pool held fewer than BucketCap games
      and no request had thrown. */
  predicate RequestedUnderCap(pages: int -> Option<ListResponse>, requested: seq<int>) {
    forall k :: 0 <= k < |requested| ==>
      Fetched(pages, requested[..k]).Some? && |Fetched(pages, requested[..k]).value| < BucketCap
  }

  /** A request made while the pool is under the cap keeps every request under
      the cap. */
  lemma UnderCapAppend(pages: int -> Option<ListResponse>, requested: seq<int>, page: int)
    requires RequestedUnderCap(pages, requested)
    requires Fetched(pages, requested).Some? && |Fetched(pages, requested).value| < BucketCap
    ensures RequestedUnderCap(pages, requested + [page])
  {
    var r := requested + [page];
    forall k | 0 <= k < |r|
      ensures Fetched(pages, r[..k]).Some? && |Fetched(pages, r[..k]).value| < BucketCap
    {
      assert r[..k] == requested[..k];
      if k == |requested| {
        assert requested[..k] == requested;
      }
    }
  }

  /** The loop's condition after the first a draws: no request has thrown and
      the pool holds fewer than BucketCap games. */
  predicate UnderCapAt(pages: int -> Option<ListResponse>, draw: nat -> int, a: nat) {
    Fetched(pages, Untried(Draws(draw, a))).Some? && |Fetched(pages, Untried(Draws(draw, a))).value| < BucketCap
  }

  /** The loop's condition held before each of the first n draws. */
  predicate AttemptedUnderCap(pages: int -> Option<ListResponse>, draw: nat -> int, n: nat) {
    n == 0 || (AttemptedUnderCap(pages, draw, n - 1) && UnderCapAt(pages, draw, n - 1))
  }

  /** The loop (lines 98-110) makes exactly n draws: its condition held before
      each of them and fails after the last. */
  predicate StopsAt(pages: int -> Option<ListResponse>, draw: nat -> int, n: nat) {
    && n <= MaxAttempts
    && AttemptedUnderCap(pages, draw, n)
    && (n == MaxAttempts || !UnderCapAt(pages, draw, n))
  }

  /** No draw is made once the condition fails: before the n-th draw it held
      at every earlier point. */
  lemma {:induction false} AttemptedBefore(pages: int -> Option<ListResponse>, draw: nat -> int, n: nat, a: nat)
    requires AttemptedUnderCap(pages, draw, n) && a < n
    ensures UnderCapAt(pages, draw, a)
  {
    if a < n - 1 {
      AttemptedBefore(pages, draw, n - 1, a);
    }
  }

  /** The number of draws is determined by the catalogue's answers and the
      stream, so the shuffle starts reading at a fixed place. */
  lemma StopsOnce(pages: int -> Option<ListResponse>, draw: nat -> int, n1: nat, n2: nat)
    requires StopsAt(pages, draw, n1) && StopsAt(pages, draw, n2)
    ensures n1 == n2
  {
    if n1 < n2 {
      AttemptedBefore(pages, draw, n2, n1);
    } else if n2 < n1 {
      AttemptedBefore(pages, draw, n1, n2);
    }
  }

  /** Lines 113-118 applied to a pool. */
  predicate PickedFrom(bucket: seq<Game>, picks: seq<Game>) {
    && |picks| == SliceLength(PickCount, |Ids(bucket)|)
    && DistinctIds(picks)
    && (forall g :: g in picks ==> g.id in Ids(bucket) && g == LastWith(bucket, g.id))
    && multiset(picks) <= multiset(Dedup(bucket))
  }

  /* ---------------------------------------------------------------------
     fetchRandom3, without the state updates
     --------------------------------------------------------------------- */

  /** The page loop's invariant after n draws: the pages requested are the
      drawn pages at their first drawing, `tried` holds exactly them, each
      was requested and each draw made while the loop's condition held, and
      the bucket is what the requests fetched unless one threw. */
  ghost predicate PageLoop(pages: int -> Option<ListResponse>, draw: nat -> int, n: nat,
                     requested: seq<int>, bucket: seq<Game>, failed: bool, tried: set<int>)
  {
    && n <= MaxAttempts
    && requested == Untried(Draws(draw, n))
    && (forall p :: p in tried <==> p in requested)
    && RequestedUnderCap(pages, requested)
    && Fetched(pages, requested) == (if failed then None else Some(bucket))
    && AttemptedUnderCap(pages, draw, n)
  }

  /** One pass of the loop body (lines 99-109) keeps the invariant. */
  lemma AttemptKeeps(pages: int -> Option<ListResponse>, draw: nat -> int, n: nat,
                     requested: seq<int>, bucket: seq<Game>, tried: set<int>)
    requires PageLoop(pages, draw, n, requested, bucket, false, tried)
    requires n < MaxAttempts && |bucket| < BucketCap
    ensures var page := draw(n);
      if page in tried then PageLoop(pages, draw, n + 1, requested, bucket, false, tried)
      else
        var resp := pages(page);
        PageLoop(pages, draw, n + 1, requested + [page],
                 if resp.None? then bucket else bucket + resp.value.results, resp.None?, tried + {page})
  {
    var page := draw(n);
    assert Draws(draw, n + 1) == Draws(draw, n) + [page];
    if page !in tried {
      FetchedStep(pages, requested, bucket, page);
      UnderCapAppend(pages, requested, page);
    }
  }

  /** Before the first draw: nothing requested, tried or fetched. */
  lemma PageLoopStart(pages: int -> Option<ListResponse>, draw: nat -> int)
    ensures PageLoop(pages, draw, 0, [], [], false, {})
  {
  }

  /** When the loop's condition fails, the invariant gives what the loop
      promises: the requests, the pool and exactly the draws made. */
  lemma PageLoopDone(pages: int -> Option<ListResponse>, draw: nat -> int, n: nat,
                     requested: seq<int>, bucket: seq<Game>, failed: bool, tried: set<int>)
    requires PageLoop(pages, draw, n, requested, bucket, failed, tried)
    requires !(n < MaxAttempts && |bucket| < BucketCap && !failed)
    ensures n <= MaxAttempts
    ensures requested == Untried(Draws(draw, n))
    ensures RequestedUnderCap(pages, requested)
    ensures Fetched(pages, requested) == if failed then None else Some(bucket)
    ensures !failed ==> n == MaxAttempts || |bucket| >= BucketCap
    ensures StopsAt(pages, draw, n)
  {
  }

  /** Lines 98-110: the page loop. `draw(a)` is the page attempt a draws.
      Returns the pages requested, in order, the pool, whether a request
      threw, and the number of draws made. */
  method FetchPages(pages: int -> Option<ListResponse>, draw: nat -> int)
    returns (requested: seq<int>, bucket: seq<Game>, failed: bool, attempts: nat)
    ensures attempts <= MaxAttempts
    ensures requested == Untried(Draws(draw, attempts))
    ensures RequestedUnderCap(pages, requested)
    ensures Fetched(pages, requested) == if failed then None else Some(bucket)
    ensures !failed ==> attempts == MaxAttempts || |bucket| >= BucketCap
    ensures StopsAt(pages, draw, attempts)
  {
    requested, bucket, failed, attempts := [], [], false, 0;
    var tried: set<int> := {};
    PageLoopStart(pages, draw);
    while attempts < MaxAttempts && |bucket| < BucketCap && !failed
      invariant PageLoop(pages, draw, attempts, requested, bucket, failed, tried)
    {
      AttemptKeeps(pages, draw, attempts, requested, bucket, tried);
      var page := draw(attempts);
      if page !in tried {
        tried := tried + {page};
        requested := requested + [page];
        var resp := pages(page);
        if resp.None? {
          failed := true;
        } else {
          bucket := bucket + resp.value.results;
        }
      }
      attempts := attempts + 1;
    }
    PageLoopDone(pages, draw, attempts, requested, bucket, failed, tried);
  }

  /** Distinct pages in 1..m are at most m. */
  lemma RequestedBound(drawn: seq<int>, m: nat)
    requires forall i :: 0 <= i < |drawn| ==> 1 <= drawn[i] <= m
    ensures |Untried(drawn)| <= m
    ensures forall i :: 0 <= i < |Untried(drawn)| ==> 1 <= Untried(drawn)[i] <= m
  {
    var r := Untried(drawn);
    UntriedFacts(drawn);
    forall i | 0 <= i < |r|
      ensures 1 <= r[i] <= m
    {
      assert r[i] in drawn;
    }
    DistinctPagesBound(r, m);
  }

  /** What one run of fetchRandom3 (lines 58-126) does with the catalogue's
      answers and the random stream: the outcome, the pages requested after
      the probe, in order, and the number of page draws made. */
  ghost predicate Ran(probe: Option<ListResponse>, pages: int -> Option<ListResponse>, rand: nat -> nat,
                      outcome: Outcome, requested: seq<int>, attempts: nat)
  {
    // the probe alone, when it throws or finds nothing (lines 78-81)
    && (!HasMatches(probe) ==> requested == [] && attempts == 0)
    && (outcome == NoMatches <==> probe.Some? && !HasMatches(probe))
    // the page loop (lines 87-110)
    && (HasMatches(probe) ==>
         var m := MaxPage(probe.value.count.value);
         && requested == Untried(Draws(PageDraws(rand, m), attempts))
         && StopsAt(pages, PageDraws(rand, m), attempts)
         && |requested| <= m && |requested| <= attempts
         && (forall i :: 0 <= i < |requested| ==> 1 <= requested[i] <= m))
    && NoRepeats(requested)
    && RequestedUnderCap(pages, requested)
    // the outcome (lines 112-122)
    && (outcome == Failure <==> probe.None? || (HasMatches(probe) && Fetched(pages, requested).None?))
    && (outcome == NoneFound <==> HasMatches(probe) && Fetched(pages, requested) == Some([]))
    && (outcome.Success? ==>
         && HasMatches(probe) && Fetched(pages, requested).Some?
         && Fetched(pages, requested).value != []
         && PickedFrom(Fetched(pages, requested).value, outcome.picks)
         && 1 <= |outcome.picks| <= PickCount)
  }

  /** One run of fetchRandom3 (lines 58-126), without the screen state. */
  method Sample(probe: Option<ListResponse>, pages: int -> Option<ListResponse>, rand: nat -> nat)
    returns (outcome: Outcome, requested: seq<int>, attempts: nat)
    requires RandomStream(rand)
    ensures Ran(probe, pages, rand, outcome, requested, attempts)
  {
    requested, attempts := [], 0;
    if probe.None? {
      return Failure, requested, attempts;
    }
    if !HasMatches(probe) {
      return NoMatches, requested, attempts;
    }
    var maxPage := MaxPage(probe.value.count.value);
    MaxPageIsCeiling(probe.value.count.value);
    var bucket, failed;
    requested, bucket, failed, attempts := FetchPages(pages, PageDraws(rand, maxPage));
    RequestedPages(rand, maxPage, attempts);
    if failed {
      return Failure, requested, attempts;
    }
    outcome := Pick(bucket, rand, attempts);
  }

  /** The pages a run requests are distinct, at most maxPage of them, each in 1..maxPage. */
  lemma RequestedPages(rand: nat -> nat, maxPage: int, attempts: nat)
    requires RandomStream(rand) && maxPage >= 1
    ensures var r := Untried(Draws(PageDraws(rand, maxPage), attempts));
      && NoRepeats(r) && |r| <= maxPage && |r| <= attempts
      && forall i :: 0 <= i < |r| ==> 1 <= r[i] <= maxPage
  {
    var draw := PageDraws(rand, maxPage);
    forall a: nat
      ensures 1 <= draw(a) <= maxPage
    {
      DrawPageRange(rand(a), maxPage);
    }
    DrawsInRange(draw, attempts, maxPage);
    RequestedBound(Draws(draw, attempts), maxPage);
    UntriedFacts(Draws(draw, attempts));
  }

  /** Lines 112-120: up to three distinct games of the bucket, or NoneFound when it is empty. */
  method Pick(bucket: seq<Game>, rand: nat -> nat, cursor: nat) returns (outcome: Outcome)
    requires RandomStream(rand)
    ensures outcome == NoneFound <==> bucket == []
    ensures outcome == NoneFound || outcome.Success?
    ensures outcome.Success? ==> PickedFrom(bucket, outcome.picks) && 1 <= |outcome.picks| <= PickCount
  {
    var picked, _ := PickRandomDistinct(bucket, PickCount, rand, cursor);
    IdsEmpty(bucket);
    if |picked| == 0 {
      outcome := NoneFound;
    } else {
      outcome := Success(picked);
    }
  }

  lemma {:induction false} DrawsInRange(draw: nat -> int, n: nat, m: int)
    requires forall a: nat :: 1 <= draw(a) <= m
    ensures forall i :: 0 <= i < n ==> 1 <= Draws(draw, n)[i] <= m
  {
    if n > 0 {
      DrawsInRange(draw, n - 1, m);
      assert Draws(draw, n) == Draws(draw, n - 1) + [draw(n - 1)];
    }
  }

  /* ---------------------------------------------------------------------
     The requests (lines 64-75 and 103-107)
     --------------------------------------------------------------------- */

  /** baseQuery: the picked genre and platform and the Metacritic range
      from the threshold up to 100. */
  function BaseQuery(genre: string, platform: string, minMeta: int): seq<Rawg.Entry> {
    [("genres", Rawg.Str(genre)),
     ("platforms", Rawg.Str(platform)),
     ("metacritic", Rawg.Str(Rawg.DecimalString(minMeta) + ",100"))]
  }

  /** `{ ...baseQuery, page_size: size, page }` */
  function ListQuery(genre: string, platform: string, minMeta: int, size: int, page: int): seq<Rawg.Entry> {
    Rawg.Spread(BaseQuery(genre, platform, minMeta), ListTail(size, page))
  }

  /** rawgGet("/games", { ...baseQuery, page_size: size, page }) */
  function ListUrl(key: Option<string>, genre: string, platform: string, minMeta: int, size: int, page: int): string {
    Rawg.RequestUrl(key, "/games", ListQuery(genre, platform, minMeta, size, page))
  }

  /** The URL of the count probe: one game of page 1. */
  function ProbeUrl(key: Option<string>, genre: string, platform: string, minMeta: int): string {
    ListUrl(key, genre, platform, minMeta, 1, 1)
  }

  /** The URL of the request for one page of forty games. */
  function PageUrl(key: Option<string>, genre: string, platform: string, minMeta: int, page: int): string {
    ListUrl(key, genre, platform, minMeta, PageSize, page)
  }

  /** Every URL one run requests, in order: the probe, then each page. */
  function RunUrls(key: Option<string>, genre: string, platform: string, minMeta: int, requested: seq<int>): (r: seq<string>)
    ensures |r| == 1 + |requested|
  {
    [ProbeUrl(key, genre, platform, minMeta)] + Mapped(PageUrls(key, genre, platform, minMeta), requested)
  }

  /** page => the URL of that page's request */
  function PageUrls(key: Option<string>, genre: string, platform: string, minMeta: int): int -> string {
    p => PageUrl(key, genre, platform, minMeta, p)
  }

  /** requested.map(f) */
  function Mapped(f: int -> string, xs: seq<int>): (r: seq<string>)
    ensures |r| == |xs|
    ensures forall k :: 0 <= k < |xs| ==> r[k] == f(xs[k])
  {
    if xs == [] then [] else [f(xs[0])] + Mapped(f, xs[1..])
  }

  function ListTail(size: int, page: int): seq<Rawg.Entry> {
    [("page_size", Rawg.Num(size)), ("page", Rawg.Num(page))]
  }

  /** The spread adds page_size and page after the base properties. */
  lemma ListQueryFlat(genre: string, platform: string, minMeta: int, size: int, page: int)
    ensures ListQuery(genre, platform, minMeta, size, page) == BaseQuery(genre, platform, minMeta) + ListTail(size, page)
    ensures Rawg.DistinctKeys(BaseQuery(genre, platform, minMeta) + ListTail(size, page))
    ensures Rawg.Lacks(BaseQuery(genre, platform, minMeta) + ListTail(size, page), "key")
  {
    Rawg.SpreadFresh(BaseQuery(genre, platform, minMeta), ListTail(size, page));
  }

  /** What the catalogue reads from a list query: genre and platform
      unless empty, the Metacritic range, then page_size and page. */
  lemma ListQueryPairs(genre: string, platform: string, minMeta: int, size: int, page: int)
    ensures Rawg.Decoded(Rawg.Kept(ListQuery(genre, platform, minMeta, size, page)))
      == Rawg.Decoded(Rawg.Kept(BaseQuery(genre, platform, minMeta))) +
         [("page_size", Rawg.DecimalString(size)), ("page", Rawg.DecimalString(page))]
  {
    var base, tail := BaseQuery(genre, platform, minMeta), ListTail(size, page);
    ListQueryFlat(genre, platform, minMeta, size, page);
    Rawg.KeptAppend(base, tail);
    ListTailPairs(size, page);
    Rawg.DecodedAppend(Rawg.Kept(base), tail);
  }

  /** page_size and page are always sent, as their numbers. */
  lemma ListTailPairs(size: int, page: int)
    ensures Rawg.AllPresent(ListTail(size, page)) && Rawg.Kept(ListTail(size, page)) == ListTail(size, page)
    ensures Rawg.Decoded(ListTail(size, page)) == [("page_size", Rawg.DecimalString(size)), ("page", Rawg.DecimalString(page))]
  {
    Rawg.AllKept(ListTail(size, page));
  }

  /** Reading a list URL back gives the configured key, if any, then the
      pairs of its query. */
  lemma ListUrlPairs(key: Option<string>, path: string, genre: string, platform: string, minMeta: int, size: int, page: int)
    requires '?' !in path
    ensures Rawg.ParseUrl(Rawg.RequestUrl(key, path, ListQuery(genre, platform, minMeta, size, page)))
      == Some((Rawg.BaseUrl + path, Rawg.KeyPair(key) + Rawg.Decoded(Rawg.Kept(ListQuery(genre, platform, minMeta, size, page)))))
  {
    ListQueryFlat(genre, platform, minMeta, size, page);
    Rawg.UrlRoundTrip(key, path, ListQuery(genre, platform, minMeta, size, page));
  }

  /** Two list URLs of one search coincide only for the same page size and
      page. */
  lemma ListUrlInjective(key: Option<string>, genre: string, platform: string, minMeta: int,
                         size1: int, page1: int, size2: int, page2: int)
    requires ListUrl(key, genre, platform, minMeta, size1, page1) == ListUrl(key, genre, platform, minMeta, size2, page2)
    ensures size1 == size2 && page1 == page2
  {
    ListUrlSamePairs(key, genre, platform, minMeta, size1, page1, size2, page2);
    ListPairsInjective(genre, platform, minMeta, size1, page1, size2, page2);
  }

  /** Equal list URLs carry equal query pairs. */
  lemma ListUrlSamePairs(key: Option<string>, genre: string, platform: string, minMeta: int,
                         size1: int, page1: int, size2: int, page2: int)
    requires ListUrl(key, genre, platform, minMeta, size1, page1) == ListUrl(key, genre, platform, minMeta, size2, page2)
    ensures Rawg.Decoded(Rawg.Kept(ListQuery(genre, platform, minMeta, size1, page1)))
         == Rawg.Decoded(Rawg.Kept(ListQuery(genre, platform, minMeta, size2, page2)))
  {
    var d1 := Rawg.Decoded(Rawg.Kept(ListQuery(genre, platform, minMeta, size1, page1)));
    var d2 := Rawg.Decoded(Rawg.Kept(ListQuery(genre, platform, minMeta, size2, page2)));
    var k := Rawg.KeyPair(key);
    ListUrlPairs(key, "/games", genre, platform, minMeta, size1, page1);
    ListUrlPairs(key, "/games", genre, platform, minMeta, size2, page2);
    assert (k + d1)[|k|..] == d1 && (k + d2)[|k|..] == d2;
  }

  /** List queries of one search that send the same pairs have the same page
      size and page. */
  lemma ListPairsInjective(genre: string, platform: string, minMeta: int,
                           size1: int, page1: int, size2: int, page2: int)
    requires Rawg.Decoded(Rawg.Kept(ListQuery(genre, platform, minMeta, size1, page1)))
          == Rawg.Decoded(Rawg.Kept(ListQuery(genre, platform, minMeta, size2, page2)))
    ensures size1 == size2 && page1 == page2
  {
    var d1 := Rawg.Decoded(Rawg.Kept(ListQuery(genre, platform, minMeta, size1, page1)));
    var d2 := Rawg.Decoded(Rawg.Kept(ListQuery(genre, platform, minMeta, size2, page2)));
    ListQueryPairs(genre, platform, minMeta, size1, page1);
    ListQueryPairs(genre, platform, minMeta, size2, page2);
    var n := |Rawg.Decoded(Rawg.Kept(BaseQuery(genre, platform, minMeta)))|;
    assert d1[n] == d2[n] && d1[n + 1] == d2[n + 1];
    Rawg.DecimalStringInjective(size1, size2);
    Rawg.DecimalStringInjective(page1, page2);
  }


  /** No page request is the probe: they ask for different page sizes. */
  lemma PageUrlNotProbe(key: Option<string>, genre: string, platform: string, minMeta: int, page: int)
    ensures PageUrl(key, genre, platform, minMeta, page) != ProbeUrl(key, genre, platform, minMeta)
  {
    if PageUrl(key, genre, platform, minMeta, page) == ProbeUrl(key, genre, platform, minMeta) {
      ListUrlInjective(key, genre, platform, minMeta, PageSize, page, 1, 1);
    }
  }

  /** Different pages are requested by different URLs. */
  lemma PageUrlInjective(key: Option<string>, genre: string, platform: string, minMeta: int, p: int, q: int)
    ensures PageUrl(key, genre, platform, minMeta, p) == PageUrl(key, genre, platform, minMeta, q) ==> p == q
  {
    if PageUrl(key, genre, platform, minMeta, p) == PageUrl(key, genre, platform, minMeta, q) {
      ListUrlInjective(key, genre, platform, minMeta, PageSize, p, PageSize, q);
    }
  }

  /** A run never sends the same request twice: the probe differs from every
      page request, and distinct pages have distinct URLs. */
  lemma RunUrlsDistinct(key: Option<string>, genre: string, platform: string, minMeta: int, requested: seq<int>)
    requires NoRepeats(requested)
    ensures NoRepeats(RunUrls(key, genre, platform, minMeta, requested))
  {
    var probe := ProbeUrl(key, genre, platform, minMeta);
    var f := PageUrls(key, genre, platform, minMeta);
    assert RunUrls(key, genre, platform, minMeta, requested) == [probe] + Mapped(f, requested);
    forall p
      ensures f(p) != probe
    {
      PageUrlNotProbe(key, genre, platform, minMeta, p);
    }
    forall p, q | f(p) == f(q)
      ensures p == q
    {
      PageUrlInjective(key, genre, platform, minMeta, p, q);
    }
    DistinctRequests(probe, f, requested);
  }

  /** A first request and one request per page are all different when the
      pages are, the page requests never coincide with the first, and
      different pages give different requests. */
  lemma DistinctRequests(first: string, f: int -> string, requested: seq<int>)
    requires NoRepeats(requested)
    requires forall p :: f(p) != first
    requires forall p, q :: f(p) == f(q) ==> p == q
    ensures NoRepeats([first] + Mapped(f, requested))
  {
    var r := [first] + Mapped(f, requested);
    forall i, j | 0 <= i < j < |r|
      ensures r[i] != r[j]
    {
      assert r[j] == f(requested[j - 1]);
      if i > 0 {
        assert r[i] == f(requested[i - 1]);
      }
    }
  }

  /* ---------------------------------------------------------------------
     The Metacritic stepper (lines 154 and 156)
     --------------------------------------------------------------------- */

  /** A threshold the stepper can show: a multiple of 5 in 0..100. */
  predicate Threshold(m: int) {
    0 <= m <= 100 && m % 5 == 0
  }

  /** Math.max(0, m - 5) */
  function StepDown(m: int): int {
    if 0 > m - 5 then 0 else m - 5
  }

  /** Math.min(100, m + 5) */
  function StepUp(m: int): int {
    if 100 < m + 5 then 100 else m + 5
  }

  /** Both buttons keep the threshold a multiple of 5 in 0..100; away from
      the ends each undoes the other, and at the ends each is a no-op. */
  lemma StepperFacts(m: int)
    requires Threshold(m)
    ensures Threshold(StepDown(m)) && Threshold(StepUp(m))
    ensures StepDown(m) <= m <= StepUp(m)
    ensures m > 0 ==> StepUp(StepDown(m)) == m
    ensures m < 100 ==> StepDown(StepUp(m)) == m
    ensures StepDown(m) == m <==> m == 0
    ensures StepUp(m) == m <==> m == 100
  {
  }

  /* ---------------------------------------------------------------------
     The screen state (lines 49-55)
     --------------------------------------------------------------------- */

  class FinderScreen {
    var genre: string
    var platform: string
    var minMeta: int
    var recommendations: seq<Game>
    var loading: bool
    var error: Option<string>

    /** Between handlers: the threshold is one the stepper can show, at most
        three picks are listed, never beside an error, and nothing is
        loading. */
    ghost predicate Valid()
      reads this
    {
      && Threshold(minMeta)
      && |recommendations| <= PickCount
      && (recommendations != [] ==> error.None?)
      && !loading
    }

    /** The first genre (Action), the first platform (PC, id 4), threshold
        70, no picks, not loading, no error. */
    constructor()
      ensures Valid()
      ensures genre == "action" && platform == "4" && minMeta == 70
      ensures recommendations == [] && !loading && error.None?
    {
      genre, platform, minMeta := "action", "4", 70;
      recommendations, loading, error := [], false, None;
    }

    /** The genre picker (line 134). */
    method SelectGenre(value: string)
      modifies this`genre
      ensures genre == value
    {
      genre := value;
    }

    /** The platform picker (line 144). */
    method SelectPlatform(value: string)
      modifies this`platform
      ensures platform == value
    {
      platform := value;
    }

    /** The "-" button. */
    method DecreaseMinMeta()
      requires Valid()
      modifies this`minMeta
      ensures Valid()
      ensures minMeta == StepDown(old(minMeta))
    {
      StepperFacts(minMeta);
      minMeta := StepDown(minMeta);
    }

    /** The "+" button. */
    method IncreaseMinMeta()
      requires Valid()
      modifies this`minMeta
      ensures Valid()
      ensures minMeta == StepUp(old(minMeta))
    {
      StepperFacts(minMeta);
      minMeta := StepUp(minMeta);
    }

    /** The screen after a run: nothing loading, the outcome's message, the
        picks only on success, and the screen invariant. */
    ghost predicate Shows(probe: Option<ListResponse>, pages: int -> Option<ListResponse>,
                          outcome: Outcome, requested: seq<int>)
      reads this
    {
      && Valid()
      && error == Message(outcome)
      && recommendations == (if outcome.Success? then outcome.picks else [])
      && (error == Some(MsgFailure) <==> probe.None? || (HasMatches(probe) && Fetched(pages, requested).None?))
      && (error == Some(MsgNoMatches) <==> probe.Some? && !HasMatches(probe))
      && (error == Some(MsgNoneFound) <==> HasMatches(probe) && Fetched(pages, requested) == Some([]))
      && (error.None? <==> recommendations != [])
    }

    /** fetchRandom3 run to completion, for the current filters: the run, the
        screen after it, and the URLs requested. */
    method FetchRandom3(key: Option<string>, probe: Option<ListResponse>,
                        pages: int -> Option<ListResponse>, rand: nat -> nat)
      returns (outcome: Outcome, requested: seq<int>, attempts: nat, urls: seq<string>)
      requires Valid() && RandomStream(rand)
      modifies this`recommendations, this`loading, this`error
      ensures Ran(probe, pages, rand, outcome, requested, attempts)
      ensures Shows(probe, pages, outcome, requested)
      ensures urls == RunUrls(key, genre, platform, minMeta, requested)
      ensures !HasMatches(probe) ==> urls == [ProbeUrl(key, genre, platform, minMeta)]
      ensures |urls| <= 1 + MaxAttempts
      ensures NoRepeats(urls)
    {
      outcome, requested, attempts := Refresh(probe, pages, rand);
      urls := RunUrls(key, genre, platform, minMeta, requested);
      RunUrlsDistinct(key, genre, platform, minMeta, requested);
    }

    /** The state updates of one run: loading, the error and the picks cleared
        (lines 60-62), then the outcome shown (lines 79, 116, 120 and 122) and
        loading over (line 124). */
    method Refresh(probe: Option<ListResponse>, pages: int -> Option<ListResponse>, rand: nat -> nat)
      returns (outcome: Outcome, requested: seq<int>, attempts: nat)
      requires Valid() && RandomStream(rand)
      modifies this`recommendations, this`loading, this`error
      ensures Ran(probe, pages, rand, outcome, requested, attempts)
      ensures Shows(probe, pages, outcome, requested)
    {
      loading := true;
      error := None;
      recommendations := [];
      outcome, requested, attempts := Sample(probe, pages, rand);
      RunMessage(probe, pages, rand, outcome, requested, attempts);
      error := Message(outcome);
      recommendations := if outcome.Success? then outcome.picks else [];
      loading := false;
    }
  }

  /** The message the screen shows after a run: the failure text exactly when
      a request threw, the no-match text exactly when the probe counted
      nothing, the none-found text exactly when the pages fetched held no
      games, and none exactly on success. */
  lemma RunMessage(probe: Option<ListResponse>, pages: int -> Option<ListResponse>, rand: nat -> nat,
                   outcome: Outcome, requested: seq<int>, attempts: nat)
    requires Ran(probe, pages, rand, outcome, requested, attempts)
    ensures Message(outcome) == Some(MsgFailure) <==> probe.None? || (HasMatches(probe) && Fetched(pages, requested).None?)
    ensures Message(outcome) == Some(MsgNoMatches) <==> probe.Some? && !HasMatches(probe)
    ensures Message(outcome) == Some(MsgNoneFound) <==> HasMatches(probe) && Fetched(pages, requested) == Some([])
    ensures Message(outcome).None? <==> outcome.Success?
    ensures outcome.Success? ==> 1 <= |outcome.picks| <= PickCount
  {
  }

  /** One run of fetchRandom3 for given filters, with the URLs it requests:
      the probe's first, then one per page, none twice. */
  method Search(key: Option<string>, genre: string, platform: string, minMeta: int,
                probe: Option<ListResponse>, pages: int -> Option<ListResponse>, rand: nat -> nat)
    returns (outcome: Outcome, requested: seq<int>, attempts: nat, urls: seq<string>)
    requires RandomStream(rand)
    ensures Ran(probe, pages, rand, outcome, requested, attempts)
    ensures urls == RunUrls(key, genre, platform, minMeta, requested)
    ensures !HasMatches(probe) ==> urls == [ProbeUrl(key, genre, platform, minMeta)]
    ensures |urls| <= 1 + MaxAttempts
    ensures NoRepeats(urls)
  {
    outcome, requested, attempts := Sample(probe, pages, rand);
    urls := RunUrls(key, genre, platform, minMeta, requested);
    RunUrlsDistinct(key, genre, platform, minMeta, requested);
  }
}
