# Random game finder: the sampler and its query client

This project models the core of a small mobile front end. It asks a game
catalogue (the RAWG API) for games matching a genre, a platform and a minimum
Metacritic score, and shows three of them picked at random. The catalogue has
no random-sample endpoint, so the screen does it client side:

1. Probe the number of matches with a one-game request.
2. Draw up to six random result pages of forty games, skipping pages already
   tried and stopping once 120 games are pooled.
3. Deduplicate the pool by game id, shuffle it with Fisher-Yates, and keep
   the first three.

The modules follow the source files:

- `Wrappers` holds the `Option` type used for failures.
- `Models` covers `models/rawg.ts`: the game record and one page of a listing.
- `UriComponent` covers `encodeURIComponent`, which the query string relies
  on (section 19.2.6.5 of ECMA-262, UTF-8 percent-encoding as in section 2.1
  of RFC 3986). Its inverse `decodeURIComponent` is defined as the partner
  that proves the encoding loses nothing.
- `Rawg` covers `api/rawg.ts`:
  - `toQueryString`, which keeps the entries that are neither `undefined` nor
    `""` and joins their encoded `name=value` forms with `&`;
  - the `{ key, ...query }` spread;
  - the request URL `BASE_URL + path + "?" + qs`.

  A parser for such URLs, `ParseUrl`, is the partner of the URL builder.
- `PickRandom` covers `pickRandomDistinct` (FinderScreen.tsx lines 37-46):
  - the `Map` keyed by id is the class `IdMap`, with its keys in insertion
    order;
  - the shuffle runs in place on an `array`;
  - the whole operation is proved against the functional specification
    `Dedup`.
- `Finder` covers `fetchRandom3` (FinderScreen.tsx lines 58-126):
  - the page loop is the method `FetchPages`, proved with the invariant
    `PageLoop`;
  - the final pick is the method `Pick`;
  - one run without the screen state is `Sample`;
  - `Search` adds the URLs one run requests;
  - the React state (lines 49-55), the two pickers and the Metacritic stepper
    (lines 154 and 156) are the class `FinderScreen`, whose `FetchRandom3`
    writes the outcome into that state.

The model replaces the following with parameters:

- `Math.random()` is a stream `rand: nat -> nat` of values below 2^53, each
  standing for `u / 2^53`. So `Math.floor(Math.random() * m)` is
  `u * m / 2^53` in integer arithmetic (`ScaledDraw`).
  - The page loop reads `rand(0)`, `rand(1)`, and so on, one value per
    attempt.
  - The shuffle continues from where the loop stopped, one value per swap.
  - It is therefore proved, not assumed, that every drawn page lies in
    `1..maxPage` and every swap partner in `0..i`.
- The catalogue is two oracles:
  - `probe` is the answer to the count request;
  - `pages(p)` is the answer for page `p`;
  - `None` stands for a request that throws: a network error, a non-OK status
    or bad JSON.
- The API key from the environment is a parameter `key: Option<string>`.

On three points the model follows the code where a reader might expect
otherwise:

- The candidate pool keeps, for each id, the last record fetched with that
  id, at the position where the id first appeared. This is `Map.set`
  overwriting the value but keeping the key's insertion order.
- The failure messages are the literal strings the screen shows. They are
  not a separate reason code.
- An attempt whose drawn page was already tried still uses up one of the six
  attempts.

## Model

| member | source | states |
|---|---|---|
| `UriComponent.Encode` | api/rawg.ts:13 | encodeURIComponent, one character at a time: unreserved characters as they are, any other as the `%XX` forms of its UTF-8 bytes; `EncodeAvoidsSeparators`, `EncodeEmpty` and `DecodeEncode` state what it yields |
| `UriComponent.EncodeAvoidsSeparators` | api/rawg.ts:13 | every character encodeURIComponent outputs is unreserved, `%` or a hex digit, so an encoded name or value never contains `&` or `=` |
| `UriComponent.EncodeEmpty` | api/rawg.ts:13 | the encoding is empty exactly when its input is |
| `UriComponent.DecodeEncodedChar` | api/rawg.ts:13 | decoding the percent-encoded UTF-8 bytes of one character (1 to 4 bytes) gives that character back, whatever follows |
| `UriComponent.DecodeEncode` | api/rawg.ts:13 | decodeURIComponent(encodeURIComponent(s)) == s for every string |
| `Rawg.DigitsInjective` | api/rawg.ts:13 | two natural numbers with the same decimal digits are equal |
| `Rawg.DecimalStringInjective` | api/rawg.ts:13 | String(n) is injective on integers, so different pages print differently |
| `Rawg.DecimalString` | api/rawg.ts:13 | `String(n)` for an integer: an optional `-`, then its decimal digits; never empty, and `DecimalStringInjective` states that different integers print differently. It also builds the `${minMeta},100` range of FinderScreen.tsx:67 |
| `Rawg.ValueString` | api/rawg.ts:13 | `String(v)` of a present value: a string as it is, a number as `DecimalString`; `ParamParses` and `QueryRoundTrip` state that it is what the query sends |
| `Rawg.Present` | api/rawg.ts:12 | the filter's test `v !== undefined && v !== ""`; `Kept` and `KeptSingle` state which entries pass it |
| `Rawg.Kept` | api/rawg.ts:12 | the filter keeps exactly the entries whose value is neither `undefined` nor `""`, all of them, in order |
| `Rawg.Param` | api/rawg.ts:13 | the `encodeURIComponent(k)=encodeURIComponent(String(v))` form of one entry; `ParamParses` states that it reads back as its name and value |
| `Rawg.Params` | api/rawg.ts:13 | the `.map` over the kept entries: one part per entry, in order; `QueryStringShape` states it |
| `Rawg.Join` | api/rawg.ts:14 | `.join("&")`: the parts with the separator between each two and none at either end; `QueryStringShape` and `QueryRoundTrip` state that splitting gives the parts back |
| `Rawg.KeptAppend` | api/rawg.ts:12 | filtering distributes over concatenation, so kept entries stay in the object's order |
| `Rawg.AllKept` | api/rawg.ts:12 | an entry list with only present values passes the filter unchanged |
| `Rawg.NothingKept` | api/rawg.ts:12 | an entry list with no present value is filtered to nothing |
| `Rawg.KeptSingle` | api/rawg.ts:12 | one entry passes the filter exactly when its value is neither `undefined` nor `""` |
| `Rawg.ToQueryString` | api/rawg.ts:10-14 | joins with `&` the encoded `name=value` forms of the kept entries; `QueryStringEmpty`, `QueryStringShape` and `QueryRoundTrip` state what it yields |
| `Rawg.QueryStringEmpty` | api/rawg.ts:10-14 | the query string is `""` exactly when every entry is dropped |
| `Rawg.QueryStringShape` | api/rawg.ts:13-14 | when something is kept, the string neither starts nor ends with `&`, and splitting it on `&` gives exactly one `name=value` part per kept entry, in order |
| `Rawg.ParamParses` | api/rawg.ts:13 | one `encode(k)=encode(String(v))` part splits at its first `=` and decodes to `(k, String(v))` |
| `Rawg.QueryRoundTrip` | api/rawg.ts:10-14 | splitting the query string on `&`, then on `=`, and decoding gives exactly the kept name/value pairs, in order |
| `Rawg.IndexOf` | api/rawg.ts:17 | the position found holds the property; no position is found only when no entry has that name |
| `Rawg.Assign` | api/rawg.ts:17 | `obj[k] = v`: an existing property gets the new value in its place, a new one goes last; `AssignFresh` and `SpreadFresh` state it |
| `Rawg.AssignFresh` | api/rawg.ts:17 | assigning a property the object does not have appends it last |
| `Rawg.Spread` | api/rawg.ts:17 | `{ ...obj, ...q }`: the properties of `q` assigned one by one, in order; `SpreadFresh`, `SpreadKeepsFirst` and `SpreadKeptEmpty` state it |
| `Rawg.SpreadFresh` | api/rawg.ts:17 | spreading properties the object does not have appends them in order |
| `Rawg.SpreadKeepsFirst` | api/rawg.ts:17 | spreading never moves the object's first property |
| `Rawg.WithKey` | api/rawg.ts:2-17 | `{ key: KEY ?? "", ...query }`, an unset key giving `""`; `KeyFirst` and `KeyedPairs` state it |
| `Rawg.RequestUrl` | api/rawg.ts:17-18 | `BASE_URL + path + "?" + qs`; `UrlRoundTrip` and `BareUrl` state what it yields |
| `Rawg.BaseUrlPlain` | api/rawg.ts:1 | `BASE_URL` holds no `?`, so a URL's first `?` is the one before its query |
| `Rawg.KeyFirst` | api/rawg.ts:17 | `key` is always the first property of `{ key: KEY ?? "", ...query }` |
| `Rawg.KeyedPairs` | api/rawg.ts:2-17 | the key contributes the pair `("key", KEY)` first, and nothing when the key is unset or empty, because its `""` placeholder is filtered out |
| `Rawg.UrlRoundTrip` | api/rawg.ts:17-18 | the URL splits at its first `?` into `BASE_URL + path`, and the part after it reads back as the key pair, if any, followed by the query's kept pairs |
| `Rawg.BareUrl` | api/rawg.ts:1-18 | with no key and nothing kept, the URL is `BASE_URL + path + "?"`, ending in a bare `?` |
| `Rawg.SpreadKeptEmpty` | api/rawg.ts:17 | spreading nothing-to-send over nothing-to-send leaves nothing to send |
| `PickRandom.RandomStream` | screens/FinderScreen.tsx:42 | every value of the stream is a `Math.random()` result in `[0, 1)`, as a multiple of 2^-53; so each value meets the `u < 2^53` that `ScaledDrawRange` and `DrawPageRange` need; `Shuffle`, `PickRandomDistinct`, `RequestedPages` and `Sample` require it |
| `PickRandom.ScaledDraw` | screens/FinderScreen.tsx:42 | `Math.floor(Math.random() * m)` for the draw `u`, as `u * m / 2^53`; `ScaledDrawRange` and `ScaledDrawOnto` state its range |
| `PickRandom.ScaledDrawRange` | screens/FinderScreen.tsx:42 | `Math.floor(Math.random() * m)` lies in `0..m-1` |
| `PickRandom.ScaledDrawOnto` | screens/FinderScreen.tsx:42 | every index in `0..m-1` is drawn by some random value |
| `PickRandom.FirstIds` | screens/FinderScreen.tsx:38-39 | the Map's keys: the input's ids, each once |
| `PickRandom.LastWith` | screens/FinderScreen.tsx:39 | the record the Map holds for an id is an input record with that id that no later record overrides |
| `PickRandom.FirstIndex` | screens/FinderScreen.tsx:39 | the first position carrying an id |
| `PickRandom.Dedup` | screens/FinderScreen.tsx:38-40 | the Map's values: for each id in order of first appearance, the last record carrying it; `DedupFacts`, `DedupOrder` and `DedupById` state it |
| `PickRandom.DistinctCard` | screens/FinderScreen.tsx:38-40 | a list without repeats, such as the Map's keys or the tried pages, has as many elements as its set |
| `PickRandom.NoRepeats` | screens/FinderScreen.tsx:38-40 | no element occurs twice: what the Map's keys, the tried pages and a run's URLs each satisfy; `FirstIds`, `UntriedFacts` and `RunUrlsDistinct` state it |
| `PickRandom.DedupFacts` | screens/FinderScreen.tsx:38-40 | the deduplicated values: one per distinct id (repeats never grow the pool), pairwise distinct ids, each the last record with its id, and every id's record present |
| `PickRandom.DedupDistinct` | screens/FinderScreen.tsx:38-40 | no two values of the Map share an id |
| `PickRandom.DedupOrder` | screens/FinderScreen.tsx:38-40 | values come out in the order their ids first appeared |
| `PickRandom.PrefixStep` | screens/FinderScreen.tsx:39 | one more `set`: a new id goes last, a known one keeps its place, and the record just set becomes the one held for its id |
| `PickRandom.IdMap.constructor` | screens/FinderScreen.tsx:38 | an empty Map |
| `PickRandom.IdMap.Set` | screens/FinderScreen.tsx:39 | `unique.set(id, g)`: a new key is appended to the insertion order, an existing key keeps its place, and the value is replaced |
| `PickRandom.IdMap.Values` | screens/FinderScreen.tsx:40 | `Array.from(unique.values())`: a fresh array of the values in key insertion order |
| `PickRandom.DedupById` | screens/FinderScreen.tsx:38-40 | the loop of `set` calls and the array of values build exactly `Dedup(games)` |
| `PickRandom.ShuffleDraws` | screens/FinderScreen.tsx:41-42 | the number of `Math.random()` calls the shuffle loop makes on `len` elements: one per index from `len - 1` down to 1; `Shuffle` and `PickRandomDistinct` state that they consume exactly these |
| `PickRandom.Shuffle` | screens/FinderScreen.tsx:41-44 | the in-place Fisher-Yates loop leaves a permutation of the array and consumes one random value per index from the last down to 1 |
| `PickRandom.SliceLength` | screens/FinderScreen.tsx:45 | the number of elements `slice(0, Math.min(n, len))` keeps is never above `len`; a negative end counts back from the end, as `slice` does |
| `PickRandom.ShuffledPrefix` | screens/FinderScreen.tsx:45 | any prefix of a permutation of the deduplicated pool has distinct ids, each with the record the Map kept, and the whole pool when the prefix is all of it |
| `PickRandom.PickRandomDistinct` | screens/FinderScreen.tsx:37-46 | exactly `min(n, distinct ids)` games for `n >= 0` (a negative `n` counts back from the end, as `slice` does), pairwise distinct ids, each the last input record with its id, a sub-multiset of the deduplicated pool and all of it when `n` covers it |
| `Finder.HasMatches` | screens/FinderScreen.tsx:77-78 | the probe answered with a present, positive count, which is the negation of line 78's test; `Ran` and `RunMessage` state what follows from it |
| `Finder.MaxPage` | screens/FinderScreen.tsx:87 | `Math.max(1, Math.ceil(total / 40))` with integer ceiling division; `MaxPageIsCeiling` states it |
| `Finder.DrawPage` | screens/FinderScreen.tsx:99 | `1 + Math.floor(Math.random() * maxPage)`; `DrawPageRange` and `DrawPageOnto` state its range |
| `Finder.Message` | screens/FinderScreen.tsx:78-122 | the literal text the screen shows for each outcome, none on success; `RunMessage` ties it to the catalogue's answers |
| `Finder.MaxPageIsCeiling` | screens/FinderScreen.tsx:86-87 | `maxPage >= 1`, and for a positive total it is the ceiling of `total / 40` |
| `Finder.DrawPageRange` | screens/FinderScreen.tsx:99 | every drawn page lies in `1..maxPage` |
| `Finder.DrawPageOnto` | screens/FinderScreen.tsx:99 | every page in `1..maxPage` can be drawn |
| `Finder.PageRange` | screens/FinderScreen.tsx:87 | the page space `1..m` has exactly `m` pages |
| `Finder.DistinctPagesBound` | screens/FinderScreen.tsx:98-101 | distinct pages within `1..m` number at most `m` |
| `Finder.PageDraws` | screens/FinderScreen.tsx:99 | the page attempt `a` draws, `1 + Math.floor(Math.random() * maxPage)` with `rand(a)`; `DrawPageRange` and `RequestedPages` bound it to `1..maxPage` |
| `Finder.Draws` | screens/FinderScreen.tsx:98-99 | the pages the first `n` attempts draw, one per attempt; `DrawsInRange` bounds them |
| `Finder.Untried` | screens/FinderScreen.tsx:100-101 | a drawn page is requested only when `triedPages` does not hold it; `UntriedFacts` and `RequestedBound` state it |
| `Finder.Fetched` | screens/FinderScreen.tsx:103-109 | the results of the requested pages concatenated in request order, `None` once one throws; `FetchedStep` states one step |
| `Finder.DrawsInRange` | screens/FinderScreen.tsx:99 | every page of a run's draws lies in `1..maxPage` |
| `Finder.UntriedFacts` | screens/FinderScreen.tsx:100-101 | the `triedPages` filter requests each drawn page exactly once, and no page that was not drawn |
| `Finder.RequestedBound` | screens/FinderScreen.tsx:98-101 | a run requests at most `maxPage` pages, all within `1..maxPage` |
| `Finder.FetchedStep` | screens/FinderScreen.tsx:103-109 | one more page request either throws (the run fails) or appends that page's results to the bucket |
| `Finder.UnderCapAppend` | screens/FinderScreen.tsx:98 | a page requested while the bucket is under 120 games and nothing has thrown keeps "every request was made under the cap" |
| `Finder.AttemptedBefore` | screens/FinderScreen.tsx:98 | once the loop's condition held before the first `n` draws, it held after every count of draws below `n`: no draw is made once the pool is full or a request threw |
| `Finder.StopsAt` | screens/FinderScreen.tsx:98 | the loop makes exactly `n` draws: its condition held before each of them and fails after the last (6 draws, a thrown request or 120 games) |
| `Finder.StopsOnce` | screens/FinderScreen.tsx:98 | the number of draws is determined: two counts at which the loop stops are equal, so the shuffle starts reading the stream at a fixed place |
| `Finder.IdsEmpty` | screens/FinderScreen.tsx:113-115 | the pool has no ids exactly when it is empty, so `picked` is empty exactly when the bucket is |
| `Finder.PageLoop` | screens/FinderScreen.tsx:98-110 | the loop's invariant after `n` draws: the pages requested are the drawn pages at their first drawing, the tried set holds exactly them, every draw and request was made while the loop's condition held, and the bucket is what the requests fetched unless one threw |
| `Finder.PageLoopStart` | screens/FinderScreen.tsx:89-90 | before the first draw, with an empty bucket and no tried page, the invariant holds |
| `Finder.AttemptKeeps` | screens/FinderScreen.tsx:99-109 | one pass of the body keeps the invariant: a page already tried changes nothing but the count, a new page is recorded and its results appended, or the request throws |
| `Finder.PageLoopDone` | screens/FinderScreen.tsx:98 | when the condition fails, the invariant gives the loop's promise: it stopped at 6 draws, a thrown request or 120 games, after exactly the draws it makes (`StopsAt`) |
| `Finder.FetchPages` | screens/FinderScreen.tsx:98-110 | the page loop: at most 6 attempts; the pages requested are the drawn pages at their first drawing, in order, so a repeated draw still uses an attempt; each was requested under the cap; the bucket is the concatenation of their results in fetch order, unless a request threw; it stops only after 6 attempts or at 120 or more games; the number of draws is exactly the one the loop makes (`StopsAt`) |
| `Finder.RequestedPages` | screens/FinderScreen.tsx:87-101 | the pages a run requests are pairwise distinct, each in `1..maxPage`, at most `maxPage` of them and at most one per draw |
| `Finder.Pick` | screens/FinderScreen.tsx:112-120 | the outcome is "none found" exactly when the bucket is empty; otherwise a success with 1 to 3 games picked from the pool as `PickRandom.PickRandomDistinct` promises |
| `Finder.Ran` | screens/FinderScreen.tsx:58-126 | what one run does, as detailed below the table |
| `Finder.Sample` | screens/FinderScreen.tsx:58-126 | one run without the screen state meets `Ran` |
| `Finder.RunMessage` | screens/FinderScreen.tsx:78-122 | after a run, the message is the failure text exactly when a request threw, the no-match text exactly when the probe counted nothing, the none-found text exactly when the pages fetched held no game, and none exactly on success |
| `Finder.BaseQuery` | screens/FinderScreen.tsx:64-68 | `{ genres, platforms, metacritic: "minMeta,100" }`; `ListQueryPairs` states what it sends |
| `Finder.ListQuery` | screens/FinderScreen.tsx:71-107 | `{ ...baseQuery, page_size, page }`; `ListQueryFlat` and `ListQueryPairs` state it |
| `Finder.ListUrl` | screens/FinderScreen.tsx:71-107 | the URL `rawgGet("/games", ...)` requests for a list query; `ListUrlPairs` and `ListUrlInjective` state it |
| `Finder.ListQueryFlat` | screens/FinderScreen.tsx:64-75 | `{ ...baseQuery, page_size, page }` is the base properties followed by `page_size` and `page`, all with distinct names and none named `key` |
| `Finder.ListQueryPairs` | screens/FinderScreen.tsx:64-107 | a list query sends genre and platform unless empty, the range `minMeta,100`, then `page_size` and `page` |
| `Finder.ListTailPairs` | screens/FinderScreen.tsx:73-74 | `page_size` and `page` are always sent, as their decimal numbers |
| `Finder.ListUrlPairs` | screens/FinderScreen.tsx:71-107 | a list URL reads back as the key pair, if any, followed by its query's pairs |
| `Finder.ListUrlInjective` | screens/FinderScreen.tsx:71-107 | two list URLs of one search are equal only for the same page size and page |
| `Finder.ListUrlSamePairs` | screens/FinderScreen.tsx:71-107 | equal list URLs of one search carry equal query pairs |
| `Finder.ListPairsInjective` | screens/FinderScreen.tsx:71-107 | list queries of one search that send the same pairs have the same page size and page |
| `Finder.ProbeUrl` | screens/FinderScreen.tsx:71-75 | the count probe's URL: the list query with `page_size` 1 and `page` 1; `PageUrlNotProbe` states that no page request equals it |
| `Finder.PageUrl` | screens/FinderScreen.tsx:103-107 | the URL of one page's request, with `page_size` 40; `PageUrlInjective` states that different pages give different URLs |
| `Finder.RunUrls` | screens/FinderScreen.tsx:71-107 | every URL one run requests: the probe's, then one per requested page in order, so one more than the pages; `RunUrlsDistinct` states that none repeats |
| `Finder.PageUrlNotProbe` | screens/FinderScreen.tsx:71-107 | no page request uses the probe's URL |
| `Finder.PageUrlInjective` | screens/FinderScreen.tsx:103-107 | different pages are requested with different URLs |
| `Finder.RunUrlsDistinct` | screens/FinderScreen.tsx:71-107 | a run whose pages are distinct never requests the same URL twice |
| `Finder.DistinctRequests` | screens/FinderScreen.tsx:71-107 | a first request plus one per page are pairwise different when page requests are injective and never equal the first |
| `Finder.Mapped` | screens/FinderScreen.tsx:103-107 | the i-th page URL is the URL of the i-th requested page |
| `Finder.StepDown` | screens/FinderScreen.tsx:154 | `Math.max(0, m - 5)`; `StepperFacts` states it |
| `Finder.StepUp` | screens/FinderScreen.tsx:156 | `Math.min(100, m + 5)`; `StepperFacts` states it |
| `Finder.StepperFacts` | screens/FinderScreen.tsx:154-156 | both buttons keep the threshold a multiple of 5 in `0..100`; "-" never raises it and "+" never lowers it; away from the ends each undoes the other; at 0 and at 100 the button pressed is a no-op |
| `Finder.FinderScreen.constructor` | screens/FinderScreen.tsx:49-55 | the initial state: genre `action`, platform `4`, threshold 70, no picks, not loading, no error |
| `Finder.FinderScreen.SelectGenre` | screens/FinderScreen.tsx:134 | the genre picker sets the genre and nothing else |
| `Finder.FinderScreen.SelectPlatform` | screens/FinderScreen.tsx:144 | the platform picker sets the platform and nothing else |
| `Finder.FinderScreen.DecreaseMinMeta` | screens/FinderScreen.tsx:154 | "-" sets the threshold to `max(0, m - 5)` and keeps the screen invariant |
| `Finder.FinderScreen.IncreaseMinMeta` | screens/FinderScreen.tsx:156 | "+" sets the threshold to `min(100, m + 5)` and keeps the screen invariant |
| `Finder.FinderScreen.FetchRandom3` | screens/FinderScreen.tsx:58-126 | the run meets `Ran`, the screen after it meets `Shows`, and its URLs are as detailed below the table |
| `Finder.FinderScreen.Refresh` | screens/FinderScreen.tsx:58-126 | the state updates of one run: it meets `Ran` and leaves the screen as `Shows` states |
| `Finder.FinderScreen.Shows` | screens/FinderScreen.tsx:60-124 | the screen after a run, as detailed below the table |
| `Finder.Search` | screens/FinderScreen.tsx:58-126 | one run meets `Ran`, and its URLs are as detailed below the table |

`Finder.Ran` states, for one run:

- The probe throws: the outcome is the failure, and no page is requested.
- The count is missing, zero or negative: the outcome is "No games found with
  these filters." and only the probe is made; that outcome arises in no
  other case.
- Otherwise:
  - the pages requested are the first drawings among the draws made, pairwise
    distinct and in `1..maxPage`;
  - the loop makes exactly the draws the source's loop makes (`StopsAt`): at
    most 6, each while nothing had thrown and the pool held under 120 games,
    and it stops at 6, at a thrown request or at 120 games;
  - the outcome is the failure exactly when a page request threw;
  - the outcome is "No games found (try different filters)." exactly when
    the pages gave no game;
  - a success holds between 1 and 3 games, picked from the pool as
    `PickRandom.PickRandomDistinct` promises.

`Finder.Search` and `Finder.FinderScreen.FetchRandom3` state `Ran` for their
run and, about the URLs requested:

- they are the probe's and then one per page, at most 7 in all, none twice;
- when the count is missing, zero or negative, the probe's is the only one.

`Finder.FinderScreen.FetchRandom3` and `Finder.FinderScreen.Refresh` also
state `Finder.FinderScreen.Shows`, the screen after the run:

- Nothing is loading.
- The error is the outcome's message. So it is "Failed to fetch games. Check
  API key / network." exactly when a request threw, "No games found with
  these filters." exactly when the probe counted nothing, "No games found
  (try different filters)." exactly when the pages held no game, and absent
  exactly when games are shown.
- The recommendations are the picks on success and empty on every other
  outcome, so partial results are never shown.
- The screen invariant holds: at most 3 picks, never beside an error.

## Left out

- UI: rendering, styles, navigation and the hard-coded genre and platform
  tables are not modelled. The pickers are modelled only as setters of the
  state they change.
- Floating point: `Math.random()` is modelled as an exact multiple of 2^-53.
  The rounding of the float product `Math.random() * m` before `Math.floor`
  is not modelled. `Math.ceil(total / 40)` is integer ceiling division, so
  a non-integral `count` is not modelled.
- `PickRandom.PickRandomDistinct`: does not state that every permutation is
  equally likely. Uniformity is a statement about a probability
  distribution, and the model has a fixed stream of draws.
- `PickRandom.Shuffle`: states a permutation, not which permutation a given
  stream produces.
- The network: `fetch`, HTTP status handling, the error text of a non-OK
  response and JSON decoding are replaced by the oracles `probe` and
  `pages`. Any of them throwing is `None`.
- The environment variable and the `console.warn` when it is missing are
  replaced by the parameter `key`.
- The record fields `released`, `background_image`, `metacritic`, `rating`,
  `ratings_count`, `next` and `previous` of models/rawg.ts are only
  displayed or unused. `Game` keeps `id` and `name`.
- Asynchrony: overlapping button presses, which start a second run before
  the first finishes, are not modelled. `FetchRandom3` runs to completion
  atomically, with `loading` true only inside it.
- `Object.entries` lists integer-like keys first. The queries here have no
  such keys, and the model keeps insertion order.
- `Rawg.Value`: numbers in queries are integers. `String(v)` of a fractional
  or non-finite number is not modelled. `DecimalString` prints every integer
  in plain digits, while JavaScript uses exponent notation from a magnitude
  of 10^21 on ("1e+21"), and integers beyond 2^53 are not exact JavaScript
  numbers. The queries here only send thresholds in 0..100, page sizes and
  page numbers, which stay far below both limits.
- `UriComponent`: a Dafny `char` is a Unicode scalar value. So the
  `URIError` that encodeURIComponent throws on a lone surrogate cannot
  arise in the model.
- `Finder.Sample`: if a page request throws, the attempt counter reported
  counts the draw of that request. Nothing in the source observes it after
  the throw.
