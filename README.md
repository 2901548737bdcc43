# Landing page: testimonials carousel and asset-cache service worker

A Dafny model of the two pieces of logic in the landing page:

- **The testimonials carousel** (`js/script.js`), modelled in `carousel.dfy`, module
  `TestimonialsCarousel`. The closure state becomes the class `Carousel`. It holds the
  slide count `n`, `currentIndex` and the cached `isMobileView` flag. It also holds the
  auto-advance interval: `timerActive` says that the stored handle names a running
  interval, and `strayTimers` counts running intervals whose handle was overwritten.
  `resizePending` is the pending debounced resize. The displayed slides and the
  highlighted dots are two boolean arrays, which the render writes in place. The render
  rule and the index arithmetic are pure functions: `Window`, `Dots`, `DotIndex`,
  `NextIndex`, `PrevIndex` and `GoToIndex`. The handlers are methods whose contracts tie
  the new state to those functions.
- **The service worker** (`sw.js`), modelled in `service_worker.dfy`, module
  `ServiceWorker`, with the JavaScript string behaviour it relies on in
  `js_strings.dfy`, module `JsStrings`. The browser's cache storage is a value. It holds
  the cache names in creation order, and for each name a map from request URL to
  response record. A response record has a type, status, status text, header map and
  body. `caches.match` looks through the caches in creation order. Install and activate
  are methods that loop over the assets and over the cache names and return the new
  storage. The fetch handler is a function of the storage, the request, the worker's
  origin, the current time and what the network returns.

The headers written on every served response follow HTTP caching. The first is
`Cache-Control: public, max-age=31536000, immutable`: `public` is section 5.2.2.9 and
`max-age` section 5.2.2.1 of RFC 9111, and `immutable` is RFC 8246. The second is
`Expires`, section 5.3 of RFC 9111, set to now plus one year. The `Expires` value is kept
as the instant it denotes, in milliseconds since the epoch.

The model follows the code, including where it departs from the evident intent:

- Only a missing container is guarded. Zero slides are not, and the model allows
  `n == 0`.
- The "exactly one dot" rule holds only while the index is in range. `PrevSlide` can
  leave the index at -1.

## Model

| member | source | states |
|---|---|---|
| `TestimonialsCarousel.IsMobileWidth` | js/script.js:50 | the width classification: mobile exactly when the width is at most 768 pixels; its consequence for the slides per view is `SlidesPerViewByWidth` |
| `TestimonialsCarousel.SlidesPerView` | js/script.js:58 | one slide per view on mobile, two on desktop, read from the cached classification; the same value the next and previous steps use (js/script.js:95, 105) |
| `TestimonialsCarousel.Shows` | js/script.js:64 | the render rule for one slide: shown exactly when its index lies in [currentIndex, currentIndex + slidesPerView) |
| `TestimonialsCarousel.Window` | js/script.js:63-65 | the display flag of every slide under the render rule; its count and shape are proved in `CountWindow` and `VisibleRun` |
| `TestimonialsCarousel.DotIndex` | js/script.js:75 | the highlighted dot: the index on mobile, its floor half on desktop; proved in range by `OneDotHighlighted` |
| `TestimonialsCarousel.Dots` | js/script.js:76-77 | the highlight flag of every dot; how many are lit is `CountDots` |
| `TestimonialsCarousel.SlidesPerViewByWidth` | js/script.js:50-58 | one slide per view exactly when the width is at most 768, two exactly when it is wider |
| `TestimonialsCarousel.CountWindow` | js/script.js:63-66 | for any index, the number of slides shown is the size of the overlap of [currentIndex, currentIndex + slidesPerView) with the slides |
| `TestimonialsCarousel.VisibleRun` | js/script.js:63-71 | with 0 <= currentIndex < n, the shown slides are the contiguous run of min(slidesPerView, n - currentIndex) slides from currentIndex; every other slide is hidden |
| `TestimonialsCarousel.CollectSlideChanges` | js/script.js:62-66 | the first pass of the render collects, slide by slide, exactly the display flags of the render rule |
| `TestimonialsCarousel.CountDots` | js/script.js:74-78 | one dot per slide; exactly one is highlighted when the dot index is in [0, n), none otherwise |
| `TestimonialsCarousel.OneDotHighlighted` | js/script.js:75-78 | with an index in range, the dot index (the index on mobile, its floor half on desktop) is in range and is the only highlighted dot |
| `TestimonialsCarousel.NextIndex` | js/script.js:94-99 | the next index is 0 or currentIndex + slidesPerView, and is in [0, n) whenever n >= 1 and currentIndex >= 0 |
| `TestimonialsCarousel.PrevIndex` | js/script.js:104-109 | the previous index is in [0, n) when the index is in range and 1 <= slidesPerView <= n; it is negative exactly when it wraps with more slides per view than slides |
| `TestimonialsCarousel.GoToIndex` | js/script.js:81-89 | a dot click gives k on mobile; on desktop 2k when 2k < n, else n - 2; in [0, n) for every dot index 0 <= k < n |
| `TestimonialsCarousel.NextThenPrev` | js/script.js:94-109 | a next step followed by a previous step returns to the start when the next step did not wrap |
| `TestimonialsCarousel.PrevThenNext` | js/script.js:94-109 | a previous step followed by a next step returns to the start when the previous step did not wrap |
| `TestimonialsCarousel.SixSlideCycles` | js/script.js:94-99 | six slides on desktop go 0, 2, 4, 0; on mobile each step adds one and the sixth wraps to 0 |
| `TestimonialsCarousel.OddDesktopSingleSlideWindow` | js/script.js:81-89 | with an odd slide count of at least 3 on desktop, the middle dot sets the index to n - 1, where only one slide is shown |
| `TestimonialsCarousel.DesktopDotAfterGoTo` | js/script.js:75-89 | on desktop, the dot highlighted after clicking dot k is k exactly when 2k < n |
| `TestimonialsCarousel.PrevSlideOneSlideDesktop` | js/script.js:104-109 | with one slide on desktop, a previous step gives index -1: the slide stays shown and no dot is highlighted |
| `TestimonialsCarousel.PrevIndexCorrected` | js/script.js:104-109 | the wrap pinned at 0 keeps the index in [0, n) for every slide count, and agrees with the code whenever the code's wrap is non-negative |
| `TestimonialsCarousel.Carousel.constructor` | js/script.js:6-128 | set-up: index 0, classification of the initial width, slides and dots rendered, one running interval and no stray one |
| `TestimonialsCarousel.Carousel.Render` | js/script.js:57-79 | after a render, every slide's display and every dot's highlight are those of the render rule for the current index and classification |
| `TestimonialsCarousel.Carousel.StartAutoSlide` | js/script.js:114-116 | a new interval is stored; an interval the old handle named keeps running as a stray |
| `TestimonialsCarousel.Carousel.ResetAutoSlide` | js/script.js:118-121 | clear then start: exactly one tracked interval and no new stray |
| `TestimonialsCarousel.Carousel.GoToSlide` | js/script.js:81-92 | the index becomes GoToIndex of the clicked dot and is always in range; the view is re-rendered and the timer restarted; the classification is unchanged |
| `TestimonialsCarousel.Carousel.NextSlide` | js/script.js:94-102 | the index becomes NextIndex of the old one and stays in range from any non-negative index; re-rendered, timer restarted |
| `TestimonialsCarousel.Carousel.PrevSlide` | js/script.js:104-112 | the index becomes PrevIndex of the old one; in range is kept when a window fits in the slides; re-rendered, timer restarted |
| `TestimonialsCarousel.Carousel.Resize` | js/script.js:132-134 | a raw resize only (re)schedules the settle; nothing else changes |
| `TestimonialsCarousel.Carousel.SettleResize` | js/script.js:134-141 | the classification becomes that of the new width; the index never changes; the view is re-rendered exactly when the classification flipped and is otherwise untouched; a consistent view stays consistent |
| `TestimonialsCarousel.Carousel.MouseEnter` | js/script.js:145-147 | hovering clears the stored interval; only stray intervals keep running |
| `TestimonialsCarousel.Carousel.MouseLeave` | js/script.js:149-151 | leaving starts an interval without clearing, so a running tracked interval becomes a stray |
| `TestimonialsCarousel.Carousel.MouseLeaveCorrected` | js/script.js:149-151 | leaving through clear-then-start never adds a stray interval |
| `TestimonialsCarousel.HoveredNavigationLeaksTimer` | js/script.js:145-151 | hover, keyboard dot activation, leave, hover again: one interval still runs while hovered |
| `TestimonialsCarousel.HoveredNavigationCorrected` | js/script.js:145-151 | the same events with the corrected leave handler: nothing runs while hovered |
| `JsStrings.Split` | sw.js:7 | `split('/')` gives at least one piece, and no piece contains the separator |
| `JsStrings.JoinSplit` | sw.js:7 | joining the pieces of a split with the separator gives the original path back |
| `JsStrings.SplitJoin` | sw.js:7 | splitting a join of separator-free pieces gives the pieces back |
| `JsStrings.SplitWithoutSeparator` | sw.js:7 | a string without the separator splits into itself alone |
| `JsStrings.SplitAtFirst` | sw.js:7-10 | a string splits into its text before the first separator, then the pieces of the rest |
| `JsStrings.DecimalString` | sw.js:86 | the template-literal text of a number is a non-empty run of digits without a leading zero |
| `JsStrings.DecimalRoundTrip` | sw.js:86 | that text reads back as the same number |
| `ServiceWorker.GetBasePath` | sw.js:5-13 | the base path begins and ends with `/` and holds no other `/` |
| `ServiceWorker.BasePathOfSubdirectory` | sw.js:8-10 | a worker under `/<segment>/...` with a non-empty segment has base path `/<segment>/` |
| `ServiceWorker.BasePathAtRoot` | sw.js:12 | a worker at `/<name>` has base path `/` |
| `ServiceWorker.SubdirectoryExample` | sw.js:5-11 | `/landing_page/sw.js` gives `/landing_page/` |
| `ServiceWorker.RootExample` | sw.js:5-13 | `/sw.js` gives `/` |
| `ServiceWorker.StaticAssets` | sw.js:16-22 | five distinct assets, each starting with the base path, the first being the base path itself |
| `ServiceWorker.DurationText` | sw.js:24-25 | one year prints as `31536000` |
| `ServiceWorker.CacheControlText` | sw.js:86 | the Cache-Control value is `public, max-age=31536000, immutable` |
| `ServiceWorker.WithLongLifetime` | sw.js:85-93 | the served response keeps status, status text and body and every other header, and has the two long-lifetime headers with Expires one year after now |
| `ServiceWorker.Open` | sw.js:30 | opening a cache creates it empty, last in order, only when it does not exist |
| `ServiceWorker.Put` | sw.js:38 | a put sets one entry of one cache and changes nothing else |
| `ServiceWorker.Delete` | sw.js:58 | a delete removes exactly that cache name |
| `ServiceWorker.WithoutKeepsOrder` | sw.js:58 | taking a name out of the creation order leaves the other names in their original order; an absent name changes nothing |
| `ServiceWorker.DeleteKeepsOrder` | sw.js:58 | after a delete the remaining caches keep their creation order, so later matches search them in the same order |
| `ServiceWorker.MatchIn` | sw.js:81 | a match finds nothing exactly when no cache has the URL, and otherwise returns the entry of the first cache, in creation order, that holds it |
| `ServiceWorker.MatchFirstHolder` | sw.js:81 | when only one cache holds the URL, the match returns that cache's entry |
| `ServiceWorker.MatchSingleCache` | sw.js:81 | once only the worker's cache is left, a match is a lookup in it |
| `ServiceWorker.StoreOkEntries` | sw.js:34-43 | after the fallback puts, a URL is present exactly when it was before or an asset with that URL fetched ok; entries outside the list keep their value |
| `ServiceWorker.StoreOkValue` | sw.js:36-39 | with distinct assets, each asset whose fetch was ok holds exactly that response |
| `ServiceWorker.StoreOkKeepsOk` | sw.js:36-39 | the fallback only ever stores ok responses |
| `ServiceWorker.Install` | sw.js:28-47 | the worker's cache is opened; all assets are stored when every addAll fetch is ok, otherwise each retried asset is stored if ok; other caches and URLs outside the asset list are untouched; the worker's cache holds only ok responses if it did before |
| `ServiceWorker.FirstInstallSeedsAllAssets` | sw.js:30-31 | a first install with every asset reachable leaves exactly the five assets, each with its own response |
| `ServiceWorker.Activate` | sw.js:52-63 | the cache names afterwards are the old ones intersected with `{CACHE_NAME}`; the worker's cache survives unchanged |
| `ServiceWorker.CacheControlValue` | sw.js:86 | the `Cache-Control` value built from the duration by the template literal; its text is `CacheControlText` |
| `ServiceWorker.Match` | sw.js:81 | `caches.match` over all caches: no result exactly when no cache holds the URL; otherwise the entry of the first cache, in creation order, that holds it |
| `ServiceWorker.StoreOk` | sw.js:34-43 | the worker's cache after the fallback: every asset whose fetch gave an ok response is put, every other is skipped; its properties are `StoreOkEntries`, `StoreOkValue` and `StoreOkKeepsOk` |
| `ServiceWorker.Intercepts` | sw.js:70-78 | the worker answers a request exactly when it is a GET from the worker's own origin |
| `ServiceWorker.Cacheable` | sw.js:99 | a network response is stored exactly when its status is 200 and its type is `basic` |
| `ServiceWorker.Constructible` | sw.js:89-93 | `new Response` accepts a stored status only in 200 to 599; outside that range the hit becomes a rejected load |
| `ServiceWorker.HandleFetch` | sw.js:68-124 | a fetch keeps the storage well formed and keeps the worker's cache free of non-ok responses |
| `ServiceWorker.NotInterceptedUntouched` | sw.js:69-78 | a non-GET or cross-origin request is not answered by the worker and the storage is untouched |
| `ServiceWorker.HitUnconstructibleRejects` | sw.js:81-93 | a hit whose stored status is outside 200 to 599 rejects the load, because `new Response` throws, and the storage is unchanged |
| `ServiceWorker.HitServesStored` | sw.js:81-93 | a hit serves a fresh response of type `default` with the stored status, status text and body; its header names are exactly the stored ones plus `Cache-Control` and `Expires`, the two long-lifetime values are set and every other header keeps its stored value; the storage is unchanged and the network is not consulted |
| `ServiceWorker.MissStoresIffCacheable` | sw.js:97-101 | on a miss the storage changes exactly when the network gave a 200 of type basic; any other response is returned unmodified, and a network failure rejects |
| `ServiceWorker.StoredMissThenHit` | sw.js:103-120 | a stored miss returns the network response with the long-lifetime headers; it adds the URL to the worker's cache (created last if missing) and leaves every other cache and every other URL as it was; the next request for the URL is a hit that serves what was stored |

## Left out

- DOM construction and styling (js/script.js:11-47) and the CSS strings. The slides and dots are the two arrays `slideShown` and `dotLit`.
- The smooth-scroll handler, the newsletter form stub and the fade-in observer (js/script.js:154-204). They are stateless wrappers around browser calls.
- Real time. The 5000 ms interval and the 150 ms debounce are not modelled. A tick of any running interval is a call to `NextSlide`, and a settled resize is a call to `SettleResize` with the width at that moment.
- `TestimonialsCarousel.Carousel.GoToSlide` requires `0 <= k < n`. Its only callers are the dot handlers, which pass their own index.
- Promise asynchrony, `event.waitUntil`, `skipWaiting`, `clients.claim` and concurrent fetch events.
- The fire-and-forget `cache.put` of the miss path is a synchronous update that always succeeds.
- The fallback's per-asset fetches, which the source starts together under `Promise.all`, are modelled as running one after another, in list order. The assets are distinct, so the order does not change the result.
- A `cache.put` that rejects is not modelled, whether from quota or a partial response. Neither is an `addAll` rejected for a `Vary: *` response. `addAll` succeeds exactly when every fetch gives an ok response.
- `Date.now()` and `toUTCString()`: `now` is a parameter, and `Expires` is the instant now + 31536000000 ms rather than its HTTP-date text.
- URL parsing: a request carries its origin and method as fields. Its `url` is the path and query within the worker's origin, the same key space as the entries of `StaticAssets`. The source resolves the asset strings against the worker's location when it stores them (sw.js:31, 38) and matches the absolute request URL (sw.js:81); within one origin the two meet exactly when the paths do.
- Header names are assumed to be already in lower case. Case folding is not modelled.
- Request matching uses the URL only. `Vary` and match options are not modelled.
- Response bodies are byte sequences; streams and `clone()` are not modelled.
- `new Response` rejects a status outside 200 to 599, and on a hit this is modelled as a rejected load. Its rejection of a body on a null-body status (204, 205, 304) is not modelled.
- The `!response` test of sw.js:99 is never true, because `fetch` settles either to a response or to a rejection. A rejection is `NetworkError`.
- `console.log` in the install fallback.

## Findings

| source | as written | input that shows it | evidently intended | confidence | as-written member | corrected member |
|---|---|---|---|---|---|---|
| js/script.js:149-151 | mouse-leave calls `startAutoSlide` without clearing the stored interval | pointer resting on the slides, a dot activated from the keyboard (which restarts the interval), pointer leaves, pointer returns: one interval keeps advancing while hovered, and it can never be cleared | resume through the clear-then-start pair, as every other restart does | medium, not executed | `TestimonialsCarousel.HoveredNavigationLeaksTimer` | `TestimonialsCarousel.Carousel.MouseLeaveCorrected` |
| js/script.js:106-108 | the backward wrap goes to `n - slidesPerView` even when that is negative | one slide, desktop width, previous arrow: index -1, no dot highlighted | wrap to the last window, pinned at 0 | medium, not executed | `TestimonialsCarousel.PrevSlideOneSlideDesktop` | `TestimonialsCarousel.PrevIndexCorrected` |

The `Carousel` class keeps the handlers as written. The corrected definitions stand beside them with their properties proved: `MouseLeaveCorrected` with `HoveredNavigationCorrected`, and `PrevIndexCorrected`, which agrees with `PrevIndex` wherever the code's wrap is non-negative.
