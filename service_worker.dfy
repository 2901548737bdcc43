/** The cache policy of sw.js: the base path and asset list, the install
    seeding, the activation eviction and the fetch decisions, over an
    abstract cache storage.

    The browser's cache storage is a value: the cache names in creation
    order, and for each name a map from request URL to stored response.
    Network results, the clock and the worker's own location come in as
    parameters. */
module ServiceWorker {
  import opened JsStrings

  datatype Option<T> = None | Some(value: T)

  /** The one cache namespace this version of the worker owns. */
  const CACHE_NAME: string := "7oh-landing-page-v2"

  /** One year, in seconds: the max-age of section 5.2.2.1 of RFC 9111. */
  const CACHE_DURATION: nat := 31536000

  /** Header names as a Headers object keys them (lower case). */
  const CACHE_CONTROL: string := "cache-control"
  const EXPIRES: string := "expires"

  // ---------------------------------------------------------------------
  // Base path and install-time assets

  /** `getBasePath`: the first path segment as deployment root when the
      path has one and more follows it, else the site root. */
  function GetBasePath(pathname: string): (base: string)
    ensures |base| >= 1 && base[0] == '/' && base[|base| - 1] == '/'
    ensures forall i :: 0 < i < |base| - 1 ==> base[i] != '/'
  {
    var parts := Split(pathname, '/');
    if |parts| > 2 && parts[1] != "" then "/" + parts[1] + "/" else "/"
  }

  /** A worker served from a sub-directory takes that directory as root,
      whatever follows it. */
  lemma BasePathOfSubdirectory(segment: string, rest: string)
    requires segment != [] && '/' !in segment
    ensures GetBasePath("/" + segment + "/" + rest) == "/" + segment + "/"
  {
    SplitAtFirst("", segment + "/" + rest, '/');
    assert "/" + segment + "/" + rest == "" + ['/'] + (segment + ['/'] + rest);
    SplitAtFirst(segment, rest, '/');
  }

  /** A worker served from the site root has `/` as root. */
  lemma BasePathAtRoot(name: string)
    requires '/' !in name
    ensures GetBasePath("/" + name) == "/"
  {
    SplitAtFirst("", name, '/');
    assert "/" + name == "" + ['/'] + name;
    SplitWithoutSeparator(name, '/');
  }

  lemma SubdirectoryExample()
    ensures GetBasePath("/landing_page/sw.js") == "/landing_page/"
  {
    var segment, rest := "landing_page", "sw.js";
    assert "/landing_page/sw.js" == "/" + segment + "/" + rest;
    BasePathOfSubdirectory(segment, rest);
  }

  lemma RootExample()
    ensures GetBasePath("/sw.js") == "/"
  {
    var name := "sw.js";
    assert "/sw.js" == "/" + name;
    BasePathAtRoot(name);
  }

  /** `STATIC_ASSETS`: the root document, the HTML entry point, the
      stylesheet, the script and the hero image under the base path. */
  function StaticAssets(base: string): (assets: seq<string>)
    ensures |assets| == 5 && assets[0] == base
    ensures forall i :: 0 <= i < |assets| ==> base <= assets[i]
    ensures forall i, j :: 0 <= i < j < |assets| ==> assets[i] != assets[j]
  {
    [ base,
      base + "index.html",
      base + "css/styles.css",
      base + "js/script.js",
      base + "images/hero-background.jpeg" ]
  }

  // ---------------------------------------------------------------------
  // Responses, requests and headers

  datatype ResponseType = Basic | Cors | Default | Error | Opaque | OpaqueRedirect

  /** A header value; `Expires` is kept as the instant it denotes, in
      milliseconds since the epoch, rather than as an HTTP-date string. */
  datatype HeaderValue = Text(text: string) | HttpDate(epochMillis: int)

  datatype Response = Response(
    rtype: ResponseType,
    status: nat,
    statusText: string,
    headers: map<string, HeaderValue>,
    body: seq<bv8>)

  datatype Request = Request(httpMethod: string, url: string, origin: string)

  /** What a `fetch` settles to: a response, or a rejection. */
  datatype FetchOutcome = NetworkError | Fetched(response: Response)

  /** `response.ok`. */
  predicate IsOk(r: Response) {
    200 <= r.status <= 299
  }

  predicate IsOkOutcome(o: FetchOutcome) {
    o.Fetched? && IsOk(o.response)
  }

  /** The `Cache-Control` value, built from the duration as the template
      literal builds it. */
  function CacheControlValue(): string {
    "public, max-age=" + DecimalString(CACHE_DURATION) + ", immutable"
  }

  /** One year prints as 31536000. */
  lemma DurationText()
    ensures DecimalString(CACHE_DURATION) == "31536000"
  {
    assert DecimalString(3153) == "3153";
  }

  lemma CacheControlText()
    ensures CacheControlValue() == "public, max-age=31536000, immutable"
  {
    DurationText();
    assert CacheControlValue() == "public, max-age=" + "31536000" + ", immutable";
  }

  /** The fresh Response built on both serving paths: the original body,
      status and status text, the original headers with `Cache-Control`
      and `Expires` set to one year. */
  function WithLongLifetime(r: Response, now: int): (out: Response)
    ensures out.rtype == Default
    ensures out.status == r.status && out.statusText == r.statusText && out.body == r.body
    ensures out.headers.Keys == r.headers.Keys + {CACHE_CONTROL, EXPIRES}
    ensures out.headers[CACHE_CONTROL] == Text("public, max-age=31536000, immutable")
    ensures out.headers[EXPIRES] == HttpDate(now + 31536000000)
    ensures forall h :: h in r.headers && h != CACHE_CONTROL && h != EXPIRES ==> out.headers[h] == r.headers[h]
  {
    CacheControlText();
    var headers := r.headers[CACHE_CONTROL := Text(CacheControlValue())]
                            [EXPIRES := HttpDate(now + CACHE_DURATION * 1000)];
    Response(Default, r.status, r.statusText, headers, r.body)
  }

  // ---------------------------------------------------------------------
  // Cache storage

  type Cache = map<string, Response>

  datatype Storage = Storage(order: seq<string>, caches: map<string, Cache>)

  predicate Distinct(names: seq<string>) {
    forall i, j :: 0 <= i < j < |names| ==> names[i] != names[j]
  }

  ghost predicate WellFormed(s: Storage) {
    && Distinct(s.order)
    && (forall name :: name in s.caches <==> name in s.order)
  }

  /** `caches.open(name)`: the named cache, created empty and last in order
      when it does not exist. */
  function Open(s: Storage, name: string): (t: Storage)
    requires WellFormed(s)
    ensures WellFormed(t) && name in t.caches
    ensures name in s.caches ==> t == s
    ensures name !in s.caches ==> t.caches == s.caches[name := map[]] && t.order == s.order + [name]
  {
    if name in s.caches then s else Storage(s.order + [name], s.caches[name := map[]])
  }

  /** `cache.put(url, response)` on an open cache. */
  function Put(s: Storage, name: string, url: string, r: Response): (t: Storage)
    requires WellFormed(s) && name in s.caches
    ensures WellFormed(t) && t.order == s.order && t.caches.Keys == s.caches.Keys
    ensures t.caches[name] == s.caches[name][url := r]
    ensures forall other :: other in s.caches && other != name ==> t.caches[other] == s.caches[other]
  {
    Storage(s.order, s.caches[name := s.caches[name][url := r]])
  }

  /** The names with `name` taken out. */
  function Without(names: seq<string>, name: string): (rest: seq<string>)
    requires Distinct(names)
    ensures Distinct(rest)
    ensures forall x :: x in rest <==> x in names && x != name
  {
    if names == [] then []
    else if names[0] == name then Without(names[1..], name)
    else
      var tail := Without(names[1..], name);
      assert names[0] !in tail by {
        assert forall j :: 0 <= j < |names[1..]| ==> names[1..][j] != names[0];
      }
      DistinctPrepend(names[0], tail);
      [names[0]] + tail
  }

  /** The names that remain keep their original order: an absent name
      changes nothing, and a present one is cut out where it stood. */
  lemma {:induction false} WithoutKeepsOrder(names: seq<string>, name: string)
    requires Distinct(names)
    ensures name !in names ==> Without(names, name) == names
    ensures forall k :: 0 <= k < |names| && names[k] == name ==> Without(names, name) == names[..k] + names[k + 1..]
    decreases |names|
  {
    if names != [] {
      var tail := names[1..];
      assert Distinct(tail);
      WithoutKeepsOrder(tail, name);
      assert [names[0]] + tail == names;
      if names[0] == name {
        assert name !in tail by {
          assert forall j :: 0 <= j < |tail| ==> tail[j] != names[0];
        }
        assert forall k :: 0 <= k < |names| && names[k] == name ==> k == 0;
      } else {
        forall k | 0 <= k < |names| && names[k] == name
          ensures Without(names, name) == names[..k] + names[k + 1..]
        {
          assert tail[k - 1] == name;
          assert names[..k] == [names[0]] + tail[..k - 1];
          assert names[k + 1..] == tail[k..];
        }
      }
    }
  }

  lemma DistinctPrepend(x: string, tail: seq<string>)
    requires Distinct(tail) && x !in tail
    ensures Distinct([x] + tail)
  {
    forall i, j | 0 <= i < j < |[x] + tail| ensures ([x] + tail)[i] != ([x] + tail)[j] {
      if i > 0 {
        assert ([x] + tail)[i] == tail[i - 1];
      }
      assert ([x] + tail)[j] == tail[j - 1];
    }
  }

  /** `caches.delete(name)`. */
  function Delete(s: Storage, name: string): (t: Storage)
    requires WellFormed(s)
    ensures WellFormed(t) && t.caches == s.caches - {name}
  {
    Storage(Without(s.order, name), s.caches - {name})
  }

  /** Deleting a cache keeps the others in their creation order. */
  lemma DeleteKeepsOrder(s: Storage, name: string, k: int)
    requires WellFormed(s) && 0 <= k < |s.order| && s.order[k] == name
    ensures Delete(s, name).order == s.order[..k] + s.order[k + 1..]
  {
    WithoutKeepsOrder(s.order, name);
  }

  /** `caches.match(request)` over the given names: the entry for the URL
      in the first cache, in creation order, that has one. */
  function MatchIn(order: seq<string>, caches: map<string, Cache>, url: string): (found: Option<Response>)
    requires forall name :: name in order ==> name in caches
    ensures found.None? <==> forall name :: name in order ==> url !in caches[name]
    ensures found.Some? ==> exists i :: 0 <= i < |order| && FirstHolder(order, caches, url, i) && found.value == caches[order[i]][url]
  {
    if order == [] then None
    else if url in caches[order[0]] then
      assert FirstHolder(order, caches, url, 0);
      Some(caches[order[0]][url])
    else
      var found := MatchIn(order[1..], caches, url);
      assert found.Some? ==> exists i :: 0 <= i < |order| && FirstHolder(order, caches, url, i) && found.value == caches[order[i]][url] by {
        if found.Some? {
          var i :| 0 <= i < |order[1..]| && FirstHolder(order[1..], caches, url, i) && found.value == caches[order[1..][i]][url];
          assert FirstHolder(order, caches, url, i + 1);
        }
      }
      found
  }

  /** The cache at position `i` holds the URL and no earlier one does. */
  ghost predicate FirstHolder(order: seq<string>, caches: map<string, Cache>, url: string, i: int)
    requires forall name :: name in order ==> name in caches
    requires 0 <= i < |order|
  {
    && url in caches[order[i]]
    && forall j :: 0 <= j < i ==> url !in caches[order[j]]
  }

  /** `caches.match(request)` over the whole storage. */
  function Match(s: Storage, url: string): (found: Option<Response>)
    requires WellFormed(s)
    ensures found.None? <==> forall name :: name in s.caches ==> url !in s.caches[name]
    ensures found.Some? ==> exists i :: 0 <= i < |s.order| && FirstHolder(s.order, s.caches, url, i) && found.value == s.caches[s.order[i]][url]
  {
    MatchIn(s.order, s.caches, url)
  }

  /** Once only the worker's cache is left, a match is a lookup in it. */
  lemma MatchSingleCache(s: Storage, url: string)
    requires WellFormed(s) && s.caches.Keys == {CACHE_NAME}
    ensures Match(s, url) == if url in s.caches[CACHE_NAME] then Some(s.caches[CACHE_NAME][url]) else None
  {
    if url in s.caches[CACHE_NAME] {
      MatchFirstHolder(s.order, s.caches, url, CACHE_NAME);
    }
  }

  /** Every entry of the worker's cache has an ok status. */
  predicate OkOnly(s: Storage) {
    CACHE_NAME in s.caches ==> forall url :: url in s.caches[CACHE_NAME] ==> IsOk(s.caches[CACHE_NAME][url])
  }

  // ---------------------------------------------------------------------
  // Install

  /** The cache after putting, in order, every asset whose fetch resolved
      with an ok response; the others are skipped. */
  function StoreOk(cache: Cache, urls: seq<string>, outcomes: seq<FetchOutcome>): Cache
    requires |urls| == |outcomes|
    decreases |urls|
  {
    if urls == [] then cache
    else
      var last := |urls| - 1;
      var before := StoreOk(cache, urls[..last], outcomes[..last]);
      if IsOkOutcome(outcomes[last]) then before[urls[last] := outcomes[last].response] else before
  }

  /** An entry is present after the puts exactly when it was before or some
      asset with that URL fetched ok; URLs outside the list keep their entry. */
  lemma {:induction false} StoreOkEntries(cache: Cache, urls: seq<string>, outcomes: seq<FetchOutcome>, url: string)
    requires |urls| == |outcomes|
    ensures url in StoreOk(cache, urls, outcomes) <==>
      url in cache || exists i :: 0 <= i < |urls| && urls[i] == url && IsOkOutcome(outcomes[i])
    ensures url !in urls && url in cache ==> StoreOk(cache, urls, outcomes)[url] == cache[url]
    decreases |urls|
  {
    if urls != [] {
      var last := |urls| - 1;
      StoreOkEntries(cache, urls[..last], outcomes[..last], url);
      assert forall i :: 0 <= i < last ==> urls[..last][i] == urls[i] && outcomes[..last][i] == outcomes[i];
      assert url !in urls ==> url !in urls[..last];
    }
  }

  /** With distinct URLs, a URL of the list holds the response its own fetch
      gave when that was ok. */
  lemma {:induction false} StoreOkValue(cache: Cache, urls: seq<string>, outcomes: seq<FetchOutcome>, k: nat)
    requires |urls| == |outcomes| && Distinct(urls) && k < |urls| && IsOkOutcome(outcomes[k])
    ensures urls[k] in StoreOk(cache, urls, outcomes)
    ensures StoreOk(cache, urls, outcomes)[urls[k]] == outcomes[k].response
    decreases |urls|
  {
    var last := |urls| - 1;
    if k < last {
      StoreOkValue(cache, urls[..last], outcomes[..last], k);
    }
  }

  /** Puts of ok responses keep every entry ok. */
  lemma {:induction false} StoreOkKeepsOk(cache: Cache, urls: seq<string>, outcomes: seq<FetchOutcome>)
    requires |urls| == |outcomes|
    requires forall url :: url in cache ==> IsOk(cache[url])
    ensures forall url :: url in StoreOk(cache, urls, outcomes) ==> IsOk(StoreOk(cache, urls, outcomes)[url])
    decreases |urls|
  {
    if urls != [] {
      var last := |urls| - 1;
      StoreOkKeepsOk(cache, urls[..last], outcomes[..last]);
    }
  }

  predicate AllOk(outcomes: seq<FetchOutcome>) {
    forall i :: 0 <= i < |outcomes| ==> IsOkOutcome(outcomes[i])
  }

  /** The install handler. `first` is what each asset's fetch gives inside
      `cache.addAll`, which stores all of them only when every one is ok;
      otherwise each asset is fetched again (`retry`) and stored if ok,
      and a failed asset never aborts the install. */
  method Install(s: Storage, pathname: string, first: seq<FetchOutcome>, retry: seq<FetchOutcome>)
    returns (t: Storage)
    requires WellFormed(s) && |first| == 5 && |retry| == 5
    ensures WellFormed(t) && CACHE_NAME in t.caches
    ensures t.order == Open(s, CACHE_NAME).order
    ensures forall name :: name in s.caches && name != CACHE_NAME ==> name in t.caches && t.caches[name] == s.caches[name]
    ensures t.caches.Keys == s.caches.Keys + {CACHE_NAME}
    ensures t.caches[CACHE_NAME] ==
      StoreOk(Open(s, CACHE_NAME).caches[CACHE_NAME], StaticAssets(GetBasePath(pathname)), if AllOk(first) then first else retry)
    ensures forall url :: url !in StaticAssets(GetBasePath(pathname)) ==>
      (url in t.caches[CACHE_NAME] <==> url in Open(s, CACHE_NAME).caches[CACHE_NAME])
    ensures OkOnly(s) ==> OkOnly(t)
  {
    var withCache := Open(s, CACHE_NAME);
    var assets := StaticAssets(GetBasePath(pathname));
    ghost var seeded := withCache.caches[CACHE_NAME];
    var cache := withCache.caches[CACHE_NAME];
    if AllOk(first) {
      cache := StoreOk(cache, assets, first);
    } else {
      for i := 0 to |assets|
        invariant cache == StoreOk(seeded, assets[..i], retry[..i])
      {
        assert assets[..i + 1][..i] == assets[..i] && retry[..i + 1][..i] == retry[..i];
        if IsOkOutcome(retry[i]) {
          cache := cache[assets[i] := retry[i].response];
        }
      }
      assert assets[..|assets|] == assets && retry[..|retry|] == retry;
    }
    t := Storage(withCache.order, withCache.caches[CACHE_NAME := cache]);
    var used := if AllOk(first) then first else retry;
    forall url | url !in assets ensures url in cache <==> url in seeded {
      StoreOkEntries(seeded, assets, used, url);
    }
    if OkOnly(s) {
      StoreOkKeepsOk(seeded, assets, used);
    }
  }

  /** A first install with every asset reachable leaves exactly the five
      assets in the worker's cache, each holding its own response. */
  lemma FirstInstallSeedsAllAssets(base: string, outcomes: seq<FetchOutcome>)
    requires |outcomes| == 5 && AllOk(outcomes)
    ensures StoreOk(map[], StaticAssets(base), outcomes).Keys == set i | 0 <= i < 5 :: StaticAssets(base)[i]
    ensures |StoreOk(map[], StaticAssets(base), outcomes)| == 5
    ensures forall i :: 0 <= i < 5 ==> StoreOk(map[], StaticAssets(base), outcomes)[StaticAssets(base)[i]] == outcomes[i].response
  {
    var assets := StaticAssets(base);
    var stored := StoreOk(map[], assets, outcomes);
    forall url ensures url in stored <==> url in set i | 0 <= i < 5 :: assets[i] {
      StoreOkEntries(map[], assets, outcomes, url);
    }
    forall i | 0 <= i < 5 ensures stored[assets[i]] == outcomes[i].response {
      StoreOkValue(map[], assets, outcomes, i);
    }
    assert stored.Keys == {assets[0], assets[1], assets[2], assets[3], assets[4]};
  }

  // ---------------------------------------------------------------------
  // Activate

  /** The activate handler: every cache whose name is not `CACHE_NAME` is
      deleted; the worker's own cache, when present, survives untouched. */
  method Activate(s: Storage) returns (t: Storage)
    requires WellFormed(s)
    ensures WellFormed(t)
    ensures t.caches.Keys == s.caches.Keys * {CACHE_NAME}
    ensures CACHE_NAME in s.caches ==> t.caches[CACHE_NAME] == s.caches[CACHE_NAME]
    ensures OkOnly(s) ==> OkOnly(t)
  {
    var names := s.order;
    t := s;
    for i := 0 to |names|
      invariant WellFormed(t)
      invariant t.caches.Keys == s.caches.Keys - (set j | 0 <= j < i && names[j] != CACHE_NAME :: names[j])
      invariant forall name :: name in t.caches ==> t.caches[name] == s.caches[name]
    {
      if names[i] != CACHE_NAME {
        t := Delete(t, names[i]);
      }
    }
    assert t.caches.Keys == s.caches.Keys * {CACHE_NAME} by {
      forall name | name in s.caches && name != CACHE_NAME
        ensures name in set j | 0 <= j < |names| && names[j] != CACHE_NAME :: names[j]
      {
        var j :| 0 <= j < |names| && names[j] == name;
      }
    }
  }

  // ---------------------------------------------------------------------
  // Fetch

  /** Only same-origin GET requests are handled by the worker. */
  predicate Intercepts(req: Request, workerOrigin: string) {
    req.httpMethod == "GET" && req.origin == workerOrigin
  }

  /** A network response may be stored only when it is a 200 of type basic. */
  predicate Cacheable(r: Response) {
    r.status == 200 && r.rtype == Basic
  }

  /** `new Response(...)` accepts only statuses 200 to 599. */
  predicate Constructible(r: Response) {
    200 <= r.status <= 599
  }

  /** What the page gets: the request left to the browser, a response, or a
      rejected load. */
  datatype Handling = NotIntercepted | Responded(response: Response) | Rejected

  datatype FetchStep = FetchStep(handling: Handling, storage: Storage)

  /** The fetch handler for one request. `network` is what `fetch(request)`
      settles to; it is consulted only on a miss. */
  function HandleFetch(s: Storage, req: Request, workerOrigin: string, now: int, network: FetchOutcome): (step: FetchStep)
    requires WellFormed(s)
    ensures WellFormed(step.storage)
    ensures OkOnly(s) ==> OkOnly(step.storage)
  {
    if !Intercepts(req, workerOrigin) then FetchStep(NotIntercepted, s)
    else match Match(s, req.url)
      case Some(cached) =>
        if Constructible(cached) then FetchStep(Responded(WithLongLifetime(cached, now)), s)
        else FetchStep(Rejected, s)
      case None =>
        match network
        case NetworkError => FetchStep(Rejected, s)
        case Fetched(r) =>
          if !Cacheable(r) then FetchStep(Responded(r), s)
          else FetchStep(Responded(WithLongLifetime(r, now)), Put(Open(s, CACHE_NAME), CACHE_NAME, req.url, r))
  }

  /** A request that is not a same-origin GET is left to the browser and
      the storage is untouched. */
  lemma NotInterceptedUntouched(s: Storage, req: Request, workerOrigin: string, now: int, network: FetchOutcome)
    requires WellFormed(s) && !Intercepts(req, workerOrigin)
    ensures HandleFetch(s, req, workerOrigin, now, network) == FetchStep(NotIntercepted, s)
  {
  }

  /** A hit serves a fresh response of type `default` with the stored
      status, status text, body and headers, where only `Cache-Control` and
      `Expires` are set anew, whatever the network would say; the storage is
      unchanged. */
  lemma HitServesStored(s: Storage, req: Request, workerOrigin: string, now: int, network: FetchOutcome)
    requires WellFormed(s) && Intercepts(req, workerOrigin) && Match(s, req.url).Some?
    requires Constructible(Match(s, req.url).value)
    ensures var step := HandleFetch(s, req, workerOrigin, now, network);
      var cached := Match(s, req.url).value;
      && step.storage == s
      && step.handling.Responded?
      && step.handling.response.rtype == Default
      && step.handling.response.status == cached.status
      && step.handling.response.statusText == cached.statusText
      && step.handling.response.body == cached.body
      && step.handling.response.headers.Keys == cached.headers.Keys + {CACHE_CONTROL, EXPIRES}
      && step.handling.response.headers[CACHE_CONTROL] == Text("public, max-age=31536000, immutable")
      && step.handling.response.headers[EXPIRES] == HttpDate(now + 31536000000)
      && forall h :: h in cached.headers && h != CACHE_CONTROL && h != EXPIRES ==>
           step.handling.response.headers[h] == cached.headers[h]
  {
  }

  /** A hit whose stored status the Response constructor refuses rejects
      the load; the storage is unchanged. */
  lemma HitUnconstructibleRejects(s: Storage, req: Request, workerOrigin: string, now: int, network: FetchOutcome)
    requires WellFormed(s) && Intercepts(req, workerOrigin) && Match(s, req.url).Some?
    requires !Constructible(Match(s, req.url).value)
    ensures HandleFetch(s, req, workerOrigin, now, network) == FetchStep(Rejected, s)
  {
  }

  /** On a miss the storage changes exactly when the network gave a
      cacheable response; an uncacheable one is returned as it came. */
  lemma MissStoresIffCacheable(s: Storage, req: Request, workerOrigin: string, now: int, network: FetchOutcome)
    requires WellFormed(s) && Intercepts(req, workerOrigin) && Match(s, req.url).None?
    ensures var step := HandleFetch(s, req, workerOrigin, now, network);
      && (step.storage != s <==> network.Fetched? && Cacheable(network.response))
      && (network.Fetched? && !Cacheable(network.response) ==> step.handling == Responded(network.response))
      && (network.NetworkError? ==> step.handling == Rejected)
  {
    var step := HandleFetch(s, req, workerOrigin, now, network);
    if network.Fetched? && Cacheable(network.response) {
      var withCache := Open(s, CACHE_NAME);
      assert req.url in step.storage.caches[CACHE_NAME];
      assert req.url !in withCache.caches[CACHE_NAME];
      if CACHE_NAME in s.caches {
        assert CACHE_NAME in s.order;
        assert req.url !in s.caches[CACHE_NAME];
      }
    }
  }

  /** A stored miss returns the network response with the long-lifetime
      headers; it adds the URL to the worker's cache, creating that cache
      last if it was missing, and leaves every other cache and every other
      URL as it was; and the next request for the same URL is a hit that serves
      the stored response without asking the network. */
  lemma StoredMissThenHit(s: Storage, req: Request, workerOrigin: string, now: int, network: FetchOutcome,
                          later: int, laterNetwork: FetchOutcome)
    requires WellFormed(s) && Intercepts(req, workerOrigin) && Match(s, req.url).None?
    requires network.Fetched? && Cacheable(network.response)
    ensures var step := HandleFetch(s, req, workerOrigin, now, network);
      && step.handling == Responded(WithLongLifetime(network.response, now))
      && step.storage.order == (if CACHE_NAME in s.caches then s.order else s.order + [CACHE_NAME])
      && step.storage.caches.Keys == s.caches.Keys + {CACHE_NAME}
      && (forall name :: name in s.caches && name != CACHE_NAME ==> step.storage.caches[name] == s.caches[name])
      && step.storage.caches[CACHE_NAME]
         == (if CACHE_NAME in s.caches then s.caches[CACHE_NAME] else map[])[req.url := network.response]
      && Match(step.storage, req.url) == Some(network.response)
      && HandleFetch(step.storage, req, workerOrigin, later, laterNetwork)
         == FetchStep(Responded(WithLongLifetime(network.response, later)), step.storage)
  {
    var t := Put(Open(s, CACHE_NAME), CACHE_NAME, req.url, network.response);
    assert HandleFetch(s, req, workerOrigin, now, network)
        == FetchStep(Responded(WithLongLifetime(network.response, now)), t);
    PutAfterOpen(s, req.url, network.response);
    PutAfterMissMatches(s, req.url, network.response);
  }

  /** Putting a URL that no cache held into the worker's cache makes it
      the only holder, so a match returns the stored response. */
  lemma PutAfterMissMatches(s: Storage, url: string, r: Response)
    requires WellFormed(s) && Match(s, url).None?
    ensures Match(Put(Open(s, CACHE_NAME), CACHE_NAME, url, r), url) == Some(r)
  {
    var t := Put(Open(s, CACHE_NAME), CACHE_NAME, url, r);
    PutAfterOpen(s, url, r);
    assert forall name :: name in t.order && name != CACHE_NAME ==> url !in t.caches[name];
    MatchFirstHolder(t.order, t.caches, url, CACHE_NAME);
  }

  /** Opening the worker's cache and putting one entry in it changes that
      entry only, creating the cache last when it was missing. */
  lemma PutAfterOpen(s: Storage, url: string, r: Response)
    requires WellFormed(s)
    ensures var t := Put(Open(s, CACHE_NAME), CACHE_NAME, url, r);
      && t.order == (if CACHE_NAME in s.caches then s.order else s.order + [CACHE_NAME])
      && t.caches.Keys == s.caches.Keys + {CACHE_NAME}
      && (forall name :: name in s.caches && name != CACHE_NAME ==> t.caches[name] == s.caches[name])
      && t.caches[CACHE_NAME] == (if CACHE_NAME in s.caches then s.caches[CACHE_NAME] else map[])[url := r]
  {
  }

  /** When only one cache holds a URL, a match returns that cache's entry. */
  lemma {:induction false} MatchFirstHolder(order: seq<string>, caches: map<string, Cache>, url: string, holder: string)
    requires forall name :: name in order ==> name in caches
    requires holder in order && url in caches[holder]
    requires forall name :: name in order && name != holder ==> url !in caches[name]
    ensures MatchIn(order, caches, url) == Some(caches[holder][url])
  {
    if order[0] != holder {
      assert holder in order[1..];
      MatchFirstHolder(order[1..], caches, url, holder);
    }
  }
}
