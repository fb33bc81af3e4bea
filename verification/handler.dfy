/**
 * The `/api/scrape` handler: check the request, build the search URLs, scrape them one after
 * another while ignoring the ones that fail, filter what was gathered and answer with it.
 *
 * `HandleAsWritten` chooses the scraping rules of each URL as the scraper does, by looking for
 * the WebMotors domain anywhere in the URL; `Handle` passes each URL the site it was built
 * for. They agree unless the OLX query itself names the domain.
 */
module Handler {
  import opened Optional
  import opened SeqUtil
  import opened JsText
  import opened JsNumber
  import opened FormUrlencoded
  import opened Query
  import opened Vehicles
  import opened Extract
  import opened Filter
  import opened Scraper

  /** The parsed request body: `null`/absent (destructuring it throws), or an object with or without a usable `searchConfig`. */
  datatype Body = NoBody | Body(searchConfig: Option<SearchConfig>)

  datatype Request = Request(httpMethod: string, body: Body)

  /** A `POST` whose body carries a search configuration. */
  predicate IsSearch(req: Request)
  {
    req.httpMethod == "POST" && req.body.Body? && req.body.searchConfig.Some?
  }

  function SearchRequest(c: SearchConfig): (r: Request)
    ensures IsSearch(r) && r.body.searchConfig.value == c
  {
    Request("POST", Body(Some(c)))
  }

  /** The JSON answer with its status: an error, or the filtered listings with their count and a summary. */
  datatype Response =
    | Failure(status: int, error: string)
    | Success(vehicles: seq<Listing>, total: int, message: string)

  const NotAllowed := "M\U{00E9}todo n\U{00E3}o permitido. Use POST."
  const ConfigRequired := "Configura\U{00E7}\U{00E3}o de busca \U{00E9} obrigat\U{00F3}ria."
  const InternalError := "Erro interno do servidor."

  /** The summary line of a successful search. */
  function Message(n: int): string
  {
    "Busca conclu\U{00ED}da! " + IntToString(n) + " ve\U{00ED}culos encontrados."
  }

  /* ------------------------------ gathering the results ----------------------------- */

  /** What one URL adds to `allResults`: its listings, or nothing when `scrapeUrl` rejected. */
  function Contribution(o: Outcome): seq<Listing>
  {
    match o
    case Listings(vs) => vs
    case Rejected => []
  }

  /** `allResults` after the loop: the contributions of the URLs, in order. */
  function Collected<Q>(queries: seq<Q>, scrape: Q -> Outcome): seq<Listing>
    decreases |queries|
  {
    if |queries| == 0 then [] else Contribution(scrape(queries[0])) + Collected(queries[1..], scrape)
  }

  lemma {:induction false} CollectedAppend<Q>(a: seq<Q>, b: seq<Q>, scrape: Q -> Outcome)
    ensures Collected(a + b, scrape) == Collected(a, scrape) + Collected(b, scrape)
    decreases |a|
  {
    if |a| == 0 {
      assert a + b == b;
    } else {
      assert (a + b)[0] == a[0] && (a + b)[1..] == a[1..] + b;
      CollectedAppend(a[1..], b, scrape);
      assert (Contribution(scrape(a[0])) + Collected(a[1..], scrape)) + Collected(b, scrape) == Contribution(scrape(a[0])) + (Collected(a[1..], scrape) + Collected(b, scrape));
    }
  }

  /** A listing is gathered exactly when one of the URLs contributed it. */
  lemma {:induction false} CollectedMembership<Q>(queries: seq<Q>, scrape: Q -> Outcome, v: Listing)
    ensures v in Collected(queries, scrape) <==>
            exists i | 0 <= i < |queries| :: v in Contribution(scrape(queries[i]))
    decreases |queries|
  {
    if |queries| > 0 {
      CollectedMembership(queries[1..], scrape, v);
      if v in Collected(queries[1..], scrape) {
        var i :| 0 <= i < |queries| - 1 && v in Contribution(scrape(queries[1..][i]));
        assert v in Contribution(scrape(queries[i + 1]));
      }
      if exists i | 0 <= i < |queries| :: v in Contribution(scrape(queries[i])) {
        var i :| 0 <= i < |queries| && v in Contribution(scrape(queries[i]));
        if i > 0 {
          assert queries[1..][i - 1] == queries[i];
        }
      }
    }
  }

  /** Two URL lists whose URLs are scraped alike, position by position, gather the same listings. */
  lemma {:induction false} CollectedPointwise<P, Q>(a: seq<P>, f: P -> Outcome, b: seq<Q>, g: Q -> Outcome)
    requires |a| == |b| && forall i | 0 <= i < |a| :: f(a[i]) == g(b[i])
    ensures Collected(a, f) == Collected(b, g)
    decreases |a|
  {
    if |a| > 0 {
      assert f(a[0]) == g(b[0]);
      assert forall i | 0 <= i < |a| - 1 :: f(a[1..][i]) == g(b[1..][i]) by {
        forall i | 0 <= i < |a| - 1 ensures f(a[1..][i]) == g(b[1..][i]) {
          assert a[1..][i] == a[i + 1] && b[1..][i] == b[i + 1];
        }
      }
      CollectedPointwise(a[1..], f, b[1..], g);
    }
  }

  /**
   * The `for ... of` loop: each URL is scraped in turn and its listings are appended, and a
   * URL whose scrape rejects is skipped without stopping the loop.
   */
  method CollectResults<Q>(queries: seq<Q>, scrape: Q -> Outcome) returns (all: seq<Listing>)
    ensures all == Collected(queries, scrape)
    ensures forall v :: v in all <==> exists i | 0 <= i < |queries| :: v in Contribution(scrape(queries[i]))
  {
    all := [];
    var i := 0;
    while i < |queries|
      invariant 0 <= i <= |queries|
      invariant all == Collected(queries[..i], scrape)
    {
      var results := Contribution(scrape(queries[i]));
      CollectedAppend(queries[..i], [queries[i]], scrape);
      assert Collected([queries[i]], scrape) == results + [];
      assert queries[..i + 1] == queries[..i] + [queries[i]];
      all := all + results;
      i := i + 1;
    }
    assert queries[..i] == queries;
    forall v ensures v in all <==> exists i | 0 <= i < |queries| :: v in Contribution(scrape(queries[i])) {
      CollectedMembership(queries, scrape, v);
    }
  }

  /* -------------------------------- the search URLs --------------------------------- */

  /** The two builders' results, `null` where a builder gave up. */
  datatype Built = Built(olx: Option<string>, webMotors: Option<string>)

  function BuildUrls(c: SearchConfig): Built
  {
    Built(BuildOlxUrl(c), BuildWebMotorsUrl(c))
  }

  /** `searchUrls` as written: each built URL that is truthy, OLX first. */
  function SearchUrls(b: Built): (r: seq<string>)
    ensures |r| == (if Truthy(b.olx) then 1 else 0) + (if Truthy(b.webMotors) then 1 else 0)
    ensures forall u | u in r :: u != "" && (Some(u) == b.olx || Some(u) == b.webMotors)
    ensures Truthy(b.olx) ==> r[0] == b.olx.value
    ensures Truthy(b.webMotors) ==> r[|r| - 1] == b.webMotors.value
  {
    (if Truthy(b.olx) then [b.olx.value] else []) + (if Truthy(b.webMotors) then [b.webMotors.value] else [])
  }

  /** A search URL with the site it was built for. */
  type SiteUrl = (Site, string)

  /** The same URLs, each with the site it was built for. */
  function SearchQueries(b: Built): (r: seq<SiteUrl>)
    ensures |r| == |SearchUrls(b)|
    ensures forall i | 0 <= i < |r| :: r[i].1 == SearchUrls(b)[i]
    ensures forall i | 0 <= i < |r| :: Some(r[i].1) == if r[i].0 == Olx then b.olx else b.webMotors
  {
    (if Truthy(b.olx) then [(Olx, b.olx.value)] else [])
    + (if Truthy(b.webMotors) then [(WebMotors, b.webMotors.value)] else [])
  }

  /** For a configuration, every URL a builder gives is searched, OLX first; a builder's `null` is skipped. */
  lemma SearchUrlsOfConfig(c: SearchConfig)
    ensures var urls := SearchUrls(BuildUrls(c));
            && |urls| == (if BuildOlxUrl(c).Some? then 1 else 0) + (if BuildWebMotorsUrl(c).Some? then 1 else 0)
            && (BuildOlxUrl(c).Some? ==> urls[0] == BuildOlxUrl(c).value)
            && (BuildWebMotorsUrl(c).Some? ==> urls[|urls| - 1] == BuildWebMotorsUrl(c).value)
  {
    BuiltUrlsNonEmpty(c);
  }

  /** Scraping a URL as written: the rules follow from the URL's text. */
  function UrlScraper(browse: Browse): string -> Outcome
  {
    url => ScrapeUrl(url, browse)
  }

  /** Scraping a URL with the rules of the site it was built for. */
  function QueryScraper(browse: Browse): SiteUrl -> Outcome
  {
    (q: SiteUrl) => ScrapeWith(q.0, q.1, browse)
  }

  /** What one built URL adds when it is scraped with the rules of `site`. */
  function Part(site: Site, url: Option<string>, browse: Browse): seq<Listing>
  {
    if Truthy(url) then Contribution(ScrapeWith(site, url.value, browse)) else []
  }

  /* ---------------------------------- the handler ----------------------------------- */

  /** The handler around the gathering step: method check, body check, filter, answer. */
  function Respond(req: Request, gather: SearchConfig -> seq<Listing>): (r: Response)
    ensures req.httpMethod != "POST" ==> r == Failure(405, NotAllowed)
    ensures req.httpMethod == "POST" && req.body.NoBody? ==> r == Failure(500, InternalError)
    ensures req.httpMethod == "POST" && req.body == Body(None) ==> r == Failure(400, ConfigRequired)
    ensures r.Success? <==> IsSearch(req)
    ensures r.Success? ==> r.total == |r.vehicles| && r.message == Message(r.total)
    ensures r.Success? ==> var c := req.body.searchConfig.value;
              forall v :: v in r.vehicles <==> v in gather(c) && Kept(c, v)
  {
    if req.httpMethod != "POST" then Failure(405, NotAllowed)
    else match req.body
      case NoBody => Failure(500, InternalError)
      case Body(None) => Failure(400, ConfigRequired)
      case Body(Some(c)) =>
        var vehicles := FilterResults(gather(c), c);
        Success(vehicles, |vehicles|, Message(|vehicles|))
  }

  /** The listings gathered from the built URLs, each URL scraped with the rules of its own site. */
  function Gather(b: Built, browse: Browse): seq<Listing>
  {
    Collected(SearchQueries(b), QueryScraper(browse))
  }

  /** The listings gathered as written, each URL scraped with the rules its text selects. */
  function GatherAsWritten(b: Built, browse: Browse): seq<Listing>
  {
    Collected(SearchUrls(b), UrlScraper(browse))
  }

  /** The handler with each URL scraped by the rules of the site it was built for. */
  function Handle(req: Request, browse: Browse): (r: Response)
    ensures req.httpMethod != "POST" ==> r.Failure? && r.status == 405
    ensures r.Success? ==> r.total == |r.vehicles| && r.message == Message(r.total)
    ensures r.Success? ==> IsSearch(req) && forall v | v in r.vehicles ::
              IsValid(v) && Kept(req.body.searchConfig.value, v)
  {
    var r := Respond(req, c => Gather(BuildUrls(c), browse));
    assert r.Success? ==> forall v | v in r.vehicles :: IsValid(v) by {
      if r.Success? {
        forall v | v in r.vehicles ensures IsValid(v) {
          GatheredValid(BuildUrls(req.body.searchConfig.value), browse, v);
        }
      }
    }
    r
  }

  /** The handler as written. */
  function HandleAsWritten(req: Request, browse: Browse): (r: Response)
    ensures req.httpMethod != "POST" ==> r.Failure? && r.status == 405
    ensures r.Success? ==> r.total == |r.vehicles| && r.message == Message(r.total)
    ensures r.Success? ==> IsSearch(req) && forall v | v in r.vehicles ::
              IsValid(v) && Kept(req.body.searchConfig.value, v)
  {
    var r := Respond(req, c => GatherAsWritten(BuildUrls(c), browse));
    assert r.Success? ==> forall v | v in r.vehicles :: IsValid(v) by {
      if r.Success? {
        forall v | v in r.vehicles ensures IsValid(v) {
          GatheredAsWrittenValid(BuildUrls(req.body.searchConfig.value), browse, v);
        }
      }
    }
    r
  }

  /* --------------------------------- what is answered -------------------------------- */

  /** Everything gathered is valid and tagged with the site of the URL whose page it came from. */
  lemma GatheredValid(b: Built, browse: Browse, v: Listing)
    requires v in Gather(b, browse)
    ensures IsValid(v)
    ensures v.siteOrigem == Olx ==> v in Part(Olx, b.olx, browse)
    ensures v.siteOrigem == WebMotors ==> v in Part(WebMotors, b.webMotors, browse)
  {
    var qs := SearchQueries(b);
    CollectedMembership(qs, QueryScraper(browse), v);
    var i :| 0 <= i < |qs| && v in Contribution(QueryScraper(browse)(qs[i]));
    assert v in ScrapeWith(qs[i].0, qs[i].1, browse).vs;
  }

  /** As written, everything gathered is valid. */
  lemma GatheredAsWrittenValid(b: Built, browse: Browse, v: Listing)
    requires v in GatherAsWritten(b, browse)
    ensures IsValid(v)
  {
    var urls := SearchUrls(b);
    CollectedMembership(urls, UrlScraper(browse), v);
    var i :| 0 <= i < |urls| && v in Contribution(UrlScraper(browse)(urls[i]));
    assert v in ScrapeUrl(urls[i], browse).vs;
  }

  /** The gathered listings are the OLX URL's, then the WebMotors URL's. */
  lemma GatherParts(b: Built, browse: Browse)
    ensures Gather(b, browse) == Part(Olx, b.olx, browse) + Part(WebMotors, b.webMotors, browse)
  {
    var olx: seq<SiteUrl> := if Truthy(b.olx) then [(Olx, b.olx.value)] else [];
    var webMotors: seq<SiteUrl> := if Truthy(b.webMotors) then [(WebMotors, b.webMotors.value)] else [];
    var scrape := QueryScraper(browse);
    CollectedAppend(olx, webMotors, scrape);
    assert Collected(olx, scrape) == Part(Olx, b.olx, browse) by {
      if Truthy(b.olx) {
        assert Collected(olx, scrape) == Contribution(scrape(olx[0])) + Collected(olx[1..], scrape);
      }
    }
    assert Collected(webMotors, scrape) == Part(WebMotors, b.webMotors, browse) by {
      if Truthy(b.webMotors) {
        assert Collected(webMotors, scrape) == Contribution(scrape(webMotors[0])) + Collected(webMotors[1..], scrape);
      }
    }
  }

  /** The answer lists the OLX results that pass the filter, then the WebMotors results that pass it. */
  lemma HandleOrder(c: SearchConfig, browse: Browse)
    ensures var b := BuildUrls(c);
            Handle(SearchRequest(c), browse).vehicles
              == FilterResults(Part(Olx, b.olx, browse), c) + FilterResults(Part(WebMotors, b.webMotors, browse), c)
  {
    var b := BuildUrls(c);
    GatherParts(b, browse);
    FilterAppend(Part(Olx, b.olx, browse), Part(WebMotors, b.webMotors, browse), c);
  }

  /** An OLX URL that is not built, or whose scrape rejects or renders no page, leaves the WebMotors results as they are. */
  lemma FailingOlxIgnored(c: SearchConfig, browse: Browse)
    requires BuildOlxUrl(c).Some? ==> !browse(BuildOlxUrl(c).value, Olx).Rendered?
    ensures Handle(SearchRequest(c), browse).vehicles == FilterResults(Part(WebMotors, BuildWebMotorsUrl(c), browse), c)
  {
    var b := BuildUrls(c);
    HandleOrder(c, browse);
    FailingPartEmpty(b.olx, browse);
    assert FilterResults(Part(Olx, b.olx, browse), c) == [];
  }

  /** A built URL whose page does not render adds nothing. */
  lemma FailingPartEmpty(url: Option<string>, browse: Browse)
    requires url.Some? ==> !browse(url.value, Olx).Rendered?
    ensures Part(Olx, url, browse) == []
  {
  }

  /** Both handlers treat a request that is not a search alike. */
  lemma HandlersAgreeOffSearch(req: Request, browse: Browse)
    requires !IsSearch(req)
    ensures Handle(req, browse) == HandleAsWritten(req, browse)
  {
  }

  /** A URL whose text selects the site it was built for is scraped alike by both dispatches. */
  lemma SameRules(browse: Browse, site: Site, url: string)
    requires SiteOf(url) == site
    ensures UrlScraper(browse)(url) == QueryScraper(browse)((site, url))
  {
  }

  /** When each built URL's text selects its own site, both dispatches gather the same listings. */
  lemma GatherAgreesOf(b: Built, browse: Browse)
    requires Truthy(b.olx) ==> SiteOf(b.olx.value) == Olx
    requires Truthy(b.webMotors) ==> SiteOf(b.webMotors.value) == WebMotors
    ensures GatherAsWritten(b, browse) == Gather(b, browse)
  {
    var urls, qs := SearchUrls(b), SearchQueries(b);
    forall i | 0 <= i < |urls| ensures UrlScraper(browse)(urls[i]) == QueryScraper(browse)(qs[i]) {
      SameRules(browse, qs[i].0, qs[i].1);
    }
    CollectedPointwise(urls, UrlScraper(browse), qs, QueryScraper(browse));
  }

  /** Unless the OLX query names the WebMotors domain, dispatching by the URL's text is the same as dispatching by site. */
  lemma HandlersAgree(req: Request, browse: Browse)
    requires IsSearch(req) && OlxParams(req.body.searchConfig.value).Some? ==>
               !Contains(Serialize(OlxParams(req.body.searchConfig.value).value), WebMotorsDomain)
    ensures Handle(req, browse) == HandleAsWritten(req, browse)
  {
    if IsSearch(req) {
      var c := req.body.searchConfig.value;
      OlxUrlDispatch(c);
      if BuildWebMotorsUrl(c).Some? {
        WebMotorsUrlDispatch(c);
      }
      GatherAgreesOf(BuildUrls(c), browse);
    }
  }

  /* ------------------------ the brand that names the other site ---------------------- */

  /** A brand that is the WebMotors domain, with a model. */
  predicate NamesDomain(c: SearchConfig)
  {
    c.marca == Str(WebMotorsDomain) && c.modelo.Str? && c.modelo.s != ""
  }

  /** When every built URL's text names the domain, nothing gathered as written is tagged `olx`. */
  lemma AsWrittenTagsOf(b: Built, browse: Browse)
    requires Truthy(b.olx) ==> SiteOf(b.olx.value) == WebMotors
    requires Truthy(b.webMotors) ==> SiteOf(b.webMotors.value) == WebMotors
    ensures forall v | v in GatherAsWritten(b, browse) :: v.siteOrigem == WebMotors
  {
    var urls := SearchUrls(b);
    forall v | v in GatherAsWritten(b, browse) ensures v.siteOrigem == WebMotors {
      CollectedMembership(urls, UrlScraper(browse), v);
      var i :| 0 <= i < |urls| && v in Contribution(UrlScraper(browse)(urls[i]));
      assert v in ScrapeUrl(urls[i], browse).vs;
    }
  }

  /** As written, a brand of `webmotors.com` leaves no listing tagged `olx` in the answer. */
  lemma AsWrittenLosesOlx(c: SearchConfig, browse: Browse)
    requires NamesDomain(c)
    ensures forall v | v in HandleAsWritten(SearchRequest(c), browse).vehicles :: v.siteOrigem == WebMotors
  {
    BrandNamingDomainMisroutes(c);
    if BuildWebMotorsUrl(c).Some? {
      WebMotorsUrlDispatch(c);
    }
    AsWrittenTagsOf(BuildUrls(c), browse);
  }

  /** The card an OLX results page shows with just a title and a link. */
  function PlainCard(title: string, href: string): Card
  {
    Card(Some(title), None, None, [], None, Some(href))
  }

  /** A page rendering one plain card hands back that card's OLX listing. */
  lemma PlainCardScraped(url: string, browse: Browse, title: string, href: string)
    requires title != "" && !IsJsSpace(title[0]) && !IsJsSpace(title[|title| - 1]) && href != ""
    requires browse(url, Olx) == Rendered([PlainCard(title, href)])
    ensures ScrapeWith(Olx, url, browse).Listings?
    ensures ExtractOlx(PlainCard(title, href)) in ScrapeWith(Olx, url, browse).vs
  {
    var card := PlainCard(title, href);
    var v := ExtractOlx(card);
    TrimUnspaced(title);
    assert v.siteOrigem == Olx && IsValid(v);
    assert CardResult(Olx, card) == [v];
    ReturnedWithoutNaN(v);
  }

  /** The OLX part holds the listing of a rendered page's one plain card. */
  lemma PlainCardInOlxPart(c: SearchConfig, browse: Browse, title: string, href: string)
    requires NamesDomain(c)
    requires title != "" && !IsJsSpace(title[0]) && !IsJsSpace(title[|title| - 1]) && href != ""
    requires browse(BuildOlxUrl(c).value, Olx) == Rendered([PlainCard(title, href)])
    ensures ExtractOlx(PlainCard(title, href)) in Part(Olx, BuildOlxUrl(c), browse)
  {
    PlainCardScraped(BuildOlxUrl(c).value, browse, title, href);
    BuiltUrlsNonEmpty(c);
  }

  /**
   * A brand of `webmotors.com`, no other criterion, and an OLX page that shows one card with a
   * title and a link: the corrected handler answers with that card's OLX listing, the handler
   * as written does not.
   */
  lemma MisroutedOlxListing(c: SearchConfig, browse: Browse, title: string, href: string)
    requires NamesDomain(c) && NoCriteria(c)
    requires title != "" && !IsJsSpace(title[0]) && !IsJsSpace(title[|title| - 1]) && href != ""
    requires browse(BuildOlxUrl(c).value, Olx) == Rendered([PlainCard(title, href)])
    ensures ExtractOlx(PlainCard(title, href)) in Handle(SearchRequest(c), browse).vehicles
    ensures ExtractOlx(PlainCard(title, href)) !in HandleAsWritten(SearchRequest(c), browse).vehicles
  {
    var v := ExtractOlx(PlainCard(title, href));
    PlainCardInOlxPart(c, browse, title, href);
    HandleOrder(c, browse);
    assert v in FilterResults(Part(Olx, BuildOlxUrl(c), browse), c);
    AsWrittenLosesOlx(c, browse);
  }
}
