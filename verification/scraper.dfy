/**
 * `scrapeUrl`: one headless-browser session per search URL. The browser itself is not
 * modelled; a `Browse` function stands for it and says how the session for a URL ends.
 */
module Scraper {
  import opened Optional
  import opened SeqUtil
  import opened JsText
  import opened JsNumber
  import opened FormUrlencoded
  import opened Query
  import opened Vehicles
  import opened Extract

  /**
   * How the browser session for a URL ends, given the card selector the scraper waits for:
   * launching the browser or opening the page fails (outside the `try`); setting the user
   * agent, navigating or waiting for the cards fails (inside the `try`); the in-page
   * evaluation is rejected; or the page renders and its cards are read.
   */
  datatype Session =
    | LaunchFailed
    | NavigationFailed
    | EvaluateRejected
    | Rendered(cards: seq<Card>)

  /** The browser, as a function of the URL and of the site whose cards are awaited. */
  type Browse = (string, Site) -> Session

  /** What `await scrapeUrl(url)` gives the caller: an array of listings, or a rejection. */
  datatype Outcome = Listings(vs: seq<Listing>) | Rejected

  /** A number as `page.evaluate` hands it back by value: the protocol's JSON has no `NaN`, and writes `null`. */
  function Returned(n: JsNum): (r: JsNum)
    ensures !r.NaN?
    ensures n.Num? <==> r.Num?
    ensures n.Num? ==> r.value == n.value
  {
    if n.NaN? then Null else n
  }

  /** A listing as the page's result reaches Node: every `NaN` number is `null`, the rest is as it was. */
  function ReturnedListing(v: Listing): (r: Listing)
    ensures !r.valor.NaN? && !r.ano.NaN? && !r.quilometragem.NaN?
    ensures (if v.valor.NaN? then r.valor.Null? else r.valor == v.valor)
    ensures (if v.ano.NaN? then r.ano.Null? else r.ano == v.ano)
    ensures (if v.quilometragem.NaN? then r.quilometragem.Null? else r.quilometragem == v.quilometragem)
    ensures r.(valor := v.valor, ano := v.ano, quilometragem := v.quilometragem) == v
    ensures IsValid(r) <==> IsValid(v)
  {
    v.(valor := Returned(v.valor), ano := Returned(v.ano), quilometragem := Returned(v.quilometragem))
  }

  /** A listing without a `NaN` number crosses from the page unchanged. */
  lemma ReturnedWithoutNaN(v: Listing)
    requires !v.valor.NaN? && !v.ano.NaN? && !v.quilometragem.NaN?
    ensures ReturnedListing(v) == v
  {
  }

  /** The page's array as the caller receives it. */
  function ReturnedPage(vs: seq<Listing>): (r: seq<Listing>)
    ensures |r| == |vs|
    ensures forall i | 0 <= i < |r| :: r[i] == ReturnedListing(vs[i])
  {
    seq(|vs|, i requires 0 <= i < |vs| => ReturnedListing(vs[i]))
  }

  /** The text whose presence in a URL makes the scraper apply the WebMotors rules. */
  const WebMotorsDomain := "webmotors.com"

  /**
   * `url.includes('webmotors.com')`, read as the site whose rules are applied: the WebMotors
   * rules exactly when the domain occurs somewhere in the URL, query included.
   */
  function SiteOf(url: string): (r: Site)
    ensures r == WebMotors <==> exists i :: OccursAt(url, WebMotorsDomain, i)
  {
    ContainsIffOccurs(url, WebMotorsDomain);
    if Contains(url, WebMotorsDomain) then WebMotors else Olx
  }

  /**
   * One session with the rules of `site`. A failure before the `try` propagates; a failure
   * caught by the `try` gives `[]`; the evaluation's promise is returned without `await`, so
   * its rejection escapes the `catch` and reaches the caller. The page's array comes back by
   * value, with `NaN` numbers written as `null`.
   */
  function ScrapeWith(site: Site, url: string, browse: Browse): (r: Outcome)
    ensures r.Rejected? <==> browse(url, site).LaunchFailed? || browse(url, site).EvaluateRejected?
    ensures browse(url, site).NavigationFailed? ==> r == Listings([])
    ensures r.Listings? ==> forall v | v in r.vs :: IsValid(v) && v.siteOrigem == site
    ensures r.Listings? ==> forall v | v in r.vs :: !v.valor.NaN? && !v.ano.NaN? && !v.quilometragem.NaN?
    ensures browse(url, site).Rendered? ==>
              forall v :: v in r.vs <==> exists i, w | 0 <= i < |browse(url, site).cards| &&
                                           w in CardResult(site, browse(url, site).cards[i]) :: v == ReturnedListing(w)
  {
    match browse(url, site)
    case LaunchFailed => Rejected
    case NavigationFailed => Listings([])
    case EvaluateRejected => Rejected
    case Rendered(cards) =>
      var vs := ReturnedPage(ExtractPage(site, cards));
      forall v ensures v in vs <==> exists i, w | 0 <= i < |cards| && w in CardResult(site, cards[i]) :: v == ReturnedListing(w) {
        RenderedMembership(site, cards, v);
      }
      Listings(vs)
  }

  /** A listing is handed back exactly when it is the by-value copy of one in the page's array. */
  lemma ReturnedPageMembership(page: seq<Listing>, v: Listing)
    ensures v in ReturnedPage(page) <==> exists w | w in page :: v == ReturnedListing(w)
  {
    var r := ReturnedPage(page);
    if v in r {
      var k :| 0 <= k < |r| && r[k] == v;
      assert page[k] in page;
    }
    if exists w | w in page :: v == ReturnedListing(w) {
      var w :| w in page && v == ReturnedListing(w);
      var k :| 0 <= k < |page| && page[k] == w;
      assert r[k] == v;
    }
  }

  /** What a rendered page hands back: the listings of its cards, each as it crosses by value. */
  lemma RenderedMembership(site: Site, cards: seq<Card>, v: Listing)
    ensures v in ReturnedPage(ExtractPage(site, cards)) <==>
            exists i, w | 0 <= i < |cards| && w in CardResult(site, cards[i]) :: v == ReturnedListing(w)
  {
    var page := ExtractPage(site, cards);
    ReturnedPageMembership(page, v);
    forall w ensures w in page <==> exists i | 0 <= i < |cards| :: w in CardResult(site, cards[i]) {
      ExtractPageMembership(site, cards, w);
    }
  }

  /** `scrapeUrl(url)` as written: the rules are chosen by looking for the domain in the whole URL. */
  function ScrapeUrl(url: string, browse: Browse): (r: Outcome)
    ensures r.Listings? ==> forall v | v in r.vs ::
              IsValid(v) && (v.siteOrigem == WebMotors <==> Contains(url, WebMotorsDomain))
  {
    ScrapeWith(SiteOf(url), url, browse)
  }

  /* ---------------------- which rules each search URL receives ---------------------- */

  /** The WebMotors base URL names the domain, so every WebMotors search URL gets the WebMotors rules. */
  lemma WebMotorsUrlDispatch(c: SearchConfig)
    requires BuildWebMotorsUrl(c).Some?
    ensures SiteOf(BuildWebMotorsUrl(c).value) == WebMotors
  {
    WebMotorsBaseDispatch(Serialize(WebMotorsParams(c).value));
  }

  lemma WebMotorsBaseDispatch(query: string)
    ensures SiteOf(WebMotorsBase + "?" + query) == WebMotors
  {
    var tail := ".br/carros/estoque" + "?" + query;
    assert WebMotorsBase == "https://www." + WebMotorsDomain + ".br/carros/estoque";
    assert WebMotorsBase + "?" + query == "https://www." + WebMotorsDomain + tail;
    ContainsInfix("https://www.", WebMotorsDomain, tail);
  }

  /** The OLX base URL has no `w`: an OLX search URL gets the WebMotors rules exactly when its query names the domain. */
  lemma OlxUrlDispatch(c: SearchConfig)
    ensures BuildOlxUrl(c).Some? ==>
              (SiteOf(BuildOlxUrl(c).value) == WebMotors <==> Contains(Serialize(OlxParams(c).value), WebMotorsDomain))
  {
    if OlxParams(c).Some? {
      OlxBaseDispatch(Serialize(OlxParams(c).value));
    }
  }

  lemma OlxBaseDispatch(query: string)
    ensures SiteOf(OlxBase + "?" + query) == WebMotors <==> Contains(query, WebMotorsDomain)
  {
    OlxBaseLacksW();
    assert WebMotorsDomain[0] == 'w';
    ContainsAfter(OlxBase, "?" + query, WebMotorsDomain);
    ContainsAfter("?", query, WebMotorsDomain);
    assert (OlxBase + "?") + query == OlxBase + ("?" + query);
  }

  lemma OlxBaseLacksW()
    ensures 'w' !in OlxBase
  {
    var a, b, c := "https://sp.olx.com.br/", "autos-e-pecas/", "carros-vans-e-utilitarios";
    LiteralLacksW(a, b, c);
    OlxBaseParts(a, b, c);
  }

  lemma LiteralLacksW(a: string, b: string, c: string)
    requires a == "https://sp.olx.com.br/" && b == "autos-e-pecas/" && c == "carros-vans-e-utilitarios"
    ensures 'w' !in a + b + c
  {
    assert 'w' !in a by {}
    assert 'w' !in b by {}
    assert 'w' !in c by {}
  }

  lemma OlxBaseParts(a: string, b: string, c: string)
    requires a == "https://sp.olx.com.br/" && b == "autos-e-pecas/" && c == "carros-vans-e-utilitarios"
    ensures OlxBase == a + b + c
  {
  }

  /** A name or value whose encoding names the domain makes the serialized list name it. */
  lemma SerializeHeadContains(ps: seq<Param>, n: string)
    requires |ps| > 0 && Contains(EncodeComponent(ps[0].1), n)
    ensures Contains(Serialize(ps), n)
  {
    var head := EncodeComponent(ps[0].0) + "=";
    ContainsSuffix(head, EncodeComponent(ps[0].1), n);
    if |ps| == 1 {
      SerializeSingle(ps[0]);
    } else {
      assert ps == [ps[0]] + ps[1..];
      SerializeCons(ps[0], ps[1..]);
      ContainsPrefix(SerializePair(ps[0]), "&" + Serialize(ps[1..]), n);
      assert (SerializePair(ps[0]) + "&") + Serialize(ps[1..]) == SerializePair(ps[0]) + ("&" + Serialize(ps[1..]));
    }
  }

  /** The domain is written into a query as it is. */
  lemma EncodeDomain()
    ensures EncodeComponent(WebMotorsDomain) == WebMotorsDomain
  {
    EncodeUnreserved(WebMotorsDomain);
  }

  /**
   * A brand of `webmotors.com` with any string model puts the domain into the OLX query,
   * so the OLX search URL is scraped with the WebMotors rules.
   */
  lemma BrandNamingDomainMisroutes(c: SearchConfig)
    requires c.marca == Str(WebMotorsDomain) && c.modelo.Str? && c.modelo.s != ""
    ensures OlxParams(c).Some? && Contains(Serialize(OlxParams(c).value), WebMotorsDomain)
    ensures BuildOlxUrl(c).Some? && SiteOf(BuildOlxUrl(c).value) == WebMotors
  {
    var ps := OlxParams(c).value;
    var rest := " " + c.modelo.s;
    assert ps[0] == ("q", WebMotorsDomain + " " + c.modelo.s);
    assert WebMotorsDomain + " " + c.modelo.s == WebMotorsDomain + rest;
    EncodeComponentAppend(WebMotorsDomain, rest);
    EncodeDomain();
    ContainsInfix("", WebMotorsDomain, EncodeComponent(rest));
    assert "" + WebMotorsDomain + EncodeComponent(rest) == EncodeComponent(ps[0].1);
    SerializeHeadContains(ps, WebMotorsDomain);
    OlxUrlDispatch(c);
  }
}
