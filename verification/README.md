# Vehicle search scraper, modelled in Dafny

The service answers `POST /api/scrape` with used-car listings from two sites, OLX and WebMotors.

1. From the request's `searchConfig` it builds one search URL per site. The query of each URL is an ordered `URLSearchParams` list, serialized with the application/x-www-form-urlencoded serializer of the WHATWG URL Standard (section 5.2).
2. It opens each URL in a headless browser, one after another.
3. It reads the result cards of each page into listing records. A card that throws is dropped. A record without a title or a link is dropped too.
4. It concatenates what the sites gave. A site whose scrape throws gives nothing.
5. It filters the listings again by the search criteria and answers with them, their count and a summary line.

The model keeps the JavaScript semantics that decide the results:

- **Truthiness.** `0`, `""`, `null` and a missing field all mean "not set".
- **Vehicle numbers** are `null`, `NaN` or a number. `null` compares as 0, and `NaN` makes every comparison false.
- **Parsing.** `parseInt` and `parseFloat` read the longest numeric prefix, over exact decimals.
- **Strings.** `split`, `trim`, `toLowerCase`, `includes` and `replace` (first occurrence, or global with a character class) are modelled.
- **Per-card catch.** A card whose code throws becomes `null`.

## Modules

| file | module | what it holds |
|---|---|---|
| `optional.dfy` | `Optional` | `Option` |
| `seq_util.dfy` | `SeqUtil` | sub-sequences, first match, flat-map |
| `js_text.dfy` | `JsText` | JavaScript string operations |
| `js_number.dfy` | `JsNumber` | the three numeric values, `String(n)`, `parseInt`, `parseFloat` |
| `utf8.dfy` | `Utf8` | UTF-8 encoding and its decoder |
| `form_urlencoded.dfy` | `FormUrlencoded` | the WHATWG urlencoded serializer, and its parser as its inverse |
| `query.dfy` | `Query` | the search configuration and both URL builders |
| `vehicles.dfy` | `Vehicles` | the listing record and its validity test |
| `filter.dfy` | `Filter` | `filterResults` |
| `extract.dfy` | `Extract` | the result cards and both sites' card rules |
| `scraper.dfy` | `Scraper` | one browser session per URL, and the choice of rules |
| `handler.dfy` | `Handler` | the request handler and its gathering loop |

Things the model takes as parameters:

- **The browser** is a parameter, `Scraper.Browse`. Given a URL and the site whose cards are awaited, it says how the session ends:
  - the launch failed;
  - the navigation or the wait for the cards failed;
  - the in-page evaluation was rejected;
  - or the page rendered a list of cards.
- **A card** is the record of the texts its elements show: title, price, year/km label, feature chips, location and link. An element that is absent is `None`.

## Model

| member | source | states |
|---|---|---|
| `Query.NumParam` | pages/api/scrape.js:82-84 | a numeric bound adds its key exactly when the bound is truthy (not missing, not 0), with the value `String(n)` |
| `Query.OlxParams` | pages/api/scrape.js:76-92 | the list is missing exactly when brand and model are both truthy and one of them has no `String(...)` form, so the template literal throws. Otherwise the OLX keys come in the order `q, pe, rs, re` with none repeated. `q` is present exactly when brand and model are both truthy, with the value `brand + " " + model`. `pe`, `rs` and `re` carry the price and year bounds whenever those are truthy |
| `Query.OlxIgnoresMileage` | pages/api/scrape.js:71-101 | the OLX URL never depends on the mileage bound or the location |
| `Query.BuildOlxUrl` | pages/api/scrape.js:72-100 | the OLX builder returns `null` exactly when writing the brand or the model into `q` throws. Otherwise it returns the OLX base, `?` and a query that the urlencoded parser reads back as exactly the OLX parameter list |
| `Query.TextParam` | pages/api/scrape.js:112-117 | a truthy brand or model adds its lower-cased string. A falsy one adds nothing. A truthy non-string one throws |
| `Query.WebMotorsParams` | pages/api/scrape.js:107-135 | the list starts with `tipoveiculo=carros`. The other keys follow in the order `marca, modelo, precoate, anoinicial, anofinal, kmmax`, each one exactly when its field is truthy. Brand and model are lower-cased independently. The list is null exactly when lower-casing throws |
| `Query.BuildWebMotorsUrl` | pages/api/scrape.js:137-143 | the WebMotors builder returns `null` exactly when its parameter list could not be built. Otherwise it returns the WebMotors base, `?` and a query that the urlencoded parser reads back as exactly the WebMotors parameter list |
| `Query.BuiltUrlsNonEmpty` | pages/api/scrape.js:24-29 | every built URL is a non-empty string, so the handler's truthiness test keeps it |
| `Query.OlxUrlOfWordSearch` | pages/api/scrape.js:77-94 | for an alphanumeric brand and model and a price bound, the OLX URL is `base?q=<brand>+<model>&pe=<price>` |
| `Query.WebMotorsUrlOfWordSearch` | pages/api/scrape.js:109-137 | for the same search, the WebMotors URL is `base?tipoveiculo=carros&marca=<brand>&modelo=<model>&precoate=<price>`, with brand and model lower-cased |
| `Query.WebMotorsQueryText` | pages/api/scrape.js:109-137 | the four pairs of such a search are written as `key=value` joined by `&`, with nothing escaped |
| `Query.ExampleFiatUno` | pages/api/scrape.js:71-144 | Fiat, Uno, 40000 gives `q=Fiat+Uno&pe=40000` and `tipoveiculo=carros&marca=fiat&modelo=uno&precoate=40000` |
| `FormUrlencoded.Serialize` | pages/api/scrape.js:94 | `params.toString()` is empty exactly when there are no parameters; its partner `FormUrlencoded.ParseSerialize` reads it back |
| `FormUrlencoded.EncodeComponent` | pages/api/scrape.js:94 | an encoded name or value never contains `&` or `=`, so the pairs stay apart |
| `FormUrlencoded.EncodeUnreserved` | pages/api/scrape.js:109 | ASCII alphanumerics and `*-._` are written as they are |
| `FormUrlencoded.DecodeEncodeComponent` | pages/api/scrape.js:78 | decoding an encoded name or value gives it back, spaces and non-ASCII text included |
| `FormUrlencoded.ParseSerialize` | pages/api/scrape.js:94 | parsing a serialized query gives back the exact parameter list, in order |
| `Utf8.DecodeEncode` | pages/api/scrape.js:94 | decoding the UTF-8 bytes the serializer percent-encodes gives back the text |
| `Filter.Kept` | pages/api/scrape.js:148-173 | the callback keeps a listing exactly when every criterion that is set admits it, read field by field. A `NaN` passes every bound, and `null` is compared as 0 |
| `Filter.FilterResults` | pages/api/scrape.js:147-174 | the result is an order-preserving sub-sequence of the input and holds exactly the input's listings the callback keeps |
| `Filter.FilterCount` | pages/api/scrape.js:147-148 | a kept listing appears as often as in the input, and a dropped one not at all |
| `Filter.FilterAppend` | pages/api/scrape.js:147-148 | filtering a concatenation is concatenating the filtered parts |
| `Filter.FilterIdempotent` | pages/api/scrape.js:147-174 | filtering twice with the same criteria is filtering once |
| `Filter.FilterKeepsAll` | pages/api/scrape.js:147-174 | a list whose every listing meets the criteria comes back unchanged |
| `Filter.FilterWithoutCriteria` | pages/api/scrape.js:150-171 | with no criterion set, nothing is dropped |
| `Filter.KeptTighter` | pages/api/scrape.js:150-171 | a listing kept under tighter criteria is kept under looser ones |
| `Filter.FilterMonotone` | pages/api/scrape.js:150-171 | tightening the criteria keeps a sub-sequence of what the looser criteria keep |
| `Filter.UnparsedPassesBounds` | pages/api/scrape.js:150-165 | a listing whose numbers are all `NaN` passes every numeric bound |
| `Filter.MissingComparesAsZero` | pages/api/scrape.js:150-165 | a `null` year fails a positive minimum year, and `null` numbers pass every positive maximum |
| `Filter.MissingLocationPasses` | pages/api/scrape.js:168-171 | a listing without a location passes the location criterion |
| `Filter.LocationPartPasses` | pages/api/scrape.js:168-169 | a listing whose location contains the criterion passes it |
| `Filter.ExampleMinimumYear` | pages/api/scrape.js:155-157 | with `ano_min` 2018, a 2015 listing is dropped and a 2019 listing is kept |
| `JsText.Trim` | lib/scraper.js:36 | the trimmed text is a slice of the original, with no white space at either end |
| `JsText.Lower` | pages/api/scrape.js:113-116 | `toLowerCase` keeps the length, leaves no ASCII capital, gives text that lower-casing no longer changes, and leaves already lower-cased text as it is |
| `JsText.LowerIdempotent` | lib/scraper.js:59 | lower-casing twice is lower-casing once |
| `JsText.LowerAppend` | pages/api/scrape.js:169 | lower-casing a concatenation lower-cases each part |
| `JsText.KeepDigits` | lib/scraper.js:65 | `replace(/\D/g, '')` leaves only decimal digits |
| `JsText.KeepDigitsMembership` | lib/scraper.js:39 | a code point survives exactly when it is a digit of the input |
| `JsText.ContainsIffOccurs` | pages/api/scrape.js:169 | `includes` holds exactly when the needle occurs at some position |
| `JsText.FilterChars` | lib/scraper.js:37 | what a global character-class `replace` leaves holds only accepted code points, and is no longer than the input |
| `JsText.FilterCharsMembership` | lib/scraper.js:37 | a code point survives exactly when it occurs in the input and is accepted |
| `JsText.ReplaceFirst` | lib/scraper.js:37 | a string-pattern `replace` keeps the length, and every position either keeps its code point or turns the pattern into the replacement |
| `JsText.ReplaceFirstAbsent` | lib/scraper.js:37 | a text without the pattern comes back unchanged |
| `JsText.ReplaceFirstAt` | lib/scraper.js:37 | only the first occurrence is replaced |
| `JsText.Split` | lib/scraper.js:38-39 | `split` gives at least one piece, and no piece holds the separator |
| `JsText.JoinSplit` | lib/scraper.js:38-39 | joining the pieces with the separator gives back the text |
| `JsText.SplitJoin` | lib/scraper.js:38-39 | splitting separator-free pieces joined by the separator gives back the pieces |
| `JsText.SplitHasSecond` | lib/scraper.js:39 | there is a second piece exactly when the separator occurs |
| `JsNumber.ParseFloat` | lib/scraper.js:37 | `parseFloat` of the cleaned price never gives `null`, gives a number only when the text holds a digit, and always gives one when the text starts with a digit |
| `JsNumber.ParseFloatWithoutDigits` | lib/scraper.js:37 | text without a digit reads as `NaN` |
| `JsNumber.ParseInt` | lib/scraper.js:38-39 | `parseInt` never gives `null`, and a number it gives is whole |
| `JsNumber.ParseIntOfIntToString` | pages/api/scrape.js:82-91 | `parseInt(String(n))` is `n` |
| `JsNumber.ParseIntWithoutDigits` | lib/scraper.js:65 | text without a digit parses as `NaN` |
| `JsNumber.ParseIntOfDigitsPrefix` | lib/scraper.js:38 | `parseInt` of digits followed by a non-digit reads the digits and ignores the rest, unless `0x` makes it hexadecimal |
| `JsNumber.ParseFloatOfDigitsPrefix` | lib/scraper.js:37 | `parseFloat` of digits followed by neither a digit nor a point reads the digits and ignores the rest |
| `JsNumber.ParseFloatOfDecimal` | lib/scraper.js:37 | `<whole>.<fraction>` parses to its exact decimal value |
| `Extract.TrimText` | lib/scraper.js:36 | a present element gives its trimmed text, and an absent one gives `null` |
| `Extract.CleanPrice` | lib/scraper.js:37 | only digits, commas and minus signs survive the cleaning |
| `Extract.PriceText` | lib/scraper.js:37 | after the comma becomes a point, the text is made of digits, `,`, `-` and `.` |
| `Extract.ParsePrice` | lib/scraper.js:37 | a present price is never `null`, and it is a number only when the element's text holds a digit |
| `Extract.PriceValue` | lib/scraper.js:37 | the price is `null` exactly when the price element is absent |
| `Extract.PriceWithoutDigits` | lib/scraper.js:37 | a price text without a digit reads as `NaN` |
| `Extract.PriceOfWholeReais` | lib/scraper.js:37 | a price printed without cents, `R$ <thousands with dots>`, reads as its whole amount |
| `Extract.PriceOfFormatBrl` | lib/scraper.js:37 | a price printed as `R$ <thousands with dots>,<cents>` reads back as its exact value |
| `Extract.ExamplePrice` | lib/scraper.js:37 | `R$ 45.900,00` reads as 45900 |
| `Extract.WebMotorsYear` | lib/scraper.js:38 | the year is `null` exactly when the label is absent |
| `Extract.WebMotorsKm` | lib/scraper.js:39 | the mileage computation throws exactly when the label contains `km` but no `•` |
| `Extract.WebMotorsLabelYear` | lib/scraper.js:38 | a label `<digits>/<anything>`, with or without a bullet, gives the digits' value as the year |
| `Extract.WebMotorsLabel` | lib/scraper.js:38-39 | from `<digits>/<…>•<tail with km>`, the year is the digits and the mileage is `parseInt` of the tail's digits |
| `Extract.ExampleLabel` | lib/scraper.js:38-39 | `2020/2021 • 35.000 km` gives the year 2020 and the mileage 35000 |
| `Extract.WebMotorsKmIsCaseSensitive` | lib/scraper.js:39 | a label without a lower-case `k` has `null` mileage, even if it says `KM` |
| `Extract.ExtractWebMotors` | lib/scraper.js:28-44 | a WebMotors card gives `null` exactly when the mileage computation throws. Otherwise it gives a listing tagged `webmotors` |
| `Extract.WebMotorsCardThrows` | lib/scraper.js:39-44 | a WebMotors card is `null` exactly when its label mentions `km` and has no bullet |
| `Extract.OlxYear` | lib/scraper.js:58-64 | the OLX year is `null` exactly when no chip is four digits. Otherwise it is a number |
| `Extract.OlxYearOfChips` | lib/scraper.js:58-64 | the first chip of four digits gives the year |
| `Extract.OlxKm` | lib/scraper.js:59-65 | the OLX mileage is `null` exactly when no chip mentions `km` in any case |
| `Extract.OlxKmOfChips` | lib/scraper.js:59-65 | the first chip that mentions `km` gives the mileage from its digits |
| `Extract.OlxKmIgnoresCase` | lib/scraper.js:59 | a chip saying `KM` counts as a mileage chip, as one saying `km` does |
| `Extract.ExtractOlx` | lib/scraper.js:52-69 | an OLX card's listing is tagged `olx` |
| `Extract.OlxCardsNeverThrow` | lib/scraper.js:52-71 | an OLX card never throws. It is dropped exactly when its title or its link is missing or empty |
| `Extract.ExtractCard` | lib/scraper.js:23-73 | a card read by the rules of a site gives a listing tagged with that site |
| `Extract.CardResult` | lib/scraper.js:43-45 | a card contributes at most one listing, and that listing is valid and tagged with the site |
| `Extract.ExtractPage` | lib/scraper.js:27-45 | every listing a page gives has a non-empty title and link and the site's tag, and there are no more listings than cards |
| `Extract.ExtractPageAppend` | lib/scraper.js:51-71 | the cards are read independently and in order: the listings of a concatenation are the concatenated listings |
| `Extract.ExtractPageMembership` | lib/scraper.js:51-71 | a listing is on the page exactly when one of its cards gives it |
| `Scraper.SiteOf` | lib/scraper.js:21 | the WebMotors rules are chosen exactly when `webmotors.com` occurs at some position of the URL, query included |
| `Scraper.ReturnedListing` | lib/scraper.js:26-45 | a listing handed back by `page.evaluate` has no `NaN` number: each `NaN` becomes `null`, every other number is kept, its text fields and tag are unchanged, and it is valid exactly when the page's listing was |
| `Scraper.ReturnedWithoutNaN` | lib/scraper.js:26-45 | a listing without a `NaN` number crosses from the page unchanged |
| `Scraper.ReturnedPageMembership` | lib/scraper.js:26-45 | a listing is handed back exactly when it is the copy of one in the page's array |
| `Scraper.RenderedMembership` | lib/scraper.js:26-71 | a rendered page hands back exactly the copies of the listings its cards give |
| `Scraper.ScrapeWith` | lib/scraper.js:13-79 | see the bullets under the table |
| `Scraper.ScrapeUrl` | lib/scraper.js:13-79 | as written, every listing is valid, and it is tagged `webmotors` exactly when its URL contains `webmotors.com` |
| `Scraper.WebMotorsUrlDispatch` | lib/scraper.js:21 | every WebMotors search URL gets the WebMotors rules |
| `Scraper.OlxUrlDispatch` | lib/scraper.js:21 | an OLX search URL gets the WebMotors rules exactly when its query contains `webmotors.com` |
| `Scraper.BrandNamingDomainMisroutes` | lib/scraper.js:21 | the brand `webmotors.com`, with any model, sends the OLX URL to the WebMotors rules |
| `Handler.CollectedAppend` | pages/api/scrape.js:36-46 | gathering a concatenation of URL lists concatenates what each list gathers |
| `Handler.CollectedMembership` | pages/api/scrape.js:36-46 | a listing is gathered exactly when one URL's scrape contributed it. A rejected scrape contributes nothing |
| `Handler.CollectResults` | pages/api/scrape.js:34-46 | the loop gathers the URLs' contributions in URL order. It skips a rejected URL and goes on with the next |
| `Handler.SearchUrls` | pages/api/scrape.js:21-29 | the URL list holds the truthy built URLs and nothing else: the OLX URL first when it is truthy, the WebMotors URL last when it is truthy |
| `Handler.SearchQueries` | pages/api/scrape.js:21-29 | the same list, with each URL paired with the site whose builder made it |
| `Handler.SearchUrlsOfConfig` | pages/api/scrape.js:21-29 | for a configuration, the list holds the OLX URL when it was built, then the WebMotors URL when it was built, and nothing else |
| `Handler.Respond` | pages/api/scrape.js:5-67 | a method other than `POST` gives 405. A missing body gives 500. A missing configuration gives 400. Otherwise the answer holds exactly the gathered listings the filter keeps, `total` is their count, and the message states it |
| `Handler.Handle` | pages/api/scrape.js:5-67 | every answered listing is valid and meets the criteria, and `total` is the number of listings |
| `Handler.HandleAsWritten` | pages/api/scrape.js:5-67 | the same for the handler whose rules are chosen by the URL's text |
| `Handler.GatheredValid` | pages/api/scrape.js:36-46 | every gathered listing is valid, and one tagged with a site comes from that site's URL |
| `Handler.GatherParts` | pages/api/scrape.js:36-46 | for `Handle`, the gathered listings are the OLX URL's, then the WebMotors URL's |
| `Handler.HandleOrder` | pages/api/scrape.js:36-57 | for `Handle`, the answer is the filtered OLX listings followed by the filtered WebMotors listings |
| `Handler.FailingOlxIgnored` | pages/api/scrape.js:24-45 | for `Handle`, when the OLX URL is not built or its scrape fails, the answer is exactly the filtered WebMotors listings |
| `Handler.HandlersAgreeOffSearch` | pages/api/scrape.js:7-16 | both handlers give the same 405, 400 and 500 answers |
| `Handler.HandlersAgree` | lib/scraper.js:21 | unless the OLX query contains `webmotors.com`, choosing the rules by the URL's text is the same as choosing them by site |
| `Handler.AsWrittenLosesOlx` | lib/scraper.js:21-23 | as written, the brand `webmotors.com` leaves no listing tagged `olx` in the answer |
| `Handler.MisroutedOlxListing` | lib/scraper.js:21-73 | in that case, an OLX card with a title and a link is answered by the corrected handler and missing from the answer as written |

`Scraper.ScrapeWith` runs one session with a site's rules:

- It rejects exactly when the launch fails or the in-page evaluation is rejected. The evaluation's promise is returned without `await`, so its rejection escapes the `catch`.
- A navigation or wait failure gives `[]`.
- A rendered page gives exactly the listings its cards give, all valid and tagged with the site.
- `page.evaluate` hands its result back by value, through the DevTools protocol's JSON, which has no `NaN`. So a number the page could not parse reaches the handler as `null`, and the filter compares it as 0. No listing the handler receives has a `NaN` number.

Three points of the code deserve a note:

- **Choice of rules.** Each URL is built for one site, but `scrapeUrl` picks its rules from the URL's text, by looking for `webmotors.com` anywhere in it. `Handle` reads each URL with the rules of the site it was built for, and `HandleAsWritten` reads it as the code does (see Findings).
- **Launch failures.** A failure in browser launch or page creation happens before the `try` of `scrapeUrl`, so `scrapeUrl` rejects (`Scraper.ScrapeWith`). The handler's loop catches the rejection, so that site contributes nothing.
- **Order.** The handler appends the OLX results before the WebMotors results (`Handler.HandleOrder`).

## Left out

- **Browser and DOM.** The Puppeteer/Chromium launch, the user agent, `goto` with its 45 s timeout, `waitForSelector` with its 15 s timeout and the CSS selectors are left out. They are external I/O, which the `Browse` parameter stands for.
- **`browser.close()` in `finally`.** It is left out. It can also run before the un-awaited evaluation settles, and that race is not modelled.
- **Logging.** Every `console.log` and `console.error` is left out: they are side effects only.
- **next.config.js.** Its static headers and rewrites hold no logic.
- **The 500 answer.** Its `details` field (the exception message) is left out. The only 500 path modelled is a missing body.
- **JSON serialization of the answer.** The response body's JSON encoding is not modelled. No number in it can be `NaN`, as `Scraper.ScrapeWith` already turns each one into `null`, so the encoding changes no value.
- `Scraper.ScrapeWith`: the by-value return is modelled for `NaN` numbers only. A field the page leaves `undefined` is dropped from the returned object, which reads the same as the `None` the model keeps.
- **Number arithmetic.** Numbers are exact: there is no IEEE-754 rounding and no precision limit in `parseInt` or `parseFloat`. `String(n)` is modelled for whole numbers only, without the exponent form at 1e21 and above.
- `JsNumber.ParseFloat`: defined only on text made of digits, `,`, `-` and `.`, which is all the price cleaning leaves. Exponents, `Infinity` and leading white space are not modelled, because they cannot occur there.
- `JsText.Lower`: maps the ASCII and Latin-1 capital letters and the Kelvin sign only. Other scripts' case mappings are left out, and so are mappings that change the length.
- **Configuration values.**
  - Numeric criteria are whole numbers.
  - A string-valued bound is not modelled. It would be written as is into the URL. In the filter, the listing side of each `>` and `<` is a number or `null`, so the string goes through ToNumber: `"40000"` compares as 40000, and a non-numeric string becomes `NaN`, so its test drops nothing. `"0"` is truthy, unlike `0`, so it would switch its test on.
  - A non-string truthy `localidade` is not modelled. The filter calls its `toLowerCase` only for a listing whose own location is truthy. So the call throws, giving a 500, once a gathered listing has a truthy location. Otherwise the answer is a normal 200.
  - `searchConfig` is taken to be an object.
  - `undefined` and `null` are both `None`.
  - A brand or model that is not a string is known by its truthiness and by its `String(...)` form, or by the lack of one.
- **Card location.** A card's location is its element's trimmed text or nothing. The OLX `undefined` and the WebMotors `null` are both `None`, and both are falsy in the filter.

## Findings

| source | as written | input that shows it | evidently intended | confidence | as-written member | corrected member |
|---|---|---|---|---|---|---|
| lib/scraper.js:21 | the rules are chosen by `url.includes('webmotors.com')` on the whole URL, query included | `searchConfig` with `marca: "webmotors.com"` and `modelo: "uno"`: the OLX URL ends in `?q=webmotors.com+uno`, so the OLX page is read with the WebMotors rules | each URL is read with the rules of the site it was built for | not executed | `Handler.HandleAsWritten` (with `Scraper.BrandNamingDomainMisroutes` and `Handler.MisroutedOlxListing`) | `Handler.Handle` (with `Handler.HandlersAgree`) |
