/**
 * The in-page extraction: every result card of a search page becomes a listing (or `null`
 * when its function throws), and only the listings with a title and a link are returned.
 */
module Extract {
  import opened Optional
  import opened SeqUtil
  import opened JsText
  import opened JsNumber
  import opened Vehicles

  /**
   * What one card's selectors find, as inner texts (`None` when the element is absent):
   * the `h2` title, the price element, the WebMotors year/mileage label, the texts of the
   * OLX feature spans in document order, the OLX location, and the first link's `href`.
   */
  datatype Card = Card(
    title: Option<string>,
    price: Option<string>,
    yearKm: Option<string>,
    features: seq<string>,
    location: Option<string>,
    href: Option<string>)

  /** `el ? el.innerText.trim() : null`, and the OLX `?.innerText.trim()`. */
  function TrimText(o: Option<string>): (r: Option<string>)
    ensures r.Some? <==> o.Some?
    ensures r.Some? ==> exists i :: TrimmedAt(o.value, r.value, i)
  {
    match o
    case None => None
    case Some(s) => Some(Trim(s))
  }

  /* ------------------------------------ price -------------------------------------- */

  /** `text.replace(/[^0-9,-]+/g, "")`: only digits, commas and minus signs survive. */
  function CleanPrice(s: string): (r: string)
    ensures forall i | 0 <= i < |r| :: IsPriceChar(r[i])
  {
    FilterChars(s, IsPriceChar)
  }

  /** The cleaned text with its first comma turned into a decimal point. */
  function PriceText(s: string): (r: string)
    ensures PriceAlphabet(r)
  {
    ReplaceFirst(CleanPrice(s), ',', '.')
  }

  /** `parseFloat(...)` of the price text. */
  function ParsePrice(s: string): (r: JsNum)
    ensures !r.Null?
    ensures r.Num? ==> exists i | 0 <= i < |s| :: IsDecimalDigit(s[i])
  {
    var t := PriceText(s);
    var r := ParseFloat(t);
    assert r.Num? ==> exists i | 0 <= i < |s| :: IsDecimalDigit(s[i]) by {
      if r.Num? {
        var j :| 0 <= j < |t| && IsDecimalDigit(t[j]);
        var c := CleanPrice(s);
        assert t[j] == c[j] && c[j] in c;
        FilterCharsMembership(s, IsPriceChar, c[j]);
        var k :| 0 <= k < |s| && s[k] == c[j];
      }
    }
    r
  }

  function PriceValue(price: Option<string>): (r: JsNum)
    ensures r.Null? <==> price.None?
  {
    match price
    case None => Null
    case Some(s) => ParsePrice(s)
  }

  /* ------------------------------------ WebMotors ---------------------------------- */

  /** `parseInt(label.split('/')[0].trim())`, or `null` without the label. */
  function WebMotorsYear(yearKm: Option<string>): (r: JsNum)
    ensures r.Null? <==> yearKm.None?
  {
    match yearKm
    case None => Null
    case Some(text) => ParseInt(Trim(Split(text, '/')[0]))
  }

  /**
   * The mileage of a WebMotors card: `null` unless the label contains `km` (case-sensitive),
   * else `parseInt` of the digits of the piece after the first bullet. `None` stands for the
   * exception thrown when there is no bullet, which makes the whole card `null`.
   */
  function WebMotorsKm(yearKm: Option<string>): (r: Option<JsNum>)
    ensures r.None? <==> yearKm.Some? && Contains(yearKm.value, "km") && '\U{2022}' !in yearKm.value
  {
    if yearKm.None? || !Contains(yearKm.value, "km") then Some(Null)
    else
      var pieces := Split(yearKm.value, '\U{2022}');
      SplitHasSecond(yearKm.value, '\U{2022}');
      if |pieces| < 2 then None
      else Some(ParseInt(KeepDigits(pieces[1])))
  }

  function ExtractWebMotors(card: Card): (r: Option<Listing>)
    ensures r.None? <==> WebMotorsKm(card.yearKm).None?
    ensures r.Some? ==> r.value.siteOrigem == WebMotors
  {
    match WebMotorsKm(card.yearKm)
    case None => None
    case Some(km) =>
      Some(Listing(TrimText(card.title), PriceValue(card.price), WebMotorsYear(card.yearKm), km,
                   TrimText(card.location), card.href, WebMotors))
  }

  /* --------------------------------------- OLX ------------------------------------- */

  /** `/^\d{4}$/.test(text)`. */
  predicate IsYearChip(s: string)
  {
    |s| == 4 && AllDecimalDigits(s)
  }

  /** `text.toLowerCase().includes('km')`. */
  predicate IsKmChip(s: string)
  {
    Contains(Lower(s), "km")
  }

  /** `parseInt(year)` for the first year chip, `null` without one. */
  function OlxYear(features: seq<string>): (r: JsNum)
    ensures r.Null? <==> forall j | 0 <= j < |features| :: !IsYearChip(features[j])
    ensures r.Num? || r.Null?
  {
    match Find(features, IsYearChip)
    case None => Null
    case Some(y) =>
      ParseIntOfDigits(y);
      ParseInt(y)
  }

  /** `parseInt(km.replace(/\D/g, ''))` for the first chip mentioning `km` in any case, `null` without one. */
  function OlxKm(features: seq<string>): (r: JsNum)
    ensures r.Null? <==> forall j | 0 <= j < |features| :: !IsKmChip(features[j])
  {
    match Find(features, IsKmChip)
    case None => Null
    case Some(k) => ParseInt(KeepDigits(k))
  }

  /** The OLX card function: nothing in it can throw. */
  function ExtractOlx(card: Card): (r: Listing)
    ensures r.siteOrigem == Olx
  {
    Listing(TrimText(card.title), PriceValue(card.price), OlxYear(card.features), OlxKm(card.features),
            TrimText(card.location), card.href, Olx)
  }

  /* -------------------------------------- pages ------------------------------------ */

  /** The card function of the rules for `site`; `None` is the `null` of its catch. */
  function ExtractCard(site: Site, card: Card): (r: Option<Listing>)
    ensures r.Some? ==> r.value.siteOrigem == site
  {
    match site
    case Olx => Some(ExtractOlx(card))
    case WebMotors => ExtractWebMotors(card)
  }

  /** A card's contribution to the page: its listing, unless it threw or lacks a title or a link. */
  function CardResult(site: Site, card: Card): (r: seq<Listing>)
    ensures |r| <= 1
    ensures forall v | v in r :: IsValid(v) && v.siteOrigem == site
  {
    match ExtractCard(site, card)
    case Some(v) => if IsValid(v) then [v] else []
    case None => []
  }

  /** The card rules for `site` as a function of the card. */
  function CardRule(site: Site): Card -> seq<Listing>
  {
    card => CardResult(site, card)
  }

  /** `.map(card => ...).filter(v => v && v.titulo_anuncio && v.link_anuncio)` */
  function ExtractPage(site: Site, cards: seq<Card>): (r: seq<Listing>)
    ensures forall v | v in r :: IsValid(v) && v.siteOrigem == site
    ensures |r| <= |cards|
  {
    var r := FlatMap(cards, CardRule(site));
    assert forall v | v in r :: IsValid(v) && v.siteOrigem == site by {
      forall v | v in r ensures IsValid(v) && v.siteOrigem == site {
        FlatMapMembership(cards, CardRule(site), v);
        var i :| 0 <= i < |cards| && v in CardRule(site)(cards[i]);
        assert v in CardResult(site, cards[i]);
      }
    }
    FlatMapLength(cards, CardRule(site));
    r
  }

  /** Pages extract card by card: the result of a concatenation is the concatenation of the results. */
  lemma ExtractPageAppend(site: Site, a: seq<Card>, b: seq<Card>)
    ensures ExtractPage(site, a + b) == ExtractPage(site, a) + ExtractPage(site, b)
  {
    FlatMapAppend(a, b, CardRule(site));
  }

  /** A listing is on the page exactly when some card yields it without throwing and it has a title and a link. */
  lemma ExtractPageMembership(site: Site, cards: seq<Card>, v: Listing)
    ensures v in ExtractPage(site, cards) <==>
            IsValid(v) && exists i | 0 <= i < |cards| :: ExtractCard(site, cards[i]) == Some(v)
  {
    FlatMapMembership(cards, CardRule(site), v);
    forall i | 0 <= i < |cards|
      ensures v in CardRule(site)(cards[i]) <==> IsValid(v) && ExtractCard(site, cards[i]) == Some(v)
    {
      CardResultMembership(site, cards[i], v);
    }
  }

  lemma CardResultMembership(site: Site, card: Card, v: Listing)
    ensures v in CardRule(site)(card) <==> IsValid(v) && ExtractCard(site, card) == Some(v)
  {
    assert CardRule(site)(card) == CardResult(site, card);
  }

  /** Every OLX card yields a listing, so an OLX card is dropped only for a missing title or link. */
  lemma OlxCardsNeverThrow(card: Card)
    ensures ExtractCard(Olx, card).Some?
    ensures IsValid(ExtractCard(Olx, card).value) <==> Truthy(TrimText(card.title)) && Truthy(card.href)
  {
  }

  /** A WebMotors card is `null` exactly when its label mentions `km` but has no bullet. */
  lemma WebMotorsCardThrows(card: Card)
    ensures ExtractCard(WebMotors, card).None? <==>
            card.yearKm.Some? && Contains(card.yearKm.value, "km") && '\U{2022}' !in card.yearKm.value
  {
  }

  /* --------------------------- what the fields come out as ------------------------- */

  /**
   * A label `<year>/<anything>•<tail>` with a `km` in the tail gives the year before the
   * slash and the digits of the tail as mileage.
   */
  lemma WebMotorsLabel(year: string, mid: string, tail: string)
    requires |year| > 0 && AllDecimalDigits(year)
    requires '\U{2022}' !in mid && '\U{2022}' !in tail && Contains(tail, "km")
    ensures WebMotorsYear(Some(year + "/" + mid + "\U{2022}" + tail)) == Num(DecimalValue(year) as real)
    ensures WebMotorsKm(Some(year + "/" + mid + "\U{2022}" + tail)) == Some(ParseInt(KeepDigits(tail)))
  {
    WebMotorsLabelYear(year, mid + "\U{2022}" + tail);
    DigitsBeforeBullet(year, mid);
    WebMotorsLabelKm(year + "/" + mid, tail);
  }

  lemma DigitsBeforeBullet(year: string, mid: string)
    requires AllDecimalDigits(year) && '\U{2022}' !in mid
    ensures '\U{2022}' !in year + "/" + mid
  {
    var front := year + "/" + mid;
    forall i | 0 <= i < |front| ensures front[i] != '\U{2022}' {
      if i < |year| { assert IsDecimalDigit(year[i]); }
      else if i > |year| { assert front[i] == mid[i - |year| - 1]; }
    }
  }

  /** The year is read from the digits before the first slash. */
  lemma WebMotorsLabelYear(year: string, rest: string)
    requires |year| > 0 && AllDecimalDigits(year)
    ensures WebMotorsYear(Some(year + "/" + rest)) == Num(DecimalValue(year) as real)
    ensures forall mid, tail | rest == mid + "\U{2022}" + tail ::
      WebMotorsYear(Some(year + "/" + mid + "\U{2022}" + tail)) == Num(DecimalValue(year) as real)
  {
    var text := year + "/" + rest;
    assert text[|year|] == '/' && text[..|year|] == year;
    assert '/' !in year by {
      forall i | 0 <= i < |year| ensures year[i] != '/' { assert IsDecimalDigit(year[i]); }
    }
    SplitFirstPiece(text, '/');
    assert !IsJsSpace(year[0]) && !IsJsSpace(year[|year| - 1]) by {
      assert IsDecimalDigit(year[0]) && IsDecimalDigit(year[|year| - 1]);
    }
    TrimUnspaced(year);
    ParseIntOfDigits(year);
    forall mid, tail | rest == mid + "\U{2022}" + tail
      ensures year + "/" + mid + "\U{2022}" + tail == text
    {
      assert (year + "/" + mid + "\U{2022}") + tail == year + "/" + mid + ("\U{2022}" + tail);
      assert (year + "/" + mid) + "\U{2022}" + tail == year + "/" + (mid + "\U{2022}" + tail);
      assert (mid + "\U{2022}") + tail == mid + ("\U{2022}" + tail);
    }
  }

  /** The mileage is read from the digits after the first bullet. */
  lemma WebMotorsLabelKm(front: string, tail: string)
    requires '\U{2022}' !in front && '\U{2022}' !in tail && Contains(tail, "km")
    ensures WebMotorsKm(Some(front + "\U{2022}" + tail)) == Some(ParseInt(KeepDigits(tail)))
  {
    var text := front + "\U{2022}" + tail;
    assert text == front + ['\U{2022}'] + tail;
    SplitCons(front, tail, '\U{2022}');
    SplitFirstPiece(tail, '\U{2022}');
    ContainsSuffix(front + ['\U{2022}'], tail, "km");
  }

  /** The first chip of four digits is the year. */
  lemma OlxYearOfChips(features: seq<string>, i: nat)
    requires i < |features| && IsYearChip(features[i])
    requires forall j | 0 <= j < i :: !IsYearChip(features[j])
    ensures OlxYear(features) == Num(DecimalValue(features[i]) as real)
  {
    ParseIntOfDigits(features[i]);
  }

  /** The first chip that mentions `km` in any case gives the mileage. */
  lemma OlxKmOfChips(features: seq<string>, i: nat)
    requires i < |features| && IsKmChip(features[i])
    requires forall j | 0 <= j < i :: !IsKmChip(features[j])
    ensures OlxKm(features) == ParseInt(KeepDigits(features[i]))
  {
  }

  /** OLX finds its mileage chip whatever its case: `KM` counts, unlike on WebMotors. */
  lemma OlxKmIgnoresCase(before: string, after: string)
    ensures IsKmChip(before + "KM" + after)
    ensures IsKmChip(before + "km" + after)
  {
    var s, t := before + "KM" + after, before + "km" + after;
    assert Lower(s) == Lower(before) + "km" + Lower(after);
    assert Lower(t) == Lower(before) + "km" + Lower(after);
    ContainsInfix(Lower(before), "km", Lower(after));
  }

  /** A WebMotors label without a lower-case `k` carries no mileage, even when it says `KM`. */
  lemma WebMotorsKmIsCaseSensitive(text: string)
    requires 'k' !in text
    ensures WebMotorsKm(Some(text)) == Some(Null)
  {
    ContainsFirst(text, "km");
  }

  /** A price text without a single digit reads as `NaN`. */
  lemma PriceWithoutDigits(s: string)
    requires forall i | 0 <= i < |s| :: !IsDecimalDigit(s[i])
    ensures ParsePrice(s) == NaN
  {
    var t := PriceText(s);
    var c := CleanPrice(s);
    forall i | 0 <= i < |t| ensures !IsDecimalDigit(t[i]) {
      assert c[i] in c;
      FilterCharsMembership(s, IsPriceChar, c[i]);
    }
    ParseFloatWithoutDigits(t);
  }

  /* --------------------- Brazilian price format and its reading -------------------- */

  /** Three digits, with leading zeros. */
  function Pad3(k: nat): (r: string)
    requires k < 1000
    ensures |r| == 3 && AllDecimalDigits(r)
  {
    [DigitChar(k / 100), DigitChar((k / 10) % 10), DigitChar(k % 10)]
  }

  /** Two digits, with a leading zero. */
  function Pad2(k: nat): (r: string)
    requires k < 100
    ensures |r| == 2 && AllDecimalDigits(r)
  {
    [DigitChar(k / 10), DigitChar(k % 10)]
  }

  /** `n` in decimal with `.` between groups of three digits, as in `45.900`. */
  function GroupThousands(n: nat): string
  {
    if n < 1000 then NatToString(n) else GroupThousands(n / 1000) + "." + Pad3(n % 1000)
  }

  /** A price as the sites print it: `R$ 45.900,00`. */
  function FormatBrl(reais: nat, cents: nat): string
    requires cents < 100
  {
    "R$ " + GroupThousands(reais) + "," + Pad2(cents)
  }

  lemma DecimalValueOfPad3(k: nat)
    requires k < 1000
    ensures DecimalValue(Pad3(k)) == k
  {
    var a, b, c := DigitChar(k / 100), DigitChar((k / 10) % 10), DigitChar(k % 10);
    assert CharDigitValue(a) == k / 100 && CharDigitValue(b) == (k / 10) % 10 && CharDigitValue(c) == k % 10;
    DecimalValueSnoc("", a);
    assert "" + [a] == [a];
    DecimalValueSnoc([a], b);
    assert [a] + [b] == [a, b];
    DecimalValueSnoc([a, b], c);
    assert [a, b] + [c] == Pad3(k);
  }

  lemma DecimalValueOfPad2(k: nat)
    requires k < 100
    ensures DecimalValue(Pad2(k)) == k
  {
    var a, b := DigitChar(k / 10), DigitChar(k % 10);
    assert CharDigitValue(a) == k / 10 && CharDigitValue(b) == k % 10;
    DecimalValueSnoc("", a);
    assert "" + [a] == [a];
    DecimalValueSnoc([a], b);
    assert [a] + [b] == Pad2(k);
  }

  lemma CleanDigits(s: string)
    requires AllDecimalDigits(s)
    ensures FilterChars(s, IsPriceChar) == s
  {
    assert forall i | 0 <= i < |s| :: IsPriceChar(s[i]) by {
      forall i | 0 <= i < |s| ensures IsPriceChar(s[i]) { assert IsDecimalDigit(s[i]); }
    }
    FilterCharsKeepsAll(s, IsPriceChar);
  }

  /** Cleaning drops a group separator and keeps the digits after it. */
  lemma CleanDotGroup(g: string, p: string)
    requires AllDecimalDigits(p)
    ensures FilterChars(g + "." + p, IsPriceChar) == FilterChars(g, IsPriceChar) + p
  {
    var dot := ".";
    assert FilterChars(g + dot + p, IsPriceChar) == FilterChars(g + dot, IsPriceChar) + FilterChars(p, IsPriceChar) by {
      FilterCharsAppend(g + dot, p, IsPriceChar);
    }
    assert FilterChars(g + dot, IsPriceChar) == FilterChars(g, IsPriceChar) by {
      FilterCharsAppend(g, dot, IsPriceChar);
      FilterCharsDropsAll(dot, IsPriceChar);
    }
    assert FilterChars(p, IsPriceChar) == p by {
      CleanDigits(p);
    }
  }

  /** Cleaning drops the group separators: what is left are digits denoting `n`. */
  lemma {:induction false} CleanGrouped(n: nat)
    ensures |FilterChars(GroupThousands(n), IsPriceChar)| > 0
    ensures AllDecimalDigits(FilterChars(GroupThousands(n), IsPriceChar))
    ensures DecimalValue(FilterChars(GroupThousands(n), IsPriceChar)) == n
    decreases n
  {
    if n < 1000 {
      CleanDigits(NatToString(n));
      DecimalValueOfNatToString(n);
    } else {
      CleanGrouped(n / 1000);
      var hi := FilterChars(GroupThousands(n / 1000), IsPriceChar);
      var lo := Pad3(n % 1000);
      CleanDotGroup(GroupThousands(n / 1000), lo);
      assert FilterChars(GroupThousands(n), IsPriceChar) == hi + lo;
      DecimalValueAppend(hi, lo);
      DecimalValueOfPad3(n % 1000);
      assert Pow10(3) == 1000;
    }
  }

  /** Cleaning `R$ <grouped>,<cents>` leaves the digits of the amount, the comma and the cents. */
  lemma CleanFormatBrl(reais: nat, cents: nat)
    requires cents < 100
    ensures CleanPrice(FormatBrl(reais, cents)) == FilterChars(GroupThousands(reais), IsPriceChar) + "," + Pad2(cents)
  {
    var g, f := GroupThousands(reais), Pad2(cents);
    assert FormatBrl(reais, cents) == "R$ " + (g + ("," + f));
    FilterCharsAppend("R$ ", g + ("," + f), IsPriceChar);
    FilterCharsAppend(g, "," + f, IsPriceChar);
    FilterCharsAppend(",", f, IsPriceChar);
    FilterCharsDropsAll("R$ ", IsPriceChar);
    assert FilterChars(",", IsPriceChar) == ",";
    CleanDigits(f);
  }

  /** The first comma after a run of digits becomes the decimal point. */
  lemma ReplaceDecimalComma(w: string, f: string)
    requires AllDecimalDigits(w)
    ensures ReplaceFirst(w + "," + f, ',', '.') == w + "." + f
  {
    var clean := w + "," + f;
    assert ',' !in w by {
      forall i | 0 <= i < |w| ensures w[i] != ',' { assert IsDecimalDigit(w[i]); }
    }
    assert clean[|w|] == ',' && clean[..|w|] == w;
    ReplaceFirstAt(clean, ',', '.', |w|);
    assert clean[|w| + 1..] == f;
  }

  /** A price printed without cents, `R$ 45.900`, reads as its whole amount. */
  lemma PriceOfWholeReais(n: nat)
    ensures ParsePrice("R$ " + GroupThousands(n)) == Num(n as real)
  {
    var g := GroupThousands(n);
    var w := FilterChars(g, IsPriceChar);
    CleanGrouped(n);
    FilterCharsAppend("R$ ", g, IsPriceChar);
    FilterCharsDropsAll("R$ ", IsPriceChar);
    assert CleanPrice("R$ " + g) == w;
    assert ',' !in w by {
      forall i | 0 <= i < |w| ensures w[i] != ',' { assert IsDecimalDigit(w[i]); }
    }
    ReplaceFirstAbsent(w, ',', '.');
    assert PriceText("R$ " + g) == w + "";
    ParseFloatOfDigitsPrefix(w, "");
  }

  /** Reading a printed price gives back its exact value. */
  lemma PriceOfFormatBrl(reais: nat, cents: nat)
    requires cents < 100
    ensures ParsePrice(FormatBrl(reais, cents)) == Num(reais as real + cents as real / 100.0)
  {
    var w, f := FilterChars(GroupThousands(reais), IsPriceChar), Pad2(cents);
    CleanGrouped(reais);
    CleanFormatBrl(reais, cents);
    ReplaceDecimalComma(w, f);
    ParseFloatOfDecimal(w, f);
    DecimalValueOfPad2(cents);
    assert Pow10(2) == 100;
  }

  /* ------------------------------------ examples ----------------------------------- */

  /** The price text `R$ 45.900,00` reads as 45900. */
  lemma ExamplePrice()
    ensures ParsePrice("R$ 45.900,00") == Num(45900.0)
  {
    PriceOfFormatBrl(45900, 0);
    ExampleFormat();
  }

  lemma ExampleFormat()
    ensures FormatBrl(45900, 0) == "R$ 45.900,00"
  {
    assert NatToString(45) == "45";
    assert Pad3(900) == "900";
    assert Pad2(0) == "00";
    assert GroupThousands(45900) == "45" + "." + "900";
  }

  /** The label `2020/2021 • 35.000 km` gives the year 2020 and the mileage 35000. */
  lemma ExampleLabel()
    ensures WebMotorsYear(Some("2020/2021 \U{2022} 35.000 km")) == Num(2020.0)
    ensures WebMotorsKm(Some("2020/2021 \U{2022} 35.000 km")) == Some(Num(35000.0))
  {
    var year, mid, tail := "2020", "2021 ", " 35.000 km";
    assert '\U{2022}' !in mid && '\U{2022}' !in tail;
    assert AllDecimalDigits(year);
    assert Contains(tail, "km") by {
      assert tail[8..] == "km";
      ContainsInfix(" 35.000 ", "km", "");
      assert " 35.000 " + "km" + "" == tail;
    }
    assert year + "/" + mid + "\U{2022}" + tail == "2020/2021 \U{2022} 35.000 km";
    WebMotorsLabel(year, mid, tail);
    ExampleLabelNumbers(year, tail);
  }

  lemma ExampleLabelNumbers(year: string, tail: string)
    requires year == "2020" && tail == " 35.000 km"
    ensures DecimalValue(year) == 2020
    ensures ParseInt(KeepDigits(tail)) == Num(35000.0)
  {
    assert NatToString(2020) == year;
    DecimalValueOfNatToString(2020);
    ExampleKeepDigits(tail);
    assert NatToString(35000) == "35000";
    ParseIntOfNatToString(35000);
  }

  lemma ExampleKeepDigits(tail: string)
    requires tail == " 35.000 km"
    ensures KeepDigits(tail) == "35000"
  {
    assert KeepDigits(" 35.000 km") == "35000";
  }
}
