/**
 * `filterResults`: the search criteria applied again to the scraped listings, with the
 * JavaScript comparison semantics of the fields (`null` compares as 0, `NaN` compares false).
 */
module Filter {
  import opened Optional
  import opened SeqUtil
  import opened JsText
  import opened JsNumber
  import opened Query
  import opened Vehicles

  /* ------------------------------- the five tests ---------------------------------- */

  /** `!(config.valor_maximo && vehicle.valor_anunciado > config.valor_maximo)` */
  predicate PriceKept(c: SearchConfig, v: Listing)
  {
    !(NumTruthy(c.valorMaximo) && GreaterThan(v.valor, c.valorMaximo.value as real))
  }

  /** `!(config.ano_min && vehicle.ano < config.ano_min)` */
  predicate AnoMinKept(c: SearchConfig, v: Listing)
  {
    !(NumTruthy(c.anoMin) && LessThan(v.ano, c.anoMin.value as real))
  }

  /** `!(config.ano_max && vehicle.ano > config.ano_max)` */
  predicate AnoMaxKept(c: SearchConfig, v: Listing)
  {
    !(NumTruthy(c.anoMax) && GreaterThan(v.ano, c.anoMax.value as real))
  }

  /** `!(config.km_maxima && vehicle.quilometragem > config.km_maxima)` */
  predicate KmKept(c: SearchConfig, v: Listing)
  {
    !(NumTruthy(c.kmMaxima) && GreaterThan(v.quilometragem, c.kmMaxima.value as real))
  }

  /** The case-insensitive partial match on the location, skipped when either side is empty. */
  predicate LocationKept(c: SearchConfig, v: Listing)
  {
    !(Truthy(c.localidade) && Truthy(v.localidade)
      && !Contains(Lower(v.localidade.value), Lower(c.localidade.value)))
  }

  /** The callback of `vehicles.filter`. */
  predicate Kept(c: SearchConfig, v: Listing)
    ensures Kept(c, v) <==> Admits(c, v)
  {
    PriceKept(c, v) && AnoMinKept(c, v) && AnoMaxKept(c, v) && KmKept(c, v) && LocationKept(c, v)
  }

  /* --------------------- what the tests mean, stated per field --------------------- */

  /** `v` is no greater than `bound`, reading `null` as 0 and letting `NaN` through. */
  predicate AtMost(v: JsNum, bound: int)
  {
    match v
    case NaN => true
    case Null => 0 <= bound
    case Num(x) => x <= bound as real
  }

  /** `v` is no less than `bound`, reading `null` as 0 and letting `NaN` through. */
  predicate AtLeast(v: JsNum, bound: int)
  {
    match v
    case NaN => true
    case Null => 0 >= bound
    case Num(x) => x >= bound as real
  }

  /** Every criterion that is set holds of the listing. */
  predicate Admits(c: SearchConfig, v: Listing)
  {
    && (NumTruthy(c.valorMaximo) ==> AtMost(v.valor, c.valorMaximo.value))
    && (NumTruthy(c.anoMin) ==> AtLeast(v.ano, c.anoMin.value))
    && (NumTruthy(c.anoMax) ==> AtMost(v.ano, c.anoMax.value))
    && (NumTruthy(c.kmMaxima) ==> AtMost(v.quilometragem, c.kmMaxima.value))
    && (Truthy(c.localidade) && Truthy(v.localidade)
        ==> Contains(Lower(v.localidade.value), Lower(c.localidade.value)))
  }

  /* --------------------------------- the filter ------------------------------------ */

  /** `vehicles.filter(...)`: the kept listings, in their original order. */
  function FilterResults(vs: seq<Listing>, c: SearchConfig): (r: seq<Listing>)
    ensures IsSubseq(r, vs)
    ensures forall v :: v in r <==> v in vs && Kept(c, v)
    ensures |r| <= |vs|
  {
    if |vs| == 0 then []
    else
      var rest := FilterResults(vs[1..], c);
      if Kept(c, vs[0]) then
        var r := [vs[0]] + rest;
        assert r[1..] == rest;
        r
      else
        rest
  }

  /** Each listing is kept as many times as it occurs when it passes, and dropped entirely otherwise. */
  lemma {:induction false} FilterCount(vs: seq<Listing>, c: SearchConfig, x: Listing)
    ensures multiset(FilterResults(vs, c))[x] == if Kept(c, x) then multiset(vs)[x] else 0
    decreases |vs|
  {
    if |vs| > 0 {
      FilterCount(vs[1..], c, x);
      assert vs == [vs[0]] + vs[1..];
    }
  }

  /** Filtering a concatenation filters each part. */
  lemma {:induction false} FilterAppend(a: seq<Listing>, b: seq<Listing>, c: SearchConfig)
    ensures FilterResults(a + b, c) == FilterResults(a, c) + FilterResults(b, c)
    decreases |a|
  {
    if |a| > 0 {
      var ab := a + b;
      assert ab[0] == a[0] && ab[1..] == a[1..] + b;
      FilterAppend(a[1..], b, c);
      var head: seq<Listing> := if Kept(c, a[0]) then [a[0]] else [];
      assert FilterResults(ab, c) == head + FilterResults(ab[1..], c);
      assert FilterResults(a, c) == head + FilterResults(a[1..], c);
    } else {
      assert a + b == b;
    }
  }

  /** Filtering twice with the same criteria changes nothing. */
  lemma {:induction false} FilterIdempotent(vs: seq<Listing>, c: SearchConfig)
    ensures FilterResults(FilterResults(vs, c), c) == FilterResults(vs, c)
    decreases |vs|
  {
    if |vs| > 0 {
      FilterIdempotent(vs[1..], c);
      var rest := FilterResults(vs[1..], c);
      if Kept(c, vs[0]) {
        assert ([vs[0]] + rest)[1..] == rest;
      }
    }
  }

  /** A listing every criterion admits passes: with no criterion set nothing is dropped. */
  lemma {:induction false} FilterKeepsAll(vs: seq<Listing>, c: SearchConfig)
    requires forall i | 0 <= i < |vs| :: Admits(c, vs[i])
    ensures FilterResults(vs, c) == vs
    decreases |vs|
  {
    if |vs| > 0 {
      assert Admits(c, vs[0]);
      FilterKeepsAll(vs[1..], c);
      assert vs == [vs[0]] + vs[1..];
    }
  }

  /** No bound and no location: every listing satisfies `Admits`. */
  predicate NoCriteria(c: SearchConfig)
  {
    !NumTruthy(c.valorMaximo) && !NumTruthy(c.anoMin) && !NumTruthy(c.anoMax)
    && !NumTruthy(c.kmMaxima) && !Truthy(c.localidade)
  }

  lemma FilterWithoutCriteria(vs: seq<Listing>, c: SearchConfig)
    requires NoCriteria(c)
    ensures FilterResults(vs, c) == vs
  {
    FilterKeepsAll(vs, c);
  }

  /* ------------------------------- tighter criteria -------------------------------- */

  /** `tight` sets every criterion `loose` sets, at least as strictly. */
  predicate Tighter(tight: SearchConfig, loose: SearchConfig)
  {
    && (NumTruthy(loose.valorMaximo) ==> NumTruthy(tight.valorMaximo) && tight.valorMaximo.value <= loose.valorMaximo.value)
    && (NumTruthy(loose.anoMin) ==> NumTruthy(tight.anoMin) && tight.anoMin.value >= loose.anoMin.value)
    && (NumTruthy(loose.anoMax) ==> NumTruthy(tight.anoMax) && tight.anoMax.value <= loose.anoMax.value)
    && (NumTruthy(loose.kmMaxima) ==> NumTruthy(tight.kmMaxima) && tight.kmMaxima.value <= loose.kmMaxima.value)
    && (Truthy(loose.localidade) ==>
          Truthy(tight.localidade) && Contains(Lower(tight.localidade.value), Lower(loose.localidade.value)))
  }

  lemma KeptTighter(tight: SearchConfig, loose: SearchConfig, v: Listing)
    requires Tighter(tight, loose) && Kept(tight, v)
    ensures Kept(loose, v)
  {
    if Truthy(loose.localidade) && Truthy(v.localidade) {
      ContainsTransitive(Lower(v.localidade.value), Lower(tight.localidade.value), Lower(loose.localidade.value));
    }
  }

  /** Tightening the criteria keeps a sub-list of what the looser criteria keep. */
  lemma {:induction false} FilterMonotone(vs: seq<Listing>, tight: SearchConfig, loose: SearchConfig)
    requires Tighter(tight, loose)
    ensures IsSubseq(FilterResults(vs, tight), FilterResults(vs, loose))
    decreases |vs|
  {
    if |vs| > 0 {
      FilterMonotone(vs[1..], tight, loose);
      var a, b := FilterResults(vs[1..], tight), FilterResults(vs[1..], loose);
      if Kept(tight, vs[0]) {
        KeptTighter(tight, loose, vs[0]);
        assert FilterResults(vs, tight) == [vs[0]] + a;
        assert FilterResults(vs, loose) == [vs[0]] + b;
        assert ([vs[0]] + a)[1..] == a && ([vs[0]] + b)[1..] == b;
      } else if Kept(loose, vs[0]) {
        assert FilterResults(vs, loose) == [vs[0]] + b;
        assert ([vs[0]] + b)[1..] == b;
      }
    }
  }

  /* ------------------------- how the field values compare ------------------------- */

  /** A number that could not be parsed (`NaN`) passes every numeric bound. */
  lemma UnparsedPassesBounds(c: SearchConfig, v: Listing)
    requires v.valor.NaN? && v.ano.NaN? && v.quilometragem.NaN?
    ensures PriceKept(c, v) && AnoMinKept(c, v) && AnoMaxKept(c, v) && KmKept(c, v)
  {
  }

  /** A missing number (`null`) compares as 0: it fails a positive minimum year, and passes every positive maximum. */
  lemma MissingComparesAsZero(c: SearchConfig, v: Listing)
    requires v.valor.Null? && v.ano.Null? && v.quilometragem.Null?
    ensures NumTruthy(c.anoMin) && c.anoMin.value > 0 ==> !AnoMinKept(c, v)
    ensures NumTruthy(c.valorMaximo) && c.valorMaximo.value > 0 ==> PriceKept(c, v)
    ensures NumTruthy(c.anoMax) && c.anoMax.value > 0 ==> AnoMaxKept(c, v)
    ensures NumTruthy(c.kmMaxima) && c.kmMaxima.value > 0 ==> KmKept(c, v)
  {
  }

  /** A listing without a location passes any location criterion. */
  lemma MissingLocationPasses(c: SearchConfig, v: Listing)
    requires !Truthy(v.localidade)
    ensures LocationKept(c, v)
  {
  }

  /** The location match ignores case: a listing whose location has the criterion as a part passes. */
  lemma LocationPartPasses(c: SearchConfig, v: Listing, before: string, after: string)
    requires c.localidade.Some? && v.localidade == Some(before + c.localidade.value + after)
    ensures LocationKept(c, v)
  {
    var loc := c.localidade.value;
    var hay := Lower(before + loc + after);
    assert OccursAt(hay, Lower(loc), |before|) by {
      assert hay[|before|..|before| + |loc|] == Lower(loc);
    }
    ContainsIffOccurs(hay, Lower(loc));
  }

  /** With `ano_min` 2018, a 2015 listing is dropped and a 2019 listing is kept. */
  lemma ExampleMinimumYear(c: SearchConfig, v: Listing)
    requires c.anoMin == Some(2018) && !NumTruthy(c.valorMaximo) && !NumTruthy(c.anoMax)
    requires !NumTruthy(c.kmMaxima) && !Truthy(c.localidade)
    ensures FilterResults([v.(ano := Num(2015.0)), v.(ano := Num(2019.0))], c) == [v.(ano := Num(2019.0))]
  {
    var old2015, new2019 := v.(ano := Num(2015.0)), v.(ano := Num(2019.0));
    assert !Kept(c, old2015) && Kept(c, new2019);
    assert [old2015, new2019][1..] == [new2019];
  }
}
