/**
 * `buildOlxUrl` and `buildWebMotorsUrl` of the search endpoint: a search configuration
 * becomes a base URL and an ordered `URLSearchParams` list, serialized as the query.
 */
module Query {
  import opened Optional
  import opened SeqUtil
  import opened JsText
  import opened JsNumber
  import opened FormUrlencoded

  /**
   * A text field of the request's `searchConfig`: absent (`undefined` or `null`), a string,
   * or any other JSON value, given by its truthiness and by what `String(...)` makes of it:
   * `None` when that conversion throws, as it does for an object whose `toString` key holds
   * a value that is not a function.
   */
  datatype Text = Missing | Str(s: string) | Other(truthy: bool, shown: Option<string>)

  /**
   * The request's `searchConfig`. Numeric bounds are integers; a missing bound and `0`
   * are both falsy and mean "no bound".
   */
  datatype SearchConfig = SearchConfig(
    marca: Text,
    modelo: Text,
    valorMaximo: Option<int>,
    anoMin: Option<int>,
    anoMax: Option<int>,
    kmMaxima: Option<int>,
    localidade: Option<string>)

  predicate IsTruthy(t: Text)
  {
    match t
    case Missing => false
    case Str(s) => s != ""
    case Other(b, _) => b
  }

  /** A template literal `${...}` can write the field without throwing. */
  predicate HasString(t: Text)
  {
    !(t.Other? && t.shown.None?)
  }

  /** What a template literal `${...}` writes for a truthy field. */
  function Shown(t: Text): string
    requires IsTruthy(t) && HasString(t)
  {
    match t
    case Str(s) => s
    case Other(_, w) => w.value
  }

  predicate NumTruthy(o: Option<int>)
  {
    o.Some? && o.value != 0
  }

  /** The value a numeric bound contributes as a parameter: `String(n)` when the bound is truthy. */
  function NumValue(o: Option<int>): Option<string>
  {
    if NumTruthy(o) then Some(IntToString(o.value)) else None
  }

  const OlxBase := "https://sp.olx.com.br/" + "autos-e-pecas/" + "carros-vans-e-utilitarios"
  const WebMotorsBase := "https://www.webmotors.com.br/carros/estoque"

  const OlxKeys: seq<string> := ["q", "pe", "rs", "re"]
  const WebMotorsKeys: seq<string> := ["tipoveiculo", "marca", "modelo", "precoate", "anoinicial", "anofinal", "kmmax"]

  /** `URLSearchParams.get`: the value of the first entry named `k`. */
  function Lookup(ps: seq<Param>, k: string): Option<string>
  {
    if |ps| == 0 then None
    else if ps[0].0 == k then Some(ps[0].1)
    else Lookup(ps[1..], k)
  }

  function Keys(ps: seq<Param>): seq<string>
  {
    seq(|ps|, i requires 0 <= i < |ps| => ps[i].0)
  }

  /** At most one entry, named `key`: what one `if (...) params.append(key, ...)` contributes. */
  predicate IsSegment(seg: seq<Param>, key: string)
  {
    |seg| == 0 || (|seg| == 1 && seg[0].0 == key)
  }

  /** Putting a segment for `key` in front of a list ordered by `keys` gives a list ordered by `[key] + keys`. */
  lemma PrependSegmentKeys(seg: seq<Param>, key: string, rest: seq<Param>, keys: seq<string>)
    requires IsSegment(seg, key)
    requires IsSubseq(Keys(rest), keys)
    ensures IsSubseq(Keys(seg + rest), [key] + keys)
  {
    var ps := seg + rest;
    if |seg| == 0 {
      assert ps == rest;
      if |Keys(rest)| > 0 {
        assert ([key] + keys)[1..] == keys;
      }
    } else {
      assert ps[1..] == rest;
      assert Keys(ps)[0] == key;
      assert Keys(ps)[1..] == Keys(rest);
      assert ([key] + keys)[1..] == keys;
    }
  }

  /** Only `key`'s lookup can change when a segment for `key` is put in front. */
  lemma PrependSegmentLookup(seg: seq<Param>, key: string, rest: seq<Param>, k: string)
    requires IsSegment(seg, key)
    ensures Lookup(seg + rest, k) == if |seg| == 1 && k == key then Some(seg[0].1) else Lookup(rest, k)
  {
    if |seg| == 0 {
      assert seg + rest == rest;
    } else {
      assert (seg + rest)[1..] == rest;
    }
  }

  /** `if (field) params.append(key, field)` for a numeric bound. */
  function NumParam(key: string, o: Option<int>): (r: seq<Param>)
    ensures IsSegment(r, key)
    ensures |r| == 1 <==> NumTruthy(o)
    ensures |r| == 1 ==> r[0].1 == IntToString(o.value)
  {
    if NumTruthy(o) then [(key, IntToString(o.value))] else []
  }

  /** Brand and model are both truthy, so the template literal for `q` is evaluated. */
  predicate SearchesBoth(c: SearchConfig)
  {
    IsTruthy(c.marca) && IsTruthy(c.modelo)
  }

  /**
   * `q` for brand and model together (only when both are truthy), then `pe`, `rs`, `re`; no
   * mileage. `None` when the template literal for `q` throws, so that the builder's catch
   * returns `null`.
   */
  function OlxParams(c: SearchConfig): (r: Option<seq<Param>>)
    ensures r.None? <==> SearchesBoth(c) && !(HasString(c.marca) && HasString(c.modelo))
    ensures r.Some? ==> IsSubseq(Keys(r.value), OlxKeys)
    ensures r.Some? ==> Lookup(r.value, "q") == if SearchesBoth(c)
                                                then Some(Shown(c.marca) + " " + Shown(c.modelo)) else None
    ensures r.Some? ==> Lookup(r.value, "pe") == NumValue(c.valorMaximo)
    ensures r.Some? ==> Lookup(r.value, "rs") == NumValue(c.anoMin)
    ensures r.Some? ==> Lookup(r.value, "re") == NumValue(c.anoMax)
  {
    if SearchesBoth(c) && !(HasString(c.marca) && HasString(c.modelo)) then None
    else
      var q := if SearchesBoth(c) then [("q", Shown(c.marca) + " " + Shown(c.modelo))] else [];
      var pe := NumParam("pe", c.valorMaximo);
      var rs := NumParam("rs", c.anoMin);
      var re := NumParam("re", c.anoMax);
      OlxSegmentKeys(q, pe, rs, re);
      OlxSegmentLookup(q, pe, rs, re, "q");
      OlxSegmentLookup(q, pe, rs, re, "pe");
      OlxSegmentLookup(q, pe, rs, re, "rs");
      OlxSegmentLookup(q, pe, rs, re, "re");
      Some(q + (pe + (rs + re)))
  }

  lemma OlxSegmentKeys(q: seq<Param>, pe: seq<Param>, rs: seq<Param>, re: seq<Param>)
    requires IsSegment(q, "q") && IsSegment(pe, "pe") && IsSegment(rs, "rs") && IsSegment(re, "re")
    ensures IsSubseq(Keys(q + (pe + (rs + re))), OlxKeys)
  {
    var empty: seq<Param> := [];
    var k0: seq<string> := [];
    assert Keys(empty) == k0;
    PrependSegmentKeys(re, "re", empty, k0);
    assert re + empty == re;
    var k1 := ["re"] + k0;
    PrependSegmentKeys(rs, "rs", re, k1);
    var k2 := ["rs"] + k1;
    PrependSegmentKeys(pe, "pe", rs + re, k2);
    var k3 := ["pe"] + k2;
    PrependSegmentKeys(q, "q", pe + (rs + re), k3);
    assert OlxKeys == ["q"] + k3;
  }

  lemma OlxSegmentLookup(q: seq<Param>, pe: seq<Param>, rs: seq<Param>, re: seq<Param>, k: string)
    requires IsSegment(q, "q") && IsSegment(pe, "pe") && IsSegment(rs, "rs") && IsSegment(re, "re")
    ensures Lookup(q + (pe + (rs + re)), k) ==
      if |q| == 1 && k == "q" then Some(q[0].1)
      else if |pe| == 1 && k == "pe" then Some(pe[0].1)
      else if |rs| == 1 && k == "rs" then Some(rs[0].1)
      else if |re| == 1 && k == "re" then Some(re[0].1)
      else None
  {
    var empty: seq<Param> := [];
    PrependSegmentLookup(re, "re", empty, k);
    assert re + empty == re;
    PrependSegmentLookup(rs, "rs", re, k);
    PrependSegmentLookup(pe, "pe", rs + re, k);
    PrependSegmentLookup(q, "q", pe + (rs + re), k);
  }

  /** `toLowerCase()` on a truthy field: the value lower-cased, or `None` for the exception a non-string throws. */
  function TextParam(key: string, t: Text): (r: Option<seq<Param>>)
    ensures r.None? <==> IsTruthy(t) && t.Other?
    ensures r.Some? ==> IsSegment(r.value, key)
    ensures r.Some? ==> (|r.value| == 1 <==> IsTruthy(t))
    ensures r.Some? && |r.value| == 1 ==> r.value[0].1 == Lower(t.s)
  {
    if !IsTruthy(t) then Some([])
    else match t
      case Str(s) => Some([(key, Lower(s))])
      case Other(_, _) => None
  }

  /**
   * `tipoveiculo=carros`, then lower-cased `marca` and `modelo` independently, then
   * `precoate`, `anoinicial`, `anofinal`, `kmmax`; `None` when a truthy brand or model is not
   * a string, so that `toLowerCase` throws and the builder's catch returns `null`.
   */
  function WebMotorsParams(c: SearchConfig): (r: Option<seq<Param>>)
    ensures r.None? <==> (IsTruthy(c.marca) && c.marca.Other?) || (IsTruthy(c.modelo) && c.modelo.Other?)
    ensures r.Some? ==> |r.value| >= 1 && r.value[0] == ("tipoveiculo", "carros")
    ensures r.Some? ==> IsSubseq(Keys(r.value), WebMotorsKeys)
    ensures r.Some? ==> Lookup(r.value, "marca") == (if IsTruthy(c.marca) then Some(Lower(c.marca.s)) else None)
    ensures r.Some? ==> Lookup(r.value, "modelo") == (if IsTruthy(c.modelo) then Some(Lower(c.modelo.s)) else None)
    ensures r.Some? ==> Lookup(r.value, "precoate") == NumValue(c.valorMaximo)
    ensures r.Some? ==> Lookup(r.value, "anoinicial") == NumValue(c.anoMin)
    ensures r.Some? ==> Lookup(r.value, "anofinal") == NumValue(c.anoMax)
    ensures r.Some? ==> Lookup(r.value, "kmmax") == NumValue(c.kmMaxima)
  {
    match (TextParam("marca", c.marca), TextParam("modelo", c.modelo))
    case (Some(ma), Some(mo)) =>
      var t := [("tipoveiculo", "carros")];
      var p1 := NumParam("precoate", c.valorMaximo);
      var p2 := NumParam("anoinicial", c.anoMin);
      var p3 := NumParam("anofinal", c.anoMax);
      var p4 := NumParam("kmmax", c.kmMaxima);
      var tail := p1 + (p2 + (p3 + p4));
      var r := t + (ma + (mo + tail));
      WebMotorsSegmentKeys(t, ma, mo, p1, p2, p3, p4);
      WebMotorsSegmentLookup(t, ma, mo, p1, p2, p3, p4, "marca");
      WebMotorsSegmentLookup(t, ma, mo, p1, p2, p3, p4, "modelo");
      WebMotorsSegmentLookup(t, ma, mo, p1, p2, p3, p4, "precoate");
      WebMotorsSegmentLookup(t, ma, mo, p1, p2, p3, p4, "anoinicial");
      WebMotorsSegmentLookup(t, ma, mo, p1, p2, p3, p4, "anofinal");
      WebMotorsSegmentLookup(t, ma, mo, p1, p2, p3, p4, "kmmax");
      assert r[0] == t[0];
      Some(r)
    case _ => None
  }

  lemma WebMotorsSegmentKeys(t: seq<Param>, ma: seq<Param>, mo: seq<Param>,
                             p1: seq<Param>, p2: seq<Param>, p3: seq<Param>, p4: seq<Param>)
    requires IsSegment(t, "tipoveiculo") && IsSegment(ma, "marca") && IsSegment(mo, "modelo")
    requires IsSegment(p1, "precoate") && IsSegment(p2, "anoinicial") && IsSegment(p3, "anofinal") && IsSegment(p4, "kmmax")
    ensures IsSubseq(Keys(t + (ma + (mo + (p1 + (p2 + (p3 + p4)))))), WebMotorsKeys)
  {
    var empty: seq<Param> := [];
    var k0: seq<string> := [];
    assert Keys(empty) == k0;
    PrependSegmentKeys(p4, "kmmax", empty, k0);
    assert p4 + empty == p4;
    var k1 := ["kmmax"] + k0;
    PrependSegmentKeys(p3, "anofinal", p4, k1);
    var k2 := ["anofinal"] + k1;
    PrependSegmentKeys(p2, "anoinicial", p3 + p4, k2);
    var k3 := ["anoinicial"] + k2;
    PrependSegmentKeys(p1, "precoate", p2 + (p3 + p4), k3);
    var k4 := ["precoate"] + k3;
    var tail := p1 + (p2 + (p3 + p4));
    PrependSegmentKeys(mo, "modelo", tail, k4);
    var k5 := ["modelo"] + k4;
    PrependSegmentKeys(ma, "marca", mo + tail, k5);
    var k6 := ["marca"] + k5;
    PrependSegmentKeys(t, "tipoveiculo", ma + (mo + tail), k6);
    assert WebMotorsKeys == ["tipoveiculo"] + k6;
  }

  lemma WebMotorsSegmentLookup(t: seq<Param>, ma: seq<Param>, mo: seq<Param>,
                               p1: seq<Param>, p2: seq<Param>, p3: seq<Param>, p4: seq<Param>, k: string)
    requires IsSegment(t, "tipoveiculo") && IsSegment(ma, "marca") && IsSegment(mo, "modelo")
    requires IsSegment(p1, "precoate") && IsSegment(p2, "anoinicial") && IsSegment(p3, "anofinal") && IsSegment(p4, "kmmax")
    requires k != "tipoveiculo"
    ensures Lookup(t + (ma + (mo + (p1 + (p2 + (p3 + p4))))), k) ==
      if |ma| == 1 && k == "marca" then Some(ma[0].1)
      else if |mo| == 1 && k == "modelo" then Some(mo[0].1)
      else if |p1| == 1 && k == "precoate" then Some(p1[0].1)
      else if |p2| == 1 && k == "anoinicial" then Some(p2[0].1)
      else if |p3| == 1 && k == "anofinal" then Some(p3[0].1)
      else if |p4| == 1 && k == "kmmax" then Some(p4[0].1)
      else None
  {
    var empty: seq<Param> := [];
    PrependSegmentLookup(p4, "kmmax", empty, k);
    assert p4 + empty == p4;
    PrependSegmentLookup(p3, "anofinal", p4, k);
    PrependSegmentLookup(p2, "anoinicial", p3 + p4, k);
    PrependSegmentLookup(p1, "precoate", p2 + (p3 + p4), k);
    var tail := p1 + (p2 + (p3 + p4));
    PrependSegmentLookup(mo, "modelo", tail, k);
    PrependSegmentLookup(ma, "marca", mo + tail, k);
    PrependSegmentLookup(t, "tipoveiculo", ma + (mo + tail), k);
  }

  predicate IsWord(s: string)
  {
    forall i | 0 <= i < |s| :: 'a' <= s[i] <= 'z' || 'A' <= s[i] <= 'Z' || '0' <= s[i] <= '9'
  }

  /** An alphanumeric ASCII word is written into the query as it is. */
  lemma EncodeWord(s: string)
    requires IsWord(s)
    ensures EncodeComponent(s) == s
  {
    EncodeUnreserved(s);
  }

  /** `buildOlxUrl`: `null` exactly when writing the brand or the model into `q` throws. */
  function BuildOlxUrl(c: SearchConfig): (r: Option<string>)
    ensures r.Some? <==> OlxParams(c).Some?
    ensures r.Some? ==> exists q :: r.value == OlxBase + "?" + q && Parse(q) == OlxParams(c).value
  {
    match OlxParams(c)
    case None => None
    case Some(ps) =>
      ParseSerialize(ps);
      Some(OlxBase + "?" + Serialize(ps))
  }

  /** `buildWebMotorsUrl`: `null` exactly when lower-casing the brand or the model throws. */
  function BuildWebMotorsUrl(c: SearchConfig): (r: Option<string>)
    ensures r.Some? <==> WebMotorsParams(c).Some?
    ensures r.Some? ==> exists q :: r.value == WebMotorsBase + "?" + q && Parse(q) == WebMotorsParams(c).value
  {
    match WebMotorsParams(c)
    case None => None
    case Some(ps) =>
      ParseSerialize(ps);
      Some(WebMotorsBase + "?" + Serialize(ps))
  }

  /** Both built URLs are non-empty, hence truthy, whenever they are built. */
  lemma BuiltUrlsNonEmpty(c: SearchConfig)
    ensures BuildOlxUrl(c).Some? ==> BuildOlxUrl(c).value != ""
    ensures BuildWebMotorsUrl(c).Some? ==> BuildWebMotorsUrl(c).value != ""
  {
    assert |OlxBase| > 0 && |WebMotorsBase| > 0;
  }

  /** A single space is written as `+`. */
  lemma EncodeSpace(s: string)
    requires s == " "
    ensures EncodeComponent(s) == "+"
  {
    assert Utf8.Encode(s) == Utf8.EncodeChar(s[0]) + Utf8.Encode(s[1..]);
    assert s[1..] == [];
    assert Utf8.Encode(s) == [0x20];
    var bs: seq<Utf8.Byte> := [0x20];
    assert EncodeBytes(bs) == EncodeByte(bs[0]) + EncodeBytes(bs[1..]);
  }

  /** A pair of alphanumeric words is written as `key=value`. */
  lemma SerializeWordPair(k: string, v: string)
    requires IsWord(k) && IsWord(v)
    ensures SerializePair((k, v)) == k + "=" + v
  {
    EncodeWord(k);
    EncodeWord(v);
  }

  lemma NumberIsWord(n: int)
    requires n > 0
    ensures IsWord(IntToString(n))
  {
    var d := IntToString(n);
    assert AllDecimalDigits(d);
    forall i | 0 <= i < |d| ensures '0' <= d[i] <= '9' {
      assert IsDecimalDigit(d[i]);
    }
  }

  lemma LowerWord(s: string)
    requires IsWord(s)
    ensures IsWord(Lower(s))
  {
  }

  /** A search by an alphanumeric brand, model and a price limit, with no year bounds. */
  predicate WordSearch(c: SearchConfig)
  {
    c.marca.Str? && c.modelo.Str? && c.marca.s != "" && c.modelo.s != ""
    && IsWord(c.marca.s) && IsWord(c.modelo.s)
    && c.valorMaximo.Some? && c.valorMaximo.value > 0
    && !NumTruthy(c.anoMin) && !NumTruthy(c.anoMax)
  }

  lemma OlxParamsOfWordSearch(c: SearchConfig)
    requires WordSearch(c)
    ensures OlxParams(c) == Some([("q", c.marca.s + " " + c.modelo.s), ("pe", IntToString(c.valorMaximo.value))])
  {
    var e: seq<Param> := [];
    assert SearchesBoth(c) && HasString(c.marca) && HasString(c.modelo);
    var q := [("q", c.marca.s + " " + c.modelo.s)];
    var pe := [("pe", IntToString(c.valorMaximo.value))];
    assert Shown(c.marca) == c.marca.s && Shown(c.modelo) == c.modelo.s;
    assert NumParam("pe", c.valorMaximo) == pe;
    assert NumParam("rs", c.anoMin) == e && NumParam("re", c.anoMax) == e;
    assert OlxParams(c) == Some(q + (pe + (e + e)));
    assert q + (pe + (e + e)) == [q[0], pe[0]];
  }

  /**
   * On OLX such a search reads `q=<brand>+<model>&pe=<limit>`: brand and model joined by a
   * space, which the serializer writes as `+`, then the price limit in decimal.
   */
  lemma OlxUrlOfWordSearch(c: SearchConfig)
    requires WordSearch(c)
    ensures BuildOlxUrl(c) == Some(OlxBase + "?" + ("q=" + c.marca.s + "+" + c.modelo.s + "&pe=" + IntToString(c.valorMaximo.value)))
  {
    var m, n, v := c.marca.s, c.modelo.s, IntToString(c.valorMaximo.value);
    OlxParamsOfWordSearch(c);
    SerializeTwo(("q", m + " " + n), ("pe", v));
    NumberIsWord(c.valorMaximo.value);
    OlxQueryText(m, n, v);
  }

  lemma OlxQueryText(m: string, n: string, v: string)
    requires IsWord(m) && IsWord(n) && IsWord(v)
    ensures SerializePair(("q", m + " " + n)) + "&" + SerializePair(("pe", v)) == "q=" + m + "+" + n + "&pe=" + v
  {
    SerializeSpacedPair("q", m, n);
    SerializeWordPair("pe", v);
    assert "q" + "=" == "q=";
    assert "&" + ("pe" + "=" + v) == "&pe=" + v;
  }

  /** `key=<a>+<b>` for the value `a b` made of two words. */
  lemma SerializeSpacedPair(k: string, a: string, b: string)
    requires IsWord(k) && IsWord(a) && IsWord(b)
    ensures SerializePair((k, a + " " + b)) == k + "=" + (a + "+" + b)
  {
    EncodeWord(k); EncodeWord(a); EncodeWord(b); EncodeSpace(" ");
    EncodeComponentAppend(a, " ");
    EncodeComponentAppend(a + " ", b);
  }

  lemma WebMotorsParamsOfWordSearch(c: SearchConfig)
    requires WordSearch(c) && !NumTruthy(c.kmMaxima)
    ensures WebMotorsParams(c) == Some([("tipoveiculo", "carros"), ("marca", Lower(c.marca.s)),
                                        ("modelo", Lower(c.modelo.s)), ("precoate", IntToString(c.valorMaximo.value))])
  {
    var e: seq<Param> := [];
    assert TextParam("marca", c.marca) == Some([("marca", Lower(c.marca.s))]);
    assert TextParam("modelo", c.modelo) == Some([("modelo", Lower(c.modelo.s))]);
    assert NumParam("anoinicial", c.anoMin) == e && NumParam("anofinal", c.anoMax) == e && NumParam("kmmax", c.kmMaxima) == e;
    var p := ("precoate", IntToString(c.valorMaximo.value));
    assert NumParam("precoate", c.valorMaximo) == [p];
    assert [p] + (e + (e + e)) == [p];
    var t, ma, mo := ("tipoveiculo", "carros"), ("marca", Lower(c.marca.s)), ("modelo", Lower(c.modelo.s));
    assert WebMotorsParams(c) == Some([t] + ([ma] + ([mo] + ([p] + (e + (e + e))))));
    assert [t] + ([ma] + ([mo] + [p])) == [t, ma, mo, p];
  }

  /**
   * On WebMotors the same search reads `tipoveiculo=carros&marca=<brand>&modelo=<model>&precoate=<limit>`,
   * with brand and model lower-cased.
   */
  lemma WebMotorsUrlOfWordSearch(c: SearchConfig)
    requires WordSearch(c) && !NumTruthy(c.kmMaxima)
    ensures BuildWebMotorsUrl(c) == Some(WebMotorsBase + "?" + (("tipoveiculo" + "=" + "carros") + "&" + ("marca" + "=" + Lower(c.marca.s))
                                         + "&" + ("modelo" + "=" + Lower(c.modelo.s)) + "&" + ("precoate" + "=" + IntToString(c.valorMaximo.value))))
  {
    WebMotorsParamsOfWordSearch(c);
    LowerWord(c.marca.s); LowerWord(c.modelo.s); NumberIsWord(c.valorMaximo.value);
    WebMotorsQueryText(Lower(c.marca.s), Lower(c.modelo.s), IntToString(c.valorMaximo.value));
  }

  /** The WebMotors query of a word search: every key and value is written as it is. */
  lemma WebMotorsQueryText(ma: string, mo: string, p: string)
    requires IsWord(ma) && IsWord(mo) && IsWord(p)
    ensures Serialize([("tipoveiculo", "carros"), ("marca", ma), ("modelo", mo), ("precoate", p)])
              == ("tipoveiculo" + "=" + "carros") + "&" + ("marca" + "=" + ma)
                 + "&" + ("modelo" + "=" + mo) + "&" + ("precoate" + "=" + p)
  {
    assert IsWord("tipoveiculo") && IsWord("carros") by {}
    assert IsWord("marca") && IsWord("modelo") && IsWord("precoate") by {}
    SerializeWordList([("tipoveiculo", "carros"), ("marca", ma), ("modelo", mo), ("precoate", p)]);
  }

  /** Four pairs of words are written as `k0=v0&k1=v1&k2=v2&k3=v3`. */
  lemma SerializeWordList(ps: seq<Param>)
    requires |ps| == 4
    requires IsWord(ps[0].0) && IsWord(ps[0].1) && IsWord(ps[1].0) && IsWord(ps[1].1)
    requires IsWord(ps[2].0) && IsWord(ps[2].1) && IsWord(ps[3].0) && IsWord(ps[3].1)
    ensures Serialize(ps) == (ps[0].0 + "=" + ps[0].1) + "&" + (ps[1].0 + "=" + ps[1].1)
                             + "&" + (ps[2].0 + "=" + ps[2].1) + "&" + (ps[3].0 + "=" + ps[3].1)
  {
    SerializeFour(ps[0], ps[1], ps[2], ps[3]);
    assert ps == [ps[0], ps[1], ps[2], ps[3]];
    SerializeWordPair(ps[0].0, ps[0].1);
    SerializeWordPair(ps[1].0, ps[1].1);
    SerializeWordPair(ps[2].0, ps[2].1);
    SerializeWordPair(ps[3].0, ps[3].1);
  }

  const FiatUno := SearchConfig(Str("Fiat"), Str("Uno"), Some(40000), None, None, None, None)

  /** The search `{marca: "Fiat", modelo: "Uno", valor_maximo: 40000}` on both sites. */
  lemma ExampleFiatUno()
    ensures BuildOlxUrl(FiatUno) == Some(OlxBase + "?" + ("q=" + "Fiat" + "+" + "Uno" + "&pe=" + "40000"))
    ensures BuildWebMotorsUrl(FiatUno) == Some(WebMotorsBase + "?" + (("tipoveiculo" + "=" + "carros") + "&" + ("marca" + "=" + "fiat")
                                               + "&" + ("modelo" + "=" + "uno") + "&" + ("precoate" + "=" + "40000")))
  {
    assert IntToString(40000) == "40000";
    assert Lower("Fiat") == "fiat" && Lower("Uno") == "uno";
    OlxUrlOfWordSearch(FiatUno);
    WebMotorsUrlOfWordSearch(FiatUno);
  }

  /** The OLX query never carries a mileage bound: the URL does not depend on `km_maxima` or `localidade`. */
  lemma OlxIgnoresMileage(c: SearchConfig, km: Option<int>, loc: Option<string>)
    ensures BuildOlxUrl(c.(kmMaxima := km, localidade := loc)) == BuildOlxUrl(c)
  {
  }
}
