/**
 * The vehicle record both scraping rules produce and the search endpoint filters and returns.
 */
module Vehicles {
  import opened Optional
  import opened JsText
  import opened JsNumber

  /** The `site_origem` tag: `'olx'` or `'webmotors'`. */
  datatype Site = Olx | WebMotors

  /**
   * One listing: `titulo_anuncio`, `valor_anunciado`, `ano`, `quilometragem`, `localidade`,
   * `link_anuncio` and `site_origem`. A text field is `None` when it is `null` or absent.
   */
  datatype Listing = Listing(
    titulo: Option<string>,
    valor: JsNum,
    ano: JsNum,
    quilometragem: JsNum,
    localidade: Option<string>,
    link: Option<string>,
    siteOrigem: Site)

  /** The scrapers' final filter: a listing is kept when it has a non-empty title and link. */
  predicate IsValid(v: Listing)
  {
    Truthy(v.titulo) && Truthy(v.link)
  }
}
