/**
 * One search-result card and the per-card extraction of the scraper's
 * `for item in items[:10]` body (amazon-scraping.py:55-84).
 *
 * The browser element is replaced by the three lookups the body makes on it.
 * A lookup that raises (no matching element) is `None`.
 */
module Cards {
  import opened Wrappers

  /** The first `h2 a` element of a card; its `href` attribute may be unset. */
  datatype Anchor = Anchor(href: Option<string>)

  /** A search-result container, seen only through the scraper's three selectors. */
  datatype Card = Card(
    titleText: Option<string>,  // text of the first `h2 a span`
    priceText: Option<string>,  // text of the first `.a-price-whole`
    titleLink: Option<Anchor>   // the first `h2 a`
  )

  /** The dictionary appended to `results`: title, raw price text, link address. */
  datatype Record = Record(title: string, priceRaw: string, url: Option<string>)

  /** Which lookup raised inside the card's `try` block. */
  datatype SkipReason = NoTitle | NoLink

  /** What one card contributes: a record, or nothing because an exception was caught. */
  datatype Outcome = Emitted(record: Record) | Skipped(reason: SkipReason)

  /** The price text substituted when a card has no `.a-price-whole` element. */
  const MissingPrice: string := "0"

  /**
   * Extracts one card. A missing title or link element skips the card;
   * a missing price element only degrades the price to `MissingPrice`.
   * The title lookup runs first, so a card missing both is skipped for its title.
   */
  function ExtractCard(c: Card): (r: Outcome)
    ensures r.Emitted? <==> c.titleText.Some? && c.titleLink.Some?
    ensures r == Skipped(NoTitle) <==> c.titleText.None?
    ensures r == Skipped(NoLink) <==> c.titleText.Some? && c.titleLink.None?
    ensures r.Emitted? ==>
              && r.record.title == c.titleText.value
              && r.record.url == c.titleLink.value.href
              && r.record.priceRaw == (if c.priceText.Some? then c.priceText.value else MissingPrice)
  {
    match c.titleText
    case None => Skipped(NoTitle)
    case Some(title) =>
      var priceRaw := c.priceText.GetOr(MissingPrice);
      match c.titleLink
      case None => Skipped(NoLink)
      case Some(link) => Emitted(Record(title, priceRaw, link.href))
  }

  /**
   * In a real page `h2 a span` can only match inside an `h2 a`, so a card
   * whose title lookup succeeds always has a link element too.
   */
  predicate WellFormed(c: Card) {
    c.titleText.Some? ==> c.titleLink.Some?
  }

  /** On well-formed cards the title alone decides between emitting and skipping. */
  lemma WellFormedSkipsOnlyForTitle(c: Card)
    requires WellFormed(c)
    ensures ExtractCard(c).Emitted? <==> c.titleText.Some?
    ensures ExtractCard(c).Skipped? ==> ExtractCard(c).reason == NoTitle
  {
  }

  /**
   * The price lookup never decides whether a card is skipped: replacing the
   * price element (or removing it) changes the emitted record's `priceRaw`
   * and nothing else.
   */
  lemma PriceOnlyDegrades(c: Card, p: Option<string>)
    ensures ExtractCard(c.(priceText := p)).Emitted? == ExtractCard(c).Emitted?
    ensures ExtractCard(c).Skipped? ==> ExtractCard(c.(priceText := p)) == ExtractCard(c)
    ensures ExtractCard(c).Emitted? ==>
              ExtractCard(c.(priceText := p)).record
                == ExtractCard(c).record.(priceRaw := p.GetOr(MissingPrice))
  {
  }
}
