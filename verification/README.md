# Amazon search-result scraper: extraction core

This project models the decision logic of `amazon-scraping.py`. The script
searches amazon.co.jp, looks at the first ten result cards, and turns each
card into a record `{title, price_raw, url}`. It then derives an integer
`price` column and writes the table to a CSV file.

The browser is abstracted away. A result card (`Cards.Card`) is reduced to the
three lookups the script makes on it:

- the text of `h2 a span`;
- the text of `.a-price-whole`;
- the `h2 a` anchor, whose `href` may be unset.

A lookup that raises because no element matches is `None`.

Modules:

- `Wrappers`: `Option` and `Result`.
- `Cards`: the card, the record and the per-card extraction (`ExtractCard`).
  A missing title or link skips the card. A missing price degrades to `"0"`.
- `Aggregation`: the loop over `items[:10]`. It has a functional definition
  (`Aggregate`) and the loop as the script writes it (`AggregateLoop`). The
  lemmas cover the bound, order preservation, transparency of skipped cards,
  and that every record comes from a card.
- `Prices`: `str.replace(',', '')` followed by `astype(int)`
  (`NormalizePrice`). It is proved against a reference rendering of numbers
  with thousands separators (`Grouped`).
- `Export`: the all-or-nothing price column and the whole run. The run comes in two forms. `RunAsWritten` behaves as the script does, including its failure on an empty result list (see Findings). `Run` is the same pipeline with that failure corrected.

Some behaviour one might expect from a scraper of this kind is absent from the code.
The model follows the code as written:

- The title comes from one fixed selector (`h2 a span`). There is no fallback
  heading search.
- The link comes from one fixed selector (`h2 a`). There are no link patterns
  and no class-based fallback.
- A card without an `h2 a` element is skipped. Its URL does not degrade to the
  empty string.
- A price that does not parse does not skip a card. It makes the conversion of
  the whole column fail. The outer handler then catches the error and no CSV
  is written.

## Model

| member | source | states |
|---|---|---|
| Cards.ExtractCard | amazon-scraping.py:55-84 | A card is emitted exactly when both its title and link lookups succeed. A missing title gives `Skipped(NoTitle)` whatever else is missing, because the title lookup runs first. A missing link with a title present gives `Skipped(NoLink)`. An emitted record carries the title text unchanged, the anchor's `href` (possibly unset), and the price text verbatim, or `"0"` when the price element is absent. |
| Cards.WellFormedSkipsOnlyForTitle | amazon-scraping.py:58-72 | On cards where a `h2 a span` match implies a `h2 a` match (true in any real page), a card is emitted if and only if it has a title. A skip is then always for the title. |
| Cards.PriceOnlyDegrades | amazon-scraping.py:64-68 | Changing or removing the price element never changes whether a card is skipped. For an emitted card it changes only `priceRaw`, which becomes the new text or `"0"`. |
| Aggregation.Visited | amazon-scraping.py:54 | The loop visits a prefix of the cards of length at most 10. The prefix is all the cards when there are no more than 10. |
| Aggregation.Contribution | amazon-scraping.py:76-84 | One card adds at most one record. It adds none exactly when extraction skips it. Otherwise it adds its own extracted record. |
| Aggregation.Collect | amazon-scraping.py:52-84 | Walking n cards appends at most n records. |
| Aggregation.Aggregate | amazon-scraping.py:52-54 | The result list never has more than min(10, number of cards) records. |
| Aggregation.AggregateLoop | amazon-scraping.py:52-84 | The loop, written as in the script (start empty, visit `items[:10]`, append each emitted record), builds exactly the list `Aggregate` defines. |
| Aggregation.CollectAppend | amazon-scraping.py:82-84 | Cards are processed independently. The records of two runs of cards are the records of the first run followed by those of the second. |
| Aggregation.SkippedCardIsTransparent | amazon-scraping.py:82-84 | A skipped card contributes nothing. The cards after it are processed as if it were absent. |
| Aggregation.EmittedRecordPlaced | amazon-scraping.py:76-80 | An emitting card's own record is in the output, at the index equal to the number of records from the cards before it. |
| Aggregation.PositionAdvances | amazon-scraping.py:76-80 | Every emitting card advances the output position by at least one. |
| Aggregation.AggregatePreservesOrder | amazon-scraping.py:52-80 | Take two emitting cards i < j among the first ten. Both records are in the result, and card i's record comes strictly before card j's. |
| Aggregation.CollectOrigin | amazon-scraping.py:76-80 | Every output record is the extracted record of some walked card. No record is invented. |
| Aggregation.CollectCountsEmitters | amazon-scraping.py:76-84 | The number of records equals the number of emitting cards. |
| Aggregation.CardsPastLimitIgnored | amazon-scraping.py:54 | Cards after the tenth have no effect on the result. |
| Aggregation.AllSkippedGivesEmpty | amazon-scraping.py:52-84 | If every card among the first ten is skipped, and in particular if there are no cards, the result list is empty. |
| Prices.StripCommas | amazon-scraping.py:92 | The stripped string contains no `,` and is no longer than the input. |
| Prices.StripCommasKeepsContent | amazon-scraping.py:92 | Stripping keeps every character other than `,` with its multiplicity and removes all commas. |
| Prices.StripCommasAppend | amazon-scraping.py:92 | Stripping distributes over concatenation, so the kept characters stay in their original order. |
| Prices.StripCommasFixesExactly | amazon-scraping.py:92 | Stripping leaves a string unchanged if and only if it contains no comma. |
| Prices.StripCommasIdempotent | amazon-scraping.py:92 | Stripping twice equals stripping once. |
| Prices.ParseDigits | amazon-scraping.py:92 | The parse succeeds exactly on non-empty ASCII digit strings. Its value is then the base-10 value of the digits, most significant first, and is below 10^length. |
| Prices.ParseToDecimal | amazon-scraping.py:92 | Round trip: parsing the decimal rendering of any natural number gives that number back. |
| Prices.StripGrouped | amazon-scraping.py:89-92 | Stripping the separators from a rendering grouped by thousands (`"1,234,567"`) leaves a non-empty digit string whose value is the number rendered. |
| Prices.NormalizePrice | amazon-scraping.py:92 | The price is defined exactly when the comma-stripped text is a non-empty digit string whose value fits in int64. The price is then that value. Any other residue is a failure, never 0. |
| Prices.NormalizeByStripped | amazon-scraping.py:92 | Two texts that strip to the same string normalise to the same price. |
| Prices.NormalizeIgnoresSeparator | amazon-scraping.py:92 | Inserting a comma anywhere does not change the normalised price. |
| Prices.NormalizeAfterStrip | amazon-scraping.py:92 | Stripping the commas first does not change the normalised price. |
| Prices.NormalizeGrouped | amazon-scraping.py:89-92 | Round trip: every int64-sized price rendered with thousands separators normalises back to itself. |
| Prices.NormalizeMissingPrice | amazon-scraping.py:92 | The `"0"` that stands in for a missing price element (line 68) normalises to 0. |
| Prices.NormalizeExample | amazon-scraping.py:89-92 | `"2,500"` normalises to 2500. This is the example in the script's comment. |
| Prices.NormalizeRejectsResidue | amazon-scraping.py:92 | A non-digit character left after stripping makes the price undefined. |
| Prices.NormalizeRejectsEmpty | amazon-scraping.py:92 | A text made only of commas, or the empty text, strips to nothing and has no price. |
| Export.ConvertPrices | amazon-scraping.py:92 | The column converts if and only if every entry normalises. On success there is one price per entry, in order, each the entry's normalised value. On failure, the reported index is the first entry that does not normalise, and every earlier entry does normalise. |
| Export.Tabulate | amazon-scraping.py:87-92 | The table exists if and only if every record's `price_raw` normalises. Each row keeps its record's title, `price_raw` and url, and has `price` equal to the normalised `price_raw`. A failure names the first record whose price does not normalise. This is the corrected form: an empty list gives an empty table. |
| Export.TabulateAsWritten | amazon-scraping.py:87-92 | As the code behaves: the table exists if and only if the record list is non-empty and every `price_raw` normalises. Its rows are then the records with their normalised prices. A failure is the missing column exactly when the list is empty; otherwise it names the first bad price. |
| Export.AsWrittenFailsOnEmpty | amazon-scraping.py:87-92 | On the empty list, the as-written table fails and the corrected table is empty. |
| Export.Run | amazon-scraping.py:52-92 | The corrected run (an empty result list gives an empty table). A successful run has at most min(10, number of cards) rows. |
| Export.RunAsWritten | amazon-scraping.py:52-98 | The run as the script performs it. A successful run has between 1 and min(10, number of cards) rows. |
| Export.AggregateEmptyIffNoEmitter | amazon-scraping.py:52-84 | The result list is empty if and only if none of the first ten cards emits a record. |
| Export.RunAsWrittenFails | amazon-scraping.py:52-98 | The script's run fails if and only if one of the first ten cards emits a record with a price that does not normalise, or none of them emits at all. The failure is the missing column exactly in the second case. |
| Export.RunFailsOnlyOnBadPrice | amazon-scraping.py:52-98 | For the corrected run: it fails if and only if one of the first ten cards emits a record whose price does not normalise. A skipped card, whatever its price text, never causes a failure. A failure yields no table at all, not a partial one. |
| Export.RunSucceedsOnCleanPrices | amazon-scraping.py:64-92 | Suppose each of the first ten cards has no price element or a normalisable price. Then the corrected run succeeds, and the script's run succeeds if and only if at least one of those cards emits. Missing prices never cause a failure. |
| Export.RunSingleCard | amazon-scraping.py:52-92 | A single emitting card with a normalisable price yields exactly one row: its title, raw price, url and normalised price. The script's run gives the same result. |
| Export.ScenarioFullCard | amazon-scraping.py:55-92 | Title "Widget Pro", price `"1,234"`, link `https://x/1` yield the row `("Widget Pro", "1,234", https://x/1, 1234)`. |
| Export.ScenarioNoPrice | amazon-scraping.py:64-92 | A card with title and link but no price element yields a row with `price_raw` `"0"` and `price` 0. |
| Export.ScenarioNoLink | amazon-scraping.py:71-92 | A card with a title but no `h2 a` element yields no row. Its URL does not degrade to empty. As the only card it leaves the result list empty, so the corrected run gives an empty table and the script's run fails with the missing column. |
| Export.ScenarioResidueFailsRun | amazon-scraping.py:92-98 | A price text `"1,234円"` leaves residue after stripping, and the whole run fails, both as written and corrected. |

## Left out

- Browser setup, user agent, the anti-detection flag, driver installation and `driver.quit()` (lines 19-31, 100-101): these are driver plumbing.
- Navigation, typing and submitting the search, the explicit wait and the random `time.sleep` (lines 35-44): these are I/O, timing and randomness.
- How the card list is obtained (`find_elements`, line 48): it is the input sequence of `Run`.
- All console output, including the 20-character title preview (lines 43, 50, 74, 83, 95, 98): this is I/O.
- Writing the CSV with `utf-8-sig` encoding (line 94): this is file I/O. The model stops at the sequence of rows the writer would receive.
- Cards.ExtractCard: only a failed lookup of the title or the link skips a card. Other exceptions raised inside the card's `try` block are not modelled at all. Examples are a stale element while reading `.text` or `get_attribute`, or a `UnicodeEncodeError` from the `print` at line 74 on a console that cannot encode the title. The script skips such a card; the model emits its record.
- Prices.NormalizePrice: accepts only non-empty ASCII digit strings after comma removal. Python's `int()` also accepts surrounding whitespace, a sign, `_` between digits and non-ASCII decimal digits such as full-width `１`. For those inputs the model reports failure where the script would convert.
- Prices.NormalizePrice: assumes a 64-bit integer column. `astype(int)` uses the platform's default integer, which is 32-bit on Windows with NumPy before 2.0. On such a host the script also fails for prices above 2147483647, and the model does not.
- Prices.ParseDigits: the same restriction to ASCII digit strings as `NormalizePrice`, for the same reason.
- The error message text caught by the outer handler is left out. `Fault` only records which kind of failure occurred.
- Pandas failure modes other than the missing column on an empty list are left out (for example dtype inference details).

## Findings

| source | as written | input that shows it | evidently intended | confidence | as-written member | corrected member |
|---|---|---|---|---|---|---|
| amazon-scraping.py:87-92 | `pd.DataFrame(results)` with an empty `results` has no columns, so `df['price_raw']` raises `KeyError`. The outer handler prints an error and no CSV is written. | A search page with no result cards, or whose first ten cards all lack a title or link, gives `results == []`. | An empty result list gives an empty table (a header-only CSV). An empty search is a reportable outcome, not a crash. | medium, not executed | Export.TabulateAsWritten | Export.Tabulate |
