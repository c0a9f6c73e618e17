/**
 * The table handed to the CSV writer (amazon-scraping.py:87-98): the
 * collected records plus a `price` column derived from `price_raw`. If any
 * price fails to convert, the outer handler catches the error and no file is
 * written, so the conversion is all-or-nothing.
 */
module Export {
  import opened Wrappers
  import opened Cards
  import opened Aggregation
  import opened Prices

  /** One CSV row, columns in the file's order: title, price_raw, url, price. */
  datatype Row = Row(title: string, priceRaw: string, url: Option<string>, price: int)

  /** Why no CSV is written. */
  datatype Fault =
    | MissingColumn                     // the frame has no `price_raw` column
    | Unparsable(index: nat, raw: string)  // the first `price_raw` that `astype(int)` rejects

  /**
   * `astype(int)` over the `price_raw` column: every entry converts, or the
   * first entry that does not is reported.
   */
  function ConvertPrices(raws: seq<string>): (r: Result<seq<int>, Fault>)
    ensures r.Success? <==> forall i :: 0 <= i < |raws| ==> NormalizePrice(raws[i]).Some?
    ensures r.Success? ==>
              && |r.value| == |raws|
              && forall i :: 0 <= i < |raws| ==> NormalizePrice(raws[i]) == Some(r.value[i])
    ensures r.Failure? ==>
              && r.error.Unparsable?
              && r.error.index < |raws|
              && r.error.raw == raws[r.error.index]
              && NormalizePrice(r.error.raw).None?
              && forall j :: 0 <= j < r.error.index ==> NormalizePrice(raws[j]).Some?
  {
    if raws == [] then Success([])
    else
      var n := |raws| - 1;
      assert forall j :: 0 <= j < n ==> raws[..n][j] == raws[j];
      match ConvertPrices(raws[..n])
      case Failure(e) => Failure(e)
      case Success(ps) =>
        match NormalizePrice(raws[n])
        case None => Failure(Unparsable(n, raws[n]))
        case Some(p) => Success(ps + [p])
  }

  function PriceColumn(records: seq<Record>): (raws: seq<string>)
    ensures |raws| == |records|
    ensures forall i :: 0 <= i < |records| ==> raws[i] == records[i].priceRaw
  {
    seq(|records|, i requires 0 <= i < |records| => records[i].priceRaw)
  }

  /** `rows` is `records` with each record's normalised price appended as the `price` column. */
  predicate RowsOf(records: seq<Record>, rows: seq<Row>) {
    && |rows| == |records|
    && forall i :: 0 <= i < |records| ==>
         var rec, row := records[i], rows[i];
         && row.title == rec.title && row.priceRaw == rec.priceRaw && row.url == rec.url
         && NormalizePrice(rec.priceRaw) == Some(row.price)
  }

  /** `fault` names the first record whose price does not normalise. */
  predicate FirstBadPrice(records: seq<Record>, fault: Fault) {
    && fault.Unparsable?
    && fault.index < |records|
    && fault.raw == records[fault.index].priceRaw
    && NormalizePrice(fault.raw).None?
    && forall j :: 0 <= j < fault.index ==> NormalizePrice(records[j].priceRaw).Some?
  }

  /**
   * The table as intended: each record gains the normalised price of its own
   * `price_raw`. An empty list of records gives an empty table.
   */
  function Tabulate(records: seq<Record>): (r: Result<seq<Row>, Fault>)
    ensures r.Success? <==> forall i :: 0 <= i < |records| ==> NormalizePrice(records[i].priceRaw).Some?
    ensures r.Success? ==> RowsOf(records, r.value)
    ensures r.Failure? ==> FirstBadPrice(records, r.error)
  {
    var raws := PriceColumn(records);
    match ConvertPrices(raws)
    case Failure(e) =>
      assert forall j :: 0 <= j < |records| ==> raws[j] == records[j].priceRaw;
      Failure(e)
    case Success(prices) =>
      Success(seq(|records|, i requires 0 <= i < |records| =>
        Row(records[i].title, records[i].priceRaw, records[i].url, prices[i])))
  }

  /**
   * The table as the code builds it: `pd.DataFrame([])` has no columns, so
   * reading `price_raw` from an empty result list raises and no CSV is written.
   */
  function TabulateAsWritten(records: seq<Record>): (r: Result<seq<Row>, Fault>)
    ensures r.Success? <==>
              records != [] && forall i :: 0 <= i < |records| ==> NormalizePrice(records[i].priceRaw).Some?
    ensures r.Success? ==> RowsOf(records, r.value)
    ensures r.Failure? ==> (r.error == MissingColumn <==> records == [])
    ensures r.Failure? && records != [] ==> FirstBadPrice(records, r.error)
  {
    if records == [] then Failure(MissingColumn) else Tabulate(records)
  }

  /** The two differ exactly on the empty list, which as written fails and as intended is an empty table. */
  lemma AsWrittenFailsOnEmpty()
    ensures TabulateAsWritten([]) == Failure(MissingColumn)
    ensures Tabulate([]) == Success([])
  {
  }

  /** The whole extraction with the empty-list correction: first ten cards, emitted records, price column. */
  function Run(cards: seq<Card>): (r: Result<seq<Row>, Fault>)
    ensures r.Success? ==> |r.value| <= Limit && |r.value| <= |cards|
  {
    Tabulate(Aggregate(cards))
  }

  /** The whole extraction as the script performs it, including the failure on an empty result list. */
  function RunAsWritten(cards: seq<Card>): (r: Result<seq<Row>, Fault>)
    ensures r.Success? ==> 0 < |r.value| <= Limit && |r.value| <= |cards|
  {
    TabulateAsWritten(Aggregate(cards))
  }

  /** A card among the first ten that emits a record. */
  predicate Emits(cards: seq<Card>, i: int) {
    0 <= i < |Visited(cards)| && ExtractCard(Visited(cards)[i]).Emitted?
  }

  /** The result list is empty exactly when none of the first ten cards emits. */
  lemma AggregateEmptyIffNoEmitter(cards: seq<Card>)
    ensures Aggregate(cards) == [] <==> !exists i :: Emits(cards, i)
  {
    var v := Visited(cards);
    if Aggregate(cards) != [] {
      CollectOrigin(v, 0);
      var i :| 0 <= i < |v| && ExtractCard(v[i]) == Emitted(Aggregate(cards)[0]);
      assert Emits(cards, i);
    }
    if exists i :: Emits(cards, i) {
      var i :| Emits(cards, i);
      EmittedRecordPlaced(v, i);
    }
  }

  /** A card among the first ten that emits a record whose price does not normalise. */
  predicate HasBadPrice(cards: seq<Card>, i: int) {
    && 0 <= i < |Visited(cards)|
    && ExtractCard(Visited(cards)[i]).Emitted?
    && NormalizePrice(ExtractCard(Visited(cards)[i]).record.priceRaw).None?
  }

  /**
   * All-or-nothing: the run fails exactly when one of the first ten cards
   * emits a record whose price does not normalise; a failure is never a
   * partial table, and skipped cards never cause one.
   */
  lemma RunFailsOnlyOnBadPrice(cards: seq<Card>)
    ensures Run(cards).Failure? <==> exists i :: HasBadPrice(cards, i)
    ensures Run(cards).Failure? ==> Run(cards).error.Unparsable?
  {
    var v, rs := Visited(cards), Aggregate(cards);
    if Run(cards).Failure? {
      var k :| 0 <= k < |rs| && NormalizePrice(rs[k].priceRaw).None?;
      CollectOrigin(v, k);
      var i :| 0 <= i < |v| && ExtractCard(v[i]) == Emitted(rs[k]);
      assert HasBadPrice(cards, i);
    }
    if exists i :: HasBadPrice(cards, i) {
      var i :| HasBadPrice(cards, i);
      EmittedRecordPlaced(v, i);
      assert NormalizePrice(rs[Position(v, i)].priceRaw).None?;
    }
  }

  /**
   * As written, the run fails exactly when one of the first ten cards emits a
   * bad price, or when none of them emits at all (the missing column).
   */
  lemma RunAsWrittenFails(cards: seq<Card>)
    ensures RunAsWritten(cards).Failure? <==>
              (exists i :: HasBadPrice(cards, i)) || !(exists i :: Emits(cards, i))
    ensures RunAsWritten(cards).Failure? ==>
              (RunAsWritten(cards).error == MissingColumn <==> !exists i :: Emits(cards, i))
  {
    AggregateEmptyIffNoEmitter(cards);
    RunFailsOnlyOnBadPrice(cards);
  }

  /**
   * Degrade, not fail: if every one of the first ten cards either lacks a
   * price element or shows a normalisable price, the corrected run produces a
   * table, and the run as written does so exactly when some card emits.
   */
  lemma RunSucceedsOnCleanPrices(cards: seq<Card>)
    requires forall i :: 0 <= i < |Visited(cards)| ==>
               Visited(cards)[i].priceText.None? || NormalizePrice(Visited(cards)[i].priceText.value).Some?
    ensures Run(cards).Success?
    ensures RunAsWritten(cards).Success? <==> exists i :: Emits(cards, i)
  {
    var rs := Aggregate(cards);
    forall k | 0 <= k < |rs|
      ensures NormalizePrice(rs[k].priceRaw).Some?
    {
      CollectOrigin(Visited(cards), k);
      var i :| 0 <= i < |Visited(cards)| && ExtractCard(Visited(cards)[i]) == Emitted(rs[k]);
      NormalizeMissingPrice();
    }
    AggregateEmptyIffNoEmitter(cards);
  }

  /** A single card that emits a record with a normalisable price yields exactly that one row. */
  lemma RunSingleCard(c: Card, price: int)
    requires ExtractCard(c).Emitted?
    requires NormalizePrice(ExtractCard(c).record.priceRaw) == Some(price)
    ensures var rec := ExtractCard(c).record;
            Run([c]) == Success([Row(rec.title, rec.priceRaw, rec.url, price)])
    ensures RunAsWritten([c]) == Run([c])
  {
    var rec := ExtractCard(c).record;
    assert Aggregate([c]) == [rec] by {
      assert [c][..0] == [];
      assert Visited([c]) == [c];
      assert Collect([c]) == Contribution(c);
    }
    var r := Tabulate([rec]);
    assert r.Success? by {
      assert forall i :: 0 <= i < 1 ==> NormalizePrice([rec][i].priceRaw).Some?;
    }
    var row := r.value[0];
    assert NormalizePrice(rec.priceRaw) == Some(row.price);
    assert row == Row(rec.title, rec.priceRaw, rec.url, price);
    assert r.value == [row];
  }

  /** A card showing "1,234" with title and link yields the row with price 1234. */
  lemma ScenarioFullCard()
    ensures Run([Card(Some("Widget Pro"), Some("1,234"), Some(Anchor(Some("https://x/1"))))])
         == Success([Row("Widget Pro", "1,234", Some("https://x/1"), 1234)])
  {
    assert Grouped(1234) == "1,234" by {
      assert ToDecimal(1) == "1";
      assert Pad3(234) == "234";
    }
    NormalizeGrouped(1234);
    RunSingleCard(Card(Some("Widget Pro"), Some("1,234"), Some(Anchor(Some("https://x/1")))), 1234);
  }

  /** A card without a price element still yields a row, with "0" and 0. */
  lemma ScenarioNoPrice()
    ensures Run([Card(Some("Book"), None, Some(Anchor(Some("https://x/2"))))])
         == Success([Row("Book", "0", Some("https://x/2"), 0)])
  {
    NormalizeMissingPrice();
    RunSingleCard(Card(Some("Book"), None, Some(Anchor(Some("https://x/2")))), 0);
  }

  /**
   * A card with a title but no link element is skipped; its URL does not
   * degrade to empty. Being the only card, it leaves the result list empty, so
   * the run as written fails on the missing column.
   */
  lemma ScenarioNoLink()
    ensures Run([Card(Some("Book"), None, None)]) == Success([])
    ensures RunAsWritten([Card(Some("Book"), None, None)]) == Failure(MissingColumn)
  {
    var c := Card(Some("Book"), None, None);
    assert [c][..0] == [];
  }

  /** A price text such as "1,234円" leaves residue after stripping, and the whole run fails. */
  lemma ScenarioResidueFailsRun()
    ensures Run([Card(Some("Book"), Some("1,234円"), Some(Anchor(None)))]).Failure?
    ensures RunAsWritten([Card(Some("Book"), Some("1,234円"), Some(Anchor(None)))]).Failure?
  {
    var c := Card(Some("Book"), Some("1,234円"), Some(Anchor(None)));
    assert [c][..0] == [];
    NormalizeRejectsResidue("1,234円", 4);
  }
}
