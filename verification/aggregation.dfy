/**
 * The result loop of the scraper (amazon-scraping.py:52-54, 76-84): the first
 * ten cards are extracted in order and each emitted record is appended to
 * `results`; a skipped card adds nothing and the loop moves on.
 */
module Aggregation {
  import opened Cards

  /** Only the first `Limit` cards are examined (`items[:10]`). */
  const Limit: nat := 10

  /** The cards the loop visits: Python's `items[:10]`, which never fails on short lists. */
  function Visited(cards: seq<Card>): (p: seq<Card>)
    ensures |p| <= Limit
    ensures |p| == Limit || p == cards
    ensures p <= cards
  {
    if |cards| <= Limit then cards else cards[..Limit]
  }

  /** The records contributed by one card: none when it is skipped, its record otherwise. */
  function Contribution(c: Card): (rs: seq<Record>)
    ensures |rs| <= 1
    ensures rs == [] <==> ExtractCard(c).Skipped?
    ensures rs != [] ==> ExtractCard(c) == Emitted(rs[0])
  {
    match ExtractCard(c)
    case Emitted(rec) => [rec]
    case Skipped(_) => []
  }

  /** The records appended while walking all of `cards`, in walk order. */
  function Collect(cards: seq<Card>): (rs: seq<Record>)
    ensures |rs| <= |cards|
  {
    if cards == [] then []
    else Collect(cards[..|cards| - 1]) + Contribution(cards[|cards| - 1])
  }

  /** The `results` list once the loop over `items[:10]` has finished. */
  function Aggregate(cards: seq<Card>): (rs: seq<Record>)
    ensures |rs| <= Limit
    ensures |rs| <= |cards|
  {
    Collect(Visited(cards))
  }

  /**
   * The loop as the scraper runs it: visit the first ten cards, append
   * each emitted record. It builds exactly the list `Aggregate` describes.
   */
  method AggregateLoop(items: seq<Card>) returns (results: seq<Record>)
    ensures results == Aggregate(items)
  {
    var visited := Visited(items);
    results := [];
    var i := 0;
    while i < |visited|
      invariant 0 <= i <= |visited|
      invariant results == Collect(visited[..i])
    {
      var item := visited[i];
      match ExtractCard(item) {
        case Emitted(rec) =>
          results := results + [rec];
        case Skipped(_) =>
      }
      assert visited[..i + 1][..i] == visited[..i];
      i := i + 1;
    }
    assert visited[..i] == visited;
  }

  /** Walking two runs of cards one after the other appends their records. */
  lemma {:induction false} CollectAppend(a: seq<Card>, b: seq<Card>)
    ensures Collect(a + b) == Collect(a) + Collect(b)
    decreases |b|
  {
    if b == [] {
      assert a + b == a;
    } else {
      var n := |b| - 1;
      assert (a + b)[..|a + b| - 1] == a + b[..n];
      CollectAppend(a, b[..n]);
    }
  }

  /**
   * A skipped card is invisible in the output: it contributes no record and
   * the cards after it are processed as if it were not there.
   */
  lemma {:induction false} SkippedCardIsTransparent(before: seq<Card>, c: Card, after: seq<Card>)
    requires ExtractCard(c).Skipped?
    ensures Collect(before + [c] + after) == Collect(before) + Collect(after)
  {
    assert [c][..0] == [];
    assert Collect([c]) == [] by {
      assert Contribution(c) == [];
    }
    CollectAppend(before, [c]);
    assert Collect(before + [c]) == Collect(before);
    CollectAppend(before + [c], after);
  }

  /** Where the record of card `i` lands: after the records of the cards before it. */
  function Position(cards: seq<Card>, i: nat): nat
    requires i <= |cards|
  {
    |Collect(cards[..i])|
  }

  /**
   * The record of an emitting card sits in the output at `Position`, so each
   * card contributes at most one record and it is that card's own record.
   */
  lemma {:induction false} EmittedRecordPlaced(cards: seq<Card>, i: nat)
    requires i < |cards| && ExtractCard(cards[i]).Emitted?
    ensures Position(cards, i) < |Collect(cards)|
    ensures Collect(cards)[Position(cards, i)] == ExtractCard(cards[i]).record
  {
    assert cards == cards[..i] + ([cards[i]] + cards[i + 1..]);
    CollectAppend(cards[..i], [cards[i]] + cards[i + 1..]);
    CollectAppend([cards[i]], cards[i + 1..]);
    assert [cards[i]][..0] == [];
    assert Collect([cards[i]]) == Contribution(cards[i]);
  }

  /** Positions strictly advance past every emitting card. */
  lemma {:induction false} PositionAdvances(cards: seq<Card>, i: nat, j: nat)
    requires i < j <= |cards| && ExtractCard(cards[i]).Emitted?
    ensures Position(cards, i) < Position(cards, j)
  {
    assert cards[..j] == cards[..i] + ([cards[i]] + cards[i + 1..j]);
    CollectAppend(cards[..i], [cards[i]] + cards[i + 1..j]);
    CollectAppend([cards[i]], cards[i + 1..j]);
    assert [cards[i]][..0] == [];
    assert Collect([cards[i]]) == Contribution(cards[i]);
  }

  /**
   * Order preservation: of two emitting cards among the first ten, the
   * earlier card's record comes first in `results`.
   */
  lemma AggregatePreservesOrder(cards: seq<Card>, i: nat, j: nat)
    requires i < j < |Visited(cards)|
    requires ExtractCard(cards[i]).Emitted? && ExtractCard(cards[j]).Emitted?
    ensures Position(Visited(cards), i) < Position(Visited(cards), j) < |Aggregate(cards)|
    ensures Aggregate(cards)[Position(Visited(cards), i)] == ExtractCard(cards[i]).record
    ensures Aggregate(cards)[Position(Visited(cards), j)] == ExtractCard(cards[j]).record
  {
    var v := Visited(cards);
    assert v[i] == cards[i] && v[j] == cards[j];
    PositionAdvances(v, i, j);
    EmittedRecordPlaced(v, i);
    EmittedRecordPlaced(v, j);
  }

  /** Every record in the output is the record of some walked card; none is invented. */
  lemma {:induction false} CollectOrigin(cards: seq<Card>, k: nat)
    requires k < |Collect(cards)|
    ensures exists i :: 0 <= i < |cards| && ExtractCard(cards[i]) == Emitted(Collect(cards)[k])
    decreases |cards|
  {
    var n := |cards| - 1;
    var init := cards[..n];
    assert Collect(cards) == Collect(init) + Contribution(cards[n]);
    if k < |Collect(init)| {
      CollectOrigin(init, k);
      var i :| 0 <= i < |init| && ExtractCard(init[i]) == Emitted(Collect(init)[k]);
      assert cards[i] == init[i];
    } else {
      assert Collect(cards)[k] == Contribution(cards[n])[0];
      assert ExtractCard(cards[n]) == Emitted(Collect(cards)[k]);
    }
  }

  /** The number of records equals the number of emitting cards among those walked. */
  function EmittingCount(cards: seq<Card>): nat {
    if cards == [] then 0
    else EmittingCount(cards[..|cards| - 1]) + (if ExtractCard(cards[|cards| - 1]).Emitted? then 1 else 0)
  }

  lemma {:induction false} CollectCountsEmitters(cards: seq<Card>)
    ensures |Collect(cards)| == EmittingCount(cards)
    decreases |cards|
  {
    if cards != [] {
      CollectCountsEmitters(cards[..|cards| - 1]);
    }
  }

  /** Cards beyond the tenth never influence the output. */
  lemma CardsPastLimitIgnored(cards: seq<Card>, more: seq<Card>)
    requires |cards| >= Limit
    ensures Aggregate(cards + more) == Aggregate(cards)
  {
    assert (cards + more)[..Limit] == cards[..Limit];
    assert Visited(cards + more) == cards[..Limit];
    assert Visited(cards) == cards[..Limit];
  }

  /** No cards, or only skipped cards among the first ten, give an empty result rather than an error. */
  lemma AllSkippedGivesEmpty(cards: seq<Card>)
    requires forall i :: 0 <= i < |Visited(cards)| ==> ExtractCard(Visited(cards)[i]).Skipped?
    ensures Aggregate(cards) == []
  {
    var v := Visited(cards);
    CollectCountsEmitters(v);
    AllSkippedCountsZero(v);
  }

  lemma {:induction false} AllSkippedCountsZero(cards: seq<Card>)
    requires forall i :: 0 <= i < |cards| ==> ExtractCard(cards[i]).Skipped?
    ensures EmittingCount(cards) == 0
    decreases |cards|
  {
    if cards != [] {
      AllSkippedCountsZero(cards[..|cards| - 1]);
    }
  }
}
