/**
 * The expected outputs of the scheduler's own test suite, derived from the
 * contracts of the operations alone.
 */
module AlgorithmExamples {
  import opened Wrappers
  import opened Flashcards
  import opened Algorithm

  /** An empty store converts to an empty dense view; one bucket 0 converts to one set. */
  method ConvertExamples()
  {
    var empty: BucketMap<Card> := map[];
    var r0 := ToBucketSets(empty);
    assert r0 == [];

    var card := Card("what is in fridge", "nothing", "starts on n", ["hungryman"]);
    var r1 := ToBucketSets(map[0 := {card}]);
    assert |r1| == 1 && r1[0] == {card};
    assert r1 == [{card}];
  }

  /** `[{}, {Q1}, {}, {Q2}]` has range 1..3; the empty dense view has none. */
  method RangeExamples()
  {
    var q1 := Card("Q1", "A1", "Hint", []);
    var q2 := Card("Q2", "A2", "Hint", []);
    var b := [{}, {q1}, {}, {q2}];
    var r := GetBucketRange(b);
    assert b[1] != {} && b[3] != {} && b[0] == {};
    assert r.Some?;
    assert r.value == BucketRange(1, 3);

    var none := GetBucketRange<Card>([]);
    assert none == None;
  }

  /** On day 0 the card of bucket 0 is due and the card of bucket 1 is not. */
  method PracticeExample()
  {
    var card1 := Card("Q1", "A1", "Hint1", []);
    var card2 := Card("Q2", "A2", "Hint2", []);
    var due := Practice([{card1}, {card2}], 0);
    assert card1 in due;
    assert card2 !in due;
  }

  /** Answering Easy moves a card from bucket 0 to bucket 2. */
  method UpdateExample()
  {
    var card := Card("Q", "A", "H", []);
    var store := map[0 := {card}];
    assert InBucket(store, card, 0);
    CurrentBucketFound(store, card, 0);
    var updated := Update(store, card, Easy);
    assert 2 in updated && card in updated[2];
    assert updated[0] == {};
  }

  /** The hint of a well-formed card is its hint field. */
  method HintExample()
  {
    assert GetHint(Card("Q", "A", "H", [])) == Success("H");
    assert GetHint(Card("", "A", "H", [])).Failure?;
  }

  /** `[{}, {Q}, {Q2}]` has two cards, one in bucket 1 and one in bucket 2. */
  method ProgressExample()
  {
    var q := Card("Q", "A", "H", []);
    var q2 := Card("Q2", "A2", "H2", []);
    var p := ComputeProgress([{}, {q}, {q2}]);
    assert p.bucketCounts == [0, 1, 1];
    assert Sum([0, 1, 1]) == 2 by {
      assert [0, 1, 1][..2] == [0, 1];
      assert [0, 1][..1] == [0];
      assert [0][..0] == [];
    }
    assert p.totalCards == 2;
    assert p.masteredCards == 1;
  }
}
