/**
 * The modified-Leitner flashcard scheduler: conversion of the sparse bucket
 * store into its dense view, the occupied-bucket range, the cards due on a
 * day, the per-card bucket transition, the hint gate and the progress figures.
 */
module Algorithm {
  import opened Wrappers
  import opened Flashcards

  // ---------------------------------------------------------------------------
  // The bucket store and its dense view
  // ---------------------------------------------------------------------------

  /** The sparse store: bucket number to the set of cards in that bucket. */
  type BucketMap<T> = map<nat, set<T>>

  /** The cards of bucket `b`; a bucket number that is not a key is an empty bucket. */
  function Lookup<T>(m: BucketMap<T>, b: nat): set<T>
  {
    if b in m then m[b] else {}
  }

  /** Card `c` lies in bucket `b` of the store. */
  ghost predicate InBucket<T>(m: BucketMap<T>, c: T, b: nat)
  {
    b in m && c in m[b]
  }

  /** Card `c` lies in at most one bucket of the store. */
  ghost predicate AtMostOneBucket<T>(m: BucketMap<T>, c: T)
  {
    forall b1, b2 :: InBucket(m, c, b1) && InBucket(m, c, b2) ==> b1 == b2
  }

  /** The store invariant: every card lies in at most one bucket. */
  ghost predicate ValidStore<T(!new)>(m: BucketMap<T>)
  {
    forall c :: AtMostOneBucket(m, c)
  }

  /** The dense view holds no card twice: its sets are pairwise disjoint. */
  ghost predicate Disjoint<T>(b: seq<set<T>>)
  {
    forall i, j :: 0 <= i < j < |b| ==> b[i] !! b[j]
  }

  /** The largest bucket number of a non-empty key set. */
  ghost function MaxKey(keys: set<nat>): (k: nat)
    requires keys != {}
    ensures k in keys
    ensures forall j :: j in keys ==> j <= k
    decreases keys
  {
    var x :| x in keys;
    if keys == {x} then
      assert forall j :: j in keys ==> j == x;
      x
    else
      var rest := MaxKey(keys - {x});
      assert forall j :: j in keys ==> j == x || j in keys - {x};
      if x < rest then rest else x
  }

  /**
   * The dense view of a store: empty for the empty store, otherwise one set
   * per bucket number up to the largest key, the missing buckets empty.
   */
  ghost function BucketSets<T>(m: BucketMap<T>): (r: seq<set<T>>)
    ensures |m| == 0 <==> r == []
    ensures r != [] ==> |r| - 1 in m
    ensures forall k :: k in m ==> k < |r| && r[k] == m[k]
    ensures forall i: nat :: i < |r| && i !in m ==> r[i] == {}
  {
    if |m| == 0 then []
    else
      assert m.Keys != {} by { var k :| k in m; }
      seq(MaxKey(m.Keys) + 1, i requires 0 <= i => Lookup(m, i))
  }

  /**
   * toBucketSets: computes the largest key, allocates that many plus one
   * empty sets and copies each bucket of the store to its index.
   */
  method ToBucketSets<T>(buckets: BucketMap<T>) returns (r: seq<set<T>>)
    ensures r == BucketSets(buckets)
  {
    if |buckets| == 0 {
      return [];
    }
    // Math.max over the keys
    var first :| first in buckets;
    var maxBucket: nat := first;
    var pending := buckets.Keys - {first};
    while pending != {}
      invariant pending <= buckets.Keys
      invariant maxBucket in buckets
      invariant forall k :: k in buckets && k !in pending ==> k <= maxBucket
      decreases pending
    {
      var k :| k in pending;
      if k > maxBucket {
        maxBucket := k;
      }
      pending := pending - {k};
    }
    assert maxBucket == MaxKey(buckets.Keys);

    var bucketArray := new set<T>[maxBucket + 1](_ => {});
    pending := buckets.Keys;
    while pending != {}
      invariant pending <= buckets.Keys
      invariant forall i: nat :: i < bucketArray.Length ==>
          bucketArray[i] == (if i in buckets && i !in pending then buckets[i] else {})
      decreases pending
    {
      var k :| k in pending;
      bucketArray[k] := buckets[k];
      pending := pending - {k};
    }
    r := bucketArray[..];
    assert |r| == |BucketSets(buckets)|;
  }

  /** Every card of the dense view at index `k` is a card of bucket `k`, and conversely. */
  lemma BucketSetsFaithful<T>(m: BucketMap<T>, c: T, k: nat)
    ensures (k < |BucketSets(m)| && c in BucketSets(m)[k]) <==> InBucket(m, c, k)
  {
  }

  /** The dense view of a valid store holds no card in two buckets. */
  lemma ValidStoreGivesDisjoint<T(!new)>(m: BucketMap<T>)
    requires ValidStore(m)
    ensures Disjoint(BucketSets(m))
  {
    var b := BucketSets(m);
    forall i, j, c | 0 <= i < j < |b| && c in b[i] ensures c !in b[j] {
      assert InBucket(m, c, i);
      assert AtMostOneBucket(m, c);
      assert j in m ==> (c in b[j] <==> InBucket(m, c, j));
    }
  }

  // ---------------------------------------------------------------------------
  // getBucketRange
  // ---------------------------------------------------------------------------

  /** The lowest and highest non-empty bucket. */
  datatype BucketRange = BucketRange(minBucket: nat, maxBucket: nat)

  /** `lo` is the least and `hi` the greatest index of `b` holding a non-empty set. */
  ghost predicate IsBucketRange<T>(b: seq<set<T>>, lo: nat, hi: nat)
  {
    && lo <= hi < |b|
    && b[lo] != {} && b[hi] != {}
    && forall i :: 0 <= i < |b| && b[i] != {} ==> lo <= i <= hi
  }

  /** `lo` is the least and `hi` the greatest key of the store holding a non-empty bucket. */
  ghost predicate IsStoreRange<T>(m: BucketMap<T>, lo: nat, hi: nat)
  {
    && lo in m && m[lo] != {}
    && hi in m && m[hi] != {}
    && forall k :: k in m && m[k] != {} ==> lo <= k <= hi
  }

  /**
   * getBucketRange: scans the dense view, remembering the first and the last
   * index whose set is non-empty; absent when there is none.
   */
  method GetBucketRange<T>(buckets: seq<set<T>>) returns (r: Option<BucketRange>)
    ensures r.None? <==> forall i :: 0 <= i < |buckets| ==> buckets[i] == {}
    ensures r.Some? ==> IsBucketRange(buckets, r.value.minBucket, r.value.maxBucket)
  {
    var minBucket: Option<nat> := None;
    var maxBucket: Option<nat> := None;
    for i := 0 to |buckets|
      invariant minBucket.None? <==> maxBucket.None?
      invariant minBucket.None? ==> forall j :: 0 <= j < i ==> buckets[j] == {}
      invariant minBucket.Some? ==>
          && minBucket.value <= maxBucket.value < i
          && buckets[minBucket.value] != {} && buckets[maxBucket.value] != {}
          && forall j :: 0 <= j < i && buckets[j] != {} ==> minBucket.value <= j <= maxBucket.value
    {
      if |buckets[i]| > 0 {
        if minBucket.None? {
          minBucket := Some(i);
        }
        maxBucket := Some(i);
      }
    }
    if minBucket.Some? && maxBucket.Some? {
      r := Some(BucketRange(minBucket.value, maxBucket.value));
    } else {
      r := None;
    }
  }

  /** Deriving the range from the dense view agrees with reading it off the store. */
  lemma RangeAgreesWithStore<T>(m: BucketMap<T>, lo: nat, hi: nat)
    ensures IsBucketRange(BucketSets(m), lo, hi) <==> IsStoreRange(m, lo, hi)
  {
  }

  /** The dense view is all empty exactly when every bucket of the store is empty. */
  lemma NoRangeAgreesWithStore<T>(m: BucketMap<T>)
    ensures (forall i :: 0 <= i < |BucketSets(m)| ==> BucketSets(m)[i] == {})
        <==> (forall k :: k in m ==> m[k] == {})
  {
    var b := BucketSets(m);
    if forall k :: k in m ==> m[k] == {} {
      forall i | 0 <= i < |b| ensures b[i] == {} {
        if i in m {
          assert b[i] == m[i];
        }
      }
    }
  }

  // ---------------------------------------------------------------------------
  // practice
  // ---------------------------------------------------------------------------

  /**
   * practice: the cards due on `day` are exactly those of the bucket whose
   * index equals the day; a day outside the dense view has no cards due.
   */
  method Practice<T>(buckets: seq<set<T>>, day: int) returns (due: set<T>)
    ensures due == if 0 <= day < |buckets| then buckets[day] else {}
  {
    due := {};
    for i := 0 to |buckets|
      invariant due == if 0 <= day < i then buckets[day] else {}
    {
      if i == day {
        var pending := buckets[i];
        while pending != {}
          invariant pending <= buckets[i]
          invariant due == buckets[i] - pending
          decreases pending
        {
          var card :| card in pending;
          due := due + {card};
          pending := pending - {card};
        }
      }
    }
  }

  /** On the dense view of a store, a card is due on `day` exactly when it lies in bucket `day`. */
  lemma DueAgreesWithStore<T>(m: BucketMap<T>, day: int, c: T)
    ensures (0 <= day < |BucketSets(m)| && c in BucketSets(m)[day])
        <==> (day >= 0 && InBucket(m, c, day))
  {
  }

  // ---------------------------------------------------------------------------
  // update
  // ---------------------------------------------------------------------------

  /**
   * The target bucket of a card reviewed from bucket `current`: Wrong resets
   * it to 0, Easy moves it up two buckets and any other outcome one, and the
   * result is clamped at 0 from below.
   */
  function NextBucket(current: nat, difficulty: Difficulty): nat
  {
    MaxZero(if difficulty == Wrong then 0 else current + (if difficulty == Easy then 2 else 1))
  }

  /** `Math.max(0, x)`. */
  function MaxZero(x: int): (r: nat)
    ensures r >= x && (r == 0 || r == x)
  {
    if x < 0 then 0 else x
  }

  /** A better outcome never sends a card to a lower bucket. */
  lemma NextBucketMonotone(current: nat, d1: Difficulty, d2: Difficulty)
    requires d1.Rank() <= d2.Rank()
    ensures NextBucket(current, d1) <= NextBucket(current, d2)
  {
  }

  /** Any outcome other than Wrong promotes the card above its current bucket. */
  lemma NextBucketPromotes(current: nat, d: Difficulty)
    ensures d != Wrong <==> NextBucket(current, d) > current
    ensures d == Wrong ==> NextBucket(current, d) == 0
  {
  }

  /** The bucket a card is found in, or 0 when it lies in no bucket. */
  ghost function CurrentBucket<T>(m: BucketMap<T>, c: T): nat
  {
    if exists b :: InBucket(m, c, b) then
      var b: nat :| InBucket(m, c, b); b
    else
      0
  }

  /** When a card lies in at most one bucket, that bucket is the one it is found in. */
  lemma CurrentBucketFound<T>(m: BucketMap<T>, c: T, b: nat)
    requires AtMostOneBucket(m, c)
    requires InBucket(m, c, b)
    ensures CurrentBucket(m, c) == b
  {
  }

  /** The target bucket of one review of `card` in store `m`. */
  ghost function Target<T>(m: BucketMap<T>, card: T, difficulty: Difficulty): nat
  {
    NextBucket(CurrentBucket(m, card), difficulty)
  }

  /**
   * The store after one review: the card is taken out of every bucket other
   * than the target and put in the target bucket, which becomes a key; all
   * other keys and cards stay as they were.
   */
  ghost function Moved<T>(m: BucketMap<T>, card: T, difficulty: Difficulty): BucketMap<T>
  {
    var target := Target(m, card, difficulty);
    map b | b in m.Keys + {target} :: if b == target then Lookup(m, b) + {card} else m[b] - {card}
  }

  /**
   * update: scans the store for the bucket holding the card and removes it
   * there, computes the target bucket from the outcome, creates that bucket
   * if it is missing and adds the card to it.
   */
  method Update<T(==)>(buckets: BucketMap<T>, card: T, difficulty: Difficulty) returns (r: BucketMap<T>)
    requires AtMostOneBucket(buckets, card)
    ensures r == Moved(buckets, card, difficulty)
  {
    r := buckets;
    var currentBucket: nat := 0;
    ghost var found := false;
    var pending := buckets.Keys;
    while pending != {}
      invariant pending <= buckets.Keys
      invariant !found
      invariant r == buckets
      invariant forall b :: b in buckets && b !in pending ==> card !in buckets[b]
      decreases pending
    {
      var b :| b in pending;
      if card in r[b] {
        r := r[b := r[b] - {card}];
        currentBucket := b;
        found := true;
        break;
      }
      pending := pending - {b};
    }
    if found {
      CurrentBucketFound(buckets, card, currentBucket);
    } else {
      assert forall b :: !InBucket(buckets, card, b);
    }
    assert currentBucket == CurrentBucket(buckets, card);
    assert found ==> r == buckets[currentBucket := buckets[currentBucket] - {card}];
    assert !found ==> r == buckets;

    var newBucket := NextBucket(currentBucket, difficulty);
    if newBucket !in r {
      r := r[newBucket := {}];
    }
    r := r[newBucket := r[newBucket] + {card}];

    ghost var moved := Moved(buckets, card, difficulty);
    assert r.Keys == moved.Keys;
    forall b | b in r ensures r[b] == moved[b] {
      if b != newBucket && b in buckets && card in buckets[b] {
        assert InBucket(buckets, card, b);
        assert b == currentBucket;
      }
    }
  }

  /** After a review the card lies in the target bucket and in no other. */
  lemma MovedPlacesCard<T>(m: BucketMap<T>, card: T, difficulty: Difficulty, b: nat)
    ensures InBucket(Moved(m, card, difficulty), card, b) <==> b == Target(m, card, difficulty)
  {
  }

  /** A review moves no other card, adds the target key and removes no key. */
  lemma MovedKeepsOthers<T>(m: BucketMap<T>, card: T, difficulty: Difficulty, c: T, b: nat)
    requires c != card
    ensures InBucket(Moved(m, card, difficulty), c, b) <==> InBucket(m, c, b)
    ensures Moved(m, card, difficulty).Keys == m.Keys + {Target(m, card, difficulty)}
  {
  }

  /** A bucket the card leaves keeps its key, with the card gone from it. */
  lemma MovedLeavesSource<T>(m: BucketMap<T>, card: T, difficulty: Difficulty)
    requires InBucket(m, card, CurrentBucket(m, card))
    requires Target(m, card, difficulty) != CurrentBucket(m, card)
    ensures CurrentBucket(m, card) in Moved(m, card, difficulty)
    ensures Moved(m, card, difficulty)[CurrentBucket(m, card)] == m[CurrentBucket(m, card)] - {card}
    ensures m[CurrentBucket(m, card)] == {card} ==> Moved(m, card, difficulty)[CurrentBucket(m, card)] == {}
  {
  }

  /**
   * The transition law: a card in bucket `b` goes to bucket 0 on Wrong, to
   * `b + 1` on Hard and to `b + 2` on Easy; a card in no bucket is treated
   * as if it were in bucket 0.
   */
  lemma TransitionLaw<T>(m: BucketMap<T>, card: T, b: nat)
    requires AtMostOneBucket(m, card)
    requires InBucket(m, card, b) || (b == 0 && forall k :: !InBucket(m, card, k))
    ensures InBucket(Moved(m, card, Wrong), card, 0)
    ensures InBucket(Moved(m, card, Hard), card, b + 1)
    ensures InBucket(Moved(m, card, Easy), card, b + 2)
  {
  }

  /** A review keeps the store invariant. */
  lemma MovedPreservesValid<T(!new)>(m: BucketMap<T>, card: T, difficulty: Difficulty)
    requires ValidStore(m)
    ensures ValidStore(Moved(m, card, difficulty))
  {
    var m' := Moved(m, card, difficulty);
    forall c ensures AtMostOneBucket(m', c) {
      if c == card {
        forall b1, b2 | InBucket(m', c, b1) && InBucket(m', c, b2) ensures b1 == b2 {
          MovedPlacesCard(m, card, difficulty, b1);
          MovedPlacesCard(m, card, difficulty, b2);
        }
      } else {
        assert AtMostOneBucket(m, c);
        forall b1, b2 | InBucket(m', c, b1) && InBucket(m', c, b2) ensures b1 == b2 {
          MovedKeepsOthers(m, card, difficulty, c, b1);
          MovedKeepsOthers(m, card, difficulty, c, b2);
        }
      }
    }
  }

  /** One practice trial: the card reviewed and how well it went. */
  datatype Review<T> = Review(card: T, difficulty: Difficulty)

  /** The store after a sequence of reviews, applied in order. */
  ghost function Replay<T>(m: BucketMap<T>, reviews: seq<Review<T>>): BucketMap<T>
    decreases |reviews|
  {
    if reviews == [] then m
    else Replay(Moved(m, reviews[0].card, reviews[0].difficulty), reviews[1..])
  }

  /** Every sequence of reviews from a valid store keeps each card in at most one bucket. */
  lemma {:induction false} ReplayPreservesValid<T(!new)>(m: BucketMap<T>, reviews: seq<Review<T>>)
    requires ValidStore(m)
    ensures ValidStore(Replay(m, reviews))
    decreases |reviews|
  {
    if reviews != [] {
      MovedPreservesValid(m, reviews[0].card, reviews[0].difficulty);
      ReplayPreservesValid(Moved(m, reviews[0].card, reviews[0].difficulty), reviews[1..]);
    }
  }

  // ---------------------------------------------------------------------------
  // getHint
  // ---------------------------------------------------------------------------

  /** The message of the error thrown for a malformed card. */
  const InvalidCardMessage := "Invalid flashcard: front, back, and hint must be non-empty."

  /** getHint: the hint of a well-formed card; an error for any other card. */
  function GetHint(card: Card): (r: Result<string, string>)
    ensures r.Success? <==> WellFormed(card)
    ensures r.Success? ==> r.value == card.hint && r.value != ""
    ensures r.Failure? ==> r.error == InvalidCardMessage
  {
    if |card.front| == 0 || |card.back| == 0 || |card.hint| == 0 then
      Failure(InvalidCardMessage)
    else
      Success(card.hint)
  }

  // ---------------------------------------------------------------------------
  // computeProgress
  // ---------------------------------------------------------------------------

  /** The progress figures: all cards, the cards in the last bucket, and the count of every bucket. */
  datatype Progress = Progress(totalCards: nat, masteredCards: nat, bucketCounts: seq<nat>)

  /** The sum of a sequence of counts. */
  function Sum(s: seq<nat>): nat
  {
    if s == [] then 0 else Sum(s[..|s| - 1]) + s[|s| - 1]
  }

  /** Every card in some set of the dense view. */
  ghost function AllCards<T>(b: seq<set<T>>): set<T>
  {
    if b == [] then {} else AllCards(b[..|b| - 1]) + b[|b| - 1]
  }

  /**
   * computeProgress: counts the cards of each bucket, adds them up, and takes
   * the count of the last bucket as the mastered cards.
   */
  method ComputeProgress<T>(buckets: seq<set<T>>) returns (p: Progress)
    ensures |p.bucketCounts| == |buckets|
    ensures forall i :: 0 <= i < |buckets| ==> p.bucketCounts[i] == |buckets[i]|
    ensures p.totalCards == Sum(p.bucketCounts)
    ensures p.masteredCards == if buckets == [] then 0 else |buckets[|buckets| - 1]|
    ensures p.masteredCards <= p.totalCards
  {
    var totalCards: nat := 0;
    var masteredCards: nat := 0;
    var bucketCounts: seq<nat> := [];
    for index := 0 to |buckets|
      invariant |bucketCounts| == index
      invariant forall j :: 0 <= j < index ==> bucketCounts[j] == |buckets[j]|
      invariant totalCards == Sum(bucketCounts)
      invariant masteredCards == if 0 < index == |buckets| then |buckets[index - 1]| else 0
    {
      var bucketSize := |buckets[index]|;
      assert (bucketCounts + [bucketSize])[..index] == bucketCounts;
      bucketCounts := bucketCounts + [bucketSize];
      totalCards := totalCards + bucketSize;
      if index == |buckets| - 1 {
        masteredCards := bucketSize;
      }
    }
    p := Progress(totalCards, masteredCards, bucketCounts);
  }

  /**
   * When no card is in two buckets, the total of the per-bucket counts is the
   * number of distinct cards.
   */
  lemma {:induction false} TotalIsDistinctCards<T>(b: seq<set<T>>, counts: seq<nat>)
    requires |counts| == |b|
    requires forall i :: 0 <= i < |b| ==> counts[i] == |b[i]|
    requires Disjoint(b)
    ensures Sum(counts) == |AllCards(b)|
    decreases |b|
  {
    if b != [] {
      var n := |b| - 1;
      var front, frontCounts := b[..n], counts[..n];
      assert Disjoint(front);
      TotalIsDistinctCards(front, frontCounts);
      CardsInPrefix(b, n);
      assert AllCards(front) !! b[n];
    }
  }

  /** Every card of the first `n` sets lies in one of those sets. */
  lemma {:induction false} CardsInPrefix<T>(b: seq<set<T>>, n: nat)
    requires n <= |b|
    ensures forall c :: c in AllCards(b[..n]) ==> exists i :: 0 <= i < n && c in b[i]
    decreases n
  {
    if n > 0 {
      CardsInPrefix(b, n - 1);
      assert b[..n][..n - 1] == b[..n - 1];
    }
  }

  /** For a valid store, the total computed from its dense view counts each card once. */
  lemma StoreTotalIsDistinctCards<T(!new)>(m: BucketMap<T>, counts: seq<nat>)
    requires ValidStore(m)
    requires |counts| == |BucketSets(m)|
    requires forall i :: 0 <= i < |counts| ==> counts[i] == |BucketSets(m)[i]|
    ensures Sum(counts) == |AllCards(BucketSets(m))|
  {
    ValidStoreGivesDisjoint(m);
    TotalIsDistinctCards(BucketSets(m), counts);
  }
}
