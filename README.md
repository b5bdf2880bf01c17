# Modified-Leitner flashcard scheduler, modelled in Dafny

This project models the scheduling core of a flashcard trainer that uses a modified Leitner system. The core lives in `PS1/src/algorithm.ts`. Cards sit in numbered buckets. The authoritative store is a sparse map from bucket number to a set of cards. A dense view of it is a sequence of sets indexed by bucket number. The core offers six operations:

- `toBucketSets` converts the sparse store into the dense view (`Algorithm.ToBucketSets`).
- `getBucketRange` finds the lowest and highest non-empty bucket (`Algorithm.GetBucketRange`).
- `practice` selects the cards due on a day. They are exactly the cards of the bucket whose number equals the day (`Algorithm.Practice`).
- `update` moves one reviewed card. Wrong sends it to bucket 0, Easy moves it up two buckets and any other outcome moves it up one (`Algorithm.Update`).
- `getHint` returns a card's hint, or fails on a malformed card (`Algorithm.GetHint`).
- `computeProgress` counts the cards of each bucket, the total, and the "mastered" cards of the last bucket (`Algorithm.ComputeProgress`).

Files:

- `wrappers.dfy` holds `Option` (the source's `undefined`) and `Result` (a thrown `Error`).
- `flashcards.dfy` holds the `Card` record, the card well-formedness predicate and the `Difficulty` outcomes `Wrong < Hard < Easy`. The source's `flashcards.ts` is not part of this model, so these are minimal stand-ins.
- `algorithm.dfy` holds the operations. Each loop of the source is a method with loop invariants. Each method is proved against a specification: either its `ensures` state the result outright, or they tie the result to a ghost function (`BucketSets`, `Moved`) whose properties are proved as lemmas.
- `examples.dfy` derives the expected outputs of `PS1/test/algorithmTest.ts` from the contracts alone.

In `update`, every outcome other than Wrong and Easy goes to `current + 1`. With the three outcomes `Wrong | Hard | Easy`, that outcome is Hard.

## Model

| member | source | states |
|---|---|---|
| Algorithm.MaxKey | PS1/src/algorithm.ts:24 | the largest bucket number of a non-empty key set is one of the keys and no key exceeds it |
| Algorithm.BucketSets | PS1/src/algorithm.ts:21-37 | the dense view is empty exactly when the store is. Otherwise its last index is a key and every key is an index. Index `k` holds exactly the cards of bucket `k`. An index that is not a key holds the empty set |
| Algorithm.ToBucketSets | PS1/src/algorithm.ts:21-37 | the max-key scan and the fill of a freshly allocated array of empty sets produce exactly that dense view |
| Algorithm.BucketSetsFaithful | PS1/src/algorithm.ts:27-34 | a card is at index `k` of the dense view if and only if it is in bucket `k` of the store (nothing lost, nothing duplicated) |
| Algorithm.ValidStoreGivesDisjoint | PS1/src/algorithm.ts:32-34 | when no card lies in two buckets of the store, the sets of the dense view are pairwise disjoint |
| Algorithm.GetBucketRange | PS1/src/algorithm.ts:47-65 | absent exactly when every set is empty (including the empty sequence). Otherwise `minBucket` is the least and `maxBucket` the greatest non-empty index, with `minBucket <= maxBucket` |
| Algorithm.RangeAgreesWithStore | PS1/src/algorithm.ts:47-65 | a range computed from the dense view of a store is exactly the least and greatest key that holds a non-empty bucket |
| Algorithm.NoRangeAgreesWithStore | PS1/src/algorithm.ts:62-64 | the dense view of a store has no range exactly when every bucket of the store is empty |
| Algorithm.Practice | PS1/src/algorithm.ts:76-94 | the due cards are exactly `buckets[day]` when `0 <= day < |buckets|`, and the empty set otherwise |
| Algorithm.DueAgreesWithStore | PS1/src/algorithm.ts:84-91 | on the dense view of a store, a card is due on `day` if and only if it lies in bucket `day` of the store |
| Algorithm.MaxZero | PS1/src/algorithm.ts:121-126 | `Math.max(0, x)` is non-negative, at least `x`, and equal to `0` or `x` |
| Algorithm.NextBucketPromotes | PS1/src/algorithm.ts:121-126 | every outcome other than Wrong sends the card above its current bucket, and Wrong resets it to bucket 0 |
| Algorithm.NextBucketMonotone | PS1/src/algorithm.ts:121-126 | a better outcome (Wrong < Hard < Easy) never yields a lower target bucket |
| Algorithm.CurrentBucketFound | PS1/src/algorithm.ts:111-119 | when the card lies in at most one bucket, the bucket the scan finds is the one it lies in |
| Algorithm.Update | PS1/src/algorithm.ts:105-134 | the returned store is `Moved`. The card is removed from the bucket the scan finds it in. The target bucket is created if missing, and the card is added to it |
| Algorithm.MovedPlacesCard | PS1/src/algorithm.ts:128-131 | after a review the card lies in the target bucket and in no other one |
| Algorithm.MovedKeepsOthers | PS1/src/algorithm.ts:113-133 | every other card stays in exactly the buckets it was in. The key set becomes the old keys plus the target |
| Algorithm.MovedLeavesSource | PS1/src/algorithm.ts:114-116 | a source bucket the card leaves keeps its key and loses only the card. A source bucket that held only the card becomes an empty set |
| Algorithm.TransitionLaw | PS1/src/algorithm.ts:111-131 | a card in bucket `b` goes to 0 on Wrong, `b + 1` on Hard and `b + 2` on Easy. A card in no bucket is handled as if it were in bucket 0 |
| Algorithm.MovedPreservesValid | PS1/src/algorithm.ts:113-133 | one review keeps every card in at most one bucket |
| Algorithm.ReplayPreservesValid | PS1/src/algorithm.ts:105-134 | any sequence of reviews from a valid store keeps every card in at most one bucket after every step |
| Algorithm.GetHint | PS1/src/algorithm.ts:143-148 | fails, with the source's error message, exactly when front, back or hint is empty. Otherwise returns the hint verbatim, which is then non-empty |
| Algorithm.ComputeProgress | PS1/src/algorithm.ts:157-177 | `bucketCounts[i] = |buckets[i]|` for every index. `totalCards` is the sum of the counts. `masteredCards` is the size of the last set, or 0 for no buckets, and never exceeds the total |
| Algorithm.TotalIsDistinctCards | PS1/src/algorithm.ts:165-168 | when the sets are pairwise disjoint, the sum of the per-bucket counts is the number of distinct cards |
| Algorithm.StoreTotalIsDistinctCards | PS1/src/algorithm.ts:165-168 | the total computed from the dense view of a valid store counts each card exactly once |

## Left out

- Algorithm.Update: requires the reviewed card to lie in at most one bucket, which is the store invariant. If the card were in several buckets, `update` would remove it only from the first one in `Map` iteration order. Iteration order is not modelled. The scan picks keys in an unspecified order, and the result does not depend on that order under the invariant.
- Algorithm.Update: the model returns a new map value. The source's shallow copy shares the inner `Set` objects, so the source's `delete` and `add` also change the caller's store. That aliasing is not modelled, and nothing is claimed about the caller's store after the call.
- Cards are compared by value (structural equality). The source's `Set.has` compares `Flashcard` objects by reference.
- The dense view is a sequence of sets with no holes. The source's guards for `undefined` array slots (`?? new Set` in `getBucketRange`, `bucket &&` in `practice`, the hole-skipping `forEach` in `computeProgress`) therefore have nothing to act on.
- Bucket numbers are `nat`. The source's requirement of a valid store excludes negative or fractional keys, and its behaviour on them is not modelled.
- JavaScript numbers are doubles, while the model's `nat` is unbounded. Three limits of the source are therefore not modelled. `Array.from({ length: maxBucket + 1 })` in `toBucketSets` throws a `RangeError` once the largest key reaches 2^32 - 1. `Math.max(...buckets.keys())` throws once the number of keys passes the engine's argument limit. `currentBucket + 2` in `update` is exact only below 2^53. `ToBucketSets` has no error path for these cases, which need stores far larger than the scheduler is meant for.
- Algorithm.Practice: the day is an integer. A fractional JavaScript day matches no index, which corresponds to the model's empty result for a day that is out of range.
- `computeProgress`'s untyped `history` parameter is never read, so it is dropped. Its untyped result becomes the `Progress` record.
- `getHint`'s truthiness test is modelled as the non-empty-string test. A typed card cannot hold `undefined` or `null` fields.
- `flashcards.ts` (the `Flashcard` class, the `AnswerDifficulty` enum, `BucketMap`) is not part of this model. `Card`, `Difficulty` and `BucketMap` are minimal stand-ins.
- `PS0/src/turtlesoup.ts` (turtle graphics, floating-point geometry, randomness, file and process I/O) is not part of this model.
