/**
 * The entities the scheduler works on: flashcards and the self-reported
 * outcome of one review.
 */
module Flashcards {

  /**
   * A flashcard. Cards are compared by value: two cards with the same
   * front, back, hint and tags are the same card in a bucket.
   */
  datatype Card = Card(front: string, back: string, hint: string, tags: seq<string>)

  /** A card is well formed when its front, back and hint are all non-empty. */
  predicate WellFormed(card: Card)
  {
    card.front != "" && card.back != "" && card.hint != ""
  }

  /** How well the learner did on one practice trial, ordered Wrong < Hard < Easy. */
  datatype Difficulty = Wrong | Hard | Easy
  {
    /** Position of the outcome in the order Wrong < Hard < Easy. */
    function Rank(): nat
    {
      match this
      case Wrong => 0
      case Hard => 1
      case Easy => 2
    }
  }
}
