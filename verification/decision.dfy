/** The last step of a prediction: turning the two class probabilities the
    classifier produces into the message shown to the user. The scores are
    modelled as `real`s; only their order matters to the rule. */
module Decision {

  const PizzaMessage: string := "It is a Pizza!"
  const NotPizzaMessage: string := "It is not a Pizza!"

  /** The message for class scores `score0` (class 0) and `score1`
      (class 1). Class 0 scoring strictly lower means "pizza"; a tie, like
      class 0 scoring higher, means "not a pizza". */
  function Verdict(score0: real, score1: real): (r: string)
    ensures r == PizzaMessage || r == NotPizzaMessage
    ensures r == PizzaMessage <==> score0 < score1
    ensures r == NotPizzaMessage <==> score1 <= score0
  {
    if score0 < score1 then PizzaMessage else NotPizzaMessage
  }

  /** Equal scores never yield "pizza". Since a tie is unchanged by
      exchanging the scores, this is also where the rule's asymmetry
      between the two classes lies. */
  lemma TieIsNotPizza(score: real)
    ensures Verdict(score, score) == NotPizzaMessage
  {
  }

  /** For distinct scores, exchanging the two classes' scores exchanges the
      two messages. */
  lemma SwapFlipsVerdict(score0: real, score1: real)
    requires score0 != score1
    ensures Verdict(score1, score0) != Verdict(score0, score1)
    ensures {Verdict(score0, score1), Verdict(score1, score0)} == {PizzaMessage, NotPizzaMessage}
  {
  }

  /** The verdict depends only on the order of the scores: raising class 1's
      score or lowering class 0's never turns "pizza" into "not a pizza". */
  lemma VerdictMonotone(score0: real, score1: real, lower0: real, higher1: real)
    requires lower0 <= score0 && score1 <= higher1
    requires Verdict(score0, score1) == PizzaMessage
    ensures Verdict(lower0, higher1) == PizzaMessage
  {
  }
}
