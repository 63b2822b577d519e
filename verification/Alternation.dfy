/** Lists whose positions take turns, such as text and numbers, or unquoted and quoted parts. */
module Alternation {

  /** Position i has its turn when position 0 has it or not as `first` says: every other one. */
  predicate IsTurn(i: nat, first: bool) {
    if i == 0 then first else IsTurn(i - 1, !first)
  }

  lemma {:induction false} IsTurnFlips(i: nat, first: bool)
    ensures IsTurn(i, !first) == !IsTurn(i, first)
    decreases i
  {
    if i > 0 {
      IsTurnFlips(i - 1, first);
    }
  }
}
