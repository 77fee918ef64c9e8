// A definition written as "forall d :: Opened(d) ==> body" equals its body, but the prover unfolds it only where a
// proof mentions Opened. Large invariants are kept closed this way wherever they are just passed along.
module Hiding {
  ghost predicate Opened(b: bool) {
    true
  }
}
