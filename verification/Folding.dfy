/** A way to keep a predicate folded: quantified over a term that occurs nowhere until the predicate is opened. */
module Folding {
  ghost predicate Opened(z: nat) { true }
}
