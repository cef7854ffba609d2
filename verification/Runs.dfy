/** Runs of a system: its steps so far, and when one run goes on from another. */
module Runs {
  /** Every step made so far, the latest outermost. */
  datatype Run<S> = Start | Then(past: Run<S>, step: S)

  ghost predicate Earlier<S>(a: Run<S>, b: Run<S>) {
    a == b || (b.Then? && Earlier(a, b.past))
  }

  lemma {:induction false} EarlierTrans<S>(a: Run<S>, b: Run<S>, c: Run<S>)
    requires Earlier(a, b) && Earlier(b, c)
    ensures Earlier(a, c)
  {
    if b != c {
      EarlierTrans(a, b, c.past);
    }
  }
}
