/** Sizes of finite sets, for walks that mark what they have seen. */
module FiniteSets {

  lemma {:induction false} CardinalityMonotone<T>(a: set<T>, b: set<T>)
    requires a <= b
    ensures |a| <= |b|
    decreases a
  {
    if x :| x in a {
      CardinalityMonotone(a - {x}, b - {x});
    }
  }

  /** Marking one more leaves less room. */
  lemma RoomShrinks<T>(all: set<T>, active: set<T>, x: T)
    requires x in all && x !in active
    ensures |all - (active + {x})| < |all - active|
  {
    assert all - (active + {x}) == (all - active) - {x};
  }
}
