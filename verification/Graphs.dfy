/** Paths and reachability over a successor relation, and why a set closed
    under the relation holds everything its members reach. */
module Graphs {

  ghost predicate IsPath<T(!new)>(next: (T, T) -> bool, p: seq<T>) {
    && |p| > 0
    && forall i :: 0 <= i < |p| - 1 ==> next(p[i], p[i + 1])
  }

  ghost predicate Reaches<T(!new)>(next: (T, T) -> bool, a: T, b: T) {
    exists p :: IsPath(next, p) && p[0] == a && p[|p| - 1] == b
  }

  ghost predicate Closed<T(!new)>(next: (T, T) -> bool, s: set<T>) {
    forall a, b :: a in s && next(a, b) ==> b in s
  }

  lemma ReachesSelf<T(!new)>(next: (T, T) -> bool, a: T)
    ensures Reaches(next, a, a)
  {
    assert IsPath(next, [a]) && [a][0] == a;
  }

  lemma ReachesStep<T(!new)>(next: (T, T) -> bool, a: T, b: T, c: T)
    requires Reaches(next, a, b) && next(b, c)
    ensures Reaches(next, a, c)
  {
    var p :| IsPath(next, p) && p[0] == a && p[|p| - 1] == b;
    var q := p + [c];
    assert IsPath(next, q) && q[0] == a && q[|q| - 1] == c;
  }

  lemma StepReaches<T(!new)>(next: (T, T) -> bool, a: T, b: T, c: T)
    requires next(a, b) && Reaches(next, b, c)
    ensures Reaches(next, a, c)
  {
    var p :| IsPath(next, p) && p[0] == b && p[|p| - 1] == c;
    var q := [a] + p;
    assert IsPath(next, q) && q[0] == a && q[|q| - 1] == c;
  }

  lemma {:induction false} ClosedHoldsPath<T(!new)>(next: (T, T) -> bool, s: set<T>, p: seq<T>)
    requires Closed(next, s) && IsPath(next, p) && p[0] in s
    ensures p[|p| - 1] in s
  {
    if |p| > 1 {
      assert next(p[0], p[1]);
      ClosedHoldsPath(next, s, p[1..]);
    }
  }

  lemma ClosedHoldsReached<T(!new)>(next: (T, T) -> bool, s: set<T>, a: T, b: T)
    requires Closed(next, s) && a in s && Reaches(next, a, b)
    ensures b in s
  {
    var p :| IsPath(next, p) && p[0] == a && p[|p| - 1] == b;
    ClosedHoldsPath(next, s, p);
  }

  /** Growing a set by new members of `all` leaves fewer to add. */
  lemma GrowingShrinksRest<T>(all: set<T>, s: set<T>, more: set<T>)
    requires more != {} && more <= all && more !! s
    ensures all - (s + more) < all - s
  {
    var x :| x in more;
    assert x in all - s && x !in all - (s + more);
  }
}
