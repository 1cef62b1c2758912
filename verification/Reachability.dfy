/** Labelled reachability in a directed graph, with and without forbidden nodes. */
module Reachability {

  ghost predicate IsPath<T(!new)>(edge: (T, T) -> bool, q: seq<T>) {
    |q| > 0 && forall i :: 0 <= i < |q| - 1 ==> edge(q[i], q[i + 1])
  }

  ghost predicate Links<T(!new)>(edge: (T, T) -> bool, q: seq<T>, a: T, b: T) {
    IsPath(edge, q) && q[0] == a && q[|q| - 1] == b
  }

  ghost predicate Avoids<T(!new)>(q: seq<T>, avoid: set<T>) {
    forall i :: 0 <= i < |q| ==> q[i] !in avoid
  }

  ghost predicate Reaches<T(!new)>(edge: (T, T) -> bool, a: T, b: T) {
    exists q :: Links(edge, q, a, b)
  }

  /** Label `l` sits on some node that `a` reaches. */
  ghost predicate Collects<T(!new), L(!new)>(edge: (T, T) -> bool, own: (T, L) -> bool, a: T, l: L) {
    exists q, b :: Links(edge, q, a, b) && own(b, l)
  }

  /** As `Collects`, along a path none of whose nodes is in `avoid`. */
  ghost predicate CollectsAvoiding<T(!new), L(!new)>(
    edge: (T, T) -> bool, own: (T, L) -> bool, avoid: set<T>, a: T, l: L)
  {
    exists q, b :: Links(edge, q, a, b) && Avoids(q, avoid) && own(b, l)
  }

  lemma CollectsOwn<T(!new), L(!new)>(edge: (T, T) -> bool, own: (T, L) -> bool, a: T, l: L)
    requires own(a, l)
    ensures Collects(edge, own, a, l)
  {
    assert Links(edge, [a], a, a);
  }

  lemma CollectsStep<T(!new), L(!new)>(edge: (T, T) -> bool, own: (T, L) -> bool, a: T, c: T, l: L)
    requires edge(a, c) && Collects(edge, own, c, l)
    ensures Collects(edge, own, a, l)
  {
    var q, b :| Links(edge, q, c, b) && own(b, l);
    assert Links(edge, [a] + q, a, b);
  }

  lemma ReachesStep<T(!new)>(edge: (T, T) -> bool, a: T, c: T, b: T)
    requires edge(a, c) && Reaches(edge, c, b)
    ensures Reaches(edge, a, b)
  {
    var q :| Links(edge, q, c, b);
    assert Links(edge, [a] + q, a, b);
  }

  lemma ReachesRefl<T(!new)>(edge: (T, T) -> bool, a: T)
    ensures Reaches(edge, a, a)
  {
    assert Links(edge, [a], a, a);
  }

  lemma ReachesEdge<T(!new)>(edge: (T, T) -> bool, a: T, b: T, c: T)
    requires Reaches(edge, a, b) && edge(b, c)
    ensures Reaches(edge, a, c)
  {
    var q :| Links(edge, q, a, b);
    assert Links(edge, q + [c], a, c);
  }

  lemma CollectsUnfold<T(!new), L(!new)>(
    edge: (T, T) -> bool, own: (T, L) -> bool, a: T, l: L) returns (c: T)
    requires Collects(edge, own, a, l) && !own(a, l)
    ensures edge(a, c) && Collects(edge, own, c, l)
  {
    var q, b :| Links(edge, q, a, b) && own(b, l);
    c := q[1];
    assert Links(edge, q[1..], c, b);
  }

  lemma NothingCollected<T(!new), L(!new)>(edge: (T, T) -> bool, own: (T, L) -> bool, a: T, l: L)
    requires !own(a, l) && forall c :: !edge(a, c)
    ensures !Collects(edge, own, a, l)
  {
    if Collects(edge, own, a, l) {
      var c := CollectsUnfold(edge, own, a, l);
    }
  }

  lemma AvoidingNothing<T(!new), L(!new)>(edge: (T, T) -> bool, own: (T, L) -> bool, a: T, l: L)
    ensures CollectsAvoiding(edge, own, {}, a, l) <==> Collects(edge, own, a, l)
  {
    if Collects(edge, own, a, l) {
      var q, b :| Links(edge, q, a, b) && own(b, l);
      assert Avoids(q, {});
    }
  }

  lemma AvoidingStart<T(!new), L(!new)>(
    edge: (T, T) -> bool, own: (T, L) -> bool, avoid: set<T>, a: T, l: L)
    requires CollectsAvoiding(edge, own, avoid, a, l)
    ensures a !in avoid && Collects(edge, own, a, l)
  {
    var q, b :| Links(edge, q, a, b) && Avoids(q, avoid) && own(b, l);
    assert q[0] == a;
  }

  /** A path can be cut at the last visit of its start, so later nodes avoid the start too. */
  lemma {:induction false} LastVisit<T(!new)>(edge: (T, T) -> bool, q: seq<T>, a: T, b: T, avoid: set<T>)
    returns (r: seq<T>)
    requires Links(edge, q, a, b) && Avoids(q, avoid)
    ensures Links(edge, r, a, b) && Avoids(r, avoid) && Avoids(r[1..], {a})
    decreases |q|
  {
    if j :| 1 <= j < |q| && q[j] == a {
      assert Links(edge, q[j..], a, b);
      r := LastVisit(edge, q[j..], a, b, avoid);
    } else {
      r := q;
    }
  }

  lemma AvoidingUnfold<T(!new), L(!new)>(
    edge: (T, T) -> bool, own: (T, L) -> bool, avoid: set<T>, a: T, l: L) returns (c: T)
    requires CollectsAvoiding(edge, own, avoid, a, l) && !own(a, l)
    ensures edge(a, c) && CollectsAvoiding(edge, own, avoid + {a}, c, l)
  {
    var q, b :| Links(edge, q, a, b) && Avoids(q, avoid) && own(b, l);
    var r := LastVisit(edge, q, a, b, avoid);
    c := r[1];
    assert edge(r[0], r[1]);
    assert Links(edge, r[1..], c, b) && Avoids(r[1..], avoid + {a});
  }

  /** A node whose labels and whose children's labels are all in `s` is covered by `s`;
      children need only be covered off the current path. */
  lemma Covered<T(!new), L(!new)>(
    edge: (T, T) -> bool, own: (T, L) -> bool, avoid: set<T>, a: T, s: set<L>)
    requires forall l :: own(a, l) ==> l in s
    requires forall c, l :: edge(a, c) && CollectsAvoiding(edge, own, avoid + {a}, c, l) ==> l in s
    ensures forall l :: CollectsAvoiding(edge, own, avoid, a, l) ==> l in s
  {
    forall l | CollectsAvoiding(edge, own, avoid, a, l) ensures l in s {
      if !own(a, l) {
        var c := AvoidingUnfold(edge, own, avoid, a, l);
      }
    }
  }

  lemma FullyCovered<T(!new), L(!new)>(edge: (T, T) -> bool, own: (T, L) -> bool, a: T, s: set<L>)
    requires forall l :: own(a, l) ==> l in s
    requires forall c, l :: edge(a, c) && Collects(edge, own, c, l) ==> l in s
    ensures forall l :: Collects(edge, own, a, l) ==> l in s
  {
    forall l | Collects(edge, own, a, l) ensures l in s {
      if !own(a, l) {
        var c := CollectsUnfold(edge, own, a, l);
      }
    }
  }

  /** A set closed under edges holds every node reachable from a member. */
  lemma {:induction false} ClosedHolds<T(!new)>(edge: (T, T) -> bool, q: seq<T>, a: T, b: T, s: set<T>)
    requires Links(edge, q, a, b) && a in s
    requires forall g, h :: g in s && edge(g, h) ==> h in s
    ensures b in s
    decreases |q|
  {
    if |q| > 1 {
      assert edge(q[0], q[1]);
      assert Links(edge, q[1..], q[1], b);
      ClosedHolds(edge, q[1..], q[1], b, s);
    }
  }
}
