/** What a run's past says about the registry: which binding a token has, whether it is claimed, what was called back. */
module ApprovalHistory {
  import opened Options
  import opened ApprovalControls

  predicate BoundTo(s: State, t: string, b: Binding) {
    t in s.core.bindings && s.core.bindings[t] == b
  }

  predicate BoundUntil(s: State, t: string, now: int) {
    t in s.core.bindings && s.core.bindings[t].expiresAtMs <= now
  }

  /** The event looks the token up, by itself or for a settle call. */
  predicate LooksUp(s: State, e: Event, t: string, now: int) {
    e == Lookup(t, now) || (e.Settle? && e.token == t && e.now == now && e.call !in s.waiting)
  }

  /** A resolver of the token ends. */
  predicate EndsFor(s: State, e: Event, t: string) {
    e.End? && e.call in s.waiting && s.waiting[e.call].token == t
  }

  // ---------- bindings ----------

  predicate Binds(s: State, e: Event, t: string, b: Binding) {
    e.Register? && e.b == b && b.token == t && b.expiresAtMs > e.now && t !in e.evicted
  }

  /** Replaced or evicted, found expired, unregistered, or resolved or gone by the answer of its resolver. */
  ghost predicate Unbinds(s: State, e: Event, t: string) {
    || (e.Register? && e.b.expiresAtMs > e.now && (e.b.token == t || t in e.evicted))
    || (exists now :: LooksUp(s, e, t, now) && BoundUntil(s, t, now))
    || (e.Prune? && BoundUntil(s, t, e.now))
    || (e.Unregister? && t in e.tokens)
    || (EndsFor(s, e, t) && !e.ending.Fails?)
  }

  lemma BindingStep(s: State, e: Event, t: string, b: Binding, release: bool)
    ensures BoundTo(Step(s, e, release), t, b) <==> Binds(s, e, t, b) || (BoundTo(s, t, b) && !Unbinds(s, e, t))
  {
    match e
    case Unregister(tokens) => UnregisteredIs(s.core, tokens);
    case Lookup(token, now) => assert LooksUp(s, e, token, now);
    case Settle(call, token, now) => assert call !in s.waiting ==> LooksUp(s, e, token, now);
    case _ =>
  }

  // ---------- claims ----------

  predicate Starts(s: State, e: Event, t: string) {
    e.Settle? && e.token == t && e.call !in s.waiting && StartOf(s.core, t, e.now).Started?
  }

  /** Its resolver has ended, or its binding was found expired by a prune or by a lookup that releases, or unregistered. */
  ghost predicate Frees(s: State, e: Event, t: string, release: bool) {
    || EndsFor(s, e, t)
    || (e.Unregister? && t in e.tokens)
    || (e.Prune? && BoundUntil(s, t, e.now))
    || (release && exists now :: LooksUp(s, e, t, now) && BoundUntil(s, t, now))
  }

  lemma ClaimStep(s: State, e: Event, t: string, release: bool)
    ensures t in Step(s, e, release).core.resolving <==> Starts(s, e, t) || (t in s.core.resolving && !Frees(s, e, t, release))
  {
    match e
    case Unregister(tokens) => UnregisteredIs(s.core, tokens);
    case Lookup(token, now) => assert LooksUp(s, e, token, now);
    case Settle(call, token, now) => assert call !in s.waiting ==> LooksUp(s, e, token, now);
    case _ =>
  }

  /** A settle call starts its resolver exactly for a bound, unexpired and unclaimed token, is turned away while it is
      claimed, and finds nothing otherwise. */
  lemma StartIs(c: Core, t: string, now: int, b: Binding)
    ensures StartOf(c, t, now) == Started(b) <==>
      t in c.bindings && c.bindings[t] == b && b.expiresAtMs > now && t !in c.resolving
    ensures StartOf(c, t, now).InFlight? <==> t in c.bindings && c.bindings[t].expiresAtMs > now && t in c.resolving
  {
  }

  // ---------- callbacks ----------

  /** The bindings an event calls back: that of a resolver that has settled its token, or those unregistered, if still bound. */
  ghost predicate CallsBack(s: State, e: Event, b: Binding) {
    exists t :: BoundTo(s, t, b) && ((EndsFor(s, e, t) && !e.ending.Fails?) || (e.Unregister? && t in e.tokens))
  }

  lemma {:induction false} UnregisteredCalls(c: Core, tokens: seq<string>) returns (called: seq<Binding>)
    ensures Unregistered(c, tokens).completed == c.completed + called
    ensures forall b :: b in called <==> exists t :: t in tokens && t in c.bindings && c.bindings[t] == b
  {
    if tokens == [] {
      called := [];
    } else {
      var init, last := tokens[..|tokens| - 1], tokens[|tokens| - 1];
      called := UnregisteredCalls(c, init);
      UnregisteredIs(c, init);
      assert tokens == init + [last];
      var d := Unregistered(c, init);
      if last in d.bindings {
        called := called + [d.bindings[last]];
      } else {
        assert d.completed + [] == d.completed;
      }
    }
  }

  lemma CallbacksAre(s: State, e: Event, release: bool) returns (called: seq<Binding>)
    ensures Step(s, e, release).core.completed == s.core.completed + called
    ensures forall b :: b in called <==> CallsBack(s, e, b)
  {
    match e
    case Unregister(tokens) => called := UnregisteredCalls(s.core, tokens);
    case End(call, ending) =>
      if call in s.waiting && !ending.Fails? && s.waiting[call].token in s.core.bindings {
        var t := s.waiting[call].token;
        called := [s.core.bindings[t]];
        assert EndsFor(s, e, t) && BoundTo(s, t, s.core.bindings[t]);
      } else {
        called := [];
        assert s.core.completed + [] == s.core.completed;
      }
    case _ => called := [];
  }

  // ---------- over runs ----------

  /** Event `i` gained it and no later one lost it. */
  ghost predicate KeptSince(
      events: seq<Event>, release: bool, gains: (State, Event) -> bool, loses: (State, Event) -> bool, i: int) {
    && 0 <= i < |events| && gains(Run(events[..i], release), events[i])
    && forall j :: i < j < |events| ==> !LostAt(events, release, loses, j)
  }

  ghost predicate LostAt(events: seq<Event>, release: bool, loses: (State, Event) -> bool, j: int) {
    0 <= j < |events| && loses(Run(events[..j], release), events[j])
  }

  ghost predicate Kept(events: seq<Event>, release: bool, gains: (State, Event) -> bool, loses: (State, Event) -> bool) {
    exists i :: KeptSince(events, release, gains, loses, i)
  }

  lemma KeptNext(events: seq<Event>, release: bool, gains: (State, Event) -> bool, loses: (State, Event) -> bool)
    requires events != []
    ensures var n := |events| - 1;
      var s := Run(events[..n], release);
      Kept(events, release, gains, loses) <==>
        gains(s, events[n]) || (Kept(events[..n], release, gains, loses) && !loses(s, events[n]))
  {
    var n := |events| - 1;
    assert forall j :: 0 <= j < n ==> events[..n][..j] == events[..j];
    hide Run;
    assert forall j :: j < n ==> (LostAt(events, release, loses, j) <==> LostAt(events[..n], release, loses, j));
    assert LostAt(events, release, loses, n) <==> loses(Run(events[..n], release), events[n]);
    if i :| KeptSince(events[..n], release, gains, loses, i) {
      assert !loses(Run(events[..n], release), events[n]) ==> KeptSince(events, release, gains, loses, i);
    }
    if i :| KeptSince(events, release, gains, loses, i) {
      assert i < n ==> KeptSince(events[..n], release, gains, loses, i) && !LostAt(events, release, loses, n);
    }
    if gains(Run(events[..n], release), events[n]) {
      assert KeptSince(events, release, gains, loses, n);
    }
  }

  ghost function Registering(t: string, b: Binding): (State, Event) -> bool {
    (s, e) => Binds(s, e, t, b)
  }

  ghost function Unbinding(t: string): (State, Event) -> bool {
    (s, e) => Unbinds(s, e, t)
  }

  ghost function Starting(t: string): (State, Event) -> bool {
    (s, e) => Starts(s, e, t)
  }

  ghost function Freeing(t: string, release: bool): (State, Event) -> bool {
    (s, e) => Frees(s, e, t, release)
  }

  /** A token is bound exactly to what was registered for it and has not been replaced, dropped or settled since. */
  lemma {:induction false} BoundIff(events: seq<Event>, release: bool, t: string, b: Binding)
    ensures BoundTo(Run(events, release), t, b) <==> Kept(events, release, Registering(t, b), Unbinding(t))
    decreases |events|
  {
    if events != [] {
      var n := |events| - 1;
      BoundIff(events[..n], release, t, b);
      BindingStep(Run(events[..n], release), events[n], t, b, release);
      KeptNext(events, release, Registering(t, b), Unbinding(t));
      hide Step, Kept, BoundTo;
    }
  }

  /** A token is claimed exactly since some settle call started its resolver and nothing has freed it. */
  lemma {:induction false} ClaimedIff(events: seq<Event>, release: bool, t: string)
    ensures t in Run(events, release).core.resolving <==> Kept(events, release, Starting(t), Freeing(t, release))
    decreases |events|
  {
    if events != [] {
      var n := |events| - 1;
      ClaimedIff(events[..n], release, t);
      ClaimStep(Run(events[..n], release), events[n], t, release);
      KeptNext(events, release, Starting(t), Freeing(t, release));
      hide Step, Kept;
    }
  }
}
