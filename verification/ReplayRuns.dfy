/** Runs on which a forget races with an unguarded key, and what they break. */
module ReplayRuns {
  import opened ReplayProtocol

  lemma RunSnoc(events: seq<Event>, e: Event)
    ensures Run(events + [e]) == Step(Run(events), e)
  {
    assert (events + [e])[..|events|] == events;
  }

  const A := Key("global", "a")
  const B := Key("global", "b")

  const FIRST := Claiming([A, B], 1, false, [A], false)

  lemma Lists()
    ensures Unique([A]) == [A] && Unique([A, B]) == [A, B]
  {
    assert Without([], B) == [] && Without([], A) == [];
    assert [B][1..] == [];
    assert Unique([B]) == [B];
    assert [A, B][1..] == [B] && Without([B], A) == [B];
    assert Unique([A]) == [A] by {
      assert [A][1..] == [];
    }
  }

  /** The run that probes `a`, forgets it, and lets a second claim probe it before either answer. */
  const RACE := [Begin(1, [A, B]), Probe(1), Forget([A]), Begin(2, [A]), Probe(2), Answer(1, false), Answer(2, false), Finish(2)]

  const AFTER_RACE := State(
    {A}, {}, map[A := Owner(2, false)],
    map[1 := FIRST, 2 := Held([A])], [])

  const START := Claiming([A, B], 0, false, [], false)
  const OTHER := Claiming([A], 0, false, [], false)
  const MID_RACE := State({}, {}, map[], map[1 := START.(probing := true), 2 := OTHER], [])

  lemma RaceBegins()
    ensures StepBegin(StepForget(StepProbe(StepBegin(FRESH, 1, [A, B]), 1), [A]), 2, [A]) == MID_RACE
  {
    Lists();
    var s1 := StepBegin(FRESH, 1, [A, B]);
    assert s1 == FRESH.(claims := map[1 := START]);
    var s2 := StepProbe(s1, 1);
    assert s2 == State({A}, {}, map[], map[1 := START.(probing := true)], []);
    assert Forgettable(s2, [A]) == {A};
    assert StepForget(s2, [A]) == State({}, {}, map[], map[1 := START.(probing := true)], []);
  }

  lemma RaceGrants()
    ensures StepFinish(StepAnswer(StepAnswer(StepProbe(MID_RACE, 2), 1, false), 2, false), 2) == AFTER_RACE
  {
    var s5 := StepProbe(MID_RACE, 2);
    assert s5 == State({A}, {}, map[], map[1 := START.(probing := true), 2 := OTHER.(probing := true)], []);
    assert [] + [A] == [A];
    var s6 := StepAnswer(s5, 1, false);
    assert s6 == State({A}, {}, map[A := Owner(1, false)], map[1 := FIRST, 2 := OTHER.(probing := true)], []);
    var s7 := StepAnswer(s6, 2, false);
    assert s7 == State({A}, {}, map[A := Owner(2, false)],
                       map[1 := FIRST, 2 := Claiming([A], 1, false, [A], false)], []);
  }

  lemma RaceEnds()
    ensures Run(RACE) == AFTER_RACE
  {
    hide StepBegin, StepProbe, StepForget, StepAnswer, StepFinish, Run;
    RaceBegins();
    RaceGrants();
    RunOf8(Begin(1, [A, B]), Probe(1), Forget([A]), Begin(2, [A]), Probe(2), Answer(1, false), Answer(2, false), Finish(2));
  }

  lemma RunOf8(a: Event, b: Event, c: Event, d: Event, e: Event, f: Event, g: Event, h: Event)
    ensures Run([a, b, c, d, e, f, g, h]) ==
      Step(Step(Step(Step(Step(Step(Step(Step(FRESH, a), b), c), d), e), f), g), h)
  {
    hide Step;
    RunSnoc([a, b, c, d, e, f, g], h);
    RunSnoc([a, b, c, d, e, f], g);
    RunSnoc([a, b, c, d, e], f);
    RunSnoc([a, b, c, d], e);
    RunSnoc([a, b, c], d);
    RunSnoc([a, b], c);
    RunSnoc([a], b);
    RunSnoc([], a);
    assert [a, b, c, d, e, f, g] + [h] == [a, b, c, d, e, f, g, h];
    assert [a, b, c, d, e, f] + [g] == [a, b, c, d, e, f, g];
    assert [a, b, c, d, e] + [f] == [a, b, c, d, e, f];
    assert [a, b, c, d] + [e] == [a, b, c, d, e];
    assert [a, b, c] + [d] == [a, b, c, d];
    assert [a, b] + [c] == [a, b, c];
    assert [a] + [b] == [a, b];
    assert [] + [a] == [a];
  }

  /** Forgetting a key that is being probed lets two claims hold it at once. */
  lemma RacingForgetGrantsTwice()
    ensures var s := Run(RACE);
      && 1 in s.claims && A in Holds(s.claims[1])
      && 2 in s.claims && A in Holds(s.claims[2])
      && !QuietRun(RACE)
  {
    RaceEnds();
    if QuietRun(RACE) {
      QuietRunsKeepTheBooks(RACE);
      assert Exclusive(Run(RACE));
    }
  }

  /** A claim that then fails releases the key in the store although the other claim owns it: the
      failing path, unlike a handle, does not ask who the owner is. */
  lemma FailureReleasesForeignKey()
    ensures var s := Run(RACE + [Probe(1), Answer(1, true)]);
      && s.log == [Settlement(1, A, ByFailure, false)]
      && 2 in s.claims && s.claims[2] == Held([A]) && A !in s.inflight
  {
    hide StepProbe, StepAnswer, Run;
    RaceEnds();
    FailureAfterRace();
    assert Run(RACE + [Probe(1)]) == StepProbe(Run(RACE), 1) by {
      RunSnoc(RACE, Probe(1));
    }
    assert Run(RACE + [Probe(1)] + [Answer(1, true)]) == StepAnswer(Run(RACE + [Probe(1)]), 1, true) by {
      RunSnoc(RACE + [Probe(1)], Answer(1, true));
    }
    assert RACE + [Probe(1), Answer(1, true)] == RACE + [Probe(1)] + [Answer(1, true)];
  }

  lemma FailureAfterRace()
    ensures var s := StepAnswer(StepProbe(AFTER_RACE, 1), 1, true);
      && s.log == [Settlement(1, A, ByFailure, false)]
      && 2 in s.claims && s.claims[2] == Held([A]) && A !in s.inflight
  {
    var s1 := StepProbe(AFTER_RACE, 1);
    assert s1 == AFTER_RACE.(inflight := {A, B}, claims := map[1 := FIRST.(probing := true), 2 := Held([A])]);
    var s2 := StepAnswer(s1, 1, true);
    assert Elements([A]) == {A};
    assert Settlements(s1.owners, 1, [A], ByFailure) == [Settlement(1, A, ByFailure, false)];
    assert s2.log == [] + [Settlement(1, A, ByFailure, false)];
  }

  /** On quiet runs the failing path settles only its own keys as well. */
  lemma QuietFailureOwnsItsKeys(s: State, id: nat)
    requires Invariant(s) && id in s.claims && s.claims[id].Claiming? && s.claims[id].probing
    ensures var log' := StepAnswer(s, id, true).log;
      |s.log| <= |log'| && forall i :: |s.log| <= i < |log'| ==> log'[i].owned
  {
    hide Exclusive, Accounted, Guarded, WellFormed;
    AboutClaim(s, id);
    var c := s.claims[id];
    forall k | k in c.granted ensures Owns(s.owners, id, k) {
      NextIsNew(c);
      assert Secured(c, k);
    }
  }
}
