/** What a run's past says about its present: who owns a granted key, and what a commit has come to. */
module ReplayHistory {
  import opened ReplayProtocol
  import opened TextOrder

  // ---------- what a run has seen ----------

  /** Event `i` was such an event in the state it met. */
  ghost predicate SeenAt(events: seq<Event>, when: (State, Event) -> bool, i: int) {
    0 <= i < |events| && when(Run(events[..i]), events[i])
  }

  ghost predicate Seen(events: seq<Event>, when: (State, Event) -> bool) {
    exists i :: SeenAt(events, when, i)
  }

  lemma SeenNext(events: seq<Event>, when: (State, Event) -> bool)
    requires events != []
    ensures var n := |events| - 1;
      Seen(events, when) <==> Seen(events[..n], when) || when(Run(events[..n]), events[n])
  {
    var n := |events| - 1;
    assert forall i :: 0 <= i < n ==> events[..n][..i] == events[..i];
    hide Run;
    assert forall i :: i < n ==> (SeenAt(events, when, i) <==> SeenAt(events[..n], when, i));
    assert SeenAt(events, when, n) <==> when(Run(events[..n]), events[n]);
  }

  // ---------- who owns a granted key ----------

  /** The event is the store's answer that grants claim `id` the key it is probing. */
  predicate Grants(s: State, e: Event, id: nat, k: Key) {
    e == Answer(id, false) && id in s.claims && Probing(s.claims[id], k) && k !in s.recent
  }

  predicate GrantsAnother(s: State, e: Event, id: nat, k: Key) {
    e.Answer? && e.id != id && Grants(s, e, e.id, k)
  }

  function Grant(id: nat, k: Key): (State, Event) -> bool {
    (s, e) => Grants(s, e, id, k)
  }

  /** Event `j` granted the key to another claim after `id` had been granted it. */
  ghost predicate TakenAt(events: seq<Event>, id: nat, k: Key, j: int) {
    0 <= j < |events| && GrantsAnother(Run(events[..j]), events[j], id, k) && Seen(events[..j], Grant(id, k))
  }

  ghost predicate TakenOver(events: seq<Event>, id: nat, k: Key) {
    exists j :: TakenAt(events, id, k, j)
  }

  predicate Underway(s: State, id: nat) {
    id in s.claims && s.claims[id].Claiming?
  }

  predicate GrantedTo(s: State, id: nat, k: Key) {
    Underway(s, id) && k in s.claims[id].granted
  }

  lemma NotGrantedYet(s: State, id: nat, k: Key)
    requires Settling(s) && id in s.claims && Probing(s.claims[id], k)
    ensures k !in s.claims[id].granted
  {
    assert DistinctKeys(s.claims[id]);
    DistinctSplit(s.claims[id].keys, s.claims[id].next);
  }

  lemma ClaimsStay(s: State, e: Event, id: nat)
    ensures id in s.claims ==> id in Step(s, e).claims
    ensures id in s.claims && Underway(Step(s, e), id) ==> Underway(s, id)
  {
  }

  /** While a claim is under way it loses a granted key's owner entry only to a grant of that key to another claim. */
  lemma OwnershipStep(s: State, e: Event, id: nat, k: Key)
    requires Settling(s) && Underway(Step(s, e), id)
    ensures GrantedTo(Step(s, e), id, k) <==> GrantedTo(s, id, k) || Grants(s, e, id, k)
    ensures Grants(s, e, id, k) ==> !GrantedTo(s, id, k) && Owns(Step(s, e).owners, id, k)
    ensures GrantedTo(s, id, k) ==>
      (Owns(Step(s, e).owners, id, k) <==> Owns(s.owners, id, k) && !GrantsAnother(s, e, id, k))
  {
    if Grants(s, e, id, k) {
      NotGrantedYet(s, id, k);
    }
  }

  lemma TakenNext(events: seq<Event>, id: nat, k: Key)
    requires events != []
    ensures var n := |events| - 1; TakenOver(events, id, k) <==>
      TakenOver(events[..n], id, k) || (GrantsAnother(Run(events[..n]), events[n], id, k) && Seen(events[..n], Grant(id, k)))
  {
    var n := |events| - 1;
    assert forall j :: 0 <= j < n ==> events[..n][..j] == events[..j];
    hide Run, GrantsAnother, Seen;
    assert forall j :: j < n ==> (TakenAt(events, id, k, j) <==> TakenAt(events[..n], id, k, j));
    assert TakenAt(events, id, k, n) <==> GrantsAnother(Run(events[..n]), events[n], id, k) && Seen(events[..n], Grant(id, k));
  }

  /** The keys a claim under way has been granted are those some event granted it. */
  lemma {:induction false} GrantedSince(events: seq<Event>, id: nat, k: Key)
    ensures Seen(events, Grant(id, k)) ==> id in Run(events).claims
    ensures Underway(Run(events), id) ==> (GrantedTo(Run(events), id, k) <==> Seen(events, Grant(id, k)))
    decreases |events|
  {
    if events != [] {
      var n := |events| - 1;
      var s, e := Run(events[..n]), events[n];
      GrantedSince(events[..n], id, k);
      HandlesAreCareful(events[..n]);
      ClaimsStay(s, e, id);
      SeenNext(events, Grant(id, k));
      if Underway(Step(s, e), id) {
        OwnershipStep(s, e, id, k);
      }
      hide Settling, Seen, Step;
    }
  }

  /** A claim under way owns a key it was granted exactly until the key is granted to another claim. */
  lemma {:induction false} OwnsUntilTaken(events: seq<Event>, id: nat, k: Key)
    requires GrantedTo(Run(events), id, k)
    ensures Owns(Run(events).owners, id, k) <==> !TakenOver(events, id, k)
    decreases |events|
  {
    if events != [] {
      var n := |events| - 1;
      var s, e := Run(events[..n]), events[n];
      GrantedSince(events[..n], id, k);
      HandlesAreCareful(events[..n]);
      OwnershipStep(s, e, id, k);
      ClaimsStay(s, e, id);
      TakenNext(events, id, k);
      if GrantedTo(s, id, k) {
        OwnsUntilTaken(events[..n], id, k);
      } else {
        NeverTaken(events[..n], id, k);
        hide Settling, Seen, Step, TakenOver;
      }
    }
  }

  lemma NeverTaken(events: seq<Event>, id: nat, k: Key)
    requires !Underway(Run(events), id) ==> id !in Run(events).claims
    requires !GrantedTo(Run(events), id, k)
    ensures !Seen(events, Grant(id, k)) && !TakenOver(events, id, k)
  {
    GrantedSince(events, id, k);
    forall j ensures !TakenAt(events, id, k, j) {
      if TakenAt(events, id, k, j) {
        var i :| SeenAt(events[..j], Grant(id, k), i);
        assert events[..j][..i] == events[..i];
        assert SeenAt(events, Grant(id, k), i);
      }
    }
  }

  /** The log of a failing claim: each key it releases, and whether it owned it. */
  ghost predicate LogsFailure(log: seq<Settlement>, n: nat, id: nat, keys: seq<Key>, own: Key -> bool) {
    |log| == n + |keys| && forall i :: 0 <= i < |keys| ==> log[n + i] == Settlement(id, keys[i], ByFailure, own(keys[i]))
  }

  lemma FailureIsLogged(s: State, id: nat, own: Key -> bool)
    requires Fails(s, id) && forall k :: k in s.claims[id].granted ==> own(k) == Owns(s.owners, id, k)
    ensures LogsFailure(StepAnswer(s, id, true).log, |s.log|, id, s.claims[id].granted, own)
  {
  }

  /** A claim under way is waiting for the store, so the store's answer can fail it. */
  predicate Fails(s: State, id: nat) {
    Underway(s, id) && s.claims[id].probing && s.claims[id].next < |s.claims[id].keys|
  }

  /** On every run, racing or not: of the keys a failing claim releases, those are its own that no later event granted
      to another claim. So it releases only its own keys exactly when none was taken over. */
  lemma FailureOwnsIff(events: seq<Event>, id: nat)
    requires Fails(Run(events), id)
    ensures var s := Run(events);
      var granted, log' := s.claims[id].granted, Step(s, Answer(id, true)).log;
      && LogsFailure(log', |s.log|, id, granted, k => !TakenOver(events, id, k))
      && ((forall i :: |s.log| <= i < |log'| ==> log'[i].owned) <==> forall k :: k in granted ==> !TakenOver(events, id, k))
  {
    var s := Run(events);
    var own := k => !TakenOver(events, id, k);
    forall k | k in s.claims[id].granted ensures own(k) == Owns(s.owners, id, k) {
      OwnsUntilTaken(events, id, k);
    }
    hide TakenOver, Run, Owns, StepAnswer, LogsFailure;
    FailureIsLogged(s, id, own);
    OwnedIff(StepAnswer(s, id, true).log, |s.log|, id, s.claims[id].granted, own);
  }

  lemma OwnedIff(log: seq<Settlement>, n: nat, id: nat, keys: seq<Key>, own: Key -> bool)
    requires LogsFailure(log, n, id, keys, own)
    ensures (forall i :: n <= i < |log| ==> log[i].owned) <==> forall k :: k in keys ==> own(k)
  {
    forall i | n <= i < |log| ensures log[i].owned == own(keys[i - n]) && keys[i - n] in keys {
      assert log[i] == log[n + (i - n)];
    }
    if forall i :: n <= i < |log| ==> log[i].owned {
      forall k | k in keys ensures own(k) {
        var i :| 0 <= i < |keys| && keys[i] == k;
        assert log[n + i].owned;
      }
    }
  }

  // ---------- what a commit has come to ----------

  predicate CommittingNow(s: State, id: nat) {
    id in s.claims && s.claims[id].Committing?
  }

  /** The event is the store's answer to one of the handle's commits. */
  predicate Answers(s: State, e: Event, id: nat) {
    e.CommitDone? && e.id == id && CommittingNow(s, id) && e.key in s.claims[id].pending
  }

  function Done(id: nat, k: Key): (State, Event) -> bool {
    (s, e) => Answers(s, e, id) && e.key == k
  }

  function Failure(id: nat): (State, Event) -> bool {
    (s, e) => Answers(s, e, id) && !e.ok
  }

  /** The commit succeeded, and its key was not recorded before. */
  function NewRecord(id: nat): (State, Event) -> bool {
    (s, e) => Answers(s, e, id) && e.ok && e.key !in s.recent
  }

  /** The fields of the claim say what its run has seen. */
  ghost predicate Tells(events: seq<Event>, id: nat, c: Claim)
    requires c.Committing?
  {
    && (c.rejected <==> Seen(events, Failure(id)))
    && (c.recorded <==> Seen(events, NewRecord(id)))
    && (forall k :: k in c.pending <==> k in c.settling && !Seen(events, Done(id, k)))
  }

  ghost predicate NothingSeen(events: seq<Event>, id: nat) {
    !Seen(events, Failure(id)) && !Seen(events, NewRecord(id)) && forall k :: !Seen(events, Done(id, k))
  }

  lemma CommitStep(s: State, e: Event, id: nat)
    ensures CommittingNow(s, id) ==> CommittingNow(Step(s, e), id)
    ensures CommittingNow(s, id) ==>
      var c, c', done := s.claims[id], Step(s, e).claims[id], Answers(s, e, id);
      && c'.settling == c.settling
      && c'.pending == c.pending - (if done then {e.key} else {})
      && (c'.rejected <==> c.rejected || (done && !e.ok))
      && (c'.recorded <==> c.recorded || (done && e.ok && e.key !in s.recent))
    ensures !CommittingNow(s, id) && CommittingNow(Step(s, e), id) ==>
      var c' := Step(s, e).claims[id];
      c'.pending == Elements(c'.settling) && !c'.rejected && !c'.recorded
  {
  }

  lemma {:induction false} CommitTells(events: seq<Event>, id: nat)
    ensures CommittingNow(Run(events), id) ==> Tells(events, id, Run(events).claims[id])
    ensures !CommittingNow(Run(events), id) ==> NothingSeen(events, id)
    decreases |events|
  {
    if events != [] {
      var n := |events| - 1;
      CommitTells(events[..n], id);
      CommitStep(Run(events[..n]), events[n], id);
      SeenNext(events, Failure(id));
      SeenNext(events, NewRecord(id));
      forall k ensures Seen(events, Done(id, k)) <==> Seen(events[..n], Done(id, k)) || Done(id, k)(Run(events[..n]), events[n]) {
        SeenNext(events, Done(id, k));
      }
      hide Step, Seen;
    }
  }

  /** On every run a commit has rejected exactly when one of the store's commits has failed, and has resolved exactly when
      none has and the store has taken every key; it resolves to true exactly when one of them was not recorded before. */
  lemma RecordedIff(events: seq<Event>, id: nat)
    requires CommittingNow(Run(events), id)
    ensures var c := Run(events).claims[id];
      var failed, taken := Seen(events, Failure(id)), forall k :: k in c.settling ==> Seen(events, Done(id, k));
      && (OutcomeOf(c).Rejects? <==> failed)
      && (OutcomeOf(c).Resolves? <==> !failed && taken)
      && (OutcomeOf(c) == Resolves(true) <==> !failed && taken && Seen(events, NewRecord(id)))
  {
    CommitTells(events, id);
    hide Seen, Run;
    var c := Run(events).claims[id];
    if c.pending != {} {
      var k :| k in c.pending;
      assert k in c.settling && !Seen(events, Done(id, k));
    }
  }

  /** What the store has taken is recorded from then on. */
  lemma SuccessIsRecorded(events: seq<Event>, id: nat, k: Key, i: int)
    requires SeenAt(events, Done(id, k), i) && events[i].ok
    ensures k in Run(events[..i + 1]).recent
  {
    assert events[..i + 1][..i] == events[..i];
  }

  // ---------- what a claim answers ----------

  /** The keys the store has granted the claim, in the order of its answers. */
  ghost function GrantedKeys(events: seq<Event>, id: nat): seq<Key> {
    if events == [] then []
    else
      var n := |events| - 1;
      GrantedKeys(events[..n], id) + GrantedNow(Run(events[..n]), events[n], id)
  }

  ghost function GrantedNow(s: State, e: Event, id: nat): seq<Key> {
    if k :| Grants(s, e, id, k) then [k] else []
  }

  /** The claim asks for the key while another call has it in flight. */
  predicate MeetsInFlight(s: State, e: Event, id: nat, k: Key) {
    && e == Probe(id) && Underway(s, id) && !s.claims[id].probing
    && s.claims[id].next < |s.claims[id].keys| && s.claims[id].keys[s.claims[id].next] == k && k in s.inflight
  }

  /** The store answers that the key is recorded already. */
  predicate FindsRecorded(s: State, e: Event, id: nat, k: Key) {
    e == Answer(id, false) && id in s.claims && Probing(s.claims[id], k) && k in s.recent
  }

  function InFlightFor(id: nat, k: Key): (State, Event) -> bool {
    (s, e) => MeetsInFlight(s, e, id, k)
  }

  function RecordedFor(id: nat, k: Key): (State, Event) -> bool {
    (s, e) => FindsRecorded(s, e, id, k)
  }

  /** In one of the three ways the store can answer for a key. */
  ghost predicate Handled(events: seq<Event>, id: nat, k: Key) {
    Seen(events, Grant(id, k)) || Seen(events, InFlightFor(id, k)) || Seen(events, RecordedFor(id, k))
  }

  ghost predicate HandledNow(s: State, e: Event, id: nat, k: Key) {
    Grants(s, e, id, k) || MeetsInFlight(s, e, id, k) || FindsRecorded(s, e, id, k)
  }

  /** What a claim under way knows is what its run has seen: each key it is past was answered for in one way. */
  ghost predicate Knows(events: seq<Event>, id: nat, c: Claim)
    requires c.Claiming?
  {
    && c.next <= |c.keys| && Distinct(c.keys) && c.keys != []
    && c.granted == GrantedKeys(events, id)
    && (c.sawInFlight <==> MetInFlight(events, id))
    && Past(events, id, c)
    && (forall k :: OneWay(events, id, k))
  }

  ghost predicate MetInFlight(events: seq<Event>, id: nat) {
    exists k :: Seen(events, InFlightFor(id, k))
  }

  ghost predicate Past(events: seq<Event>, id: nat, c: Claim)
    requires c.Claiming? && c.next <= |c.keys|
  {
    forall k :: k in c.keys[..c.next] <==> Handled(events, id, k)
  }

  ghost predicate OneWay(events: seq<Event>, id: nat, k: Key) {
    && !(Seen(events, Grant(id, k)) && Seen(events, InFlightFor(id, k)))
    && !(Seen(events, Grant(id, k)) && Seen(events, RecordedFor(id, k)))
    && !(Seen(events, InFlightFor(id, k)) && Seen(events, RecordedFor(id, k)))
  }

  /** Nothing has been asked or answered for the claim. */
  ghost predicate Untouched(events: seq<Event>, id: nat) {
    GrantedKeys(events, id) == [] && forall k :: !Handled(events, id, k)
  }

  ghost predicate SomeInFlight(s: State, e: Event, id: nat) {
    exists k :: MeetsInFlight(s, e, id, k)
  }

  /** The claim moves on exactly when the store answers for a key, and that is the next one. */
  ghost predicate MovesOn(s: State, e: Event, id: nat, c: Claim, c': Claim)
    requires c.Claiming? && c'.Claiming?
  {
    if exists k :: HandledNow(s, e, id, k)
    then c.next < |c.keys| && c'.next == c.next + 1 && forall k :: HandledNow(s, e, id, k) <==> k == c.keys[c.next]
    else c'.next == c.next
  }

  /** How one event changes what a claim under way knows. */
  lemma ClaimStep(s: State, e: Event, id: nat)
    requires Underway(s, id) && Underway(Step(s, e), id) && s.claims[id].next <= |s.claims[id].keys|
    ensures var c, c' := s.claims[id], Step(s, e).claims[id];
      && c'.keys == c.keys
      && c'.granted == c.granted + GrantedNow(s, e, id)
      && (c'.sawInFlight <==> c.sawInFlight || SomeInFlight(s, e, id))
      && MovesOn(s, e, id, c, c')
  {
    var c := s.claims[id];
    if c.next < |c.keys| {
      var k := c.keys[c.next];
      assert forall x :: HandledNow(s, e, id, x) ==> x == k;
      assert e == Probe(id) && !c.probing && k in s.inflight ==> MeetsInFlight(s, e, id, k) && HandledNow(s, e, id, k);
      assert e == Answer(id, false) && c.probing && k in s.recent ==> FindsRecorded(s, e, id, k) && HandledNow(s, e, id, k);
      assert e == Answer(id, false) && c.probing && k !in s.recent ==> Grants(s, e, id, k) && HandledNow(s, e, id, k);
    }
  }

  lemma NothingHandled(s: State, e: Event, id: nat)
    requires !Underway(s, id)
    ensures GrantedNow(s, e, id) == [] && forall k :: !HandledNow(s, e, id, k)
  {
  }

  lemma HandledNext(events: seq<Event>, id: nat, k: Key)
    requires events != []
    ensures var n := |events| - 1;
      var s, e := Run(events[..n]), events[n];
      && (Seen(events, Grant(id, k)) <==> Seen(events[..n], Grant(id, k)) || Grants(s, e, id, k))
      && (Seen(events, InFlightFor(id, k)) <==> Seen(events[..n], InFlightFor(id, k)) || MeetsInFlight(s, e, id, k))
      && (Seen(events, RecordedFor(id, k)) <==> Seen(events[..n], RecordedFor(id, k)) || FindsRecorded(s, e, id, k))
  {
    SeenNext(events, Grant(id, k));
    SeenNext(events, InFlightFor(id, k));
    SeenNext(events, RecordedFor(id, k));
  }

  lemma MetNext(events: seq<Event>, id: nat)
    requires events != []
    ensures var n := |events| - 1;
      MetInFlight(events, id) <==> MetInFlight(events[..n], id) || SomeInFlight(Run(events[..n]), events[n], id)
  {
    var n := |events| - 1;
    if k :| Seen(events, InFlightFor(id, k)) {
      HandledNext(events, id, k);
    }
    if k :| Seen(events[..n], InFlightFor(id, k)) {
      HandledNext(events, id, k);
    }
    if k :| MeetsInFlight(Run(events[..n]), events[n], id, k) {
      HandledNext(events, id, k);
    }
  }

  /** At most one key is answered for at a time, and it is one the claim is not past. */
  lemma OneWayNext(events: seq<Event>, id: nat, c: Claim, k: Key)
    requires events != [] && c.Claiming? && c.next <= |c.keys| && Distinct(c.keys)
    requires var n := |events| - 1;
      && Past(events[..n], id, c) && OneWay(events[..n], id, k)
      && (HandledNow(Run(events[..n]), events[n], id, k) ==> c.next < |c.keys| && k == c.keys[c.next])
    ensures OneWay(events, id, k)
  {
    var n := |events| - 1;
    HandledNext(events, id, k);
    HandledNowIs(Run(events[..n]), events[n], id, k);
    OneWayNow(Run(events[..n]), events[n], id, k);
    hide Seen, Run, HandledNow, Grants, MeetsInFlight, FindsRecorded;
    if HandledNow(Run(events[..n]), events[n], id, k) {
      DistinctSplit(c.keys, c.next);
      assert !Handled(events[..n], id, k);
    }
  }

  lemma PastNext(events: seq<Event>, id: nat, c: Claim, c': Claim)
    requires events != [] && c.Claiming? && c'.Claiming? && c'.keys == c.keys && c.next <= |c.keys|
    requires Past(events[..|events| - 1], id, c) && MovesOn(Run(events[..|events| - 1]), events[|events| - 1], id, c, c')
    ensures c'.next <= |c'.keys| && Past(events, id, c')
  {
    var n := |events| - 1;
    var s, e := Run(events[..n]), events[n];
    forall k ensures Handled(events, id, k) <==> Handled(events[..n], id, k) || HandledNow(s, e, id, k) {
      HandledNext(events, id, k);
      HandledNowIs(s, e, id, k);
    }
    hide Run, Handled, HandledNow;
    assert c'.next == c.next + 1 ==> c.keys[..c'.next] == c.keys[..c.next] + [c.keys[c.next]];
  }

  lemma KnowsNext(events: seq<Event>, id: nat)
    requires events != []
    requires var s := Run(events[..|events| - 1]); Underway(s, id) && Knows(events[..|events| - 1], id, s.claims[id])
    requires Underway(Run(events), id)
    ensures Knows(events, id, Run(events).claims[id])
  {
    var n := |events| - 1;
    var s, e := Run(events[..n]), events[n];
    var c, c' := s.claims[id], Run(events).claims[id];
    ClaimStep(s, e, id);
    assert c'.granted == GrantedKeys(events, id);
    MetNext(events, id);
    hide Run, Step, GrantedKeys, GrantedNow, Past, OneWay, MetInFlight, HandledNow, SomeInFlight;
    PastNext(events, id, c, c');
    forall k ensures OneWay(events, id, k) {
      OneWayNext(events, id, c, k);
    }
  }

  /** The granted keys are those some event granted. */
  lemma {:induction false} GrantedKeysAre(events: seq<Event>, id: nat, k: Key)
    ensures k in GrantedKeys(events, id) <==> Seen(events, Grant(id, k))
    decreases |events|
  {
    if events != [] {
      var n := |events| - 1;
      GrantedKeysAre(events[..n], id, k);
      SeenNext(events, Grant(id, k));
      GrantedNowIs(Run(events[..n]), events[n], id, k);
      hide Seen, Run, GrantedNow;
    }
  }

  lemma GrantedNowIs(s: State, e: Event, id: nat, k: Key)
    ensures k in GrantedNow(s, e, id) <==> Grants(s, e, id, k)
  {
  }

  lemma OneWayNow(s: State, e: Event, id: nat, k: Key)
    ensures !(Grants(s, e, id, k) && MeetsInFlight(s, e, id, k))
    ensures !(Grants(s, e, id, k) && FindsRecorded(s, e, id, k))
    ensures !(MeetsInFlight(s, e, id, k) && FindsRecorded(s, e, id, k))
  {
  }

  lemma UntouchedNext(events: seq<Event>, id: nat)
    requires events != [] && Untouched(events[..|events| - 1], id) && !Underway(Run(events[..|events| - 1]), id)
    ensures Untouched(events, id)
  {
    var n := |events| - 1;
    NothingHandled(Run(events[..n]), events[n], id);
    hide Seen, Run, HandledNow;
    forall k ensures !Handled(events, id, k) {
      HandledNext(events, id, k);
      assert !Handled(events[..n], id, k) && !HandledNow(Run(events[..n]), events[n], id, k);
      HandledNowIs(Run(events[..n]), events[n], id, k);
    }
  }

  lemma HandledNowIs(s: State, e: Event, id: nat, k: Key)
    ensures HandledNow(s, e, id, k) <==> Grants(s, e, id, k) || MeetsInFlight(s, e, id, k) || FindsRecorded(s, e, id, k)
  {
  }

  lemma UntouchedKnows(events: seq<Event>, id: nat, keys: seq<Key>)
    requires Untouched(events, id) && Distinct(keys) && keys != []
    ensures Knows(events, id, Claiming(keys, 0, false, [], false))
  {
    hide Seen;
    forall k ensures OneWay(events, id, k) && !Seen(events, InFlightFor(id, k)) {
      assert !Handled(events, id, k);
    }
  }

  lemma BeginStep(s: State, e: Event, id: nat)
    requires id !in s.claims && Underway(Step(s, e), id)
    ensures e.Begin? && e.id == id && Unique(e.raw) != []
    ensures Step(s, e).claims[id] == Claiming(Unique(e.raw), 0, false, [], false)
  {
  }

  lemma {:induction false} ClaimHistory(events: seq<Event>, id: nat)
    ensures Underway(Run(events), id) ==> Knows(events, id, Run(events).claims[id])
    ensures id !in Run(events).claims ==> Untouched(events, id)
    decreases |events|
  {
    if events != [] {
      var n := |events| - 1;
      var s, e := Run(events[..n]), events[n];
      ClaimHistory(events[..n], id);
      ClaimsStay(s, e, id);
      hide Knows, Untouched, Step, Unique;
      if id !in s.claims {
        UntouchedNext(events, id);
        if Underway(Step(s, e), id) {
          BeginStep(s, e, id);
          UntouchedKnows(events, id, Unique(e.raw));
        }
      } else if Underway(Run(events), id) {
        KnowsNext(events, id);
      }
    }
  }

  /** On every run: once the store has answered for all its keys a claim is claimed exactly when one was granted, and
      then its handle holds those granted, in order. Otherwise it is in flight exactly when another call had one of its
      keys in flight, and a duplicate exactly when every one of its keys was recorded already. */
  lemma FinishIs(events: seq<Event>, id: nat)
    requires Underway(Run(events), id) && Run(events).claims[id].next == |Run(events).claims[id].keys|
    ensures var c, c' := Run(events).claims[id], Step(Run(events), Finish(id)).claims[id];
      && (c'.Held? <==> GrantedKeys(events, id) != [])
      && (c'.Held? ==> c'.keys == GrantedKeys(events, id))
      && (c' == Ended(InFlight) <==> GrantedKeys(events, id) == [] && MetInFlight(events, id))
      && (c' == Ended(Duplicate) <==> forall k :: k in c.keys ==> Seen(events, RecordedFor(id, k)))
      && (c'.Held? || c' == Ended(InFlight) || c' == Ended(Duplicate))
  {
    ClaimHistory(events, id);
    hide Seen, Run, GrantedKeys, Step;
    AllRecordedIff(events, id, Run(events).claims[id]);
    FinishStep(Run(events), id);
  }

  /** Neither granted nor in flight elsewhere means recorded, key by key. */
  lemma AllRecordedIff(events: seq<Event>, id: nat, c: Claim)
    requires c.Claiming? && Knows(events, id, c) && c.next == |c.keys|
    ensures c.granted == [] && !c.sawInFlight <==> forall k :: k in c.keys ==> Seen(events, RecordedFor(id, k))
  {
    assert c.keys[..c.next] == c.keys;
    hide Seen, GrantedKeys;
    if c.granted == [] && !c.sawInFlight {
      forall k | k in c.keys ensures Seen(events, RecordedFor(id, k)) {
        GrantedKeysAre(events, id, k);
        assert Handled(events, id, k);
      }
    }
    if c.granted != [] {
      GrantedKeysAre(events, id, c.granted[0]);
      NotRecorded(events, id, c, c.granted[0]);
    }
    if k :| Seen(events, InFlightFor(id, k)) {
      NotRecorded(events, id, c, k);
    }
  }

  lemma NotRecorded(events: seq<Event>, id: nat, c: Claim, k: Key)
    requires c.Claiming? && Knows(events, id, c) && c.next == |c.keys|
    requires Seen(events, Grant(id, k)) || Seen(events, InFlightFor(id, k))
    ensures k in c.keys && !Seen(events, RecordedFor(id, k))
  {
    assert c.keys[..c.next] == c.keys;
    hide Seen, GrantedKeys;
    assert Handled(events, id, k) && OneWay(events, id, k);
  }

  lemma FinishStep(s: State, id: nat)
    requires Underway(s, id) && s.claims[id].next == |s.claims[id].keys|
    ensures Step(s, Finish(id)).claims[id] ==
      if s.claims[id].granted != [] then Held(s.claims[id].granted)
      else Ended(if s.claims[id].sawInFlight then InFlight else Duplicate)
  {
  }

  /** The keys of a claim are the distinct keys it began with, and it waits for the store one key at a time. */
  lemma {:induction false} BeganWith(events: seq<Event>, id: nat) returns (i: int)
    requires Underway(Run(events), id)
    ensures 0 <= i < |events| && id !in Run(events[..i]).claims
    ensures events[i].Begin? && events[i].id == id && Run(events).claims[id].keys == Unique(events[i].raw)
    decreases |events|
  {
    var n := |events| - 1;
    var s, e := Run(events[..n]), events[n];
    ClaimsStay(s, e, id);
    if id !in s.claims {
      BeginStep(s, e, id);
      i := n;
    } else {
      i := BeganWith(events[..n], id);
      ClaimHistory(events[..n], id);
      ClaimStep(s, e, id);
      assert events[..n][..i] == events[..i];
    }
  }

  // ---------- what is recorded ----------

  /** The event records the key: the store's success for one of a handle's commits. */
  predicate Records(s: State, e: Event, k: Key) {
    e.CommitDone? && e.ok && e.key == k && Answers(s, e, e.id)
  }

  /** The event drops the key's record: it is forgotten while no handle guards it, or it expires. */
  predicate Unrecords(s: State, e: Event, k: Key) {
    (e.Forget? && k in e.keys && k !in s.owners) || (e.Expire? && k in e.stale)
  }

  ghost predicate RecordedSince(events: seq<Event>, k: Key, i: int) {
    && 0 <= i < |events| && Records(Run(events[..i]), events[i], k)
    && forall j :: i < j < |events| ==> !Unrecords(Run(events[..j]), events[j], k)
  }

  lemma RecentStep(s: State, e: Event, k: Key)
    ensures k in Step(s, e).recent <==> Records(s, e, k) || (k in s.recent && !Unrecords(s, e, k))
    ensures !(Records(s, e, k) && Unrecords(s, e, k))
  {
  }

  lemma RecordedNext(events: seq<Event>, k: Key, i: int)
    requires events != []
    ensures var n := |events| - 1;
      RecordedSince(events, k, i) <==>
        if i == n then Records(Run(events[..n]), events[n], k)
        else RecordedSince(events[..n], k, i) && !Unrecords(Run(events[..n]), events[n], k)
  {
    var n := |events| - 1;
    assert forall j :: 0 <= j < n ==> events[..n][..j] == events[..j];
    hide Run, Records, Unrecords;
    if 0 <= i < n && RecordedSince(events[..n], k, i) && !Unrecords(Run(events[..n]), events[n], k) {
      forall j | i < j < |events| ensures !Unrecords(Run(events[..j]), events[j], k) {
        assert j < n ==> !Unrecords(Run(events[..n][..j]), events[..n][j], k);
      }
    }
  }

  /** A key counts as recorded exactly when some commit of it succeeded and nothing has dropped the record since. */
  lemma {:induction false} RecordedUntilDropped(events: seq<Event>, k: Key)
    ensures k in Run(events).recent <==> exists i :: RecordedSince(events, k, i)
    decreases |events|
  {
    if events != [] {
      var n := |events| - 1;
      RecordedUntilDropped(events[..n], k);
      RecentStep(Run(events[..n]), events[n], k);
      forall i ensures RecordedSince(events, k, i) <==>
        if i == n then Records(Run(events[..n]), events[n], k)
        else RecordedSince(events[..n], k, i) && !Unrecords(Run(events[..n]), events[n], k)
      {
        RecordedNext(events, k, i);
      }
      hide Step, Records, Unrecords, RecordedSince;
      if i :| RecordedSince(events[..n], k, i) {
        InRange(events[..n], k, i);
        assert !Unrecords(Run(events[..n]), events[n], k) ==> RecordedSince(events, k, i);
      }
      if i :| RecordedSince(events, k, i) {
        assert i == n || RecordedSince(events[..n], k, i);
      }
      assert Records(Run(events[..n]), events[n], k) ==> RecordedSince(events, k, n);
    }
  }

  lemma InRange(events: seq<Event>, k: Key, i: int)
    requires RecordedSince(events, k, i)
    ensures 0 <= i < |events|
  {
  }
}
