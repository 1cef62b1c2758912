/** A watched query: coalesced refreshes, numbered by generation, over a connection that comes and goes. */
module FeatureWatch {

  datatype Outcome = Output | Error

  datatype Delivery = Delivery(generation: nat, outcome: Outcome)

  /** `unasked` is history, not code: nobody is going to ask for the current generation any more. */
  datatype State = State(
    hostConnected: bool,
    seenConnected: bool,
    disposed: bool,
    generation: nat,
    scheduled: bool,
    queued: nat,
    issued: seq<nat>,
    inFlight: set<nat>,
    delivered: seq<Delivery>,
    unasked: bool)

  datatype Event =
    /** A watched event fires. */
    | Trigger
    /** The host changes its connection flag and has not told anyone yet. */
    | Flip(connected: bool)
    /** The host calls its connection listeners. */
    | Notify
    /** A queued microtask runs. */
    | Microtask
    /** The reply to an issued request arrives. */
    | Reply(generation: nat, outcome: Outcome)
    | Dispose

  // ---------- steps ----------

  /** Every call is a new generation; only a live, idle watch queues a microtask. */
  function Refresh(s: State): State {
    var t := s.(generation := s.generation + 1, unasked := !s.hostConnected && !s.scheduled);
    if s.disposed || !s.hostConnected || s.scheduled then t else t.(scheduled := true, queued := s.queued + 1)
  }

  function Started(connected: bool, aborted: bool): State {
    var s := State(connected, connected, false, 0, false, 0, [], {}, [], true);
    if aborted then s.(disposed := true, generation := 1) else Refresh(s)
  }

  function StepNotify(s: State): State {
    if s.disposed || s.seenConnected == s.hostConnected then s
    else Refresh(s.(seenConnected := s.hostConnected))
  }

  function StepMicrotask(s: State): State {
    if s.queued == 0 then s
    else
      var t := s.(queued := s.queued - 1, scheduled := false);
      if s.disposed || !s.hostConnected then t.(unasked := true)
      else t.(issued := s.issued + [s.generation], inFlight := s.inFlight + {s.generation})
  }

  function StepReply(s: State, g: nat, outcome: Outcome): State {
    if g !in s.inFlight then s
    else
      var t := s.(inFlight := s.inFlight - {g});
      if g != s.generation || s.disposed then t
      else if s.hostConnected then t.(delivered := s.delivered + [Delivery(g, outcome)])
      else t.(unasked := true)
  }

  function Step(s: State, e: Event): State {
    match e
    case Trigger => if s.disposed then s else Refresh(s)
    case Flip(c) => s.(hostConnected := c)
    case Notify => StepNotify(s)
    case Microtask => StepMicrotask(s)
    case Reply(g, outcome) => StepReply(s, g, outcome)
    case Dispose => s.(disposed := true, generation := s.generation + 1)
  }

  function Run(s: State, events: seq<Event>): State {
    if events == [] then s else Step(Run(s, events[..|events| - 1]), events[|events| - 1])
  }

  // ---------- safety ----------

  ghost predicate Increasing(gs: seq<nat>) {
    forall i, j :: 0 <= i < j < |gs| ==> gs[i] < gs[j]
  }

  ghost predicate DeliveriesIncrease(ds: seq<Delivery>) {
    forall i, j :: 0 <= i < j < |ds| ==> ds[i].generation < ds[j].generation
  }

  /** Requests carry ever larger generations, at most one microtask is queued, and answers are
      delivered in order, once each, for requests that were issued. */
  ghost predicate Safe(s: State) {
    && s.queued == (if s.scheduled then 1 else 0)
    && Increasing(s.issued)
    && (forall g :: g in s.issued ==> g <= s.generation && (s.scheduled ==> g < s.generation))
    && (forall g :: g in s.inFlight ==> g in s.issued)
    && DeliveriesIncrease(s.delivered)
    && (forall d :: d in s.delivered ==> d.generation in s.issued && d.generation !in s.inFlight)
  }

  ghost predicate Answered(s: State) {
    exists d :: d in s.delivered && d.generation == s.generation
  }

  /** The current generation is queued, asked for, or answered. */
  ghost predicate Pending(s: State) {
    s.scheduled || s.generation in s.inFlight || Answered(s)
  }

  ghost predicate Tracked(s: State) {
    Safe(s) && (!s.disposed ==> (Pending(s) <==> !s.unasked))
  }

  lemma RefreshTracked(s: State)
    requires Safe(s) && !s.disposed
    ensures Tracked(Refresh(s))
  {
    var t := Refresh(s);
    assert forall g :: g in s.issued ==> g < t.generation;
    assert !Answered(t);
  }

  lemma MicrotaskTracked(s: State)
    requires Tracked(s)
    ensures Tracked(StepMicrotask(s))
  {
    var t := StepMicrotask(s);
    forall i | 0 <= i < |s.issued| && s.queued > 0 ensures s.issued[i] < s.generation {
      assert s.issued[i] in s.issued;
    }
    if t != s && !s.disposed {
      assert !Answered(s) && s.generation !in s.inFlight;
      if !s.hostConnected {
        assert !Answered(t);
      }
    }
  }

  lemma ReplyTracked(s: State, g: nat, outcome: Outcome)
    requires Tracked(s)
    ensures Tracked(StepReply(s, g, outcome))
  {
    var t := StepReply(s, g, outcome);
    if t != s && !s.disposed {
      if g == s.generation {
        assert !s.scheduled && !Answered(s);
        if s.hostConnected {
          var d := Delivery(g, outcome);
          assert t.delivered[|t.delivered| - 1] == d && Answered(t);
          forall e | e in s.delivered ensures e.generation < g {
            assert e.generation in s.issued && e.generation !in s.inFlight;
          }
        } else {
          assert !Answered(t);
        }
      } else {
        assert Answered(t) <==> Answered(s);
      }
    }
  }

  lemma StepTracked(s: State, e: Event)
    requires Tracked(s)
    ensures Tracked(Step(s, e))
  {
    hide Tracked;
    match e {
      case Trigger => TriggerTracked(s);
      case Flip(c) => FlipTracked(s, c);
      case Notify => NotifyTracked(s);
      case Microtask => MicrotaskTracked(s);
      case Reply(g, outcome) => ReplyTracked(s, g, outcome);
      case Dispose => DisposeTracked(s);
    }
  }

  lemma TriggerTracked(s: State)
    requires Tracked(s)
    ensures Tracked(Step(s, Trigger))
  {
    if !s.disposed {
      RefreshTracked(s);
    }
  }

  lemma FlipTracked(s: State, connected: bool)
    requires Tracked(s)
    ensures Tracked(Step(s, Flip(connected)))
  {
    assert Answered(Step(s, Flip(connected))) <==> Answered(s);
  }

  lemma NotifyTracked(s: State)
    requires Tracked(s)
    ensures Tracked(Step(s, Notify))
  {
    if !s.disposed {
      RefreshTracked(s.(seenConnected := s.hostConnected));
    }
  }

  lemma DisposeTracked(s: State)
    requires Tracked(s)
    ensures Tracked(Step(s, Dispose))
  {
  }

  lemma StartTracked(connected: bool, aborted: bool)
    ensures Tracked(Started(connected, aborted))
  {
  }

  /** On every run, whatever the host does: requests are strictly increasing, deliveries are in order
      and unrepeated, and a live watch is owed an answer exactly when nothing has dropped it. */
  lemma {:induction false} RunTracked(connected: bool, aborted: bool, events: seq<Event>)
    ensures Tracked(Run(Started(connected, aborted), events))
    decreases |events|
  {
    hide Tracked;
    if events == [] {
      StartTracked(connected, aborted);
    } else {
      RunTracked(connected, aborted, events[..|events| - 1]);
      StepTracked(Run(Started(connected, aborted), events[..|events| - 1]), events[|events| - 1]);
    }
  }

  /** Something is delivered only by the reply to the newest request of a live, connected watch. */
  lemma DeliveryIsLive(s: State, e: Event)
    ensures Step(s, e).delivered != s.delivered ==>
      && !s.disposed && s.hostConnected
      && e.Reply? && e.generation == s.generation && e.generation in s.inFlight
      && Step(s, e).delivered == s.delivered + [Delivery(e.generation, e.outcome)]
    ensures s.disposed ==> Step(s, e).disposed && Step(s, e).issued == s.issued
  {
  }

  // ---------- convergence ----------

  /** The host has changed its connection flag since it last told its listeners. */
  predicate Outstanding(events: seq<Event>) {
    && events != []
    && var last := events[|events| - 1];
       last.Flip? || (last != Notify && Outstanding(events[..|events| - 1]))
  }

  /** Each change of the connection flag is announced before the next change; anything may happen in between. */
  predicate Prompt(events: seq<Event>) {
    events == [] ||
      var init := events[..|events| - 1];
      Prompt(init) && (events[|events| - 1].Flip? ==> !Outstanding(init))
  }

  /** While the watch and its host agree that they are connected, nothing has dropped the current generation. */
  ghost predicate InStep(s: State) {
    !s.disposed && s.seenConnected && s.hostConnected ==> !s.unasked
  }

  ghost predicate Agreed(s: State) {
    !s.disposed ==> s.seenConnected == s.hostConnected
  }

  lemma StepInStep(s: State, e: Event)
    requires Tracked(s) && InStep(s) && (e.Flip? ==> Agreed(s))
    ensures InStep(Step(s, e))
    ensures !e.Flip? && (e == Notify || Agreed(s)) ==> Agreed(Step(s, e))
  {
  }

  lemma {:induction false} PromptRunInStep(connected: bool, aborted: bool, events: seq<Event>)
    requires Prompt(events)
    ensures InStep(Run(Started(connected, aborted), events))
    ensures !Outstanding(events) ==> Agreed(Run(Started(connected, aborted), events))
    decreases |events|
  {
    if events != [] {
      var init := events[..|events| - 1];
      PromptRunInStep(connected, aborted, init);
      RunTracked(connected, aborted, init);
      StepInStep(Run(Started(connected, aborted), init), events[|events| - 1]);
    }
  }

  /** Once every change has been announced, a connected live watch has its newest generation queued,
      asked for, or answered. */
  lemma Converges(connected: bool, aborted: bool, events: seq<Event>)
    requires Prompt(events) && !Outstanding(events)
    ensures var s := Run(Started(connected, aborted), events);
      !s.disposed && s.hostConnected ==> Pending(s)
  {
    PromptRunInStep(connected, aborted, events);
    RunTracked(connected, aborted, events);
  }

  ghost predicate Quiescent(s: State) {
    !s.scheduled && s.inFlight == {}
  }

  /** When nothing is left to run, the last delivery answers the last trigger. */
  lemma QuiescentIsAnswered(connected: bool, aborted: bool, events: seq<Event>)
    requires Prompt(events) && !Outstanding(events)
    ensures var s := Run(Started(connected, aborted), events);
      !s.disposed && s.hostConnected && Quiescent(s) ==>
        s.delivered != [] && s.delivered[|s.delivered| - 1].generation == s.generation
  {
    var s := Run(Started(connected, aborted), events);
    Converges(connected, aborted, events);
    RunTracked(connected, aborted, events);
    if !s.disposed && s.hostConnected && Quiescent(s) {
      var d :| d in s.delivered && d.generation == s.generation;
      var last := s.delivered[|s.delivered| - 1];
      assert last in s.delivered && last.generation in s.issued;
    }
  }

  // ---------- which event the last delivery answers ----------

  /** The event calls for a new answer: a watched event, or the notice that the connection has changed. */
  predicate Asks(s: State, e: Event) {
    !s.disposed && (e == Trigger || (e == Notify && s.seenConnected != s.hostConnected))
  }

  ghost predicate AsksAt(s0: State, events: seq<Event>, i: int) {
    0 <= i < |events| && Asks(Run(s0, events[..i]), events[i])
  }

  /** Microtask `j` issues the request numbered `g`. */
  ghost predicate IssuesAt(s0: State, events: seq<Event>, j: int, g: nat) {
    0 <= j < |events| && events[j] == Microtask && Run(s0, events[..j + 1]).issued == Run(s0, events[..j]).issued + [g]
  }

  /** Reply `k` is delivered. */
  ghost predicate DeliversAt(s0: State, events: seq<Event>, k: int, d: Delivery) {
    && 0 <= k < |events| && events[k] == Reply(d.generation, d.outcome)
    && Run(s0, events[..k + 1]).delivered == Run(s0, events[..k]).delivered + [d]
  }

  lemma RunNext(s0: State, events: seq<Event>, i: nat)
    requires i < |events|
    ensures Run(s0, events[..i + 1]) == Step(Run(s0, events[..i]), events[i])
  {
    assert events[..i + 1][..i] == events[..i];
  }

  /** A request is issued only by a microtask of a live, connected watch, and then for the newest generation. */
  lemma IssueIsLive(s: State, e: Event)
    ensures Step(s, e).issued != s.issued ==>
      && e == Microtask && s.queued > 0 && !s.disposed && s.hostConnected
      && Step(s, e).issued == s.issued + [s.generation] && s.generation in Step(s, e).inFlight
    ensures s.generation <= Step(s, e).generation
    ensures Asks(s, e) ==> s.generation < Step(s, e).generation
  {
  }

  lemma StepAt(s0: State, events: seq<Event>, i: nat)
    requires i < |events|
    ensures var s, s' := Run(s0, events[..i]), Run(s0, events[..i + 1]);
      && s.generation <= s'.generation
      && (s'.issued != s.issued ==> IssuesAt(s0, events, i, s.generation))
      && (s'.delivered != s.delivered ==> events[i].Reply? && DeliversAt(s0, events, i, Delivery(events[i].generation, events[i].outcome)))
      && (Asks(s, events[i]) ==> s.generation < s'.generation && s'.issued == s.issued)
  {
    RunNext(s0, events, i);
    IssueIsLive(Run(s0, events[..i]), events[i]);
    DeliveryIsLive(Run(s0, events[..i]), events[i]);
    hide Run, Step;
  }

  lemma {:induction false} GenerationGrows(s0: State, events: seq<Event>, a: nat, b: nat)
    requires a <= b <= |events|
    ensures Run(s0, events[..a]).generation <= Run(s0, events[..b]).generation
    decreases b
  {
    hide Run;
    if a < b {
      GenerationGrows(s0, events, a, b - 1);
      StepAt(s0, events, b - 1);
    }
  }

  lemma {:induction false} IssueFound(s0: State, events: seq<Event>, a: nat, b: nat, g: nat) returns (j: int)
    requires a <= b <= |events| && g !in Run(s0, events[..a]).issued && g in Run(s0, events[..b]).issued
    ensures a <= j < b && IssuesAt(s0, events, j, g)
    decreases b
  {
    hide Run;
    StepAt(s0, events, b - 1);
    if g in Run(s0, events[..b - 1]).issued {
      j := IssueFound(s0, events, a, b - 1, g);
    } else {
      j := b - 1;
    }
  }

  lemma {:induction false} DeliveryFound(s0: State, events: seq<Event>, a: nat, b: nat, d: Delivery) returns (k: int)
    requires a <= b <= |events| && d !in Run(s0, events[..a]).delivered && d in Run(s0, events[..b]).delivered
    ensures a <= k < b && DeliversAt(s0, events, k, d)
    decreases b
  {
    hide Run;
    StepAt(s0, events, b - 1);
    if d in Run(s0, events[..b - 1]).delivered {
      k := DeliveryFound(s0, events, a, b - 1, d);
    } else {
      k := b - 1;
    }
  }

  /** Live and connected, with nothing left to run. */
  ghost predicate Resting(s: State) {
    !s.disposed && s.hostConnected && Quiescent(s)
  }

  /** The last delivery is the reply to a request that a microtask issued after event `i`. */
  ghost predicate AnsweredSince(s0: State, events: seq<Event>, i: int) {
    var delivered := Run(s0, events).delivered;
    delivered != [] && AnsweredBy(s0, events, i, delivered[|delivered| - 1])
  }

  ghost predicate AnsweredBy(s0: State, events: seq<Event>, i: int, d: Delivery) {
    exists j, k :: AnswersFrom(s0, events, i, j, k, d)
  }

  ghost predicate AnswersFrom(s0: State, events: seq<Event>, i: int, j: int, k: int, d: Delivery) {
    i < j < k && IssuesAt(s0, events, j, d.generation) && DeliversAt(s0, events, k, d)
  }

  /** Once nothing is left to announce or to run, the last delivery is the reply to a request that was issued after
      every event that asked for an answer. */
  lemma LastDeliveryAnswers(connected: bool, aborted: bool, events: seq<Event>, i: nat)
    requires Prompt(events) && !Outstanding(events) && AsksAt(Started(connected, aborted), events, i)
    requires Resting(Run(Started(connected, aborted), events))
    ensures AnsweredSince(Started(connected, aborted), events, i)
  {
    hide *;
    var s0 := Started(connected, aborted);
    var n := |events|;
    var last := LastIsNewest(connected, aborted, events);
    AskedAfter(connected, aborted, events, i);
    assert events[..n] == events;
    AnswerIsFound(connected, aborted, events, i, last);
  }

  lemma AnswerIsFound(connected: bool, aborted: bool, events: seq<Event>, i: nat, last: Delivery)
    requires i < |events|
    requires var s := Run(Started(connected, aborted), events);
      && last in s.delivered && last == s.delivered[|s.delivered| - 1] && last.generation in s.issued
      && last.generation !in Run(Started(connected, aborted), events[..i + 1]).issued
    ensures AnsweredSince(Started(connected, aborted), events, i)
  {
    hide Run, Started, IssuesAt, DeliversAt;
    var s0, n := Started(connected, aborted), |events|;
    assert events[..n] == events;
    var j := IssueFound(s0, events, i + 1, n, last.generation);
    NotDeliveredYet(connected, aborted, events, j, last);
    var k := DeliveryFound(s0, events, j + 1, n, last);
    assert AnswersFrom(s0, events, i, j, k, last);
  }

  lemma LastIsNewest(connected: bool, aborted: bool, events: seq<Event>) returns (last: Delivery)
    requires Prompt(events) && !Outstanding(events) && Resting(Run(Started(connected, aborted), events))
    ensures var s := Run(Started(connected, aborted), events);
      && s.delivered != [] && last == s.delivered[|s.delivered| - 1] && last in s.delivered
      && last.generation == s.generation && last.generation in s.issued
  {
    QuiescentIsAnswered(connected, aborted, events);
    RunTracked(connected, aborted, events);
    hide Run, Started, Prompt, Outstanding;
    var s := Run(Started(connected, aborted), events);
    last := s.delivered[|s.delivered| - 1];
  }

  /** Nothing issued before an event that asks has the newest generation. */
  lemma AskedAfter(connected: bool, aborted: bool, events: seq<Event>, i: nat)
    requires AsksAt(Started(connected, aborted), events, i)
    ensures i < |events|
    ensures var s0 := Started(connected, aborted); Run(s0, events).generation !in Run(s0, events[..i + 1]).issued
  {
    var s0 := Started(connected, aborted);
    RunTracked(connected, aborted, events[..i]);
    hide Run;
    StepAt(s0, events, i);
    GenerationGrows(s0, events, i + 1, |events|);
    assert events[..|events|] == events;
  }

  lemma NotDeliveredYet(connected: bool, aborted: bool, events: seq<Event>, j: int, d: Delivery)
    requires IssuesAt(Started(connected, aborted), events, j, d.generation)
    ensures d !in Run(Started(connected, aborted), events[..j + 1]).delivered
  {
    var s0 := Started(connected, aborted);
    RunTracked(connected, aborted, events[..j]);
    RunTracked(connected, aborted, events[..j + 1]);
    hide Run;
    StepAt(s0, events, j);
    var before, issued := Run(s0, events[..j]).issued, Run(s0, events[..j + 1]).issued;
    forall x | 0 <= x < |before| ensures before[x] < d.generation {
      assert issued[x] == before[x] && issued[|before|] == d.generation;
    }
  }

  /** A watched event on a live, connected watch leaves one microtask queued, and queues it unless one was. */
  lemma TriggerQueuesOne(s: State)
    requires !s.disposed && s.hostConnected
    ensures var t := Step(s, Trigger);
      t.scheduled && t.queued == s.queued + (if s.scheduled then 0 else 1) && t.issued == s.issued && t.inFlight == s.inFlight
  {
  }

  /** A watch that is born aborted never asks and never delivers. */
  lemma {:induction false} AbortedNeverAsks(connected: bool, events: seq<Event>)
    ensures var s := Run(Started(connected, true), events); s.disposed && s.queued == 0 && s.issued == [] && s.delivered == []
    decreases |events|
  {
    if events != [] {
      AbortedNeverAsks(connected, events[..|events| - 1]);
      RunTracked(connected, true, events[..|events| - 1]);
    }
  }

  function Work(s: State): nat {
    2 * s.queued + |s.inFlight|
  }

  /** Each microtask and each reply leaves strictly less work, so quiescence is reached. */
  lemma WorkShrinks(s: State, e: Event)
    requires (e.Microtask? && s.queued > 0) || (e.Reply? && e.generation in s.inFlight)
    ensures Work(Step(s, e)) < Work(s)
    ensures Tracked(s) ==> (Quiescent(s) <==> Work(s) == 0)
  {
    assert |s.inFlight + {s.generation}| <= |s.inFlight| + 1;
    if e.Reply? {
      assert |s.inFlight - {e.generation}| == |s.inFlight| - 1;
    }
  }

  /** A host that drops the connection and restores it before telling anyone can lose the answer for
      good: the reply that arrives in between is discarded and the listener sees no change. */
  lemma UnannouncedFlipLosesAnswer()
    ensures var s := Run(Started(true, false), [Microtask, Flip(false), Reply(1, Output), Flip(true), Notify]);
      !s.disposed && s.hostConnected && Quiescent(s) && s.delivered == [] && !Pending(s)
  {
    var s0 := Started(true, false);
    var s1 := Step(s0, Microtask);
    var s2 := Step(s1, Flip(false));
    var s3 := Step(s2, Reply(1, Output));
    var s4 := Step(s3, Flip(true));
    var s5 := Step(s4, Notify);
    assert s1.inFlight == {1} && s3.inFlight == {};
    var es := [Microtask, Flip(false), Reply(1, Output), Flip(true), Notify];
    assert es[..4] == [Microtask, Flip(false), Reply(1, Output), Flip(true)];
    assert es[..4][..3] == [Microtask, Flip(false), Reply(1, Output)];
    assert es[..4][..3][..2] == [Microtask, Flip(false)];
    assert es[..4][..3][..2][..1] == [Microtask];
    assert es[..4][..3][..2][..1][..0] == [];
    assert Run(s0, es[..4][..3][..2][..1]) == s1;
    assert Run(s0, es[..4][..3][..2]) == s2;
    assert Run(s0, es[..4][..3]) == s3;
    assert Run(s0, es[..4]) == s4;
    assert Run(s0, es) == s5;
  }

  // ---------- the watch itself ----------

  class Watch {
    var hostConnected: bool
    var connected: bool
    var disposed: bool
    var generation: nat
    var scheduled: bool
    ghost var queued: nat
    ghost var issued: seq<nat>
    var inFlight: set<nat>
    var delivered: seq<Delivery>
    ghost var unasked: bool

    ghost function Abs(): State
      reads this
    {
      State(hostConnected, connected, disposed, generation, scheduled, queued, issued, inFlight, delivered, unasked)
    }

    constructor (hostConnected: bool, aborted: bool)
      ensures Abs() == Started(hostConnected, aborted) && Tracked(Abs())
    {
      this.hostConnected, connected, disposed, generation := hostConnected, hostConnected, false, 0;
      scheduled, queued, issued, inFlight, delivered, unasked := false, 0, [], {}, [], true;
      new;
      StartTracked(hostConnected, aborted);
      if aborted {
        DisposeWatch();
      } else {
        RefreshNow();
      }
    }

    method RefreshNow()
      modifies this
      ensures Abs() == Refresh(old(Abs()))
    {
      generation := generation + 1;
      unasked := !hostConnected && !scheduled;
      if disposed || !hostConnected || scheduled {
        return;
      }
      scheduled := true;
      queued := queued + 1;
    }

    method OnEvent()
      requires Tracked(Abs())
      modifies this
      ensures Abs() == Step(old(Abs()), Trigger) && Tracked(Abs())
      ensures old(!disposed && hostConnected) ==> scheduled && queued == old(queued) + (if old(scheduled) then 0 else 1)
    {
      StepTracked(Abs(), Trigger);
      if !disposed {
        RefreshNow();
      }
    }

    method OnConnectionChange()
      requires Tracked(Abs())
      modifies this
      ensures Abs() == Step(old(Abs()), Notify) && Tracked(Abs())
    {
      StepTracked(Abs(), Notify);
      if !disposed && connected != hostConnected {
        connected := hostConnected;
        RefreshNow();
      }
    }

    method RunMicrotask()
      requires Tracked(Abs()) && queued > 0
      modifies this
      ensures Abs() == Step(old(Abs()), Microtask) && Tracked(Abs())
    {
      StepTracked(Abs(), Microtask);
      queued := queued - 1;
      scheduled := false;
      if disposed || !hostConnected {
        unasked := true;
        return;
      }
      var current := generation;
      issued := issued + [current];
      inFlight := inFlight + {current};
    }

    method OnReply(current: nat, outcome: Outcome)
      requires Tracked(Abs()) && current in inFlight
      modifies this
      ensures Abs() == Step(old(Abs()), Reply(current, outcome)) && Tracked(Abs())
    {
      StepTracked(Abs(), Reply(current, outcome));
      inFlight := inFlight - {current};
      if !disposed && current == generation && hostConnected {
        delivered := delivered + [Delivery(current, outcome)];
      } else if !disposed && current == generation {
        unasked := true;
      }
    }

    method DisposeWatch()
      requires Tracked(Abs())
      modifies this
      ensures Abs() == Step(old(Abs()), Dispose) && Tracked(Abs())
    {
      StepTracked(Abs(), Dispose);
      disposed := true;
      generation := generation + 1;
    }
  }
}
