/** Several durable claims settled through one lifecycle, with adoption one source at a time. */
module IngressFanIn {

  /** Which optional release callbacks a source has. */
  datatype Source = Source(hasFailed: bool, hasCancelled: bool)

  datatype How = Abandoned | Failed | Cancelled

  datatype Release = Release(source: nat, how: How)

  datatype Ending = Completed | Rejected(index: nat)

  datatype State = State(
    sources: seq<Source>,
    handedOff: bool,
    settledAll: bool,
    running: map<nat, nat>,
    ended: map<nat, Ending>,
    adoptCalls: seq<nat>,
    adopted: set<nat>,
    releases: seq<Release>)

  datatype Event =
    /** Callbacks of the combined lifecycle. */
    | OnAdopted(task: nat)
    | OnDeferred
    | OnFailed
    | OnCancelled
    | OnAbandoned
    /** The helpers beside it. */
    | Settle(task: nat)
    | Abandon(withError: bool)
    | Cancel
    /** The awaited `onAdopted` of one source resolves or rejects. */
    | AdoptReply(task: nat, ok: bool)

  predicate IsHelper(e: Event) {
    e.Settle? || e.Abandon? || e.Cancel?
  }

  function Start(sources: seq<Source>): State {
    State(sources, false, false, map[], map[], [], {}, [])
  }

  // ---------- releasing ----------

  function FailHow(src: Source): How {
    if src.hasFailed then Failed else Abandoned
  }

  function CancelHow(src: Source): How {
    if src.hasCancelled then Cancelled else Abandoned
  }

  datatype Reason = Abandoning | Failing | Cancelling

  function HowFor(reason: Reason, src: Source): How {
    match reason
    case Abandoning => Abandoned
    case Failing => FailHow(src)
    case Cancelling => CancelHow(src)
  }

  /** One release for each source from `first` on, in order. */
  function Batch(sources: seq<Source>, first: nat, reason: Reason): seq<Release>
    requires first <= |sources|
  {
    seq(|sources| - first, i requires 0 <= i < |sources| - first =>
      Release(first + i, HowFor(reason, sources[first + i])))
  }

  /** `settleOnce`: only the first release of any kind gets through. */
  function ReleaseOnce(s: State, first: nat, reason: Reason): State
    requires first <= |s.sources|
  {
    if s.settledAll then s
    else s.(settledAll := true, releases := s.releases + Batch(s.sources, first, reason))
  }

  predicate SupportsCancellation(s: State) {
    forall src :: src in s.sources ==> src.hasCancelled
  }

  // ---------- steps ----------

  function StartAdoption(s: State, task: nat): State
    requires s.sources != []
  {
    if task in s.running || task in s.ended then s
    else s.(handedOff := true, running := s.running[task := 0], adoptCalls := s.adoptCalls + [0])
  }

  function StepReply(s: State, task: nat, ok: bool): State {
    if task !in s.running || s.running[task] >= |s.sources| then s
    else
      var i := s.running[task];
      if ok then
        var t := s.(adopted := s.adopted + {i});
        if i + 1 < |s.sources| then t.(running := s.running[task := i + 1], adoptCalls := s.adoptCalls + [i + 1])
        else t.(running := s.running - {task}, ended := s.ended[task := Completed])
      else
        ReleaseOnce(s, i, Failing).(running := s.running - {task}, ended := s.ended[task := Rejected(i)])
  }

  /** Without sources there is no lifecycle and the helpers do nothing. */
  function Step(s: State, e: Event): State {
    if s.sources == [] then s
    else
      match e
      case OnAdopted(task) => StartAdoption(s, task)
      case OnDeferred => s.(handedOff := true)
      case OnFailed => ReleaseOnce(s.(handedOff := true), 0, Failing)
      case OnCancelled =>
        if SupportsCancellation(s) then ReleaseOnce(s.(handedOff := true), 0, Cancelling) else s
      case OnAbandoned => ReleaseOnce(s.(handedOff := true), 0, Abandoning)
      case Settle(task) => if s.handedOff then s else StartAdoption(s, task)
      case Abandon(withError) =>
        if s.handedOff then s
        else ReleaseOnce(s.(handedOff := true), 0, if withError then Failing else Abandoning)
      case Cancel => if s.handedOff then s else ReleaseOnce(s.(handedOff := true), 0, Cancelling)
      case AdoptReply(task, ok) => StepReply(s, task, ok)
  }

  function Run(s: State, events: seq<Event>): State
    decreases |events|
  {
    if events == [] then s else Run(Step(s, events[0]), events[1..])
  }

  // ---------- on every run ----------

  ghost predicate ReleasedOnce(s: State) {
    && (!s.settledAll ==> s.releases == [])
    && (s.settledAll ==> exists first: nat, reason :: first < |s.sources| && s.releases == Batch(s.sources, first, reason))
  }

  lemma StepReleasesOnce(s: State, e: Event)
    requires ReleasedOnce(s)
    ensures ReleasedOnce(Step(s, e)) && Step(s, e).sources == s.sources
    ensures s.settledAll ==> Step(s, e).settledAll && Step(s, e).releases == s.releases
  {
    var s' := Step(s, e);
    if !s.settledAll && s'.settledAll {
      assert forall b: seq<Release> :: [] + b == b;
      var first := if e.AdoptReply? then s.running[e.task] else 0;
      var reason := ReasonFor(e);
      assert s'.releases == Batch(s.sources, first, reason);
    }
  }

  /** Whatever is called in whatever order, every source sees at most one release callback, and once
      one release has gone through no later call releases anything. */
  lemma {:induction false} RunReleasesOnce(s: State, events: seq<Event>)
    requires ReleasedOnce(s)
    ensures ReleasedOnce(Run(s, events)) && Run(s, events).sources == s.sources
    ensures s.settledAll ==> Run(s, events).releases == s.releases
    decreases |events|
  {
    if events != [] {
      StepReleasesOnce(s, events[0]);
      RunReleasesOnce(Step(s, events[0]), events[1..]);
    }
  }

  lemma AtMostOneRelease(sources: seq<Source>, events: seq<Event>, i: nat, j: nat)
    requires var r := Run(Start(sources), events).releases; i < |r| && j < |r| && r[i].source == r[j].source
    ensures i == j
  {
    RunReleasesOnce(Start(sources), events);
  }

  /** Which callback a source gets: the one named for what happened if it has it, and `onAbandoned` if it has not. */
  predicate Gets(src: Source, e: Event, how: How) {
    match e
    case OnAbandoned => how == Abandoned
    case Abandon(withError) => how == if withError && src.hasFailed then Failed else Abandoned
    case OnFailed => how == if src.hasFailed then Failed else Abandoned
    case AdoptReply(_, _) => how == if src.hasFailed then Failed else Abandoned
    case OnCancelled => how == if src.hasCancelled then Cancelled else Abandoned
    case Cancel => how == if src.hasCancelled then Cancelled else Abandoned
    case _ => false
  }

  /** What an event releases: nothing, or the sources from `first` on, in order, each through its own callback. */
  lemma ReleaseIs(s: State, e: Event) returns (first: nat)
    requires Step(s, e).releases != s.releases
    ensures s.releases <= Step(s, e).releases && first < |s.sources|
    ensures var n := |s.releases|;
      var after := Step(s, e).releases;
      && |after| == n + |s.sources| - first
      && (forall i :: first <= i < |s.sources| ==> after[n + i - first].source == i && Gets(s.sources[i], e, after[n + i - first].how))
    ensures e.AdoptReply? ==> !e.ok && e.task in s.running && first == s.running[e.task]
    ensures !e.AdoptReply? ==> first == 0
    ensures e.OnCancelled? ==> forall src :: src in s.sources ==> src.hasCancelled
    ensures IsHelper(e) ==> !s.handedOff
  {
    first := if e.AdoptReply? then s.running[e.task] else 0;
    var reason := ReasonFor(e);
    assert Step(s, e).releases == s.releases + Batch(s.sources, first, reason);
    forall i | first <= i < |s.sources|
      ensures Step(s, e).releases[|s.releases| + i - first] == Release(i, HowFor(reason, s.sources[i]))
    {
      assert Batch(s.sources, first, reason)[i - first] == Release(first + (i - first), HowFor(reason, s.sources[i]));
    }
  }

  function ReasonFor(e: Event): Reason {
    match e
    case OnCancelled => Cancelling
    case Cancel => Cancelling
    case OnAbandoned => Abandoning
    case Abandon(withError) => if withError then Failing else Abandoning
    case _ => Failing
  }

  /** Every callback and helper that is offered takes the sources over, and from then on the helpers do nothing. */
  lemma HandoffIs(s: State, e: Event)
    requires s.sources != []
    ensures s.handedOff && IsHelper(e) ==> Step(s, e) == s
    ensures s.handedOff ==> Step(s, e).handedOff
    ensures !e.AdoptReply? && (e.OnCancelled? ==> SupportsCancellation(s)) ==>
      Step(s, e).handedOff || ((e.OnAdopted? || e.Settle?) && (e.task in s.running || e.task in s.ended))
  {
  }

  // ---------- adoption first ----------

  ghost predicate Below(n: nat, s: set<nat>) {
    forall i: nat :: i in s <==> i < n
  }

  function Upto(n: nat): seq<nat> {
    seq(n, i => i)
  }

  /** One adoption is under way, it has reached source `i`, and nothing has been released. */
  ghost predicate Adopting(s: State, task: nat, i: nat) {
    && i < |s.sources| && s.handedOff && !s.settledAll && s.releases == []
    && s.running == map[task := i] && task !in s.ended
    && s.adoptCalls == Upto(i + 1) && Below(i, s.adopted)
  }

  /** That adoption was rejected by source `i`. */
  ghost predicate RejectedAt(s: State, task: nat, i: nat) {
    && i < |s.sources| && s.handedOff && s.settledAll && s.running == map[]
    && task in s.ended && s.ended[task] == Rejected(i)
    && s.adoptCalls == Upto(i + 1) && Below(i, s.adopted)
    && s.releases == Batch(s.sources, i, Failing)
  }

  ghost predicate AllAdopted(s: State, task: nat) {
    && s.handedOff && !s.settledAll && s.releases == [] && s.running == map[]
    && task in s.ended && s.ended[task] == Completed
    && s.adoptCalls == Upto(|s.sources|) && Below(|s.sources|, s.adopted)
  }

  lemma UptoNext(n: nat)
    ensures Upto(n) + [n] == Upto(n + 1)
  {
  }

  /** Each reply moves the adoption on by one source, finishes it, or turns it into a rejection that
      releases exactly the sources from the rejecting one on. */
  lemma AdoptionStep(s: State, task: nat, i: nat, ok: bool)
    requires Adopting(s, task, i)
    ensures var s' := Step(s, AdoptReply(task, ok));
      if !ok then RejectedAt(s', task, i)
      else if i + 1 < |s.sources| then Adopting(s', task, i + 1)
      else AllAdopted(s', task)
  {
    UptoNext(i + 1);
    assert [] + Batch(s.sources, i, Failing) == Batch(s.sources, i, Failing);
    assert map[task := i] - {task} == map[];
    assert map[task := i][task := i + 1] == map[task := i + 1];
  }

  ghost predicate AdoptsFrom(e: Event, task: nat) {
    e == OnAdopted(task) || e == Settle(task)
  }

  lemma AdoptionStarts(s: State, e: Event, task: nat)
    requires s.sources != [] && AdoptsFrom(e, task) && (e.Settle? ==> !s.handedOff)
    requires s == Start(s.sources).(handedOff := s.handedOff)
    ensures Adopting(Step(s, e), task, 0)
  {
    UptoNext(0);
    assert [] + [0] == Upto(1);
    assert map[][task := 0] == map[task := 0];
  }

  /** No terminal call yet: deferrals, stray replies, and helpers that come after a deferral and so do nothing. */
  predicate Before(deferred: bool, events: seq<Event>)
    decreases |events|
  {
    events == []
    || (events[0].OnDeferred? && Before(true, events[1..]))
    || (events[0].AdoptReply? && Before(deferred, events[1..]))
    || (deferred && IsHelper(events[0]) && Before(deferred, events[1..]))
  }

  lemma {:induction false} BeforeOnlyDefers(s: State, events: seq<Event>)
    requires s.sources != [] && s == Start(s.sources).(handedOff := s.handedOff) && Before(s.handedOff, events)
    ensures Run(s, events) == s.(handedOff := s.handedOff || OnDeferred in events)
    decreases |events|
  {
    if events != [] {
      var s' := Step(s, events[0]);
      assert s' == s.(handedOff := s.handedOff || events[0].OnDeferred?);
      BeforeOnlyDefers(s', events[1..]);
      assert events == [events[0]] + events[1..];
    }
  }

  /** What can fall between the replies of an adoption: its own next reply, and calls that are not terminal or come too late. */
  predicate During(e: Event, task: nat) {
    IsHelper(e) || e.OnDeferred? || (e.AdoptReply? && (e.task != task || e.ok))
  }

  function OkReplies(events: seq<Event>, task: nat): nat {
    if events == [] then 0 else (if events[0] == AdoptReply(task, true) then 1 else 0) + OkReplies(events[1..], task)
  }

  lemma {:induction false} AdoptionReaches(s: State, task: nat, i: nat, events: seq<Event>)
    requires Adopting(s, task, i) && forall e :: e in events ==> During(e, task)
    ensures var n := i + OkReplies(events, task);
      if n < |s.sources| then Adopting(Run(s, events), task, n) else AllAdopted(Run(s, events), task)
    ensures Run(s, events).sources == s.sources
    decreases |events|
  {
    if events != [] {
      var s' := Step(s, events[0]);
      if events[0] == AdoptReply(task, true) {
        AdoptionStep(s, task, i, true);
        if i + 1 < |s.sources| {
          AdoptionReaches(s', task, i + 1, events[1..]);
        } else {
          AdoptionStays(s', task, events[1..]);
        }
      } else {
        assert During(events[0], task);
        assert s' == s;
        AdoptionReaches(s, task, i, events[1..]);
      }
    }
  }

  lemma {:induction false} AdoptionStays(s: State, task: nat, events: seq<Event>)
    requires AllAdopted(s, task) && forall e :: e in events ==> During(e, task)
    ensures Run(s, events) == s
    decreases |events|
  {
    if events != [] {
      assert During(events[0], task);
      assert Step(s, events[0]) == s;
      AdoptionStays(s, task, events[1..]);
    }
  }

  lemma {:induction false} RunAppend(s: State, a: seq<Event>, b: seq<Event>)
    ensures Run(s, a + b) == Run(Run(s, a), b)
    decreases |a|
  {
    if a == [] {
      assert a + b == b;
    } else {
      assert (a + b)[1..] == a[1..] + b;
      RunAppend(Step(s, a[0]), a[1..], b);
    }
  }

  /** No release of any kind, no helper and no deferral changes anything once an adoption was rejected. */
  lemma {:induction false} RejectionIsFinal(s: State, task: nat, i: nat, events: seq<Event>)
    requires RejectedAt(s, task, i) && forall e :: e in events ==> !e.OnAdopted?
    ensures Run(s, events) == s
    decreases |events|
  {
    if events != [] {
      assert Step(s, events[0]) == s;
      RejectionIsFinal(s, task, i, events[1..]);
    }
  }

  /** Adoption as the first terminal call, in any interleaving. If it is rejected after `i` sources, exactly those are
      adopted, the others are released once, the rejection itself is what the caller sees, and no release, helper or
      deferral that follows reaches any source. If it is not, every source is adopted and none is released. */
  lemma RejectedAdoption(sources: seq<Source>, pre: seq<Event>, start: Event, task: nat, mid: seq<Event>, later: seq<Event>)
    requires sources != [] && Before(false, pre)
    requires AdoptsFrom(start, task) && (start.Settle? ==> OnDeferred !in pre)
    requires forall e :: e in mid ==> During(e, task)
    requires forall e :: e in later ==> !e.OnAdopted?
    ensures var i := OkReplies(mid, task);
      if i < |sources| then RejectedAt(Run(Start(sources), pre + [start] + mid + [AdoptReply(task, false)] + later), task, i)
      else AllAdopted(Run(Start(sources), pre + [start] + mid), task)
  {
    var s0 := Start(sources);
    BeforeOnlyDefers(s0, pre);
    var s1 := Run(s0, pre);
    AdoptionStarts(s1, start, task);
    var s2 := Step(s1, start);
    AdoptionReaches(s2, task, 0, mid);
    var s3 := Run(s2, mid);
    var reply := AdoptReply(task, false);
    RunOne(s1, start);
    RunAppend(s0, pre, [start]);
    RunAppend(s0, pre + [start], mid);
    if OkReplies(mid, task) < |sources| {
      AdoptionStep(s3, task, OkReplies(mid, task), false);
      RejectionIsFinal(Step(s3, reply), task, OkReplies(mid, task), later);
      RunOne(s3, reply);
      RunAppend(s0, pre + [start] + mid, [reply]);
      RunAppend(s0, pre + [start] + mid + [reply], later);
    }
  }

  lemma RunOne(s: State, e: Event)
    ensures Run(s, [e]) == Step(s, e)
  {
    assert [e][1..] == [];
    assert Run(Step(s, e), []) == Step(s, e);
  }

  // ---------- helpers only ----------

  ghost predicate Untouched(s: State) {
    s == Start(s.sources)
  }

  ghost predicate ReleasedAll(s: State) {
    && s.handedOff && s.settledAll && s.running == map[] && s.adoptCalls == [] && s.adopted == {}
    && exists reason :: s.releases == Batch(s.sources, 0, reason)
  }

  ghost predicate HelperState(s: State) {
    || Untouched(s)
    || ReleasedAll(s)
    || (exists task, i :: Adopting(s, task, i) || RejectedAt(s, task, i))
    || (exists task :: AllAdopted(s, task))
  }

  lemma UntouchedReleases(s: State, e: Event, reason: Reason)
    requires s.sources != [] && Untouched(s)
    requires Step(s, e) == ReleaseOnce(s.(handedOff := true), 0, reason)
    ensures ReleasedAll(Step(s, e))
  {
    assert [] + Batch(s.sources, 0, reason) == Batch(s.sources, 0, reason);
  }

  lemma HelperStep(s: State, e: Event)
    requires s.sources != [] && HelperState(s) && (IsHelper(e) || e.AdoptReply?)
    ensures HelperState(Step(s, e))
  {
    if Untouched(s) {
      match e {
        case Settle(task) => AdoptionStarts(s, e, task);
        case AdoptReply(_, _) =>
        case Abandon(withError) => UntouchedReleases(s, e, if withError then Failing else Abandoning);
        case Cancel => UntouchedReleases(s, e, Cancelling);
      }
    } else if task, i :| Adopting(s, task, i) {
      if e.AdoptReply? && e.task == task {
        AdoptionStep(s, task, i, e.ok);
      } else {
        assert Step(s, e) == s;
      }
    } else {
      assert Step(s, e) == s;
    }
  }

  lemma {:induction false} HelperRun(s: State, events: seq<Event>)
    requires s.sources != [] && HelperState(s) && ReleasedOnce(s)
    requires forall e :: e in events ==> IsHelper(e) || e.AdoptReply?
    ensures HelperState(Run(s, events)) && Run(s, events).sources == s.sources
    decreases |events|
  {
    if events != [] {
      HelperStep(s, events[0]);
      StepReleasesOnce(s, events[0]);
      HelperRun(Step(s, events[0]), events[1..]);
    }
  }

  ghost predicate WasReleased(s: State, i: nat) {
    exists j :: 0 <= j < |s.releases| && s.releases[j].source == i
  }

  lemma BatchCovers(sources: seq<Source>, first: nat, reason: Reason, i: nat)
    requires first <= |sources|
    ensures (exists j :: 0 <= j < |Batch(sources, first, reason)| && Batch(sources, first, reason)[j].source == i)
        <==> first <= i < |sources|
  {
    if first <= i < |sources| {
      assert Batch(sources, first, reason)[i - first].source == i;
    }
  }

  lemma IdleIsNotAdopting(s: State, task: nat, i: nat)
    requires s.running == map[]
    ensures !Adopting(s, task, i)
  {
    assert task in map[task := i];
  }

  /** A consumer that uses only the helpers ends with each source either adopted or released, never
      both and never neither, once it has asked for anything and the replies have come in. */
  lemma HelpersSettleEverySource(sources: seq<Source>, events: seq<Event>, i: nat)
    requires i < |sources| && forall e :: e in events ==> IsHelper(e) || e.AdoptReply?
    ensures var s := Run(Start(sources), events);
      s.handedOff && s.running == map[] ==> (i in s.adopted <==> !WasReleased(s, i))
  {
    HelperRun(Start(sources), events);
    var s := Run(Start(sources), events);
    if s.handedOff && s.running == map[] {
      if ReleasedAll(s) {
        var reason :| s.releases == Batch(s.sources, 0, reason);
        BatchCovers(s.sources, 0, reason, i);
      } else if task, k :| RejectedAt(s, task, k) {
        BatchCovers(s.sources, k, Failing, i);
      } else {
        forall task, k ensures !Adopting(s, task, k) {
          IdleIsNotAdopting(s, task, k);
        }
      }
    }
  }

  // ---------- the lifecycle's own callbacks ----------

  /** A finished adoption is not recorded as settled, so a release callback that follows reaches the sources again. */
  lemma ReleaseAfterAdoption(s: State, task: nat, e: Event)
    requires s.sources != [] && AllAdopted(s, task) && (e.OnAbandoned? || e.OnFailed?)
    ensures forall i: nat :: i < |s.sources| ==> i in Step(s, e).adopted && WasReleased(Step(s, e), i)
  {
    var reason := if e.OnAbandoned? then Abandoning else Failing;
    assert [] + Batch(s.sources, 0, reason) == Batch(s.sources, 0, reason);
    forall i | 0 <= i < |s.sources| ensures WasReleased(Step(s, e), i) {
      BatchCovers(s.sources, 0, reason, i);
    }
  }

  lemma SettledIffReleased(s: State)
    requires ReleasedOnce(s)
    ensures s.settledAll <==> s.releases != []
  {
  }

  /** After any calls whatever, a release callback gets through exactly when no source has been released yet,
      adopted or not, and then it reaches every source. */
  lemma ReleaseReachesIff(sources: seq<Source>, events: seq<Event>, e: Event)
    requires sources != []
    requires e.OnAbandoned? || e.OnFailed? || (e.OnCancelled? && forall src :: src in sources ==> src.hasCancelled)
    ensures var s := Run(Start(sources), events);
      var s' := Run(Start(sources), events + [e]);
      && (s'.releases != s.releases <==> s.releases == [])
      && (s.releases == [] ==> forall i: nat :: i < |sources| ==> WasReleased(s', i))
  {
    RunReleasesOnce(Start(sources), events);
    RunAppend(Start(sources), events, [e]);
    var s := Run(Start(sources), events);
    RunOne(s, e);
    SettledIffReleased(s);
    if s.releases == [] {
      var reason := ReasonFor(e);
      assert [] + Batch(sources, 0, reason) == Batch(sources, 0, reason);
      forall i: nat | i < |sources| ensures WasReleased(Step(s, e), i) {
        BatchCovers(sources, 0, reason, i);
      }
      assert WasReleased(Step(s, e), 0);
    }
  }

  // ---------- the fan-in itself ----------

  class FanIn {
    const sources: seq<Source>
    var handedOff: bool
    var settledAll: bool
    var running: map<nat, nat>
    var ended: map<nat, Ending>
    ghost var adoptCalls: seq<nat>
    ghost var adopted: set<nat>
    ghost var releases: seq<Release>

    ghost function Abs(): State
      reads this
    {
      State(sources, handedOff, settledAll, running, ended, adoptCalls, adopted, releases)
    }

    ghost predicate Valid()
      reads this
    {
      ReleasedOnce(Abs())
    }

    constructor (sources: seq<Source>)
      ensures Abs() == Start(sources) && Valid()
    {
      this.sources := sources;
      handedOff, settledAll, running, ended := false, false, map[], map[];
      adoptCalls, adopted, releases := [], {}, [];
    }

    /** Releases each source from `first` on through its strongest callback, unless that has happened. */
    method ReleaseFrom(first: nat, reason: Reason)
      requires first <= |sources|
      modifies this`settledAll, this`releases
      ensures Abs() == ReleaseOnce(old(Abs()), first, reason)
    {
      if settledAll {
        return;
      }
      settledAll := true;
      ghost var before := releases;
      for i := first to |sources|
        invariant settledAll && releases == before + Batch(sources, first, reason)[..i - first]
      {
        releases := releases + [Release(i, HowFor(reason, sources[i]))];
        assert Batch(sources, first, reason)[..i + 1 - first]
            == Batch(sources, first, reason)[..i - first] + [Batch(sources, first, reason)[i - first]];
      }
      assert Batch(sources, first, reason)[..|sources| - first] == Batch(sources, first, reason);
    }

    method BeginAdoption(task: nat)
      requires sources != [] && task !in running && task !in ended
      modifies this
      ensures Abs() == StartAdoption(old(Abs()), task)
    {
      handedOff := true;
      running := running[task := 0];
      adoptCalls := adoptCalls + [0];
    }

    /** The awaited adoption of one source is answered; the loop goes on, ends, or gives up the rest. */
    method OnAdoptReply(task: nat, ok: bool)
      requires Valid() && sources != [] && task in running && running[task] < |sources|
      modifies this
      ensures Valid() && Abs() == Step(old(Abs()), AdoptReply(task, ok))
    {
      StepReleasesOnce(Abs(), AdoptReply(task, ok));
      var index := running[task];
      if !ok {
        ReleaseFrom(index, Failing);
        running, ended := running - {task}, ended[task := Rejected(index)];
        return;
      }
      adopted := adopted + {index};
      if index + 1 < |sources| {
        running := running[task := index + 1];
        adoptCalls := adoptCalls + [index + 1];
      } else {
        running, ended := running - {task}, ended[task := Completed];
      }
    }

    /** The lifecycle's failure and abandonment callbacks. */
    method LifecycleRelease(failed: bool)
      requires Valid() && sources != []
      modifies this
      ensures Valid() && Abs() == Step(old(Abs()), if failed then OnFailed else OnAbandoned)
    {
      StepReleasesOnce(Abs(), if failed then OnFailed else OnAbandoned);
      handedOff := true;
      ReleaseFrom(0, if failed then Failing else Abandoning);
    }

    /** Offered only when every source can be cancelled. */
    method LifecycleCancel()
      requires Valid() && sources != [] && SupportsCancellation(Abs())
      modifies this
      ensures Valid() && Abs() == Step(old(Abs()), OnCancelled)
    {
      StepReleasesOnce(Abs(), OnCancelled);
      handedOff := true;
      ReleaseFrom(0, Cancelling);
    }

    method LifecycleDefer()
      requires Valid() && sources != []
      modifies this
      ensures Valid() && Abs() == Step(old(Abs()), OnDeferred)
    {
      StepReleasesOnce(Abs(), OnDeferred);
      handedOff := true;
    }

    method HelperSettle(task: nat)
      requires Valid() && task !in running && task !in ended
      modifies this
      ensures Valid() && Abs() == Step(old(Abs()), Settle(task))
    {
      StepReleasesOnce(Abs(), Settle(task));
      if sources != [] && !handedOff {
        BeginAdoption(task);
      }
    }

    method HelperAbandon(withError: bool)
      requires Valid()
      modifies this
      ensures Valid() && Abs() == Step(old(Abs()), Abandon(withError))
    {
      StepReleasesOnce(Abs(), Abandon(withError));
      if sources != [] && !handedOff {
        handedOff := true;
        ReleaseFrom(0, if withError then Failing else Abandoning);
      }
    }

    method HelperCancel()
      requires Valid()
      modifies this
      ensures Valid() && Abs() == Step(old(Abs()), Cancel)
    {
      StepReleasesOnce(Abs(), Cancel);
      if sources != [] && !handedOff {
        handedOff := true;
        ReleaseFrom(0, Cancelling);
      }
    }
  }
}
