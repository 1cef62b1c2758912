/** Native approval controls: bindings resolved at most once while cards expire, are evicted and are replaced. */
module ApprovalControls {
  import opened Options

  datatype Binding = Binding(token: string, expiresAtMs: int, id: nat)

  /** The registry's two collections, and the completion callbacks it has made. */
  datatype Core = Core(bindings: map<string, Binding>, resolving: set<string>, completed: seq<Binding>)

  datatype Start = Missing | InFlight | Started(binding: Binding)

  /** How the awaited resolver ends. */
  datatype Ending = Resolves | NotFound | Fails

  // ---------- the operations ----------

  predicate Expired(c: Core, token: string, now: int) {
    token in c.bindings && c.bindings[token].expiresAtMs <= now
  }

  function Find(c: Core, token: string): Option<Binding> {
    if token in c.bindings then Some(c.bindings[token]) else None
  }

  /** Looking up an expired binding deletes it, and drops its claim if the registry is made to. */
  function AfterLookup(c: Core, token: string, now: int, release: bool): Core {
    if Expired(c, token, now) then
      c.(bindings := c.bindings - {token}, resolving := if release then c.resolving - {token} else c.resolving)
    else c
  }

  function Completed(c: Core, token: string): Core {
    Core(c.bindings - {token}, c.resolving - {token},
         c.completed + if token in c.bindings then [c.bindings[token]] else [])
  }

  /** `evicted` is what the size limit pushes out. */
  function Registered(c: Core, b: Binding, now: int, evicted: set<string>): Core {
    if b.expiresAtMs <= now then c else c.(bindings := c.bindings[b.token := b] - evicted)
  }

  function Pruned(c: Core, now: int): Core {
    var expired := set t | t in c.bindings && c.bindings[t].expiresAtMs <= now;
    c.(bindings := c.bindings - expired, resolving := c.resolving - expired)
  }

  function Unregistered(c: Core, tokens: seq<string>): Core {
    if tokens == [] then c else Completed(Unregistered(c, tokens[..|tokens| - 1]), tokens[|tokens| - 1])
  }

  function StartOf(c: Core, token: string, now: int): Start {
    if token !in c.bindings || Expired(c, token, now) then Missing
    else if token in c.resolving then InFlight
    else Started(c.bindings[token])
  }

  function AfterStart(c: Core, token: string, now: int, release: bool): Core {
    var d := AfterLookup(c, token, now, release);
    if StartOf(c, token, now).Started? then d.(resolving := d.resolving + {token}) else d
  }

  function Ended(c: Core, token: string, ending: Ending): Core {
    if ending.Fails? then c.(resolving := c.resolving - {token}) else Completed(c, token)
  }

  // ---------- runs ----------

  datatype Event =
    | Register(b: Binding, now: int, evicted: set<string>)
    | Lookup(token: string, now: int)
    | Prune(now: int)
    | Unregister(tokens: seq<string>)
    | Settle(call: nat, token: string, now: int)
    | End(call: nat, ending: Ending)

  /** The registry, the settle calls still waiting for their resolver, and what has happened so far. */
  datatype State = State(core: Core, waiting: map<nat, Binding>, settled: seq<string>, registered: set<string>)

  const FRESH := State(Core(map[], {}, []), map[], [], {})

  function Step(s: State, e: Event, release: bool): State {
    match e
    case Register(b, now, evicted) =>
      if b.expiresAtMs <= now then s
      else s.(core := Registered(s.core, b, now, evicted), registered := s.registered + {b.token})
    case Lookup(token, now) => s.(core := AfterLookup(s.core, token, now, release))
    case Prune(now) => s.(core := Pruned(s.core, now))
    case Unregister(tokens) => s.(core := Unregistered(s.core, tokens))
    case Settle(call, token, now) =>
      if call in s.waiting then s
      else
        s.(core := AfterStart(s.core, token, now, release),
           waiting := match StartOf(s.core, token, now)
                      case Started(b) => s.waiting[call := b]
                      case _ => s.waiting)
    case End(call, ending) =>
      if call !in s.waiting then s
      else
        var token := s.waiting[call].token;
        s.(core := Ended(s.core, token, ending),
           waiting := s.waiting - {call},
           settled := s.settled + if ending.Resolves? then [token] else [])
  }

  function RunFrom(s: State, events: seq<Event>, release: bool): State
    decreases |events|
  {
    if events == [] then s else Step(RunFrom(s, events[..|events| - 1], release), events[|events| - 1], release)
  }

  function Run(events: seq<Event>, release: bool): State {
    RunFrom(FRESH, events, release)
  }

  ghost predicate Waiting(s: State, token: string) {
    exists call :: call in s.waiting && s.waiting[call].token == token
  }

  /** At most one resolver per token is in flight. */
  ghost predicate OneResolver(s: State) {
    forall a, b :: a in s.waiting && b in s.waiting && s.waiting[a].token == s.waiting[b].token ==> a == b
  }

  /** A resolver in flight either still holds its claim or has no binding left to claim again. */
  ghost predicate Claimed(s: State) {
    forall call :: call in s.waiting ==>
      s.waiting[call].token in s.core.resolving || s.waiting[call].token !in s.core.bindings
  }

  ghost predicate Keyed(s: State) {
    forall t :: t in s.core.bindings ==> s.core.bindings[t].token == t
  }

  /** A registration that may not start a second resolver: nothing waits for the token, or the claim is still held. */
  ghost predicate Safe(s: State, e: Event) {
    e.Register? && e.b.expiresAtMs > e.now && e.b.token !in e.evicted ==> !Waiting(s, e.b.token) || e.b.token in s.core.resolving
  }

  ghost predicate Exclusive(s: State) {
    OneResolver(s) && Claimed(s) && Keyed(s)
  }

  lemma {:induction false} UnregisteredIs(c: Core, tokens: seq<string>)
    ensures var d := Unregistered(c, tokens);
      && (forall t :: t in d.bindings <==> t in c.bindings && t !in tokens)
      && (forall t :: t in d.bindings ==> d.bindings[t] == c.bindings[t])
      && (forall t :: t in d.resolving <==> t in c.resolving && t !in tokens)
  {
    if tokens != [] {
      var init, last := tokens[..|tokens| - 1], tokens[|tokens| - 1];
      UnregisteredIs(c, init);
      assert tokens == init + [last];
    }
  }

  lemma StepIsExclusive(s: State, e: Event, release: bool)
    requires Exclusive(s) && Safe(s, e)
    ensures Exclusive(Step(s, e, release))
  {
    match e
    case Unregister(tokens) => UnregisteredIs(s.core, tokens);
    case _ =>
  }

  /** A registration that is not safe is exactly one after which the next settle can start a second resolver. */
  lemma SafeIff(s: State, b: Binding, now: int, evicted: set<string>, call: nat, release: bool)
    requires Exclusive(s) && call !in s.waiting
    ensures var e := Register(b, now, evicted);
      Safe(s, e) <==> OneResolver(Step(Step(s, e, release), Settle(call, b.token, now), release))
  {
    var e := Register(b, now, evicted);
    var r := Step(s, e, release);
    var t := Step(r, Settle(call, b.token, now), release);
    if Safe(s, e) {
      StepIsExclusive(s, e, release);
      StepIsExclusive(r, Settle(call, b.token, now), release);
    } else {
      var other :| other in s.waiting && s.waiting[other].token == b.token;
      assert other in t.waiting && call in t.waiting && t.waiting[call].token == b.token;
    }
  }

  ghost predicate AllSafe(events: seq<Event>, release: bool) {
    forall i :: 0 <= i < |events| ==> Safe(Run(events[..i], release), events[i])
  }

  /** However calls interleave, expire and are evicted, no two resolvers of one token are ever in flight. */
  lemma {:induction false} RunsAreExclusive(events: seq<Event>, release: bool)
    requires AllSafe(events, release)
    ensures Exclusive(Run(events, release))
    decreases |events|
  {
    if events != [] {
      var init := events[..|events| - 1];
      forall i | 0 <= i < |init| ensures Safe(Run(init[..i], release), init[i]) {
        assert init[..i] == events[..i];
      }
      RunsAreExclusive(init, release);
      StepIsExclusive(Run(init, release), events[|events| - 1], release);
    }
  }

  // ---------- tokens registered once ----------

  function Count<T(==)>(s: seq<T>, x: T): nat {
    if s == [] then 0 else Count(s[..|s| - 1], x) + if s[|s| - 1] == x then 1 else 0
  }

  function Tokens(bs: seq<Binding>): (r: seq<string>)
    ensures |r| == |bs|
  {
    seq(|bs|, i requires 0 <= i < |bs| => bs[i].token)
  }

  lemma CountPush<T>(s: seq<T>, y: T, x: T)
    ensures Count(s + [y], x) == Count(s, x) + if y == x then 1 else 0
  {
    assert (s + [y])[..|s|] == s;
  }

  ghost predicate New(s: State, e: Event) {
    e.Register? && e.b.expiresAtMs > e.now ==> e.b.token !in s.registered
  }

  ghost predicate Known(s: State) {
    && s.core.bindings.Keys <= s.registered
    && s.core.resolving <= s.registered
    && forall call :: call in s.waiting ==> s.waiting[call].token in s.registered
  }

  /** No token has settled or completed twice, and one that has settled can do neither again. */
  ghost predicate Once(s: State, t: string) {
    && Count(s.settled, t) <= 1
    && (Count(s.settled, t) == 1 ==> t in s.registered && t !in s.core.bindings && !Waiting(s, t))
    && CompletedOnce(s.core, t)
    && (Count(Tokens(s.core.completed), t) == 1 ==> t in s.registered)
  }

  ghost predicate CompletedOnce(c: Core, t: string) {
    && Count(Tokens(c.completed), t) <= 1
    && (Count(Tokens(c.completed), t) == 1 ==> t !in c.bindings)
  }

  lemma CompletedCounts(c: Core, token: string, t: string)
    requires token in c.bindings ==> c.bindings[token].token == token
    ensures Count(Tokens(Completed(c, token).completed), t)
         == Count(Tokens(c.completed), t) + if t == token && token in c.bindings then 1 else 0
  {
    var done := Tokens(c.completed);
    if token in c.bindings {
      assert Tokens(Completed(c, token).completed) == done + [token];
      CountPush(done, token, t);
    } else {
      assert Completed(c, token).completed == c.completed;
    }
  }

  lemma {:induction false} UnregisteredCounts(c: Core, tokens: seq<string>, t: string)
    requires forall k :: k in c.bindings ==> c.bindings[k].token == k
    ensures Count(Tokens(Unregistered(c, tokens).completed), t)
         == Count(Tokens(c.completed), t) + if t in tokens && t in c.bindings then 1 else 0
  {
    if tokens != [] {
      var init, last := tokens[..|tokens| - 1], tokens[|tokens| - 1];
      UnregisteredCounts(c, init, t);
      UnregisteredIs(c, init);
      CompletedCounts(Unregistered(c, init), last, t);
      assert tokens == init + [last];
    }
  }

  lemma NewIsSafe(s: State, e: Event)
    requires Known(s) && New(s, e)
    ensures Safe(s, e)
  {
  }

  lemma StepKnows(s: State, e: Event, release: bool)
    requires Exclusive(s) && Known(s)
    ensures Known(Step(s, e, release))
  {
    match e
    case Unregister(tokens) => UnregisteredIs(s.core, tokens);
    case _ =>
  }

  lemma UnregisterIsOnce(s: State, tokens: seq<string>, t: string)
    requires Keyed(s) && Known(s) && Once(s, t)
    ensures Once(s.(core := Unregistered(s.core, tokens)), t)
  {
    UnregisteredIs(s.core, tokens);
    UnregisteredCounts(s.core, tokens, t);
    hide Count, Tokens, Unregistered;
  }

  lemma WaitingAfterEnd(s: State, call: nat, t: string)
    requires OneResolver(s) && call in s.waiting
    ensures Waiting(s.(waiting := s.waiting - {call}), t) <==> Waiting(s, t) && t != s.waiting[call].token
    ensures Waiting(s, s.waiting[call].token)
  {
    var r := s.(waiting := s.waiting - {call});
    if Waiting(s, t) && t != s.waiting[call].token {
      var other :| other in s.waiting && s.waiting[other].token == t;
      assert other in r.waiting && r.waiting[other].token == t;
    }
  }

  lemma WaitingIsOfCalls(s: State, r: State, t: string)
    requires s.waiting == r.waiting
    ensures Waiting(s, t) <==> Waiting(r, t)
  {
  }

  lemma EndIsOnce(s: State, call: nat, ending: Ending, release: bool, t: string)
    requires Exclusive(s) && Known(s) && Once(s, t) && call in s.waiting
    ensures Once(Step(s, End(call, ending), release), t)
  {
    var token := s.waiting[call].token;
    CompletedCounts(s.core, token, t);
    CountPush(s.settled, token, t);
    WaitingAfterEnd(s, call, t);
    WaitingIsOfCalls(s.(waiting := s.waiting - {call}), Step(s, End(call, ending), release), t);
    assert s.settled + [] == s.settled;
    hide Count, Tokens, Waiting, OneResolver, Claimed;
  }

  lemma StepIsOnce(s: State, e: Event, release: bool, t: string)
    requires Exclusive(s) && Known(s) && Once(s, t) && New(s, e)
    ensures Once(Step(s, e, release), t)
  {
    match e
    case Unregister(tokens) => UnregisterIsOnce(s, tokens, t);
    case End(call, ending) =>
      if call in s.waiting {
        EndIsOnce(s, call, ending, release, t);
      }
    case _ =>
      hide Count, Tokens;
  }

  /** Every token is registered at most once in the run. */
  ghost predicate RegisteredOnce(events: seq<Event>, release: bool) {
    forall i :: 0 <= i < |events| ==> New(Run(events[..i], release), events[i])
  }

  /** Over every such run a token settles at most once, its callback is made at most once, and its resolvers never overlap. */
  lemma {:induction false} RunsSettleOnce(events: seq<Event>, release: bool, t: string)
    requires RegisteredOnce(events, release)
    ensures var s := Run(events, release); Exclusive(s) && Known(s) && Once(s, t)
    decreases |events|
  {
    if events != [] {
      var init, last := events[..|events| - 1], events[|events| - 1];
      forall i | 0 <= i < |init| ensures New(Run(init[..i], release), init[i]) {
        assert init[..i] == events[..i];
      }
      RunsSettleOnce(init, release, t);
      var s := Run(init, release);
      NewIsSafe(s, last);
      StepIsExclusive(s, last, release);
      StepKnows(s, last, release);
      StepIsOnce(s, last, release, t);
    }
  }

  /** A resolver that fails for another reason drops its claim: the token can be resolved again exactly while it is
      bound and not expired. */
  lemma FailureFreesTheToken(s: State, call: nat, later: int, release: bool)
    requires call in s.waiting
    ensures var token := s.waiting[call].token;
      var failed := Step(s, End(call, Fails), release);
      && failed.core.bindings == s.core.bindings && failed.core.completed == s.core.completed && failed.settled == s.settled
      && StartOf(failed.core, token, later) ==
           if token in s.core.bindings && s.core.bindings[token].expiresAtMs > later then Started(s.core.bindings[token]) else Missing
  {
    assert s.settled + [] == s.settled;
  }

  /** The event neither replaces, evicts, outlives nor completes the binding, nor ends the call that resolves it. */
  predicate LeavesAlone(e: Event, b: Binding, call: nat) {
    match e
    case Register(other, now, evicted) => other.expiresAtMs <= now || (other.token != b.token && b.token !in evicted)
    case Lookup(token, now) => token != b.token || b.expiresAtMs > now
    case Prune(now) => b.expiresAtMs > now
    case Unregister(tokens) => b.token !in tokens
    case Settle(_, token, now) => token != b.token || b.expiresAtMs > now
    case End(ended, _) => ended != call
  }

  /** The one resolver of the binding is in flight and holds its claim. */
  ghost predicate Resolving(s: State, call: nat, b: Binding) {
    && Keyed(s) && call in s.waiting && s.waiting[call] == b
    && b.token in s.core.bindings && s.core.bindings[b.token] == b && b.token in s.core.resolving
    && forall other :: other in s.waiting && other != call ==> s.waiting[other].token != b.token
  }

  lemma {:induction false} StaysResolving(s: State, call: nat, b: Binding, events: seq<Event>, release: bool)
    requires Resolving(s, call, b) && forall e :: e in events ==> LeavesAlone(e, b, call)
    ensures Resolving(RunFrom(s, events, release), call, b)
    decreases |events|
  {
    if events != [] {
      var last := events[|events| - 1];
      StaysResolving(s, call, b, events[..|events| - 1], release);
      assert LeavesAlone(last, b, call);
      if last.Unregister? {
        UnregisteredIs(RunFrom(s, events[..|events| - 1], release).core, last.tokens);
      }
    }
  }

  /** However long a resolver is in flight, nobody else can start one, and when it fails for another reason the very
      binding it was given, left alone meanwhile, can be resolved again until it expires. */
  lemma FailureIsRetryable(s: State, call: nat, token: string, now: int, mid: seq<Event>, later: int, release: bool)
    requires Exclusive(s) && call !in s.waiting && StartOf(s.core, token, now).Started?
    requires forall e :: e in mid ==> LeavesAlone(e, s.core.bindings[token], call)
    ensures var b := s.core.bindings[token];
      var during := RunFrom(Step(s, Settle(call, token, now), release), mid, release);
      && StartOf(during.core, token, later) == (if b.expiresAtMs > later then InFlight else Missing)
      && StartOf(Step(during, End(call, Fails), release).core, token, later) == (if b.expiresAtMs > later then Started(b) else Missing)
  {
    var b := s.core.bindings[token];
    var started := Step(s, Settle(call, token, now), release);
    assert Resolving(started, call, b);
    StaysResolving(started, call, b, mid, release);
    FailureFreesTheToken(RunFrom(started, mid, release), call, later, release);
  }

  lemma ClaimDropped(b: Binding, release: bool) returns (events: seq<Event>)
    requires b.token == "t" && b.expiresAtMs > 0
    ensures Run(events, release) == State(Core(map["t" := b], {}, [b]), map[0 := b], [], {"t"})
  {
    var held := State(Core(map["t" := b], {"t"}, []), map[0 := b], [], {"t"});
    var dropped := State(Core(map[], {}, [b]), map[0 := b], [], {"t"});
    assert Unregistered(held.core, ["t"]) == dropped.core by {
      assert Unregistered(held.core, []) == held.core;
      assert ["t"][..0] == [];
    }
    var two := [] + [Register(b, 0, {})] + [Settle(0, "t", 0)];
    RunAfter([], Register(b, 0, {}), release);
    RunAfter([] + [Register(b, 0, {})], Settle(0, "t", 0), release);
    RunAfter(two, Unregister(["t"]), release);
    events := two + [Unregister(["t"])] + [Register(b, 0, {})];
    RunAfter(two + [Unregister(["t"])], Register(b, 0, {}), release);
    assert Run([], release) == FRESH;
    hide Run, Unregistered;
    assert Run(two, release) == held;
  }

  /** A token registered again after its claim was dropped can have two resolvers in flight and settle twice. */
  lemma RegisteringAgainSettlesTwice(release: bool)
    ensures exists events, t :: Count(Run(events, release).settled, t) == 2
  {
    var b := Binding("t", 10, 0);
    var four := ClaimDropped(b, release);
    var six := four + [Settle(1, "t", 0)] + [End(0, Resolves)];
    RunAfter(four, Settle(1, "t", 0), release);
    RunAfter(four + [Settle(1, "t", 0)], End(0, Resolves), release);
    RunAfter(six, End(1, Resolves), release);
    hide Run;
    assert Run(six, release).settled == [] + ["t"];
    assert Run(six, release).waiting == map[1 := b];
    assert Run(six + [End(1, Resolves)], release).settled == [] + ["t"] + ["t"];
    CountPush<string>([], "t", "t");
    CountPush([] + ["t"], "t", "t");
  }

  lemma RunAfter(events: seq<Event>, e: Event, release: bool)
    ensures Run(events + [e], release) == Step(Run(events, release), e, release)
  {
    assert (events + [e])[..|events|] == events;
  }

  // ---------- the registry ----------

  class Registry {
    const release: bool
    var bindings: map<string, Binding>
    var resolving: set<string>
    var completed: seq<Binding>

    ghost function View(): Core
      reads this
    {
      Core(bindings, resolving, completed)
    }

    constructor (releaseClaimOnLookupExpiry: bool)
      ensures View() == FRESH.core && release == releaseClaimOnLookupExpiry
    {
      release, bindings, resolving, completed := releaseClaimOnLookupExpiry, map[], {}, [];
    }

    method Get(token: string, now: int) returns (r: Option<Binding>)
      modifies this
      ensures View() == AfterLookup(old(View()), token, now, release)
      ensures r == Find(View(), token)
    {
      if token !in bindings {
        return None;
      }
      var binding := bindings[token];
      if binding.expiresAtMs <= now {
        bindings := bindings - {token};
        if release {
          resolving := resolving - {token};
        }
        return None;
      }
      r := Some(binding);
    }

    method Complete(token: string)
      modifies this
      ensures View() == Completed(old(View()), token)
    {
      var found := token in bindings;
      resolving := resolving - {token};
      if found {
        var binding := bindings[token];
        bindings := bindings - {token};
        completed := completed + [binding];
      } else {
        assert bindings - {token} == bindings;
      }
    }

    method Register(b: Binding, now: int, evicted: set<string>) returns (accepted: bool)
      modifies this
      ensures View() == Registered(old(View()), b, now, evicted) && accepted == (b.expiresAtMs > now)
    {
      if b.expiresAtMs <= now {
        return false;
      }
      bindings := bindings - {b.token};
      bindings := bindings[b.token := b];
      assert bindings == old(bindings)[b.token := b];
      bindings := bindings - evicted;
      accepted := true;
    }

    method PruneExpired(now: int)
      modifies this
      ensures View() == Pruned(old(View()), now)
    {
      var todo := bindings.Keys;
      while todo != {}
        invariant todo <= old(bindings).Keys && completed == old(completed)
        invariant forall t :: t in bindings <==> t in old(bindings) && (t in todo || old(bindings)[t].expiresAtMs > now)
        invariant forall t :: t in bindings ==> bindings[t] == old(bindings)[t]
        invariant forall t :: t in resolving
                          <==> t in old(resolving) && (t !in old(bindings) || t in todo || old(bindings)[t].expiresAtMs > now)
        decreases |todo|
      {
        var token :| token in todo;
        todo := todo - {token};
        if bindings[token].expiresAtMs <= now {
          bindings := bindings - {token};
          resolving := resolving - {token};
        }
      }
      assert bindings == Pruned(old(View()), now).bindings;
      assert resolving == Pruned(old(View()), now).resolving;
    }

    method Unregister(tokens: seq<string>)
      modifies this
      ensures View() == Unregistered(old(View()), tokens)
    {
      for i := 0 to |tokens|
        invariant View() == Unregistered(old(View()), tokens[..i])
      {
        assert tokens[..i + 1][..i] == tokens[..i];
        Complete(tokens[i]);
      }
      assert tokens[..|tokens|] == tokens;
    }

    /** Everything a settle does before it awaits its resolver. */
    method BeginSettle(token: string, now: int) returns (r: Start)
      modifies this
      ensures View() == AfterStart(old(View()), token, now, release) && r == StartOf(old(View()), token, now)
    {
      var binding := Get(token, now);
      if binding.None? {
        return Missing;
      }
      if token in resolving {
        return InFlight;
      }
      resolving := resolving + {token};
      r := Started(binding.value);
    }

    /** Everything a settle does once its resolver has ended. */
    method EndSettle(binding: Binding, ending: Ending)
      modifies this
      ensures View() == Ended(old(View()), binding.token, ending)
    {
      if ending.Fails? {
        resolving := resolving - {binding.token};
        return;
      }
      Complete(binding.token);
    }
  }
}
