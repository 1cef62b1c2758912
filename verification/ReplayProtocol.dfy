/** Multi-key replay claims over the claim/commit/release store, one atomic step per synchronous
    stretch of code between two awaits. */
module ReplayProtocol {
  import opened Options
  import opened StringCoercion
  import opened TextOrder

  datatype Key = Key(namespace: string, key: string)

  datatype Owner = Owner(claim: nat, committing: bool)

  datatype Verdict = Duplicate | InFlight | Failed

  /** One call of `claim` and, once it has granted keys, its handle. */
  datatype Claim =
    | Claiming(keys: seq<Key>, next: nat, probing: bool, granted: seq<Key>, sawInFlight: bool)
    | Ended(verdict: Verdict)
    | Held(keys: seq<Key>)
    | Committing(settling: seq<Key>, pending: set<Key>, recorded: bool, rejected: bool, finalized: bool)
    | Released

  datatype Route = ByCommit | ByRelease | ByFailure

  /** One call into the store that settles a key, and whether the caller owned the key then. */
  datatype Settlement = Settlement(claim: nat, key: Key, route: Route, owned: bool)

  datatype State = State(
    inflight: set<Key>,
    recent: set<Key>,
    owners: map<Key, Owner>,
    claims: map<nat, Claim>,
    log: seq<Settlement>)

  datatype Event =
    | Begin(id: nat, raw: seq<Key>)
    | Probe(id: nat)
    | Answer(id: nat, throws: bool)
    | Finish(id: nat)
    | Commit(id: nat)
    | CommitDone(id: nat, key: Key, ok: bool)
    | Finalize(id: nat)
    | Release(id: nat)
    | Forget(keys: seq<Key>)
    | Expire(stale: set<Key>)
    /** A store other than the repository's own may lose keys in flight. */
    | Drop(lost: set<Key>)

  const FRESH := State({}, {}, map[], map[], [])

  // ---------- list helpers ----------

  /** First occurrences, in order. */
  function Unique(keys: seq<Key>): (r: seq<Key>)
    ensures Distinct(r) && forall k :: k in r <==> k in keys
    decreases |keys|
  {
    if keys == [] then []
    else
      var rest := Unique(keys[1..]);
      assert forall k :: k in Without(rest, keys[0]) <==> k in rest && k != keys[0];
      [keys[0]] + Without(rest, keys[0])
  }

  /** Keys keep the order in which they are first seen. */
  lemma {:induction false} UniqueKeepsOrder(keys: seq<Key>, i: nat, j: nat)
    requires i < j < |Unique(keys)|
    ensures exists a, b :: 0 <= a < b < |keys| && keys[a] == Unique(keys)[i] && keys[b] == Unique(keys)[j] && Unique(keys)[j] !in keys[..b]
    decreases |keys|
  {
    var r, rest := Unique(keys), Unique(keys[1..]);
    assert r == [keys[0]] + Without(rest, keys[0]);
    hide Unique, Without;
    if i == 0 {
      var b := FirstAt(keys, r[j]);
      DistinctByIndex(r, 0, j);
      assert keys[0] == r[0];
    } else {
      var x, y := WithoutKeepsOrder(rest, keys[0], i - 1, j - 1);
      UniqueKeepsOrder(keys[1..], x, y);
      var a', b' :| 0 <= a' < b' < |keys[1..]| && keys[1..][a'] == rest[x] && keys[1..][b'] == rest[y] && rest[y] !in keys[1..][..b'];
      assert keys[..b' + 1] == [keys[0]] + keys[1..][..b'];
      assert keys[a' + 1] == r[i] && keys[b' + 1] == r[j];
    }
  }

  lemma FirstAt(keys: seq<Key>, k: Key) returns (i: nat)
    requires k in keys
    ensures i < |keys| && keys[i] == k && k !in keys[..i]
  {
    i := 0;
    while keys[i] != k
      invariant i < |keys| && k !in keys[..i]
      decreases |keys| - i
    {
      assert keys[..i + 1] == keys[..i] + [keys[i]];
      i := i + 1;
    }
  }

  lemma {:induction false} WithoutKeepsOrder(keys: seq<Key>, k: Key, i: nat, j: nat) returns (x: nat, y: nat)
    requires i < j < |Without(keys, k)|
    ensures x < y < |keys| && keys[x] == Without(keys, k)[i] && keys[y] == Without(keys, k)[j]
    decreases |keys|
  {
    if keys[0] == k {
      var a, b := WithoutKeepsOrder(keys[1..], k, i, j);
      x, y := a + 1, b + 1;
    } else if i == 0 {
      x := 0;
      var b := WithoutAt(keys[1..], k, j - 1);
      y := b + 1;
    } else {
      var a, b := WithoutKeepsOrder(keys[1..], k, i - 1, j - 1);
      x, y := a + 1, b + 1;
    }
  }

  lemma WithoutAt(keys: seq<Key>, k: Key, j: nat) returns (y: nat)
    requires j < |Without(keys, k)|
    ensures y < |keys| && keys[y] == Without(keys, k)[j]
  {
    assert Without(keys, k)[j] in keys;
    y :| 0 <= y < |keys| && keys[y] == Without(keys, k)[j];
  }

  /** The keys an event's values name: trimmed, without blank ones. */
  function NamedKeys(namespace: string, values: seq<Option<string>>): seq<Key> {
    if values == [] then []
    else
      (match NormalizeOptional(values[0]) case None => [] case Some(k) => [Key(namespace, k)]) + NamedKeys(namespace, values[1..])
  }

  lemma {:induction false} NamedKeysAre(namespace: string, values: seq<Option<string>>, k: Key)
    ensures k in NamedKeys(namespace, values) <==> k.namespace == namespace && exists i :: 0 <= i < |values| && NormalizeOptional(values[i]) == Some(k.key)
  {
    hide NormalizeOptional;
    if values != [] {
      NamedKeysAre(namespace, values[1..], k);
      assert forall i :: 0 < i < |values| ==> values[i] == values[1..][i - 1];
    }
  }

  function Without(keys: seq<Key>, k: Key): (r: seq<Key>)
    ensures Distinct(keys) ==> Distinct(r)
    ensures forall x :: x in r <==> x in keys && x != k
  {
    if keys == [] then []
    else if keys[0] == k then Without(keys[1..], k)
    else [keys[0]] + Without(keys[1..], k)
  }

  predicate Owns(owners: map<Key, Owner>, id: nat, k: Key) {
    k in owners && owners[k].claim == id
  }

  function OwnedBy(owners: map<Key, Owner>, id: nat, keys: seq<Key>): (r: seq<Key>)
    ensures Distinct(keys) ==> Distinct(r)
    ensures forall k :: k in r <==> k in keys && Owns(owners, id, k)
  {
    if keys == [] then []
    else if Owns(owners, id, keys[0]) then [keys[0]] + OwnedBy(owners, id, keys[1..])
    else OwnedBy(owners, id, keys[1..])
  }

  function CommittableBy(owners: map<Key, Owner>, id: nat, keys: seq<Key>): (r: seq<Key>)
    ensures Distinct(keys) ==> Distinct(r)
    ensures forall k :: k in r <==> k in keys && k in owners && owners[k] == Owner(id, false)
  {
    if keys == [] then []
    else if keys[0] in owners && owners[keys[0]] == Owner(id, false) then
      [keys[0]] + CommittableBy(owners, id, keys[1..])
    else CommittableBy(owners, id, keys[1..])
  }

  function Elements(keys: seq<Key>): set<Key> {
    set k | k in keys
  }

  function Marked(owners: map<Key, Owner>, id: nat, keys: seq<Key>): map<Key, Owner> {
    map k | k in owners :: if k in keys then Owner(id, true) else owners[k]
  }

  /** Drops the entries of `keys` that still belong to `id`. */
  function Disowned(owners: map<Key, Owner>, id: nat, keys: seq<Key>): map<Key, Owner> {
    map k | k in owners && !(k in keys && owners[k].claim == id) :: owners[k]
  }

  function Settlements(owners: map<Key, Owner>, id: nat, keys: seq<Key>, route: Route): seq<Settlement> {
    seq(|keys|, i requires 0 <= i < |keys| => Settlement(id, keys[i], route, Owns(owners, id, keys[i])))
  }

  // ---------- steps ----------

  function StepBegin(s: State, id: nat, raw: seq<Key>): State {
    var keys := Unique(raw);
    if id in s.claims || keys == [] then s
    else s.(claims := s.claims[id := Claiming(keys, 0, false, [], false)])
  }

  function StepProbe(s: State, id: nat): State {
    if id !in s.claims || !s.claims[id].Claiming? then s
    else
      var c := s.claims[id];
      if c.probing || c.next >= |c.keys| then s
      else
        var k := c.keys[c.next];
        if k in s.inflight then s.(claims := s.claims[id := c.(next := c.next + 1, sawInFlight := true)])
        else s.(inflight := s.inflight + {k}, claims := s.claims[id := c.(probing := true)])
  }

  function StepAnswer(s: State, id: nat, throws: bool): State {
    if id !in s.claims || !s.claims[id].Claiming? then s
    else
      var c := s.claims[id];
      if !c.probing || c.next >= |c.keys| then s
      else
        var k := c.keys[c.next];
        if throws then
          State(
            s.inflight - {k} - Elements(c.granted),
            s.recent,
            Disowned(s.owners, id, c.granted),
            s.claims[id := Ended(Failed)],
            s.log + Settlements(s.owners, id, c.granted, ByFailure))
        else if k in s.recent then
          s.(inflight := s.inflight - {k}, claims := s.claims[id := c.(next := c.next + 1, probing := false)])
        else
          s.(owners := s.owners[k := Owner(id, false)],
             claims := s.claims[id := c.(next := c.next + 1, probing := false, granted := c.granted + [k])])
  }

  function StepFinish(s: State, id: nat): State {
    if id !in s.claims || !s.claims[id].Claiming? || s.claims[id].next < |s.claims[id].keys| then s
    else
      var c := s.claims[id];
      s.(claims := s.claims[id :=
        if c.granted != [] then Held(c.granted) else Ended(if c.sawInFlight then InFlight else Duplicate)])
  }

  function StepCommit(s: State, id: nat): State {
    if id !in s.claims || !s.claims[id].Held? then s
    else
      var settling := CommittableBy(s.owners, id, s.claims[id].keys);
      if settling == [] then s.(claims := s.claims[id := Released])
      else
        s.(owners := Marked(s.owners, id, settling),
           claims := s.claims[id := Committing(settling, Elements(settling), false, false, false)],
           log := s.log + Settlements(s.owners, id, settling, ByCommit))
  }

  function StepCommitDone(s: State, id: nat, k: Key, ok: bool): State {
    if id !in s.claims || !s.claims[id].Committing? || k !in s.claims[id].pending then s
    else
      var c := s.claims[id];
      s.(inflight := s.inflight - {k},
         recent := if ok then s.recent + {k} else s.recent,
         claims := s.claims[id := c.(pending := c.pending - {k},
                                     recorded := c.recorded || (ok && k !in s.recent),
                                     rejected := c.rejected || !ok)])
  }

  /** Runs once all commits have succeeded, or as soon as one has been rejected. */
  function StepFinalize(s: State, id: nat): State {
    if id !in s.claims || !s.claims[id].Committing? || s.claims[id].finalized
       || (s.claims[id].pending != {} && !s.claims[id].rejected) then s
    else
      var c := s.claims[id];
      s.(owners := Disowned(s.owners, id, c.settling), claims := s.claims[id := c.(finalized := true)])
  }

  function StepRelease(s: State, id: nat): State {
    if id !in s.claims || !s.claims[id].Held? then s
    else
      var releasing := OwnedBy(s.owners, id, s.claims[id].keys);
      s.(inflight := s.inflight - Elements(releasing),
         owners := Disowned(s.owners, id, releasing),
         claims := s.claims[id := Released],
         log := s.log + Settlements(s.owners, id, releasing, ByRelease))
  }

  function Forgettable(s: State, keys: seq<Key>): set<Key> {
    set k | k in keys && k !in s.owners
  }

  function StepForget(s: State, keys: seq<Key>): State {
    s.(inflight := s.inflight - Forgettable(s, keys), recent := s.recent - Forgettable(s, keys))
  }

  function Step(s: State, e: Event): State {
    match e
    case Begin(id, raw) => StepBegin(s, id, raw)
    case Probe(id) => StepProbe(s, id)
    case Answer(id, throws) => StepAnswer(s, id, throws)
    case Finish(id) => StepFinish(s, id)
    case Commit(id) => StepCommit(s, id)
    case CommitDone(id, k, ok) => StepCommitDone(s, id, k, ok)
    case Finalize(id) => StepFinalize(s, id)
    case Release(id) => StepRelease(s, id)
    case Forget(keys) => StepForget(s, keys)
    case Expire(stale) => s.(recent := s.recent - stale)
    case Drop(lost) => s.(inflight := s.inflight - lost)
  }

  function Run(events: seq<Event>): State {
    if events == [] then FRESH else Step(Run(events[..|events| - 1]), events[|events| - 1])
  }

  // ---------- what a claim holds ----------

  function Holds(c: Claim): set<Key> {
    match c
    case Claiming(keys, next, probing, granted, _) =>
      Elements(granted) + if probing && next < |keys| then {keys[next]} else {}
    case Held(keys) => Elements(keys)
    case Committing(_, pending, _, _, _) => pending
    case _ => {}
  }

  /** Keys a claim owns in the owner map. */
  predicate Guards(c: Claim, o: Owner, k: Key) {
    match c
    case Claiming(_, _, _, granted, _) => k in granted && !o.committing
    case Held(keys) => k in keys && !o.committing
    case Committing(settling, _, _, _, finalized) => k in settling && o.committing && !finalized
    case _ => false
  }

  predicate Probing(c: Claim, k: Key) {
    c.Claiming? && c.probing && c.next < |c.keys| && c.keys[c.next] == k
  }

  /** Still being committed although its owner entry went when a sibling's commit was rejected. */
  predicate Stranded(c: Claim, k: Key) {
    c.Committing? && c.finalized && k in c.pending
  }

  /** Held, and neither still being probed nor stranded. */
  predicate Secured(c: Claim, k: Key) {
    k in Holds(c) && !Probing(c, k) && !Stranded(c, k)
  }

  ghost predicate WellFormedClaim(c: Claim) {
    match c
    case Claiming(keys, next, probing, granted, _) =>
      && next <= |keys| && (probing ==> next < |keys|)
      && Distinct(keys) && Distinct(granted)
      && (forall k :: k in granted ==> k in keys[..next])
    case Held(keys) => Distinct(keys) && keys != []
    case Committing(settling, pending, _, rejected, finalized) =>
      && Distinct(settling) && (forall k :: k in pending ==> k in settling)
      && (finalized ==> pending == {} || rejected)
    case _ => true
  }

  ghost predicate Exclusive(s: State) {
    forall i, j, k :: i in s.claims && j in s.claims && k in Holds(s.claims[i]) && k in Holds(s.claims[j]) ==> i == j
  }

  /** The keys in flight in the store are exactly those some unsettled claim holds. */
  ghost predicate Accounted(s: State) {
    && (forall i, k :: i in s.claims && k in Holds(s.claims[i]) ==> k in s.inflight)
    && (forall k :: k in s.inflight ==> exists i :: i in s.claims && k in Holds(s.claims[i]))
  }

  /** Every key a claim holds, other than one it is probing or has stranded, carries its owner entry,
      and every owner entry belongs to a claim that guards the key. */
  ghost predicate Guarded(s: State) {
    && (forall i, k :: i in s.claims && Secured(s.claims[i], k) ==>
          k in s.owners && s.owners[k] == Owner(i, s.claims[i].Committing?))
    && (forall k :: k in s.owners ==>
          s.owners[k].claim in s.claims && Guards(s.claims[s.owners[k].claim], s.owners[k], k))
    && (forall i, k :: i in s.claims && Stranded(s.claims[i], k) ==> k !in s.owners)
  }

  ghost predicate WellFormed(s: State) {
    forall i :: i in s.claims ==> WellFormedClaim(s.claims[i])
  }

  ghost predicate Invariant(s: State) {
    WellFormed(s) && Exclusive(s) && Accounted(s) && Guarded(s)
  }

  /** A forget that names no key which is in flight without an owner entry, and a store that loses no key in flight. */
  predicate Quiet(s: State, e: Event) {
    && (e.Forget? ==> forall k :: k in e.keys && k !in s.owners ==> k !in s.inflight)
    && (e.Drop? ==> e.lost !! s.inflight)
  }

  ghost predicate QuietRun(events: seq<Event>) {
    forall i :: 0 <= i < |events| ==> Quiet(Run(events[..i]), events[i])
  }

  // ---------- one claim changes at a time ----------

  function HeldBy(s: State, id: nat): set<Key> {
    if id in s.claims then Holds(s.claims[id]) else {}
  }

  lemma HoldingKept(s: State, s': State, id: nat, c: Claim)
    requires WellFormed(s) && Exclusive(s) && Accounted(s) && WellFormedClaim(c)
    requires s'.claims == s.claims[id := c]
    requires forall k :: k in Holds(c) && k !in HeldBy(s, id) ==> k !in s.inflight
    requires s'.inflight == s.inflight - HeldBy(s, id) + Holds(c)
    ensures WellFormed(s') && Exclusive(s') && Accounted(s')
  {
    hide WellFormedClaim, Holds;
    forall i, k | i in s'.claims && i != id && k in Holds(s'.claims[i]) ensures k in s'.inflight && k !in Holds(c) {
      assert i in s.claims && k in Holds(s.claims[i]) && k in s.inflight;
    }
    forall k | k in s'.inflight ensures exists i :: i in s'.claims && k in Holds(s'.claims[i]) {
      if k in Holds(c) {
        assert id in s'.claims;
      } else {
        var i :| i in s.claims && k in Holds(s.claims[i]);
        assert i != id && i in s'.claims;
      }
    }
  }

  lemma NotHeldTwice(s: State, i: nat, j: nat, k: Key)
    requires Exclusive(s) && i in s.claims && k in Holds(s.claims[i]) && i != j
    ensures k !in HeldBy(s, j)
  {
  }

  lemma OwnersKept(s: State, s': State, id: nat, c: Claim)
    requires Exclusive(s) && Guarded(s)
    requires s'.claims == s.claims[id := c]
    requires forall k :: k in s'.owners ==>
      if s'.owners[k].claim == id then Guards(c, s'.owners[k], k) else k in s.owners && s'.owners[k] == s.owners[k]
    requires forall k :: k in s.owners && s.owners[k].claim != id && k !in HeldBy(s, id) ==>
      k in s'.owners && s'.owners[k] == s.owners[k]
    requires forall k :: k in s'.owners && k !in s.owners ==> k in HeldBy(s, id)
    requires forall k :: Secured(c, k) ==> k in s'.owners && s'.owners[k] == Owner(id, c.Committing?)
    requires forall k :: Stranded(c, k) ==> k !in s'.owners
    ensures Guarded(s')
  {
    hide Holds, Guards, Probing, Stranded;
    forall i, k | i in s'.claims && Secured(s'.claims[i], k)
      ensures k in s'.owners && s'.owners[k] == Owner(i, s'.claims[i].Committing?)
    {
      if i != id {
        assert i in s.claims && Secured(s.claims[i], k);
        NotHeldTwice(s, i, id, k);
      }
    }
    forall i, k | i in s'.claims && Stranded(s'.claims[i], k) ensures k !in s'.owners {
      if i != id {
        assert i in s.claims && Stranded(s.claims[i], k);
        StrandedIsHeld(s.claims[i], k);
        NotHeldTwice(s, i, id, k);
      }
    }
  }

  lemma StrandedIsHeld(c: Claim, k: Key)
    requires Stranded(c, k)
    ensures k in Holds(c)
  {
  }

  // ---------- every step keeps the invariant ----------

  /** What the invariant says about one claim and the keys it holds or owns. */
  lemma AboutClaim(s: State, id: nat)
    requires Invariant(s) && id in s.claims
    ensures WellFormedClaim(s.claims[id])
    ensures HeldBy(s, id) <= s.inflight
    ensures forall k :: Secured(s.claims[id], k) ==> k in s.owners && s.owners[k] == Owner(id, s.claims[id].Committing?)
    ensures forall k :: Owns(s.owners, id, k) ==> Guards(s.claims[id], s.owners[k], k)
    ensures forall k :: Stranded(s.claims[id], k) ==> k !in s.owners
  {
  }

  lemma NoClaimYet(s: State, id: nat)
    requires Invariant(s) && id !in s.claims
    ensures forall k :: k in s.owners ==> s.owners[k].claim != id
  {
  }

  lemma BeginKeeps(s: State, id: nat, raw: seq<Key>)
    requires Invariant(s)
    ensures Invariant(StepBegin(s, id, raw))
  {
    hide Exclusive, Accounted, Guarded, WellFormed;
    var s' := StepBegin(s, id, raw);
    if s' != s {
      NoClaimYet(s, id);
      HoldingKept(s, s', id, s'.claims[id]);
      OwnersKept(s, s', id, s'.claims[id]);
    }
  }

  lemma ProbeKeeps(s: State, id: nat)
    requires Invariant(s)
    ensures Invariant(StepProbe(s, id))
  {
    hide Exclusive, Accounted, Guarded, WellFormed;
    var s' := StepProbe(s, id);
    if s' != s {
      AboutClaim(s, id);
      var c, c' := s.claims[id], s'.claims[id];
      var k := c.keys[c.next];
      assert c.keys[..c.next + 1] == c.keys[..c.next] + [k];
      assert Holds(c') == Holds(c) + if c'.probing then {k} else {};
      HoldingKept(s, s', id, c');
      OwnersKept(s, s', id, c');
    }
  }

  lemma AnswerKeeps(s: State, id: nat, throws: bool)
    requires Invariant(s)
    ensures Invariant(StepAnswer(s, id, throws))
  {
    hide Exclusive, Accounted, Guarded, WellFormed;
    var s' := StepAnswer(s, id, throws);
    if s' != s {
      AboutClaim(s, id);
      var c, c' := s.claims[id], s'.claims[id];
      var k := c.keys[c.next];
      NextIsNew(c);
      GrantedNext(c);
      assert Holds(c) == Elements(c.granted) + {k};
      assert k !in Elements(c.granted);
      assert c.keys[..c.next + 1] == c.keys[..c.next] + [k];
      if throws {
        assert s'.inflight == s.inflight - Holds(c) + Holds(c');
      } else if k in s.recent {
        assert Holds(c') == Elements(c.granted);
        assert s'.inflight == s.inflight - Holds(c) + Holds(c');
      } else {
        assert Holds(c') == Holds(c);
      }
      HoldingKept(s, s', id, c');
      OwnersKept(s, s', id, c');
    }
  }

  lemma NextIsNew(c: Claim)
    requires c.Claiming? && WellFormedClaim(c) && c.probing
    ensures c.keys[c.next] !in c.granted
  {
    DistinctSplit(c.keys, c.next);
  }

  lemma {:induction false} DistinctSplit(keys: seq<Key>, i: nat)
    requires Distinct(keys) && i < |keys|
    ensures keys[i] !in keys[..i]
    decreases |keys|
  {
    if i > 0 {
      DistinctSplit(keys[1..], i - 1);
      assert keys[..i] == [keys[0]] + keys[1..][..i - 1];
    }
  }

  lemma {:induction false} DistinctAppend(keys: seq<Key>, k: Key)
    requires Distinct(keys) && k !in keys
    ensures Distinct(keys + [k])
    decreases |keys|
  {
    if keys != [] {
      DistinctAppend(keys[1..], k);
      assert (keys + [k])[1..] == keys[1..] + [k];
    }
  }

  lemma GrantedNext(c: Claim)
    requires c.Claiming? && WellFormedClaim(c) && c.probing
    ensures WellFormedClaim(c.(next := c.next + 1, probing := false, granted := c.granted + [c.keys[c.next]]))
  {
    NextIsNew(c);
    DistinctAppend(c.granted, c.keys[c.next]);
    assert c.keys[..c.next + 1] == c.keys[..c.next] + [c.keys[c.next]];
  }

  lemma FinishKeeps(s: State, id: nat)
    requires Invariant(s)
    ensures Invariant(StepFinish(s, id))
  {
    hide Exclusive, Accounted, Guarded, WellFormed;
    var s' := StepFinish(s, id);
    if s' != s {
      AboutClaim(s, id);
      HoldingKept(s, s', id, s'.claims[id]);
      OwnersKept(s, s', id, s'.claims[id]);
    }
  }

  lemma HeldKeysAreOwned(s: State, id: nat)
    requires Invariant(s) && id in s.claims && s.claims[id].Held?
    ensures forall k :: k in s.claims[id].keys ==> k in s.owners && s.owners[k] == Owner(id, false)
    ensures CommittableBy(s.owners, id, s.claims[id].keys) != []
  {
    hide Exclusive, Accounted, Guarded, WellFormed;
    AboutClaim(s, id);
    var c := s.claims[id];
    forall k | k in c.keys ensures k in s.owners && s.owners[k] == Owner(id, false) {
      assert Secured(c, k);
    }
    assert c.keys[0] in CommittableBy(s.owners, id, c.keys);
  }

  lemma CommitKeeps(s: State, id: nat)
    requires Invariant(s)
    ensures Invariant(StepCommit(s, id))
  {
    hide Exclusive, Accounted, Guarded, WellFormed;
    var s' := StepCommit(s, id);
    if s' != s {
      AboutClaim(s, id);
      HeldKeysAreOwned(s, id);
      assert Holds(s'.claims[id]) == Holds(s.claims[id]);
      HoldingKept(s, s', id, s'.claims[id]);
      OwnersKept(s, s', id, s'.claims[id]);
    }
  }

  lemma CommitDoneKeeps(s: State, id: nat, k: Key, ok: bool)
    requires Invariant(s)
    ensures Invariant(StepCommitDone(s, id, k, ok))
  {
    hide Exclusive, Accounted, Guarded, WellFormed;
    var s' := StepCommitDone(s, id, k, ok);
    if s' != s {
      AboutClaim(s, id);
      var c, c' := s.claims[id], s'.claims[id];
      assert Holds(c') == Holds(c) - {k};
      assert s'.inflight == s.inflight - Holds(c) + Holds(c');
      forall x | Secured(c', x) ensures x in s'.owners && s'.owners[x] == Owner(id, true) {
        assert Secured(c, x);
      }
      forall x | Stranded(c', x) ensures x !in s'.owners {
        assert Stranded(c, x);
      }
      HoldingKept(s, s', id, c');
      OwnersKept(s, s', id, c');
    }
  }

  lemma FinalizeKeeps(s: State, id: nat)
    requires Invariant(s)
    ensures Invariant(StepFinalize(s, id))
  {
    hide Exclusive, Accounted, Guarded, WellFormed;
    var s' := StepFinalize(s, id);
    if s' != s {
      AboutClaim(s, id);
      var c := s.claims[id];
      forall k | k in c.pending ensures k !in s'.owners {
        assert Secured(c, k);
      }
      HoldingKept(s, s', id, s'.claims[id]);
      OwnersKept(s, s', id, s'.claims[id]);
    }
  }

  lemma ReleaseKeeps(s: State, id: nat)
    requires Invariant(s)
    ensures Invariant(StepRelease(s, id))
  {
    hide Exclusive, Accounted, Guarded, WellFormed;
    var s' := StepRelease(s, id);
    if s' != s {
      AboutClaim(s, id);
      HeldKeysAreOwned(s, id);
      assert Elements(OwnedBy(s.owners, id, s.claims[id].keys)) == Holds(s.claims[id]);
      HoldingKept(s, s', id, s'.claims[id]);
      OwnersKept(s, s', id, s'.claims[id]);
    }
  }

  // ---------- forgetting ----------

  /** A key in flight without an owner entry is being probed, or was stranded by a rejected commit. */
  lemma UnguardedInFlight(s: State, k: Key)
    requires Invariant(s)
    ensures k in s.inflight && k !in s.owners <==>
      k !in s.owners && exists i :: i in s.claims && (Probing(s.claims[i], k) || Stranded(s.claims[i], k))
  {
    if k in s.inflight && k !in s.owners {
      var i :| i in s.claims && k in Holds(s.claims[i]);
      assert !Secured(s.claims[i], k);
    }
  }

  /** A forget keeps the books exactly when it is quiet. */
  lemma ForgetKeepsIff(s: State, keys: seq<Key>)
    requires Invariant(s)
    ensures Invariant(StepForget(s, keys)) <==> Quiet(s, Forget(keys))
    ensures Quiet(s, Forget(keys)) ==> StepForget(s, keys).inflight == s.inflight
  {
    var s' := StepForget(s, keys);
    if Quiet(s, Forget(keys)) {
      assert s'.inflight == s.inflight;
    } else {
      var k :| k in keys && k !in s.owners && k in s.inflight;
      var i :| i in s.claims && k in Holds(s.claims[i]);
      assert i in s'.claims && k in Holds(s'.claims[i]) && k !in s'.inflight;
    }
  }

  lemma ExpireKeeps(s: State, stale: set<Key>)
    requires Invariant(s)
    ensures Invariant(Step(s, Expire(stale)))
  {
    hide Holds, Guards, WellFormedClaim, Secured, Stranded;
  }

  /** A store that loses keys keeps the books exactly when it loses none in flight. */
  lemma DropKeepsIff(s: State, lost: set<Key>)
    requires Invariant(s)
    ensures Invariant(Step(s, Drop(lost))) <==> Quiet(s, Drop(lost))
  {
    var s' := Step(s, Drop(lost));
    if Quiet(s, Drop(lost)) {
      assert s'.inflight == s.inflight;
    } else {
      var k :| k in lost && k in s.inflight;
      var i :| i in s.claims && k in Holds(s.claims[i]);
      assert i in s'.claims && k in Holds(s'.claims[i]) && k !in s'.inflight;
    }
  }

  lemma StepKeeps(s: State, e: Event)
    requires Invariant(s) && Quiet(s, e)
    ensures Invariant(Step(s, e))
  {
    hide Invariant;
    match e {
      case Begin(id, raw) => BeginKeeps(s, id, raw);
      case Probe(id) => ProbeKeeps(s, id);
      case Answer(id, throws) => AnswerKeeps(s, id, throws);
      case Finish(id) => FinishKeeps(s, id);
      case Commit(id) => CommitKeeps(s, id);
      case CommitDone(id, k, ok) => CommitDoneKeeps(s, id, k, ok);
      case Finalize(id) => FinalizeKeeps(s, id);
      case Release(id) => ReleaseKeeps(s, id);
      case Forget(keys) => ForgetKeepsIff(s, keys);
      case Expire(stale) => ExpireKeeps(s, stale);
      case Drop(lost) => DropKeepsIff(s, lost);
    }
  }

  lemma {:induction false} QuietRunsKeepTheBooks(events: seq<Event>)
    requires QuietRun(events)
    ensures Invariant(Run(events))
    decreases |events|
  {
    if events != [] {
      var n := |events| - 1;
      forall i | 0 <= i < n ensures Quiet(Run(events[..n][..i]), events[..n][i]) {
        assert events[..n][..i] == events[..i];
      }
      QuietRunsKeepTheBooks(events[..n]);
      StepKeeps(Run(events[..n]), events[n]);
    }
  }

  // ---------- consequences over quiet runs ----------

  /** A claim whose store call throws leaves nothing in flight and nothing owned. */
  lemma FailedClaimLeavesNothing(s: State, id: nat)
    requires Invariant(s) && id in s.claims && s.claims[id].Claiming? && s.claims[id].probing
    ensures var s' := StepAnswer(s, id, true);
      && s'.claims[id] == Ended(Failed)
      && s'.inflight == s.inflight - HeldBy(s, id)
      && (forall k :: k in HeldBy(s, id) ==> k in s.inflight)
      && (forall k :: k in s'.owners ==> s'.owners[k].claim != id)
  {
    hide Exclusive, Accounted, Guarded, WellFormed;
    AboutClaim(s, id);
    var c := s.claims[id];
    forall k | Owns(s.owners, id, k) ensures k in c.granted {
      assert Guards(c, s.owners[k], k);
    }
  }

  /** A key is granted only while no other claim holds it and no recorded key answers for it. */
  lemma GrantIsExclusive(s: State, id: nat, k: Key)
    requires Invariant(s) && id in s.claims && s.claims[id].Claiming? && k !in s.claims[id].granted
    requires var s' := StepAnswer(s, id, false); s'.claims[id].Claiming? && k in s'.claims[id].granted
    ensures k in s.inflight && k !in s.recent && StepAnswer(s, id, false).owners[k] == Owner(id, false)
    ensures forall other :: other in s.claims && other != id ==> k !in Holds(s.claims[other])
  {
    assert Probing(s.claims[id], k);
    forall other | other in s.claims && other != id ensures k !in Holds(s.claims[other]) {
      NotHeldTwice(s, id, other, k);
    }
  }

  // ---------- the outcome of a commit ----------

  /** What the joined promise of a handle's commit has come to. */
  datatype CommitOutcome = Waiting | Resolves(recorded: bool) | Rejects

  function OutcomeOf(c: Claim): CommitOutcome
    requires c.Committing?
  {
    if c.rejected then Rejects else if c.pending != {} then Waiting else Resolves(c.recorded)
  }

  /** However often a handle is committed there is one outcome: no later event of any kind changes it. */
  lemma OutcomeIsFinal(s: State, e: Event, id: nat)
    requires id in s.claims && s.claims[id].Committing? && !OutcomeOf(s.claims[id]).Waiting?
    ensures var s' := Step(s, e);
      id in s'.claims && s'.claims[id].Committing? && OutcomeOf(s'.claims[id]) == OutcomeOf(s.claims[id])
  {
  }

  // ---------- what holds on every run, quiet or not ----------

  ghost predicate OncePerClaim(log: seq<Settlement>) {
    forall i, j :: 0 <= i < j < |log| ==> log[i].claim != log[j].claim || log[i].key != log[j].key
  }

  ghost predicate HandlesSettleOwnKeys(log: seq<Settlement>) {
    forall i :: 0 <= i < |log| && log[i].route != ByFailure ==> log[i].owned
  }

  /** A claim that can still settle keys has settled none, and lists each of its keys once. */
  ghost predicate Unsettled(s: State, id: nat) {
    id !in s.claims || s.claims[id].Claiming? || s.claims[id].Held? ==>
      forall i :: 0 <= i < |s.log| ==> s.log[i].claim != id
  }

  ghost predicate DistinctKeys(c: Claim) {
    match c
    case Claiming(keys, next, _, granted, _) =>
      next <= |keys| && Distinct(keys) && Distinct(granted) && forall k :: k in granted ==> k in keys[..next]
    case Held(keys) => Distinct(keys)
    case _ => true
  }

  ghost predicate Settling(s: State) {
    && OncePerClaim(s.log)
    && HandlesSettleOwnKeys(s.log)
    && (forall id :: Unsettled(s, id))
    && (forall id :: id in s.claims ==> DistinctKeys(s.claims[id]))
  }

  lemma {:induction false} DistinctByIndex(keys: seq<Key>, i: nat, j: nat)
    requires Distinct(keys) && i < j < |keys|
    ensures keys[i] != keys[j]
    decreases |keys|
  {
    if i > 0 {
      DistinctByIndex(keys[1..], i - 1, j - 1);
    }
  }

  lemma LogGrows(s: State, s': State, id: nat, keys: seq<Key>, route: Route)
    requires Settling(s) && Unsettled(s, id) && (id !in s.claims || s.claims[id].Claiming? || s.claims[id].Held?)
    requires s'.log == s.log + Settlements(s.owners, id, keys, route) && Distinct(keys)
    requires route != ByFailure ==> forall k :: k in keys ==> Owns(s.owners, id, k)
    requires id in s'.claims && s'.claims == s.claims[id := s'.claims[id]]
    requires !s'.claims[id].Claiming? && !s'.claims[id].Held?
    ensures Settling(s')
  {
    var n := |s.log|;
    forall i, j | 0 <= i < j < |s'.log| ensures s'.log[i].claim != s'.log[j].claim || s'.log[i].key != s'.log[j].key {
      if n <= i {
        DistinctByIndex(keys, i - n, j - n);
      }
    }
    forall other ensures Unsettled(s', other) {
      assert Unsettled(s, other);
    }
  }

  lemma LogStays(s: State, s': State)
    requires Settling(s) && s'.log == s.log
    requires forall id :: id in s'.claims && (s'.claims[id].Claiming? || s'.claims[id].Held?) ==>
      id !in s.claims || s.claims[id].Claiming? || s.claims[id].Held?
    requires forall id :: id in s.claims ==> id in s'.claims
    requires forall id :: id in s'.claims ==> DistinctKeys(s'.claims[id])
    ensures Settling(s')
  {
    forall id ensures Unsettled(s', id) {
      assert Unsettled(s, id);
    }
  }

  lemma AnswerSettles(s: State, id: nat, throws: bool)
    requires Settling(s)
    ensures Settling(StepAnswer(s, id, throws))
  {
    var s' := StepAnswer(s, id, throws);
    if s' != s {
      var c := s.claims[id];
      assert DistinctKeys(c) && Unsettled(s, id);
      if throws {
        LogGrows(s, s', id, c.granted, ByFailure);
      } else {
        DistinctSplit(c.keys, c.next);
        DistinctAppend(c.granted, c.keys[c.next]);
        assert c.keys[..c.next + 1] == c.keys[..c.next] + [c.keys[c.next]];
        LogStays(s, s');
      }
    }
  }

  lemma ProbeSettles(s: State, id: nat)
    requires Settling(s)
    ensures Settling(StepProbe(s, id))
  {
    var s' := StepProbe(s, id);
    if s' != s {
      var c := s.claims[id];
      assert DistinctKeys(c);
      assert c.keys[..c.next + 1] == c.keys[..c.next] + [c.keys[c.next]];
      LogStays(s, s');
    }
  }

  lemma StepSettles(s: State, e: Event)
    requires Settling(s)
    ensures Settling(Step(s, e))
  {
    var s' := Step(s, e);
    match e {
      case Commit(id) =>
        if s' != s {
          assert DistinctKeys(s.claims[id]) && Unsettled(s, id);
          LogGrows(s, s', id, CommittableBy(s.owners, id, s.claims[id].keys), ByCommit);
        }
      case Release(id) =>
        if s' != s {
          assert DistinctKeys(s.claims[id]) && Unsettled(s, id);
          LogGrows(s, s', id, OwnedBy(s.owners, id, s.claims[id].keys), ByRelease);
        }
      case Answer(id, throws) => AnswerSettles(s, id, throws);
      case Probe(id) => ProbeSettles(s, id);
      case Finish(id) =>
        if s' != s {
          assert DistinctKeys(s.claims[id]);
        }
        LogStays(s, s');
      case _ => LogStays(s, s');
    }
  }

  /** On every run a handle settles only keys it owns, and no claim settles a key twice or by two routes. */
  lemma {:induction false} HandlesAreCareful(events: seq<Event>)
    ensures OncePerClaim(Run(events).log) && HandlesSettleOwnKeys(Run(events).log)
    ensures Settling(Run(events))
    decreases |events|
  {
    if events != [] {
      HandlesAreCareful(events[..|events| - 1]);
      StepSettles(Run(events[..|events| - 1]), events[|events| - 1]);
    }
  }
}
