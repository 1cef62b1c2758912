/** The replay guard and its dedupe store, updated in place; each method is one protocol step. */
module ReplayGuard {
  import opened Options
  import opened StringCoercion
  import opened TextOrder
  import opened ReplayProtocol

  datatype ProcessOutcome = Processed | Threw(mode: ErrorMode)

  datatype ErrorMode = CommitOnError | ReleaseOnError | OnErrorThrew

  lemma {:induction false} CommittablePush(owners: map<Key, Owner>, id: nat, keys: seq<Key>, k: Key)
    ensures CommittableBy(owners, id, keys + [k])
         == CommittableBy(owners, id, keys) + if k in owners && owners[k] == Owner(id, false) then [k] else []
    decreases |keys|
  {
    if keys == [] {
      assert [k][1..] == [];
    } else {
      assert (keys + [k])[1..] == keys[1..] + [k];
      CommittablePush(owners, id, keys[1..], k);
    }
  }

  lemma CommittableSnoc(owners: map<Key, Owner>, id: nat, keys: seq<Key>, i: nat)
    requires i < |keys|
    ensures CommittableBy(owners, id, keys[..i + 1]) == CommittableBy(owners, id, keys[..i])
         + if keys[i] in owners && owners[keys[i]] == Owner(id, false) then [keys[i]] else []
  {
    assert keys[..i + 1] == keys[..i] + [keys[i]];
    CommittablePush(owners, id, keys[..i], keys[i]);
  }

  lemma {:induction false} OwnedPush(owners: map<Key, Owner>, id: nat, keys: seq<Key>, k: Key)
    ensures OwnedBy(owners, id, keys + [k]) == OwnedBy(owners, id, keys) + if Owns(owners, id, k) then [k] else []
    decreases |keys|
  {
    if keys == [] {
      assert [k][1..] == [];
    } else {
      assert (keys + [k])[1..] == keys[1..] + [k];
      OwnedPush(owners, id, keys[1..], k);
    }
  }

  lemma OwnedSnoc(owners: map<Key, Owner>, id: nat, keys: seq<Key>, i: nat)
    requires i < |keys|
    ensures OwnedBy(owners, id, keys[..i + 1])
         == OwnedBy(owners, id, keys[..i]) + if Owns(owners, id, keys[i]) then [keys[i]] else []
  {
    assert keys[..i + 1] == keys[..i] + [keys[i]];
    OwnedPush(owners, id, keys[..i], keys[i]);
  }

  class Guard {
    var inflight: set<Key>
    var recent: set<Key>
    var claimOwners: map<Key, Owner>
    var claims: map<nat, Claim>
    ghost var log: seq<Settlement>

    ghost function Abs(): State
      reads this
    {
      State(inflight, recent, claimOwners, claims, log)
    }

    ghost predicate Valid()
      reads this
    {
      Settling(Abs())
    }

    constructor ()
      ensures Valid() && Abs() == FRESH
    {
      inflight, recent, claimOwners, claims, log := {}, {}, map[], map[], [];
    }

    /** Opens a claim for the distinct keys of an event; no keys means the event is not guarded. */
    method Open(id: nat, namespace: string, values: seq<Option<string>>) returns (valid: bool)
      requires Valid() && id !in claims
      modifies this
      ensures Valid() && Abs() == StepBegin(old(Abs()), id, NamedKeys(namespace, values))
      ensures valid <==> exists i :: 0 <= i < |values| && NormalizeOptional(values[i]).Some?
    {
      var raw := NamedKeys(namespace, values);
      hide NormalizeOptional;
      forall k ensures k in raw
        <==> k.namespace == namespace && exists i :: 0 <= i < |values| && NormalizeOptional(values[i]) == Some(k.key)
      {
        NamedKeysAre(namespace, values, k);
      }
      assert forall i :: 0 <= i < |values| && NormalizeOptional(values[i]).Some? ==> Key(namespace, NormalizeOptional(values[i]).value) in raw;
      assert raw != [] ==> raw[0] in raw;
      StepSettles(Abs(), Begin(id, raw));
      var keys := Unique(raw);
      valid := keys != [];
      assert raw != [] ==> raw[0] in keys;
      if valid {
        claims := claims[id := Claiming(keys, 0, false, [], false)];
      }
    }

    /** Asks the store for the next key: in flight elsewhere, or put in flight while it looks it up. */
    method ProbeNext(id: nat)
      requires Valid() && id in claims && claims[id].Claiming?
      requires !claims[id].probing && claims[id].next < |claims[id].keys|
      modifies this
      ensures Valid() && Abs() == StepProbe(old(Abs()), id)
    {
      StepSettles(Abs(), Probe(id));
      var c := claims[id];
      var k := c.keys[c.next];
      if k in inflight {
        claims := claims[id := c.(next := c.next + 1, sawInFlight := true)];
      } else {
        inflight := inflight + {k};
        claims := claims[id := c.(probing := true)];
      }
    }

    method DeleteOwned(id: nat, keys: seq<Key>)
      modifies this`claimOwners
      ensures claimOwners == Disowned(old(claimOwners), id, keys)
    {
      for i := 0 to |keys|
        invariant claimOwners == Disowned(old(claimOwners), id, keys[..i])
      {
        assert keys[..i + 1] == keys[..i] + [keys[i]];
        if keys[i] in claimOwners && claimOwners[keys[i]].claim == id {
          claimOwners := claimOwners - {keys[i]};
        }
      }
      assert keys[..|keys|] == keys;
    }

    method ReleaseInStore(keys: seq<Key>)
      modifies this`inflight
      ensures inflight == old(inflight) - Elements(keys)
    {
      for i := 0 to |keys|
        invariant inflight == old(inflight) - Elements(keys[..i])
      {
        assert keys[..i + 1] == keys[..i] + [keys[i]];
        inflight := inflight - {keys[i]};
      }
      assert keys[..|keys|] == keys;
    }

    /** The store's answer for the key being probed; a throw gives up every granted key. */
    method AnswerProbe(id: nat, throws: bool)
      requires Valid() && id in claims && claims[id].Claiming?
      requires claims[id].probing && claims[id].next < |claims[id].keys|
      modifies this
      ensures Valid() && Abs() == StepAnswer(old(Abs()), id, throws)
    {
      StepSettles(Abs(), Answer(id, throws));
      var c := claims[id];
      var k := c.keys[c.next];
      if throws {
        log := log + Settlements(claimOwners, id, c.granted, ByFailure);
        inflight := inflight - {k};
        ReleaseInStore(c.granted);
        DeleteOwned(id, c.granted);
        claims := claims[id := Ended(Failed)];
      } else if k in recent {
        inflight := inflight - {k};
        claims := claims[id := c.(next := c.next + 1, probing := false)];
      } else {
        claimOwners := claimOwners[k := Owner(id, false)];
        claims := claims[id := c.(next := c.next + 1, probing := false, granted := c.granted + [k])];
      }
    }

    method FinishClaim(id: nat)
      requires Valid() && id in claims && claims[id].Claiming? && claims[id].next == |claims[id].keys|
      modifies this
      ensures Valid() && Abs() == StepFinish(old(Abs()), id)
    {
      StepSettles(Abs(), Finish(id));
      var c := claims[id];
      claims := claims[id :=
        if c.granted != [] then Held(c.granted) else Ended(if c.sawInFlight then InFlight else Duplicate)];
    }

    /** Marks and collects the keys this claim still owns. */
    method MarkCommitting(id: nat, keys: seq<Key>) returns (settling: seq<Key>)
      requires Distinct(keys)
      modifies this`claimOwners
      ensures settling == CommittableBy(old(claimOwners), id, keys)
      ensures claimOwners == Marked(old(claimOwners), id, settling)
    {
      settling := [];
      assert Marked(old(claimOwners), id, []) == claimOwners;
      for i := 0 to |keys|
        invariant settling == CommittableBy(old(claimOwners), id, keys[..i])
        invariant claimOwners == Marked(old(claimOwners), id, settling)
      {
        CommittableSnoc(old(claimOwners), id, keys, i);
        DistinctSplit(keys, i);
        var k := keys[i];
        if k in claimOwners && claimOwners[k] == Owner(id, false) {
          claimOwners := claimOwners[k := Owner(id, true)];
          settling := settling + [k];
        }
      }
      assert keys[..|keys|] == keys;
    }

    /** The handle's commit. A repeated call changes nothing and is given the one pending outcome. */
    method CommitHandle(id: nat) returns (shared: bool)
      requires Valid() && id in claims && (claims[id].Held? || claims[id].Committing? || claims[id].Released?)
      modifies this
      ensures Valid() && Abs() == StepCommit(old(Abs()), id)
      ensures !claims[id].Held?
      ensures shared <==> claims[id].Committing?
      ensures old(claims[id]).Committing? ==> Abs() == old(Abs())
    {
      StepSettles(Abs(), Commit(id));
      if claims[id].Held? {
        ghost var before := claimOwners;
        assert DistinctKeys(claims[id]);
        var settling := MarkCommitting(id, claims[id].keys);
        if settling == [] {
          assert claimOwners == before;
          claims := claims[id := Released];
        } else {
          log := log + Settlements(before, id, settling, ByCommit);
          claims := claims[id := Committing(settling, set k | k in settling, false, false, false)];
        }
      }
      shared := claims[id].Committing?;
    }

    /** One store commit has come back. */
    method CommitReturned(id: nat, k: Key, ok: bool)
      requires Valid() && id in claims && claims[id].Committing? && k in claims[id].pending
      modifies this
      ensures Valid() && Abs() == StepCommitDone(old(Abs()), id, k, ok)
    {
      StepSettles(Abs(), CommitDone(id, k, ok));
      var c := claims[id];
      claims := claims[id := c.(pending := c.pending - {k},
                                recorded := c.recorded || (ok && k !in recent),
                                rejected := c.rejected || !ok)];
      inflight := inflight - {k};
      if ok {
        recent := recent + {k};
      }
    }

    /** The cleanup after the joined commit promise settles. */
    method FinalizeCommit(id: nat)
      requires Valid() && id in claims && claims[id].Committing? && !claims[id].finalized
      requires claims[id].pending == {} || claims[id].rejected
      modifies this
      ensures Valid() && Abs() == StepFinalize(old(Abs()), id)
    {
      StepSettles(Abs(), Finalize(id));
      var c := claims[id];
      DeleteOwned(id, c.settling);
      claims := claims[id := c.(finalized := true)];
    }

    method CollectOwned(id: nat, keys: seq<Key>) returns (owned: seq<Key>)
      ensures owned == OwnedBy(claimOwners, id, keys)
    {
      owned := [];
      for i := 0 to |keys|
        invariant owned == OwnedBy(claimOwners, id, keys[..i])
      {
        OwnedSnoc(claimOwners, id, keys, i);
        if keys[i] in claimOwners && claimOwners[keys[i]].claim == id {
          owned := owned + [keys[i]];
        }
      }
      assert keys[..|keys|] == keys;
    }

    /** The handle's release; after any settlement it changes nothing. */
    method ReleaseHandle(id: nat)
      requires Valid() && id in claims && (claims[id].Held? || claims[id].Committing? || claims[id].Released?)
      modifies this
      ensures Valid() && Abs() == StepRelease(old(Abs()), id)
      ensures !claims[id].Held?
    {
      StepSettles(Abs(), Release(id));
      if claims[id].Held? {
        var releasing := CollectOwned(id, claims[id].keys);
        log := log + Settlements(claimOwners, id, releasing, ByRelease);
        claims := claims[id := Released];
        ReleaseInStore(releasing);
        DeleteOwned(id, releasing);
      }
    }

    /** Forgets the keys that no handle guards, and says whether the store answered yes for any of them;
        a guarded key is not asked about. */
    method ForgetKeys(keys: seq<Key>, answer: Key -> bool) returns (forgotten: bool)
      requires Valid()
      modifies this
      ensures Valid() && Abs() == StepForget(old(Abs()), keys)
      ensures forgotten <==> exists k :: k in keys && k !in old(claimOwners) && answer(k)
      ensures (forall k :: k in keys ==> k in old(claimOwners)) ==> !forgotten && Abs() == old(Abs())
    {
      StepSettles(Abs(), Forget(keys));
      forgotten := false;
      ghost var before := Abs();
      var asked: set<Key> := {};
      for i := 0 to |keys|
        invariant asked == Forgettable(before, keys[..i])
        invariant forgotten <==> exists k :: k in keys[..i] && k !in claimOwners && answer(k)
        invariant Abs() == before
      {
        assert keys[..i + 1] == keys[..i] + [keys[i]];
        if keys[i] !in claimOwners {
          asked := asked + {keys[i]};
          forgotten := forgotten || answer(keys[i]);
        }
      }
      assert keys[..|keys|] == keys;
      inflight := inflight - asked;
      recent := recent - asked;
    }

    /** What `processGuarded` does with its handle once the work has ended; it stays open only when the
        error callback itself throws. */
    method SettleProcessed(id: nat, outcome: ProcessOutcome)
      requires Valid() && id in claims && claims[id].Held?
      modifies this
      ensures Valid()
      ensures Abs() == match outcome
        case Processed => StepCommit(old(Abs()), id)
        case Threw(CommitOnError) => StepCommit(old(Abs()), id)
        case Threw(ReleaseOnError) => StepRelease(old(Abs()), id)
        case Threw(OnErrorThrew) => old(Abs())
      ensures id in claims && (claims[id].Held? <==> outcome == Threw(OnErrorThrew))
    {
      match outcome {
        case Threw(OnErrorThrew) =>
        case Threw(ReleaseOnError) => ReleaseHandle(id);
        case _ =>
          var shared := CommitHandle(id);
      }
    }
  }
}
