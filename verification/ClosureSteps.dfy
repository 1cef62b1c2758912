/** What the walks promise, and the steps by which they keep it. */
module ClosureSteps {
  import opened FiniteSets
  import opened Reachability
  import opened DeclarationGraph

  datatype Walk = Walk(sections: set<Section>, tainted: bool)

  datatype WalkResult = Null | Found(walk: Walk)

  // ---------- which resolutions are reported as unresolved ----------

  predicate Unresolved(d: Dependency) {
    d.Failure? || (d.External? && d.unresolved)
  }

  predicate AnyUnresolved(ds: seq<Dependency>) {
    exists d :: d in ds && Unresolved(d)
  }

  /** Indexing a file resolves its side effects, star exports, imports and re-exports. */
  predicate IndexUnresolved(ix: FileIndex) {
    || AnyUnresolved(ix.sideEffects)
    || AnyUnresolved(ix.exportStars)
    || (exists n :: n in ix.imports && Unresolved(ix.imports[n]))
    || (exists n :: n in ix.reexports && ix.reexports[n].FromModule? && Unresolved(ix.reexports[n].dep))
  }

  predicate FileUnresolved(ix: FileIndex) {
    || IndexUnresolved(ix)
    || AnyUnresolved(ix.references)
    || (exists n, st :: n in ix.declarations && st in ix.declarations[n] && AnyUnresolved(st.importTypes))
  }

  lemma KnownReference(p: Program, ix: FileIndex, d: Dependency)
    requires p.KnowsIndex(ix) && (d in ix.references || d in ix.sideEffects || d in ix.exportStars)
    ensures p.Knows(d)
  {
  }

  lemma ReferenceUnresolved(ix: FileIndex, d: Dependency)
    requires d in ix.references
    ensures Unresolved(d) ==> FileUnresolved(ix)
  {
  }

  lemma ImportTypeUnresolved(ix: FileIndex, n: string, st: Statement, d: Dependency)
    requires n in ix.declarations && st in ix.declarations[n] && d in st.importTypes
    ensures Unresolved(d) ==> FileUnresolved(ix)
  {
  }

  // ---------- what walks promise ----------

  ghost function FallbackSections(p: Program, files: set<File>): set<Section>
    requires files <= p.files.Keys
  {
    set g | g in files :: Section("*", p.files[g].text)
  }

  ghost predicate FallbackExact(p: Program, f: File, sections: set<Section>) {
    forall s :: s in sections <==> InFallback(p, f, s)
  }

  ghost predicate AmbientExact(p: Program, f: File, sections: set<Section>) {
    forall s :: s in sections <==> InAmbient(p, f, s)
  }

  ghost predicate ClosureExact(p: Program, k: Key, sections: set<Section>) {
    forall s :: s in sections <==> InClosure(p, k, s)
  }

  /** The walk holds nothing foreign, everything reachable off the active files, and everything
      reachable at all when it is untainted. */
  ghost predicate AmbientAnswer(p: Program, active: set<File>, f: File, w: Walk) {
    && (forall s :: s in w.sections ==> InAmbient(p, f, s))
    && (forall s :: CollectsAvoiding(AmbientEdges(p), AmbientOwns(p), active, f, s) ==> s in w.sections)
    && (!w.tainted ==> forall s :: InAmbient(p, f, s) ==> s in w.sections)
  }

  ghost predicate Answer(p: Program, active: set<Key>, k: Key, w: Walk) {
    && (forall s :: s in w.sections ==> InClosure(p, k, s))
    && (forall s :: InClosureOff(p, active, k, s) ==> s in w.sections)
    && (!w.tainted ==> forall s :: InClosure(p, k, s) ==> s in w.sections)
  }

  /** The same promise for one target of a declaration. */
  ghost predicate TargetHas(p: Program, t: Target, s: Section) {
    match t
    case ToKey(k) => InClosure(p, k, s)
    case ToFallback(f) => InFallback(p, f, s)
  }

  ghost predicate TargetCovered(p: Program, active: set<Key>, t: Target, w: Walk) {
    match t
    case ToKey(k) =>
      && (forall s :: InClosureOff(p, active, k, s) ==> s in w.sections)
      && (!w.tainted ==> forall s :: InClosure(p, k, s) ==> s in w.sections)
    case ToFallback(f) => forall s :: InFallback(p, f, s) ==> s in w.sections
  }

  ghost predicate Extends(w: Walk, w': Walk) {
    w.sections <= w'.sections && (w.tainted ==> w'.tainted)
  }

  function Join(w: Walk, w': Walk): (r: Walk)
    ensures Extends(w, r) && Extends(w', r)
    ensures forall s :: s in r.sections ==> s in w.sections || s in w'.sections
  {
    Walk(w.sections + w'.sections, w.tainted || w'.tainted)
  }

  lemma CoveredGrows(p: Program, active: set<Key>, t: Target, w: Walk, w': Walk)
    requires TargetCovered(p, active, t, w) && Extends(w, w')
    ensures TargetCovered(p, active, t, w')
  {
  }

  lemma TargetInClosure(p: Program, k: Key, t: Target, s: Section)
    requires HasTarget(p, k, t) && TargetHas(p, t, s)
    ensures InClosure(p, k, s)
  {
    match t {
      case ToKey(j) =>
        assert KeyEdges(p)(k, j);
        CollectsStep(KeyEdges(p), KeyOwns(p), k, j, s);
      case ToFallback(f) =>
        assert KeyOwns(p)(k, s);
        CollectsOwn(KeyEdges(p), KeyOwns(p), k, s);
    }
  }

  /** Once its own sections and all its targets are covered, a declaration is answered. */
  lemma AnswerFromTargets(p: Program, active: set<Key>, k: Key, w: Walk)
    requires forall s :: s in w.sections ==> InClosure(p, k, s)
    requires forall s :: KeyText(p, k, s) ==> s in w.sections
    requires Declared(p, k) ==> forall s :: InAmbient(p, k.file, s) ==> s in w.sections
    requires forall t :: HasTarget(p, k, t) ==> TargetCovered(p, active + {k}, t, w)
    ensures Answer(p, active, k, w)
  {
    forall s | KeyOwns(p)(k, s) ensures s in w.sections {
      if f :| HasTarget(p, k, ToFallback(f)) && InFallback(p, f, s) {
        assert TargetCovered(p, active + {k}, ToFallback(f), w);
      }
    }
    forall j, s | KeyEdges(p)(k, j) && CollectsAvoiding(KeyEdges(p), KeyOwns(p), active + {k}, j, s)
      ensures s in w.sections
    {
      assert TargetCovered(p, active + {k}, ToKey(j), w);
      assert InClosureOff(p, active + {k}, j, s);
    }
    Covered(KeyEdges(p), KeyOwns(p), active, k, w.sections);
    if !w.tainted {
      forall j, s | KeyEdges(p)(k, j) && Collects(KeyEdges(p), KeyOwns(p), j, s) ensures s in w.sections {
        assert TargetCovered(p, active + {k}, ToKey(j), w);
        assert InClosure(p, j, s);
      }
      FullyCovered(KeyEdges(p), KeyOwns(p), k, w.sections);
    }
  }

  lemma AmbientAnswerFromEdges(p: Program, active: set<File>, f: File, w: Walk)
    requires forall s :: s in w.sections ==> InAmbient(p, f, s)
    requires forall s :: AmbientOwn(p, f, s) ==> s in w.sections
    requires forall g, s ::
      AmbientEdge(p, f, g) && CollectsAvoiding(AmbientEdges(p), AmbientOwns(p), active + {f}, g, s)
      ==> s in w.sections
    requires !w.tainted ==> forall g, s :: AmbientEdge(p, f, g) && InAmbient(p, g, s) ==> s in w.sections
    ensures AmbientAnswer(p, active, f, w)
  {
    Covered(AmbientEdges(p), AmbientOwns(p), active, f, w.sections);
    if !w.tainted {
      forall g, s | AmbientEdges(p)(f, g) && Collects(AmbientEdges(p), AmbientOwns(p), g, s)
        ensures s in w.sections
      {
        assert InAmbient(p, g, s);
      }
      FullyCovered(AmbientEdges(p), AmbientOwns(p), f, w.sections);
    }
  }

  lemma AmbientFromExact(p: Program, active: set<File>, f: File, w: Walk)
    requires AmbientExact(p, f, w.sections)
    ensures AmbientAnswer(p, active, f, w)
  {
    forall s | CollectsAvoiding(AmbientEdges(p), AmbientOwns(p), active, f, s) ensures s in w.sections {
      AvoidingStart(AmbientEdges(p), AmbientOwns(p), active, f, s);
      assert InAmbient(p, f, s);
    }
  }

  lemma AmbientBackEdge(p: Program, active: set<File>, f: File)
    requires f in active
    ensures AmbientAnswer(p, active, f, Walk({}, true))
  {
    forall s | CollectsAvoiding(AmbientEdges(p), AmbientOwns(p), active, f, s) ensures false {
      AvoidingStart(AmbientEdges(p), AmbientOwns(p), active, f, s);
    }
  }

  lemma GlobalsInAmbient(p: Program, f: File)
    requires f in p.files
    ensures forall t :: t in p.files[f].globals ==> InAmbient(p, f, Section("global", t))
  {
    forall t | t in p.files[f].globals ensures InAmbient(p, f, Section("global", t)) {
      assert AmbientOwns(p)(f, Section("global", t));
      CollectsOwn(AmbientEdges(p), AmbientOwns(p), f, Section("global", t));
    }
  }

  lemma FailureInAmbient(p: Program, f: File)
    requires f in p.files && Failure in p.files[f].sideEffects
    ensures forall s :: InFallback(p, f, s) ==> InAmbient(p, f, s)
  {
    forall s | InFallback(p, f, s) ensures InAmbient(p, f, s) {
      assert AmbientOwns(p)(f, s);
      CollectsOwn(AmbientEdges(p), AmbientOwns(p), f, s);
    }
  }

  lemma AmbientStep(p: Program, f: File, g: File)
    requires AmbientEdge(p, f, g)
    ensures forall s :: InAmbient(p, g, s) ==> InAmbient(p, f, s)
  {
    forall s | InAmbient(p, g, s) ensures InAmbient(p, f, s) {
      assert AmbientEdges(p)(f, g);
      CollectsStep(AmbientEdges(p), AmbientOwns(p), f, g, s);
    }
  }

  ghost predicate AllAmbient(p: Program, f: File, sections: set<Section>) {
    forall s :: s in sections ==> InAmbient(p, f, s)
  }

  ghost predicate GlobalsHeld(ix: FileIndex, w: Walk) {
    forall t :: t in ix.globals ==> Section("global", t) in w.sections
  }

  /** What one side effect of `f` yields. */
  ghost predicate SideEffectAnswer(p: Program, active: set<File>, f: File, d: Dependency, w: Walk) {
    match d
    case External(_) => w.sections == {}
    case Failure => FallbackExact(p, f, w.sections)
    case Repo(g, _) => AmbientAnswer(p, active, g, w)
  }

  ghost predicate SideEffectCovered(p: Program, active: set<File>, f: File, d: Dependency, w: Walk) {
    match d
    case External(_) => true
    case Failure => forall s :: InFallback(p, f, s) ==> s in w.sections
    case Repo(g, _) =>
      && (forall s :: CollectsAvoiding(AmbientEdges(p), AmbientOwns(p), active, g, s) ==> s in w.sections)
      && (!w.tainted ==> forall s :: InAmbient(p, g, s) ==> s in w.sections)
  }

  ghost predicate SideEffectsCovered(p: Program, active: set<File>, f: File, ds: seq<Dependency>, w: Walk) {
    forall d :: d in ds ==> SideEffectCovered(p, active, f, d, w)
  }

  lemma AmbientStart(p: Program, active: set<File>, f: File, w: Walk)
    requires f in p.files && w.sections == set t | t in p.files[f].globals :: Section("global", t)
    ensures AllAmbient(p, f, w.sections) && GlobalsHeld(p.files[f], w)
    ensures SideEffectsCovered(p, active, f, [], w)
  {
    GlobalsInAmbient(p, f);
  }

  lemma SideEffectNext(p: Program, active: set<File>, f: File, i: nat, w: Walk, more: Walk)
    requires p.Valid() && f in p.files && i < |p.files[f].sideEffects|
    requires SideEffectAnswer(p, active, f, p.files[f].sideEffects[i], more)
    requires AllAmbient(p, f, w.sections) && GlobalsHeld(p.files[f], w)
    requires SideEffectsCovered(p, active, f, p.files[f].sideEffects[..i], w)
    ensures AllAmbient(p, f, Join(w, more).sections) && GlobalsHeld(p.files[f], Join(w, more))
    ensures SideEffectsCovered(p, active, f, p.files[f].sideEffects[..i + 1], Join(w, more))
  {
    var d := p.files[f].sideEffects[i];
    match d {
      case External(_) =>
      case Failure => FailureInAmbient(p, f);
      case Repo(g, _) =>
        KnownReference(p, p.files[f], d);
        AmbientStep(p, f, g);
    }
    assert p.files[f].sideEffects[..i + 1] == p.files[f].sideEffects[..i] + [d];
    forall e | e in p.files[f].sideEffects[..i + 1] ensures SideEffectCovered(p, active, f, e, Join(w, more)) {
      if e in p.files[f].sideEffects[..i] {
        assert SideEffectCovered(p, active, f, e, w);
      } else {
        assert e == d;
      }
    }
  }

  lemma AmbientDone(p: Program, active: set<File>, f: File, w: Walk)
    requires f in p.files && AllAmbient(p, f, w.sections) && GlobalsHeld(p.files[f], w)
    requires SideEffectsCovered(p, active + {f}, f, p.files[f].sideEffects, w)
    ensures AmbientAnswer(p, active, f, w)
    ensures !w.tainted ==> AmbientExact(p, f, w.sections)
  {
    forall s | AmbientOwn(p, f, s) ensures s in w.sections {
      if Failure in p.files[f].sideEffects {
        assert SideEffectCovered(p, active + {f}, f, Failure, w);
      }
    }
    forall g | AmbientEdge(p, f, g)
      ensures forall s :: CollectsAvoiding(AmbientEdges(p), AmbientOwns(p), active + {f}, g, s) ==> s in w.sections
      ensures !w.tainted ==> forall s :: InAmbient(p, g, s) ==> s in w.sections
    {
      var d :| d in p.files[f].sideEffects && d.Repo? && d.file == g;
      assert SideEffectCovered(p, active + {f}, f, d, w);
    }
    AmbientAnswerFromEdges(p, active, f, w);
  }

  // ---------- steps of the declaration walk ----------

  lemma AmbientIsExact(p: Program, f: File, w: Walk)
    requires AmbientAnswer(p, {}, f, w)
    ensures AmbientExact(p, f, w.sections)
  {
    forall s | InAmbient(p, f, s) ensures s in w.sections {
      AvoidingNothing(AmbientEdges(p), AmbientOwns(p), f, s);
    }
  }

  lemma AnswerIsExact(p: Program, k: Key, w: Walk)
    requires Answer(p, {}, k, w)
    ensures ClosureExact(p, k, w.sections)
  {
    forall s | InClosure(p, k, s) ensures s in w.sections {
      AvoidingNothing(KeyEdges(p), KeyOwns(p), k, s);
      assert InClosureOff(p, {}, k, s);
    }
  }

  lemma UntaintedIsExact(p: Program, active: set<Key>, k: Key, w: Walk)
    requires Answer(p, active, k, w) && !w.tainted
    ensures ClosureExact(p, k, w.sections)
  {
  }

  lemma ExternalAnswer(p: Program, active: set<Key>, owner: File, d: Dependency)
    requires d.External?
    ensures DependencyAnswer(p, active, owner, d, Walk({}, false))
  {
  }

  lemma KnownStar(p: Program, f: File, d: Dependency)
    requires p.Valid() && f in p.files && d in p.files[f].exportStars
    ensures p.Knows(d)
  {
    KnownReference(p, p.files[f], d);
  }

  lemma AnswerFromExact(p: Program, active: set<Key>, k: Key, w: Walk)
    requires ClosureExact(p, k, w.sections)
    ensures Answer(p, active, k, w)
  {
    forall s | InClosureOff(p, active, k, s) ensures s in w.sections {
      AvoidingStart(KeyEdges(p), KeyOwns(p), active, k, s);
      assert InClosure(p, k, s);
    }
  }

  lemma AnswerBackEdge(p: Program, active: set<Key>, k: Key)
    requires k in active
    ensures Answer(p, active, k, Walk({}, true))
  {
    forall s | InClosureOff(p, active, k, s) ensures false {
      AvoidingStart(KeyEdges(p), KeyOwns(p), active, k, s);
    }
  }

  lemma DeclaredNotMissing(p: Program, k: Key)
    requires Declared(p, k)
    ensures !Missing(p, k)
  {
  }

  lemma ReexportedNotMissing(p: Program, k: Key)
    requires Reexported(p, k)
    ensures !Missing(p, k)
  {
  }

  /** Active keys that are missing are further from the end of the star search than `k`. */
  ghost predicate Below(p: Program, active: set<Key>, k: Key) {
    forall a :: a in active && Missing(p, a) ==> Missing(p, k) && Rank(p, k) < Rank(p, a)
  }

  ghost predicate NoneMissing(p: Program, active: set<Key>) {
    forall a :: a in active ==> !Missing(p, a)
  }

  lemma ActiveIsNotMissing(p: Program, active: set<Key>, k: Key)
    requires Below(p, active, k) && k in active
    ensures !Missing(p, k)
  {
  }

  lemma NoneAboveIsMissing(p: Program, active: set<Key>, k: Key)
    requires Below(p, active, k) && !Missing(p, k)
    ensures NoneMissing(p, active + {k})
  {
  }

  lemma FreeOfMissing(p: Program, active: set<Key>, k: Key)
    requires NoneMissing(p, active)
    ensures Below(p, active, k)
  {
  }

  lemma StarIsBelow(p: Program, active: set<Key>, k: Key, d: Dependency)
    requires Below(p, active, k) && k.exported && k.file in p.files && d in p.files[k.file].exportStars && d.Repo?
    ensures Below(p, active + {k}, StarKey(d, k))
  {
    if Missing(p, k) {
      MissingStar(p, k, d);
    }
  }

  lemma LocalIsDeclared(p: Program, f: File, n: string)
    requires f in p.files
    ensures Missing(p, Key(f, false, n)) <==> n !in p.files[f].declarations
  {
    if n !in p.files[f].declarations {
      assert MissingWithin(p, Key(f, false, n), 0);
    }
  }

  lemma AmbientInClosure(p: Program, k: Key)
    requires Declared(p, k)
    ensures forall s :: InAmbient(p, k.file, s) ==> InClosure(p, k, s)
  {
    forall s | InAmbient(p, k.file, s) ensures InClosure(p, k, s) {
      assert KeyOwns(p)(k, s);
      CollectsOwn(KeyEdges(p), KeyOwns(p), k, s);
    }
  }

  ghost predicate AllInClosure(p: Program, k: Key, sections: set<Section>) {
    forall s :: s in sections ==> InClosure(p, k, s)
  }

  ghost predicate AmbientHeld(p: Program, f: File, w: Walk) {
    forall s :: InAmbient(p, f, s) ==> s in w.sections
  }

  /** What resolving one dependency yields. */
  ghost predicate DependencyAnswer(p: Program, active: set<Key>, owner: File, d: Dependency, w: Walk) {
    && (forall s :: s in w.sections ==> exists t :: Resolves(p, owner, d, t) && TargetHas(p, t, s))
    && (forall t :: Resolves(p, owner, d, t) ==> TargetCovered(p, active, t, w))
  }

  ghost predicate ReferenceAnswer(p: Program, active: set<Key>, f: File, r: string, w: Walk)
    requires f in p.files
  {
    && (forall s :: s in w.sections ==> exists t :: RefersTo(p, f, r, t) && TargetHas(p, t, s))
    && (forall t :: RefersTo(p, f, r, t) ==> TargetCovered(p, active, t, w))
  }

  ghost predicate FromStatement(p: Program, f: File, st: Statement, sections: set<Section>)
    requires f in p.files
  {
    forall s :: s in sections ==> exists t :: StatementTarget(p, f, st, t) && TargetHas(p, t, s)
  }

  ghost predicate ImportTypesCovered(p: Program, active: set<Key>, f: File, ds: seq<Dependency>, w: Walk) {
    forall d, t :: d in ds && Resolves(p, f, d, t) ==> TargetCovered(p, active, t, w)
  }

  ghost predicate ReferencesCovered(p: Program, active: set<Key>, f: File, refs: seq<string>, w: Walk)
    requires f in p.files
  {
    forall r, t :: r in refs && RefersTo(p, f, r, t) ==> TargetCovered(p, active, t, w)
  }

  ghost predicate StatementCovered(p: Program, active: set<Key>, k: Key, st: Statement, w: Walk)
    requires k.file in p.files
  {
    && Section(k.name, st.text) in w.sections
    && forall t :: StatementTarget(p, k.file, st, t) ==> TargetCovered(p, active, t, w)
  }

  ghost predicate StatementsCovered(p: Program, active: set<Key>, k: Key, sts: seq<Statement>, w: Walk)
    requires k.file in p.files
  {
    forall st :: st in sts ==> StatementCovered(p, active, k, st, w)
  }

  lemma DependencyFallback(p: Program, active: set<Key>, owner: File, d: Dependency, f: File, w: Walk)
    requires forall t :: Resolves(p, owner, d, t) <==> t == ToFallback(f)
    requires FallbackExact(p, f, w.sections)
    ensures DependencyAnswer(p, active, owner, d, w)
  {
    assert Resolves(p, owner, d, ToFallback(f));
    forall s | s in w.sections ensures exists t :: Resolves(p, owner, d, t) && TargetHas(p, t, s) {
      assert TargetHas(p, ToFallback(f), s);
    }
  }

  lemma DependencyWalk(p: Program, active: set<Key>, owner: File, d: Dependency, k: Key, w: Walk)
    requires forall t :: Resolves(p, owner, d, t) <==> t == ToKey(k)
    requires Answer(p, active, k, w)
    ensures DependencyAnswer(p, active, owner, d, w)
  {
    assert Resolves(p, owner, d, ToKey(k));
    forall s | s in w.sections ensures exists t :: Resolves(p, owner, d, t) && TargetHas(p, t, s) {
      assert TargetHas(p, ToKey(k), s);
    }
  }

  lemma ReferenceWalk(p: Program, active: set<Key>, f: File, r: string, w: Walk)
    requires f in p.files && r in p.files[f].declarations && Answer(p, active, Key(f, false, r), w)
    ensures ReferenceAnswer(p, active, f, r, w)
  {
    var t := ToKey(Key(f, false, r));
    forall s | s in w.sections ensures exists t' :: RefersTo(p, f, r, t') && TargetHas(p, t', s) {
      assert RefersTo(p, f, r, t) && TargetHas(p, t, s);
    }
  }

  lemma ReferenceImport(p: Program, active: set<Key>, f: File, r: string, w: Walk)
    requires f in p.files && r !in p.files[f].declarations && r in p.files[f].imports
    requires DependencyAnswer(p, active, f, p.files[f].imports[r], w)
    ensures ReferenceAnswer(p, active, f, r, w)
  {
    forall s | s in w.sections ensures exists t :: RefersTo(p, f, r, t) && TargetHas(p, t, s) {
      var t :| Resolves(p, f, p.files[f].imports[r], t) && TargetHas(p, t, s);
      assert RefersTo(p, f, r, t);
    }
  }

  lemma StatementStart(p: Program, active: set<Key>, f: File, st: Statement)
    requires f in p.files
    ensures FromStatement(p, f, st, {})
    ensures ImportTypesCovered(p, active, f, [], Walk({}, false))
    ensures ReferencesCovered(p, active, f, [], Walk({}, false))
  {
  }

  lemma ImportTypeNext(p: Program, active: set<Key>, f: File, st: Statement, i: nat, w: Walk, more: Walk)
    requires f in p.files && i < |st.importTypes|
    requires DependencyAnswer(p, active, f, st.importTypes[i], more)
    requires FromStatement(p, f, st, w.sections) && ImportTypesCovered(p, active, f, st.importTypes[..i], w)
    ensures FromStatement(p, f, st, Join(w, more).sections)
    ensures ImportTypesCovered(p, active, f, st.importTypes[..i + 1], Join(w, more))
  {
    var d0 := st.importTypes[i];
    forall s | s in more.sections ensures exists t :: StatementTarget(p, f, st, t) && TargetHas(p, t, s) {
      var t :| Resolves(p, f, d0, t) && TargetHas(p, t, s);
      assert StatementTarget(p, f, st, t);
    }
    forall d, t | d in st.importTypes[..i + 1] && Resolves(p, f, d, t)
      ensures TargetCovered(p, active, t, Join(w, more))
    {
      assert st.importTypes[..i + 1] == st.importTypes[..i] + [d0];
      if d in st.importTypes[..i] {
        CoveredGrows(p, active, t, w, Join(w, more));
      } else {
        CoveredGrows(p, active, t, more, Join(w, more));
      }
    }
  }

  lemma ReferenceNext(p: Program, active: set<Key>, f: File, st: Statement, i: nat, w: Walk, more: Walk)
    requires f in p.files && i < |st.refs|
    requires ReferenceAnswer(p, active, f, st.refs[i], more)
    requires FromStatement(p, f, st, w.sections) && ReferencesCovered(p, active, f, st.refs[..i], w)
    ensures FromStatement(p, f, st, Join(w, more).sections)
    ensures ReferencesCovered(p, active, f, st.refs[..i + 1], Join(w, more))
  {
    var r0 := st.refs[i];
    forall s | s in more.sections ensures exists t :: StatementTarget(p, f, st, t) && TargetHas(p, t, s) {
      var t :| RefersTo(p, f, r0, t) && TargetHas(p, t, s);
      assert StatementTarget(p, f, st, t);
    }
    forall r, t | r in st.refs[..i + 1] && RefersTo(p, f, r, t)
      ensures TargetCovered(p, active, t, Join(w, more))
    {
      assert st.refs[..i + 1] == st.refs[..i] + [r0];
      if r in st.refs[..i] {
        CoveredGrows(p, active, t, w, Join(w, more));
      } else {
        CoveredGrows(p, active, t, more, Join(w, more));
      }
    }
  }

  lemma StatementsStart(p: Program, active: set<Key>, k: Key, w: Walk)
    requires Declared(p, k) && AmbientExact(p, k.file, w.sections)
    ensures AllInClosure(p, k, w.sections) && AmbientHeld(p, k.file, w)
    ensures StatementsCovered(p, active, k, [], w)
  {
    AmbientInClosure(p, k);
  }

  function StatementWalk(k: Key, st: Statement, imported: Walk, referenced: Walk): Walk {
    Join(Join(Walk({Section(k.name, st.text)}, false), imported), referenced)
  }

  lemma StatementDone(p: Program, active: set<Key>, k: Key, st: Statement, imported: Walk, referenced: Walk)
    requires Declared(p, k) && st in p.files[k.file].declarations[k.name]
    requires FromStatement(p, k.file, st, imported.sections) && FromStatement(p, k.file, st, referenced.sections)
    requires ImportTypesCovered(p, active, k.file, st.importTypes, imported)
    requires ReferencesCovered(p, active, k.file, st.refs, referenced)
    ensures StatementCovered(p, active, k, st, StatementWalk(k, st, imported, referenced))
    ensures AllInClosure(p, k, StatementWalk(k, st, imported, referenced).sections)
  {
    var w := StatementWalk(k, st, imported, referenced);
    forall t | StatementTarget(p, k.file, st, t) ensures TargetCovered(p, active, t, w) {
      if d :| d in st.importTypes && Resolves(p, k.file, d, t) {
        CoveredGrows(p, active, t, imported, w);
      } else {
        CoveredGrows(p, active, t, referenced, w);
      }
    }
    var own := Section(k.name, st.text);
    assert KeyOwns(p)(k, own);
    CollectsOwn(KeyEdges(p), KeyOwns(p), k, own);
    forall s | s in imported.sections || s in referenced.sections ensures InClosure(p, k, s) {
      var t :| StatementTarget(p, k.file, st, t) && TargetHas(p, t, s);
      TargetInClosure(p, k, t, s);
    }
  }

  lemma StatementNext(p: Program, active: set<Key>, k: Key, sts: seq<Statement>, i: nat, w: Walk, more: Walk)
    requires Declared(p, k) && i < |sts|
    requires StatementCovered(p, active, k, sts[i], more) && AllInClosure(p, k, more.sections)
    requires AllInClosure(p, k, w.sections) && AmbientHeld(p, k.file, w)
    requires StatementsCovered(p, active, k, sts[..i], w)
    ensures AllInClosure(p, k, Join(w, more).sections) && AmbientHeld(p, k.file, Join(w, more))
    ensures StatementsCovered(p, active, k, sts[..i + 1], Join(w, more))
  {
    var w' := Join(w, more);
    assert sts[..i + 1] == sts[..i] + [sts[i]];
    forall st | st in sts[..i + 1] ensures StatementCovered(p, active, k, st, w') {
      var old' := if st in sts[..i] then w else more;
      assert StatementCovered(p, active, k, st, old');
      forall t | StatementTarget(p, k.file, st, t) ensures TargetCovered(p, active, t, w') {
        CoveredGrows(p, active, t, old', w');
      }
    }
  }

  lemma StatementsDone(p: Program, active: set<Key>, k: Key, w: Walk)
    requires Declared(p, k) && AllInClosure(p, k, w.sections) && AmbientHeld(p, k.file, w)
    requires StatementsCovered(p, active + {k}, k, p.files[k.file].declarations[k.name], w)
    ensures Answer(p, active, k, w)
  {
    forall t | HasTarget(p, k, t) ensures TargetCovered(p, active + {k}, t, w) {
      var st :| st in p.files[k.file].declarations[k.name] && StatementTarget(p, k.file, st, t);
      assert StatementCovered(p, active + {k}, k, st, w);
    }
    forall s | KeyText(p, k, s) ensures s in w.sections {
      var st :| st in p.files[k.file].declarations[k.name] && s == Section(k.name, st.text);
      assert StatementCovered(p, active + {k}, k, st, w);
    }
    AnswerFromTargets(p, active, k, w);
  }

  /** A declaration with exactly one target has that target's closure. */
  lemma SingleTarget(p: Program, active: set<Key>, k: Key, t: Target, w: Walk)
    requires !Declared(p, k) && forall t' :: HasTarget(p, k, t') <==> t' == t
    requires match t
      case ToKey(j) => Answer(p, active + {k}, j, w)
      case ToFallback(f) => FallbackExact(p, f, w.sections)
    ensures Answer(p, active, k, w)
  {
    forall s | s in w.sections ensures InClosure(p, k, s) {
      assert TargetHas(p, t, s);
      TargetInClosure(p, k, t, s);
    }
    AnswerFromTargets(p, active, k, w);
  }

  lemma ReexportModule(p: Program, active: set<Key>, k: Key, d: Dependency, w: Walk)
    requires !Declared(p, k) && Reexported(p, k) && p.files[k.file].reexports[k.name] == FromModule(d)
    requires DependencyAnswer(p, active + {k}, k.file, d, w)
    ensures Answer(p, active, k, w)
  {
    forall s | s in w.sections ensures InClosure(p, k, s) {
      var t :| Resolves(p, k.file, d, t) && TargetHas(p, t, s);
      assert HasTarget(p, k, t);
      TargetInClosure(p, k, t, s);
    }
    AnswerFromTargets(p, active, k, w);
  }

  lemma {:induction false} MissingLonger(p: Program, k: Key, depth: nat, longer: nat)
    requires MissingWithin(p, k, depth) && depth <= longer
    ensures MissingWithin(p, k, longer)
    decreases depth
  {
    if k.exported && k.file in p.files {
      forall d | d in p.files[k.file].exportStars && d.Repo? ensures MissingWithin(p, StarKey(d, k), longer - 1) {
        MissingLonger(p, StarKey(d, k), depth - 1, longer - 1);
      }
    }
  }

  /** A search that passes over every star entry has failed. */
  lemma {:induction false} SkippedDepth(p: Program, k: Key, ds: seq<Dependency>) returns (depth: nat)
    requires forall d :: d in ds ==> Skipped(p, k, d)
    ensures forall d :: d in ds && d.Repo? ==> MissingWithin(p, StarKey(d, k), depth)
  {
    if ds == [] {
      return 0;
    }
    depth := SkippedDepth(p, k, ds[1..]);
    if ds[0].Repo? {
      assert Skipped(p, k, ds[0]);
      var own: nat :| MissingWithin(p, StarKey(ds[0], k), own);
      var shorter := depth;
      depth := if own > depth then own else depth;
      MissingLonger(p, StarKey(ds[0], k), own, depth);
      forall d | d in ds[1..] && d.Repo? ensures MissingWithin(p, StarKey(d, k), depth) {
        MissingLonger(p, StarKey(d, k), shorter, depth);
      }
    }
  }

  ghost predicate SkippedAll(p: Program, k: Key, ds: seq<Dependency>) {
    forall d :: d in ds ==> Skipped(p, k, d)
  }

  lemma SkippedNone(p: Program, k: Key)
    ensures SkippedAll(p, k, [])
  {
  }

  lemma SkippedNext(p: Program, k: Key, ds: seq<Dependency>, i: nat)
    requires i < |ds| && SkippedAll(p, k, ds[..i]) && Skipped(p, k, ds[i])
    ensures SkippedAll(p, k, ds[..i + 1])
  {
    assert ds[..i + 1] == ds[..i] + [ds[i]];
  }

  lemma AllSkipped(p: Program, k: Key)
    requires k.file in p.files && k.exported && !Declared(p, k) && !Reexported(p, k)
    requires SkippedAll(p, k, p.files[k.file].exportStars)
    ensures Missing(p, k)
  {
    var depth := SkippedDepth(p, k, p.files[k.file].exportStars);
    assert MissingWithin(p, k, depth + 1);
  }

  lemma StarFound(p: Program, active: set<Key>, k: Key, i: nat, w: Walk)
    requires k.file in p.files && k.exported && !Declared(p, k) && !Reexported(p, k)
    requires i < |p.files[k.file].exportStars|
    requires SkippedAll(p, k, p.files[k.file].exportStars[..i])
    requires !p.files[k.file].exportStars[i].External?
    requires
      var d := p.files[k.file].exportStars[i];
      if d.Repo? then !Missing(p, StarKey(d, k)) && Answer(p, active + {k}, StarKey(d, k), w)
      else !w.tainted && FallbackExact(p, k.file, w.sections)
    ensures !Missing(p, k) && Answer(p, active, k, w)
  {
    var d := p.files[k.file].exportStars[i];
    if Missing(p, k) && d.Repo? {
      MissingStar(p, k, d);
    }
    var t := if d.Repo? then ToKey(StarKey(d, k)) else ToFallback(k.file);
    forall j | 0 <= j < i ensures Skipped(p, k, p.files[k.file].exportStars[j]) {
      assert p.files[k.file].exportStars[..i][j] == p.files[k.file].exportStars[j];
    }
    assert HasTarget(p, k, t);
    forall t' | HasTarget(p, k, t') ensures t' == t {
      OneStarTarget(p, k, t, t');
    }
    SingleTarget(p, active, k, t, w);
  }

  lemma OneStarTarget(p: Program, k: Key, t: Target, t': Target)
    requires k.file in p.files && StarTarget(p, k, t) && StarTarget(p, k, t')
    ensures t == t'
  {
  }

  /** What one fallback traversal adds: files reachable from `f`, closed under references. */
  ghost predicate Explored(p: Program, f: File, before: set<File>, after: set<File>) {
    && before <= after <= p.files.Keys
    && (forall g :: g in after && g !in before ==> Reaches(FileEdges(p), f, g))
    && (forall g, h :: g in after && g !in before && FileEdge(p, g, h) ==> h in after)
  }

  ghost predicate Followed(ds: seq<Dependency>, seen: set<File>) {
    forall d :: d in ds && d.Repo? ==> d.file in seen
  }

  lemma NothingExplored(p: Program, f: File)
    ensures forall seen: set<File> :: Followed([], seen)
    ensures FallbackSections(p, {}) == {}
    ensures forall s: set<File> :: s <= p.files.Keys ==> Explored(p, f, s, s)
  {
  }

  lemma FollowedNext(ds: seq<Dependency>, i: nat, seen: set<File>, seen': set<File>)
    requires i < |ds| && Followed(ds[..i], seen) && seen <= seen'
    requires ds[i].Repo? ==> ds[i].file in seen'
    ensures Followed(ds[..i + 1], seen')
  {
    assert ds[..i + 1] == ds[..i] + [ds[i]];
  }

  lemma ExploredStep(p: Program, f: File, g: File, before: set<File>, mid: set<File>, after: set<File>)
    requires FileEdge(p, f, g) && Explored(p, f, before, mid) && Explored(p, g, mid, after)
    ensures Explored(p, f, before, after)
    ensures FallbackSections(p, after - before) == FallbackSections(p, mid - before) + FallbackSections(p, after - mid)
  {
    forall h | h in after && h !in before ensures Reaches(FileEdges(p), f, h) {
      if h !in mid {
        ReachesStep(FileEdges(p), f, g, h);
      }
    }
    assert after - before == (mid - before) + (after - mid);
  }

  lemma ExploredRoot(p: Program, f: File, before: set<File>, after: set<File>)
    requires f in p.files && f !in before && Explored(p, f, before + {f}, after)
    requires Followed(p.files[f].references, after)
    ensures Explored(p, f, before, after)
    ensures FallbackSections(p, after - before)
         == FallbackSections(p, after - (before + {f})) + {Section("*", p.files[f].text)}
  {
    ReachesRefl(FileEdges(p), f);
    assert after - before == (after - (before + {f})) + {f};
  }

  // ---------- names and keys ----------

  ghost predicate CoversNames(p: Program, names: set<string>) {
    forall f, x :: f in p.files && Mentions(p.files[f], x) ==> x in names
  }

  ghost function Keys(p: Program, names: set<string>): set<Key> {
    set f, e, n | f in p.files.Keys && e in {true, false} && n in names :: Key(f, e, n)
  }

  ghost function AllNames(p: Program, name: string): (names: set<string>)
    ensures CoversNames(p, names) && name in names
  {
    var names := {name} + (set f, n | f in p.files && n in FileNames(p.files[f]) :: n);
    assert CoversNames(p, names) by {
      hide Mentions;
      forall f, x | f in p.files && Mentions(p.files[f], x) ensures x in names {
        assert x in FileNames(p.files[f]);
      }
    }
    names
  }

  ghost predicate Reachable(p: Program, names: set<string>, d: Dependency) {
    d.Repo? ==> d.file in p.files && d.exportedName in names
  }

  lemma KnownImport(p: Program, names: set<string>, f: File, n: string)
    requires p.Valid() && CoversNames(p, names) && f in p.files && n in p.files[f].imports
    ensures Reachable(p, names, p.files[f].imports[n])
  {
    var ix := p.files[f];
    var d := ix.imports[n];
    if d.Repo? {
      assert d.exportedName in DependencyName(ix.imports[n]);
      assert Mentions(ix, d.exportedName);
    }
  }

  lemma KnownReexport(p: Program, names: set<string>, f: File, n: string)
    requires p.Valid() && CoversNames(p, names) && f in p.files && n in p.files[f].reexports
    ensures match p.files[f].reexports[n] case LocalName(m) => m in names case FromModule(d) => Reachable(p, names, d)
  {
    var ix := p.files[f];
    match ix.reexports[n] {
      case LocalName(m) =>
        assert m in ReexportName(ix.reexports[n]);
        assert Mentions(ix, m);
      case FromModule(d) =>
        if d.Repo? {
          assert d.exportedName in ReexportName(ix.reexports[n]);
          assert Mentions(ix, d.exportedName);
        }
    }
  }

  lemma KnownImportType(p: Program, names: set<string>, f: File, n: string, st: Statement, d: Dependency)
    requires p.Valid() && CoversNames(p, names) && f in p.files
    requires n in p.files[f].declarations && st in p.files[f].declarations[n] && d in st.importTypes
    ensures Reachable(p, names, d)
  {
    var ix := p.files[f];
    assert p.KnowsIndex(ix) && p.KnowsAll(st.importTypes) && p.Knows(d);
    if d.Repo? {
      assert d.exportedName in DependencyName(d);
      assert Mentions(ix, d.exportedName);
    }
  }
}
