/** The memoised walk that renders one export's declaration closure. */
module DeclarationClosure {
  import opened FiniteSets
  import opened Reachability
  import opened DeclarationGraph
  import opened ClosureSteps
  import opened ClosureReports
  import opened RenderedSections
  import opened TextOrder

  /** The renderer declines files outside the repository, and throws while any dependency it has met
      is unresolved. */
  datatype Rendering = NotOwned | Thrown | Closure(sections: seq<Section>)

  predicate SectionLess(a: Section, b: Section) {
    TextLess(a.name, b.name) || (a.name == b.name && TextLess(a.text, b.text))
  }

  lemma SectionLessStrictTotal()
    ensures StrictTotal(SectionLess)
  {
    TextLessStrictTotal();
    assert StrictTotal(TextLess);
    forall a, b ensures SectionLess(a, b) || a == b || SectionLess(b, a) {
      TextLessTotal(a.name, b.name);
      TextLessTotal(a.text, b.text);
    }
    forall a ensures !SectionLess(a, a) {
      TextLessTotal(a.name, a.name);
      TextLessTotal(a.text, a.text);
    }
    forall a, b, c | SectionLess(a, b) && SectionLess(b, c) ensures SectionLess(a, c) {
      if TextLess(a.name, b.name) && TextLess(b.name, c.name) {
        TextLessTransitive(a.name, b.name, c.name);
      } else if a.name == b.name == c.name {
        TextLessTransitive(a.text, b.text, c.text);
      }
    }
  }

  /** The sorted sections of exactly what export `name` of `f` reaches. */
  ghost predicate IsRendering(p: Program, f: File, name: string, sections: seq<Section>) {
    Ascending(SectionLess, sections) && forall s :: s in sections <==> InRender(p, f, name, s)
  }

  /** Sections stand in the order of their names, and of their texts under one name. */
  ghost predicate InOrder(sections: seq<Section>) {
    forall i, j :: 0 <= i < j < |sections| ==>
      || Precedes(sections[i].name, sections[j].name)
      || (sections[i].name == sections[j].name && Precedes(sections[i].text, sections[j].text))
  }

  lemma RenderingMeans(p: Program, f: File, name: string, sections: seq<Section>)
    requires p.Valid() && IsRendering(p, f, name, sections)
    ensures HoldsExport(p, f, name, sections) && AllReal(p, sections) && InOrder(sections)
  {
    RenderingHolds(p, f, name, sections);
    hide p.Valid, HoldsExport, AllReal, InRender;
    forall i, j | 0 <= i < j < |sections|
      ensures || Precedes(sections[i].name, sections[j].name)
              || (sections[i].name == sections[j].name && Precedes(sections[i].text, sections[j].text))
    {
      AscendingAt(SectionLess, sections, i, j);
      TextLessIff(sections[i].name, sections[j].name);
      TextLessIff(sections[i].text, sections[j].text);
    }
  }

  /** Whatever was rendered before, and by whichever renderer, the answer is the same list. */
  lemma RenderingIsUnique(p: Program, f: File, name: string, a: seq<Section>, b: seq<Section>)
    requires IsRendering(p, f, name, a) && IsRendering(p, f, name, b)
    ensures a == b
  {
    SectionLessStrictTotal();
    AscendingUnique(SectionLess, a, b);
  }

  lemma RenderingOf(p: Program, f: File, name: string, w: Walk, listed: seq<Section>)
    requires if Missing(p, Key(f, true, name)) then FallbackExact(p, f, w.sections)
             else Answer(p, {}, Key(f, true, name), w)
    requires Distinct(listed) && forall s :: s in listed <==> s in w.sections
    ensures IsRendering(p, f, name, Sorted(SectionLess, listed))
  {
    if !Missing(p, Key(f, true, name)) {
      AnswerIsExact(p, Key(f, true, name), w);
    }
    SectionLessStrictTotal();
    SortedAscending(SectionLess, listed);
  }

  // ---------- when a rendering throws ----------

  datatype Request = Request(file: File, name: string)

  /** What a renderer remembers of earlier calls: the files with an unresolved dependency it has met, and what it rendered. */
  datatype Memory = Memory(unresolved: set<File>, rendered: set<Request>)

  ghost predicate Fresh(p: Program, s: Memory, q: Request) {
    q.file in p.files && q !in s.rendered
  }

  ghost function After(p: Program, s: Memory, q: Request): Memory {
    if !Fresh(p, s, q) then s
    else
      var met := s.unresolved + MetBy(p, q.file, q.name);
      Memory(met, if met == {} then s.rendered + {q} else s.rendered)
  }

  ghost predicate Throws(p: Program, s: Memory, q: Request) {
    Fresh(p, s, q) && After(p, s, q).unresolved != {}
  }

  ghost function Remembered(p: Program, history: seq<Request>): Memory {
    if history == [] then Memory({}, {}) else After(p, Remembered(p, history[..|history| - 1]), history[|history| - 1])
  }

  /** The export's own rendering meets an unresolved dependency. */
  ghost predicate Dirty(p: Program, q: Request) {
    q.file in p.files && MetBy(p, q.file, q.name) != {}
  }

  ghost predicate Clean(p: Program, q: Request) {
    q.file in p.files && MetBy(p, q.file, q.name) == {}
  }

  ghost predicate SomeDirty(p: Program, history: seq<Request>) {
    exists i :: 0 <= i < |history| && Dirty(p, history[i])
  }

  lemma DirtyLast(p: Program, history: seq<Request>)
    requires history != []
    ensures var n := |history| - 1; SomeDirty(p, history) <==> SomeDirty(p, history[..n]) || Dirty(p, history[n])
  {
    hide Dirty;
    var n := |history| - 1;
    assert forall i :: 0 <= i < n ==> history[..n][i] == history[i];
    if SomeDirty(p, history[..n]) {
      var i :| 0 <= i < n && Dirty(p, history[..n][i]);
      assert Dirty(p, history[i]);
    }
  }

  lemma RenderedLast(p: Program, history: seq<Request>, q: Request)
    requires history != []
    ensures var n := |history| - 1;
      (exists i :: RenderedAt(p, history, q, i)) <==>
        (exists i :: RenderedAt(p, history[..n], q, i)) || (history[n] == q && Clean(p, q) && !SomeDirty(p, history[..n]))
  {
    hide Dirty, Clean;
    var n := |history| - 1;
    assert forall i :: 0 <= i < n ==> history[..n][i] == history[i];
    assert forall i :: 0 <= i < n ==> (RenderedAt(p, history[..n], q, i) <==> RenderedAt(p, history, q, i));
    if history[n] == q && Clean(p, q) && !SomeDirty(p, history[..n]) {
      assert forall j :: 0 <= j < n ==> !Dirty(p, history[..n][j]);
      assert RenderedAt(p, history, q, n);
    }
  }

  lemma AfterIs(p: Program, s: Memory, last: Request, q: Request)
    requires last in s.rendered ==> Clean(p, last)
    ensures var r := After(p, s, last);
      && (r.unresolved != {} <==> s.unresolved != {} || Dirty(p, last))
      && (q in r.rendered <==> q in s.rendered || (last == q && Clean(p, q) && s.unresolved == {}))
  {
    hide MetBy;
  }

  lemma {:induction false} RememberedIs(p: Program, history: seq<Request>)
    ensures Remembered(p, history).unresolved != {} <==> SomeDirty(p, history)
    ensures forall q :: q in Remembered(p, history).rendered <==> exists i :: RenderedAt(p, history, q, i)
  {
    if history != [] {
      var n := |history| - 1;
      var s := Remembered(p, history[..n]);
      RememberedIs(p, history[..n]);
      DirtyLast(p, history);
      assert forall q, i :: RenderedAt(p, history[..n], q, i) ==> Clean(p, q);
      hide RenderedAt, SomeDirty, MetBy, After, Clean, Dirty;
      AfterIs(p, s, history[n], history[n]);
      forall q ensures q in Remembered(p, history).rendered <==> exists i :: RenderedAt(p, history, q, i) {
        AfterIs(p, s, history[n], q);
        RenderedLast(p, history, q);
      }
    }
  }

  ghost predicate RenderedAt(p: Program, history: seq<Request>, q: Request, i: int) {
    0 <= i < |history| && history[i] == q && Clean(p, q) && forall j :: 0 <= j < i ==> !Dirty(p, history[j])
  }

  ghost predicate SpoiledAt(p: Program, history: seq<Request>, q: Request, i: int) {
    0 <= i < |history| && Dirty(p, history[i]) && q !in history[..i]
  }

  /** A clean export has either been rendered before anything was spoiled, or was spoiled before it was asked for. */
  lemma SpoiledIff(p: Program, history: seq<Request>, q: Request)
    requires Clean(p, q)
    ensures (exists i :: SpoiledAt(p, history, q, i))
       <==> SomeDirty(p, history) && !exists i :: RenderedAt(p, history, q, i)
  {
    hide MetBy;
    if i :| SpoiledAt(p, history, q, i) {
      assert forall j :: 0 <= j < i ==> history[j] in history[..i];
      assert forall j :: !RenderedAt(p, history, q, j);
    }
    if SomeDirty(p, history) && !exists i :: RenderedAt(p, history, q, i) {
      var i := FirstDirty(p, history);
      assert forall j :: 0 <= j < i ==> (history[j] == q <==> RenderedAt(p, history, q, j));
      assert forall r :: r in history[..i] ==> exists j :: 0 <= j < i && history[j] == r;
      assert SpoiledAt(p, history, q, i);
    }
  }

  /** After any calls whatever, an export throws exactly when its own rendering meets an unresolved dependency, or an
      earlier call met one before the export was first asked for. */
  lemma ThrowsExactly(p: Program, history: seq<Request>, q: Request)
    ensures Throws(p, Remembered(p, history), q)
       <==> q.file in p.files && (Dirty(p, q) || exists i :: SpoiledAt(p, history, q, i))
  {
    RememberedIs(p, history);
    if Clean(p, q) {
      SpoiledIff(p, history, q);
    }
    hide Remembered, MetBy, SpoiledAt, RenderedAt;
  }

  lemma FirstDirty(p: Program, history: seq<Request>) returns (i: nat)
    requires SomeDirty(p, history)
    ensures i < |history| && Dirty(p, history[i]) && forall j :: 0 <= j < i ==> !Dirty(p, history[j])
  {
    i := 0;
    while !Dirty(p, history[i])
      invariant i < |history| && forall j :: 0 <= j < i ==> !Dirty(p, history[j])
      invariant exists k :: i <= k < |history| && Dirty(p, history[k])
      decreases |history| - i
    {
      i := i + 1;
    }
  }

  lemma OrderMatters(p: Program, q: Request, d: Request)
    requires Clean(p, q) && Dirty(p, d)
    ensures Throws(p, Remembered(p, [d]), q) && !Throws(p, Remembered(p, []), q)
  {
    ThrowsExactly(p, [d], q);
    ThrowsExactly(p, [], q);
    hide Throws, Remembered, MetBy;
    assert SpoiledAt(p, [d], q, 0);
  }

  /** Order matters exactly when the program has an export whose rendering meets an unresolved dependency and one whose
      rendering does not: such an export throws after the other and not before it. */
  lemma OrderMattersIff(p: Program)
    ensures (exists h, h', q :: Throws(p, Remembered(p, h), q) && !Throws(p, Remembered(p, h'), q))
       <==> exists q, d :: Clean(p, q) && Dirty(p, d)
  {
    if h, h', q :| Throws(p, Remembered(p, h), q) && !Throws(p, Remembered(p, h'), q) {
      ThrowsExactly(p, h, q);
      ThrowsExactly(p, h', q);
      hide Throws, Remembered, MetBy;
      assert Clean(p, q);
      var i :| SpoiledAt(p, h, q, i);
      assert Dirty(p, h[i]);
    }
    if q, d :| Clean(p, q) && Dirty(p, d) {
      OrderMatters(p, q, d);
    }
  }

  ghost function ScopeOf(p: Program, names: set<string>, root: Key): (scope: set<Key>)
    ensures forall k :: k in scope <==> k in Keys(p, names) && Reaches(VisitEdges(p), root, k)
  {
    set k | k in Keys(p, names) && Reaches(VisitEdges(p), root, k)
  }

  class Renderer {
    const p: Program
    var active: set<Key>
    var reachability: map<Key, WalkResult>
    var activeAmbient: set<File>
    var ambientReachability: map<File, Walk>
    var unresolved: set<File>
    var rendered: map<Request, seq<Section>>
    /** Every key and every ambient file walked so far. */
    ghost var walked: set<Key>
    ghost var walkedAmbient: set<File>
    /** The keys the present rendering can walk, and the files it can have met at its end. */
    ghost var scope: set<Key>
    ghost var limit: set<File>

    constructor (p: Program)
      requires p.Valid()
      ensures this.p == p && Sound() && Idle() && AllRendered()
      ensures unresolved == {} && rendered == map[]
    {
      this.p := p;
      active, reachability := {}, map[];
      activeAmbient, ambientReachability := {}, map[];
      unresolved, rendered := {}, map[];
      walked, walkedAmbient, scope, limit := {}, {}, {}, {};
    }

    /** No walk is under way. */
    ghost predicate Idle()
      reads this
    {
      active == {} && activeAmbient == {}
    }

    ghost predicate AllRendered()
      reads this
    {
      forall q :: q in rendered ==> IsRendering(p, q.file, q.name, rendered[q])
    }

    ghost function Recall(): Memory
      reads this
    {
      Memory(unresolved, rendered.Keys)
    }

    /** Renders one export. It throws exactly when it is not remembered and any unresolved dependency has been met by
        now, and what it adds to those met is what its own rendering meets, whatever the caches hold. */
    method Render(f: File, name: string) returns (r: Rendering)
      requires Sound() && Idle() && AllRendered()
      modifies this
      ensures Sound() && Idle() && AllRendered()
      ensures r.NotOwned? <==> f !in p.files
      ensures r.Closure? ==> IsRendering(p, f, name, r.sections)
      ensures r.Closure? ==> HoldsExport(p, f, name, r.sections) && AllReal(p, r.sections) && InOrder(r.sections)
      ensures r.Thrown? <==> f in p.files && Request(f, name) !in old(rendered) && unresolved != {}
      ensures f in p.files && Request(f, name) !in old(rendered) && CannotResolve(p.files[f]) ==> r.Thrown?
      ensures unresolved == old(unresolved) + if f in p.files && Request(f, name) !in old(rendered) then MetBy(p, f, name) else {}
      ensures f in p.files && Request(f, name) in old(rendered) ==> r == Closure(old(rendered)[Request(f, name)])
      ensures rendered == if r.Closure? then old(rendered)[Request(f, name) := r.sections] else old(rendered)
      ensures Recall() == After(p, old(Recall()), Request(f, name)) && (r.Thrown? <==> Throws(p, old(Recall()), Request(f, name)))
      ensures r.Thrown? ==> exists g :: g in p.files && FileUnresolved(p.files[g])
    {
      if f !in p.files {
        return NotOwned;
      }
      ValidProgram();
      if Request(f, name) in rendered {
        RenderingMeans(p, f, name, rendered[Request(f, name)]);
        assert rendered == rendered[Request(f, name) := rendered[Request(f, name)]];
        return Closure(rendered[Request(f, name)]);
      }
      hide Sound, IsRendering, FileUnresolved, Lists, HoldsExport, AllReal, InOrder, p.Valid;
      r := RenderFresh(f, name);
      if r.Closure? {
        RenderingMeans(p, f, name, r.sections);
        if d :| Lists(p.files[f], d) && (d == Failure || d == External(true)) {
          OwnIsMet(p, f, name, d);
        }
        Remember(f, name, r.sections);
      }
    }

    method Remember(f: File, name: string, sections: seq<Section>)
      requires Sound()
      modifies this`rendered
      ensures Sound() && rendered == old(rendered)[Request(f, name) := sections]
    {
      hide KeyMet, AmbientFileMet, Missing, ClosureExact, AmbientExact, p.Valid, FileUnresolved;
      rendered := rendered[Request(f, name) := sections];
    }

    /** Renders an export that is not remembered. */
    method RenderFresh(f: File, name: string) returns (r: Rendering)
      requires Sound() && Idle() && f in p.files
      modifies this
      ensures Sound() && Idle() && rendered == old(rendered) && !r.NotOwned?
      ensures r.Closure? ==> IsRendering(p, f, name, r.sections)
      ensures unresolved == old(unresolved) + MetBy(p, f, name)
      ensures r.Thrown? <==> unresolved != {}
      ensures r.Thrown? ==> exists g :: g in p.files && FileUnresolved(p.files[g])
    {
      hide Sound, IsRendering, Missing, Answer, FallbackExact, CoversNames, FileUnresolved;
      var w := WalkRoot(f, name, AllNames(p, name));
      var listed := Listed(w.sections);
      RenderingOf(p, f, name, w, listed);
      if unresolved != {} {
        UnresolvedIsReal();
        return Thrown;
      }
      r := Closure(Sorted(SectionLess, listed));
    }

    lemma UnresolvedIsReal()
      requires Sound() && unresolved != {}
      ensures exists g :: g in p.files && FileUnresolved(p.files[g])
    {
    }

    method WalkRoot(f: File, name: string, ghost names: set<string>) returns (w: Walk)
      requires Sound() && Idle() && f in p.files && CoversNames(p, names) && name in names
      modifies this
      ensures Sound() && Idle() && rendered == old(rendered)
      ensures unresolved == old(unresolved) + MetBy(p, f, name)
      ensures if Missing(p, Key(f, true, name)) then FallbackExact(p, f, w.sections)
              else Answer(p, {}, Key(f, true, name), w)
    {
      hide Sound, Answer, FallbackExact, CoversNames, Missing, Meets, KeyReport, FallbackMet;
      SetBounds(f, name, names);
      FreeOfMissing(p, active, Key(f, true, name));
      var r := WalkDeclaration(Key(f, true, name), names);
      if r.Found? {
        w := r.walk;
      } else {
        MissingLimit(f, name);
        w := RecallFallback(f);
      }
      AllMet(f, name);
      Bounded();
    }

    /** Nothing may be walked or met but what the export's own rendering walks and meets. */
    ghost method SetBounds(f: File, name: string, names: set<string>)
      requires Sound() && f in p.files && CoversNames(p, names) && name in names
      modifies this`scope, this`limit
      ensures Sound() && limit == unresolved + MetBy(p, f, name) && Key(f, true, name) in scope
    {
      var root := Key(f, true, name);
      ValidProgram();
      RootInScope(p, root);
      hide Visits, KeyOwnReport, KeyMet, AmbientFileMet, CoversNames, p.Valid, Reaches, Missing, ClosureExact, AmbientExact,
           FileUnresolved, MetBy, KeyReport, ScopeOf, Caches;
      scope := ScopeOf(p, names, root);
      limit := unresolved + MetBy(p, f, name);
      forall g | KeyReport(p, root, g) ensures g in limit {
        RootMeets(f, name, g);
      }
      ScopeMet(p, names, root, scope, limit);
      CachesHold();
    }

    lemma RootMeets(f: File, name: string, g: File)
      requires KeyReport(p, Key(f, true, name), g)
      ensures g in MetBy(p, f, name)
    {
      hide KeyReport;
      MetIsReal(p, f, name, g);
    }

    lemma MissingLimit(f: File, name: string)
      requires Missing(p, Key(f, true, name)) && limit >= MetBy(p, f, name)
      ensures FallbackMet(p, f, limit)
    {
      hide Missing, FallbackReport;
      forall g | FallbackReport(p, f, g) ensures g in limit {
        MetIsReal(p, f, name, g);
      }
    }

    /** With no walk under way, all that the walked keys can meet has been met. */
    lemma AllMet(f: File, name: string)
      requires Sound() && Idle() && Key(f, true, name) in walked
      requires Missing(p, Key(f, true, name)) ==> FallbackMet(p, f, unresolved)
      ensures MetBy(p, f, name) <= unresolved
    {
      hide KeyMet, Missing, Caches, KeyReport, FallbackReport;
      ClosedMet(p, Key(f, true, name), walked, unresolved);
    }

    lemma Bounded()
      requires Sound()
      ensures unresolved <= limit
    {
      hide Caches;
    }

    /** Every stored result is untainted and complete. */
    ghost predicate Caches()
      reads this
    {
      && p.Valid()
      && (forall f :: f in ambientReachability ==>
            f in p.files && !ambientReachability[f].tainted && AmbientExact(p, f, ambientReachability[f].sections))
      && (forall k :: k in reachability ==>
            match reachability[k]
            case Null => Missing(p, k)
            case Found(w) => !Missing(p, k) && !w.tainted && ClosureExact(p, k, w.sections))
      && (forall f :: f in unresolved ==> f in p.files && FileUnresolved(p.files[f]))
    }

    /** Whatever was walked and left has been walked through, and no more has been met than the bounds allow. */
    ghost predicate Books()
      reads this
    {
      && active <= walked && reachability.Keys <= walked
      && activeAmbient <= walkedAmbient && ambientReachability.Keys <= walkedAmbient
      && (forall k :: k in walked && k !in active ==> KeyMet(p, k, walked, unresolved))
      && (forall f :: f in walkedAmbient && f !in activeAmbient ==> AmbientFileMet(p, f, walkedAmbient, unresolved))
      && (forall k :: k in scope ==> KeyMet(p, k, scope, limit))
      && unresolved <= limit
    }

    ghost predicate Sound()
      reads this
    {
      Caches() && Books()
    }

    ghost predicate Ready(names: set<string>)
      reads this
    {
      && Sound()
      && CoversNames(p, names)
      && activeAmbient == {}
      && active <= Keys(p, names)
    }

    twostate predicate Settled()
      reads this
    {
      && Sound()
      && active == old(active)
      && activeAmbient == old(activeAmbient)
      && old(unresolved) <= unresolved
      && rendered == old(rendered)
      && old(walked) <= walked
      && old(walkedAmbient) <= walkedAmbient
      && scope == old(scope) && limit == old(limit)
    }

    method Report(f: File)
      requires Sound() && f in p.files && FileUnresolved(p.files[f]) && f in limit
      modifies this`unresolved
      ensures Settled() && unresolved == old(unresolved) + {f}
    {
      hide KeyMet, AmbientFileMet, FileUnresolved, p.Valid, Missing;
      unresolved := unresolved + {f};
      forall k | k in walked && k !in active ensures KeyMet(p, k, walked, unresolved) {
        KeyMetGrows(p, k, walked, old(unresolved), walked, unresolved);
      }
      forall g | g in walkedAmbient && g !in activeAmbient ensures AmbientFileMet(p, g, walkedAmbient, unresolved) {
        AmbientFileMetGrows(p, g, walkedAmbient, old(unresolved), walkedAmbient, unresolved);
      }
    }

    method GetIndex(f: File) returns (ix: FileIndex)
      requires Sound() && f in p.files && IndexMet(p, f, limit)
      modifies this`unresolved
      ensures Settled() && ix == p.files[f] && p.KnowsIndex(ix)
      ensures unresolved == old(unresolved) + if IndexUnresolved(ix) then {f} else {}
      ensures IndexMet(p, f, unresolved)
    {
      ValidProgram();
      hide Sound, IndexUnresolved, p.KnowsIndex;
      ix := p.files[f];
      if IndexUnresolved(ix) {
        Report(f);
      }
    }

    /** Resolving a specifier outside the index reports it when it does not resolve. */
    method NoteDependency(f: File, d: Dependency)
      requires Sound() && f in p.files && (Unresolved(d) ==> FileUnresolved(p.files[f]) && f in limit)
      modifies this`unresolved
      ensures Settled()
      ensures unresolved == old(unresolved) + if Unresolved(d) then {f} else {}
    {
      hide Sound, FileUnresolved;
      if Unresolved(d) {
        Report(f);
      }
    }

    /** Depth-first union of file texts; `visited` is shared by the whole traversal. */
    method FallbackFile(f: File, visited: set<File>) returns (sections: set<Section>, visited': set<File>)
      requires Sound() && f in p.files && visited <= p.files.Keys && FallbackMet(p, f, limit)
      modifies this`unresolved
      ensures Settled()
      ensures visited + {f} <= visited' <= p.files.Keys
      ensures Explored(p, f, visited, visited') && ExploredMet(p, visited, visited', unresolved)
      ensures sections == FallbackSections(p, visited' - visited)
      decreases |p.files.Keys - visited|
    {
      hide Sound, Explored, FallbackSections, FileUnresolved, IndexUnresolved, Unresolved, Followed, p.KnowsIndex,
           FallbackMet, FallbackOwnMet, ExploredMet, AnyUnresolved, IndexMet;
      NothingExplored(p, f);
      NothingMet(p);
      if f in visited {
        assert visited - visited == {};
        return {}, visited;
      }
      var entry := visited + {f};
      visited' := entry;
      RoomShrinks(p.files.Keys, visited, f);
      FallbackLimits(p, f, limit);
      var ix := GetIndex(f);
      sections := {};
      assert visited' - entry == {} && ix.references[..0] == [];
      ReferencesNoted(ix, f, 0, unresolved);
      for i := 0 to |ix.references|
        invariant Settled()
        invariant entry <= visited' <= p.files.Keys
        invariant Explored(p, f, entry, visited') && ExploredMet(p, entry, visited', unresolved)
        invariant sections == FallbackSections(p, visited' - entry)
        invariant Followed(ix.references[..i], visited')
        invariant AnyUnresolved(ix.references[..i]) ==> f in unresolved
        invariant IndexMet(p, f, unresolved)
      {
        var d := ix.references[i];
        ReferenceUnresolved(ix, d);
        ReferenceLimit(p, f, d, limit);
        ghost var prior, met := visited', unresolved;
        NoteDependency(f, d);
        ReferencesNoted(ix, f, i + 1, unresolved);
        ExploredMetGrows(p, entry, visited', met, unresolved);
        IndexMetGrows(p, f, met, unresolved);
        if d.Repo? {
          KnownReference(p, ix, d);
          CardinalityMonotone(p.files.Keys - visited', p.files.Keys - entry);
          FallbackStep(p, f, d.file, limit);
          met := unresolved;
          var more, after := FallbackFile(d.file, visited');
          ExploredStep(p, f, d.file, entry, visited', after);
          ExploredMetStep(p, entry, visited', after, met, unresolved);
          IndexMetGrows(p, f, met, unresolved);
          sections := sections + more;
          visited' := after;
        }
        FollowedNext(ix.references, i, prior, visited');
      }
      assert ix.references[..|ix.references|] == ix.references;
      sections := sections + {Section("*", ix.text)};
      ExploredRoot(p, f, visited, visited');
      ExploredMetRoot(p, f, visited, visited', unresolved);
    }

    method RecallFallback(f: File) returns (w: Walk)
      requires Sound() && f in p.files && FallbackMet(p, f, limit)
      modifies this`unresolved
      ensures Settled()
      ensures !w.tainted && FallbackExact(p, f, w.sections)
      ensures FallbackMet(p, f, unresolved)
    {
      hide Sound, FallbackMet, FallbackOwnMet;
      var sections, visited := FallbackFile(f, {});
      w := Walk(sections, false);
      ClosedFallback(p, f, visited, unresolved);
      forall s | s in sections ensures InFallback(p, f, s) {
        var g :| g in visited && s == Section("*", p.files[g].text);
        assert Reaches(FileEdges(p), f, g);
        var q :| Links(FileEdges(p), q, f, g);
        assert FileTexts(p)(g, s);
      }
      forall s | InFallback(p, f, s) ensures s in sections {
        var q, g :| Links(FileEdges(p), q, f, g) && FileTexts(p)(g, s);
        ClosedHolds(FileEdges(p), q, f, g, visited);
      }
    }

    lemma StoredAmbient(f: File)
      requires Sound() && f in ambientReachability
      ensures f in p.files && AmbientExact(p, f, ambientReachability[f].sections) && f in walkedAmbient
    {
    }

    method StoreAmbient(f: File, w: Walk)
      requires Sound() && f in p.files && !w.tainted && AmbientExact(p, f, w.sections) && f in walkedAmbient
      modifies this`ambientReachability
      ensures Settled() && unresolved == old(unresolved)
    {
      hide KeyMet, AmbientFileMet, Missing, ClosureExact, AmbientExact, p.Valid, FileUnresolved;
      ambientReachability := ambientReachability[f := w];
    }

    lemma StoredWalk(k: Key)
      requires Sound() && k in reachability
      ensures reachability[k].Null? <==> Missing(p, k)
      ensures reachability[k].Found? ==> ClosureExact(p, k, reachability[k].walk.sections)
      ensures k in walked
    {
    }

    lemma ActiveIsWalked(k: Key)
      requires Sound() && k in active
      ensures k in walked
    {
      hide Caches;
    }

    method StoreWalk(k: Key, r: WalkResult)
      requires Sound() && (r.Null? <==> Missing(p, k)) && k in walked
      requires r.Found? ==> !r.walk.tainted && ClosureExact(p, k, r.walk.sections)
      modifies this`reachability
      ensures Settled() && unresolved == old(unresolved)
    {
      hide KeyMet, AmbientFileMet, Missing, ClosureExact, AmbientExact, p.Valid, FileUnresolved;
      reachability := reachability[k := r];
    }

    method Enter(k: Key)
      requires Sound()
      modifies this`active, this`walked
      ensures Sound() && active == old(active) + {k} && walked == old(walked) + {k}
    {
      hide KeyMet, AmbientFileMet, Caches;
      active := active + {k};
      walked := walked + {k};
      forall j | j in walked && j !in active ensures KeyMet(p, j, walked, unresolved) {
        KeyMetGrows(p, j, old(walked), unresolved, walked, unresolved);
      }
      assert Caches() by {
        assert old(Caches());
        CachesHold();
      }
    }

    twostate lemma CachesHold()
      requires old(Caches())
      requires reachability == old(reachability) && ambientReachability == old(ambientReachability) && unresolved == old(unresolved)
      ensures Caches()
    {
    }

    method Leave(k: Key)
      requires Sound() && KeyMet(p, k, walked, unresolved)
      modifies this`active
      ensures Sound() && active == old(active) - {k}
    {
      hide KeyMet, AmbientFileMet, Caches;
      active := active - {k};
      CachesHold();
    }

    method EnterAmbient(f: File)
      requires Sound()
      modifies this`activeAmbient, this`walkedAmbient
      ensures Sound() && activeAmbient == old(activeAmbient) + {f} && walkedAmbient == old(walkedAmbient) + {f}
    {
      hide KeyMet, AmbientFileMet, Caches;
      activeAmbient := activeAmbient + {f};
      walkedAmbient := walkedAmbient + {f};
      forall g | g in walkedAmbient && g !in activeAmbient ensures AmbientFileMet(p, g, walkedAmbient, unresolved) {
        AmbientFileMetGrows(p, g, old(walkedAmbient), unresolved, walkedAmbient, unresolved);
      }
      CachesHold();
    }

    method LeaveAmbient(f: File)
      requires Sound() && AmbientFileMet(p, f, walkedAmbient, unresolved)
      modifies this`activeAmbient
      ensures Sound() && activeAmbient == old(activeAmbient) - {f}
    {
      hide KeyMet, AmbientFileMet, Caches;
      activeAmbient := activeAmbient - {f};
      CachesHold();
    }

    /** With no ambient walk under way, all that a walked file's globals can meet has been met. */
    lemma AmbientAllMet(f: File)
      requires Sound() && activeAmbient == {} && f in walkedAmbient
      ensures AmbientMet(p, f, unresolved)
    {
      hide Caches, KeyMet, AmbientFileMet;
      ClosedAmbient(p, f, walkedAmbient, unresolved);
    }

    method AmbientContribution(f: File) returns (w: Walk)
      requires Sound() && f in p.files && activeAmbient <= p.files.Keys && AmbientMet(p, f, limit)
      modifies this`unresolved, this`activeAmbient, this`ambientReachability, this`walkedAmbient
      ensures Settled()
      ensures AmbientAnswer(p, old(activeAmbient), f, w)
      ensures f in walkedAmbient
      decreases |p.files.Keys - activeAmbient|, 0
    {
      hide Sound, AmbientAnswer, AmbientExact, AmbientMet, AmbientFileMet;
      if f in ambientReachability {
        w := ambientReachability[f];
        StoredAmbient(f);
        AmbientFromExact(p, activeAmbient, f, w);
        return;
      }
      if f in activeAmbient {
        w := Walk({}, true);
        AmbientBackEdge(p, activeAmbient, f);
        ActiveAmbientIsWalked(f);
        return;
      }
      ghost var before := activeAmbient;
      RoomShrinks(p.files.Keys, activeAmbient, f);
      EnterAmbient(f);
      w := WalkSideEffects(f, before);
      LeaveAmbient(f);
      if !w.tainted {
        StoreAmbient(f, w);
      }
    }

    lemma ActiveAmbientIsWalked(f: File)
      requires Sound() && f in activeAmbient
      ensures f in walkedAmbient
    {
      hide Caches;
    }

    method WalkSideEffects(f: File, ghost before: set<File>) returns (w: Walk)
      requires Sound() && f in p.files && before <= p.files.Keys && activeAmbient == before + {f} && AmbientMet(p, f, limit)
      modifies this`unresolved, this`activeAmbient, this`ambientReachability, this`walkedAmbient
      ensures Settled()
      ensures AmbientAnswer(p, before, f, w)
      ensures !w.tainted ==> AmbientExact(p, f, w.sections)
      ensures AmbientFileMet(p, f, walkedAmbient, unresolved)
      decreases |p.files.Keys - activeAmbient|, 2
    {
      hide Sound, AmbientAnswer, AmbientExact, FallbackExact, AllAmbient, GlobalsHeld, SideEffectsCovered,
           SideEffectAnswer, IndexUnresolved, p.KnowsIndex, Join, AmbientMet, FallbackMet, SideEffectMet, SideEffectsMet, IndexMet,
           AmbientFileMet;
      ValidProgram();
      AmbientOwnMet(p, f, limit);
      var ix := GetIndex(f);
      w := Walk(set t | t in ix.globals :: Section("global", t), false);
      AmbientStart(p, before + {f}, f, w);
      assert ix.sideEffects[..0] == [];
      assert SideEffectsMet(p, f, [], walkedAmbient, unresolved) by {
        NoSideEffectsMet(p, f, walkedAmbient, unresolved);
      }
      for i := 0 to |ix.sideEffects|
        invariant Settled()
        invariant AllAmbient(p, f, w.sections) && GlobalsHeld(ix, w)
        invariant SideEffectsCovered(p, before + {f}, f, ix.sideEffects[..i], w)
        invariant SideEffectsMet(p, f, ix.sideEffects[..i], walkedAmbient, unresolved) && IndexMet(p, f, unresolved)
      {
        ghost var earlier, met := walkedAmbient, unresolved;
        var more := WalkSideEffect(f, ix.sideEffects[i]);
        SideEffectNext(p, before + {f}, f, i, w, more);
        SideEffectsMetNext(p, f, ix.sideEffects, i, earlier, met, walkedAmbient, unresolved);
        IndexMetGrows(p, f, met, unresolved);
        w := Join(w, more);
      }
      assert ix.sideEffects[..|ix.sideEffects|] == ix.sideEffects;
      AmbientDone(p, before, f, w);
      AmbientFileMetOf(p, f, walkedAmbient, unresolved);
    }

    method WalkSideEffect(f: File, d: Dependency) returns (w: Walk)
      requires Sound() && f in p.files && activeAmbient <= p.files.Keys && AmbientMet(p, f, limit) && d in p.files[f].sideEffects
      modifies this`unresolved, this`activeAmbient, this`ambientReachability, this`walkedAmbient
      ensures Settled()
      ensures SideEffectAnswer(p, old(activeAmbient), f, d, w)
      ensures SideEffectMet(p, f, d, walkedAmbient, unresolved)
      decreases |p.files.Keys - activeAmbient|, 1
    {
      hide Sound, AmbientAnswer, FallbackExact, IndexMet, p.KnowsIndex, AmbientMet, FallbackMet;
      w := Walk({}, false);
      AmbientOwnMet(p, f, limit);
      if d == Failure {
        w := RecallFallback(f);
      } else if d.Repo? {
        ValidProgram();
        SideEffectIsEdge(p, f, d);
        AmbientStepMet(p, f, d.file, limit);
        w := AmbientContribution(d.file);
      }
    }

    method ResolveWalkDependency(d: Dependency, owner: File, ghost names: set<string>) returns (w: Walk)
      requires Ready(names) && NoneMissing(p, active) && owner in p.files && Reachable(p, names, d)
      requires DependencyMet(p, owner, d, scope, limit)
      modifies this
      ensures Settled()
      ensures DependencyAnswer(p, old(active), owner, d, w)
      ensures DependencyMet(p, owner, d, walked, unresolved)
      decreases |Keys(p, names) - active|, 1
    {
      hide Sound, Answer, FallbackExact, DependencyAnswer, Missing, NoneMissing, Below, DependencyMet, FallbackMet;
      DependencyMetIff(p, owner, d, scope, limit);
      match d {
        case External(_) =>
          w := Walk({}, false);
          ExternalAnswer(p, active, owner, d);
        case Failure =>
          w := RecallFallback(owner);
          DependencyFallback(p, active, owner, d, owner, w);
        case Repo(f, n) =>
          if n == "*" {
            w := RecallFallback(f);
            DependencyFallback(p, active, owner, d, f, w);
          } else {
            FreeOfMissing(p, active, Key(f, true, n));
            var r := WalkDeclaration(Key(f, true, n), names);
            if r.Found? {
              w := r.walk;
              DependencyWalk(p, active, owner, d, Key(f, true, n), w);
            } else {
              w := RecallFallback(f);
              DependencyFallback(p, active, owner, d, f, w);
            }
          }
      }
      DependencyMetIff(p, owner, d, walked, unresolved);
    }

    method WalkStatementImports(f: File, name: string, st: Statement, ghost names: set<string>) returns (w: Walk)
      requires Ready(names) && NoneMissing(p, active) && f in p.files
      requires name in p.files[f].declarations && st in p.files[f].declarations[name]
      requires ImportTypesMet(p, f, st.importTypes, scope, limit)
      modifies this
      ensures Settled()
      ensures FromStatement(p, f, st, w.sections)
      ensures ImportTypesCovered(p, old(active), f, st.importTypes, w)
      ensures ImportTypesMet(p, f, st.importTypes, walked, unresolved)
      decreases |Keys(p, names) - active|, 2
    {
      hide Sound, CoversNames, Keys, NoneMissing, DependencyAnswer, FromStatement, ImportTypesCovered, Join, FileUnresolved, Reachable,
           DependencyMet, ImportTypesMet, Unresolved;
      w := Walk({}, false);
      StatementStart(p, active, f, st);
      NoImportTypesMet(p, f, walked, unresolved);
      assert st.importTypes[..0] == [];
      for i := 0 to |st.importTypes|
        invariant Ready(names) && Settled()
        invariant FromStatement(p, f, st, w.sections)
        invariant ImportTypesCovered(p, active, f, st.importTypes[..i], w)
        invariant ImportTypesMet(p, f, st.importTypes[..i], walked, unresolved)
      {
        var d := st.importTypes[i];
        ghost var earlier, met := walked, unresolved;
        ValidProgram();
        KnownImportType(p, names, f, name, st, d);
        ImportTypeUnresolved(p.files[f], name, st, d);
        ImportTypeMet(p, f, st.importTypes, d, scope, limit);
        NoteDependency(f, d);
        var more := ResolveWalkDependency(d, f, names);
        ImportTypeNext(p, active, f, st, i, w, more);
        ImportTypesMetNext(p, f, st.importTypes, i, earlier, met, walked, unresolved);
        w := Join(w, more);
      }
      assert st.importTypes[..|st.importTypes|] == st.importTypes;
    }

    lemma ValidProgram()
      requires Sound()
      ensures p.Valid()
    {
    }

    method WalkReference(f: File, r: string, ghost names: set<string>) returns (w: Walk)
      requires Ready(names) && NoneMissing(p, active) && f in p.files && ReferenceMet(p, f, r, scope, limit)
      modifies this
      ensures Settled()
      ensures ReferenceAnswer(p, old(active), f, r, w)
      ensures ReferenceMet(p, f, r, walked, unresolved)
      decreases |Keys(p, names) - active|, 2
    {
      hide Sound, Answer, DependencyAnswer, Missing, NoneMissing, Below, TargetHas, TargetCovered, DependencyMet;
      var ix := p.files[f];
      w := Walk({}, false);
      if r in ix.declarations {
        DeclaredNotMissing(p, Key(f, false, r));
        assert Mentions(ix, r);
        FreeOfMissing(p, active, Key(f, false, r));
        var found := WalkDeclaration(Key(f, false, r), names);
        w := found.walk;
        ReferenceWalk(p, active, f, r, w);
      } else if r in ix.imports {
        ValidProgram();
        KnownImport(p, names, f, r);
        w := ResolveWalkDependency(ix.imports[r], f, names);
        ReferenceImport(p, active, f, r, w);
      }
    }

    method WalkReferences(f: File, st: Statement, ghost names: set<string>) returns (w: Walk)
      requires Ready(names) && NoneMissing(p, active) && f in p.files && ReferencesMet(p, f, st.refs, scope, limit)
      modifies this
      ensures Settled()
      ensures FromStatement(p, f, st, w.sections)
      ensures ReferencesCovered(p, old(active), f, st.refs, w)
      ensures ReferencesMet(p, f, st.refs, walked, unresolved)
      decreases |Keys(p, names) - active|, 3
    {
      hide Sound, CoversNames, Keys, NoneMissing, ReferenceAnswer, FromStatement, ReferencesCovered, Join, ReferenceMet, ReferencesMet;
      w := Walk({}, false);
      StatementStart(p, active, f, st);
      NoReferencesMet(p, f, walked, unresolved);
      assert st.refs[..0] == [];
      for i := 0 to |st.refs|
        invariant Ready(names) && Settled()
        invariant FromStatement(p, f, st, w.sections)
        invariant ReferencesCovered(p, active, f, st.refs[..i], w)
        invariant ReferencesMet(p, f, st.refs[..i], walked, unresolved)
      {
        ghost var earlier, met := walked, unresolved;
        OneReferenceMet(p, f, st.refs, st.refs[i], scope, limit);
        var more := WalkReference(f, st.refs[i], names);
        ReferenceNext(p, active, f, st, i, w, more);
        ReferencesMetNext(p, f, st.refs, i, earlier, met, walked, unresolved);
        w := Join(w, more);
      }
      assert st.refs[..|st.refs|] == st.refs;
    }

    method WalkDeclaration(k: Key, ghost names: set<string>) returns (r: WalkResult)
      requires Ready(names) && k in Keys(p, names) && k in scope
      requires Below(p, active, k)
      modifies this
      ensures Settled()
      ensures r.Null? <==> Missing(p, k)
      ensures r.Found? ==> Answer(p, old(active), k, r.walk)
      ensures k in walked
      decreases |Keys(p, names) - active|, 0
    {
      hide Sound, Answer, ClosureExact, Missing, CoversNames, Below, NoneMissing, IndexUnresolved, p.KnowsIndex, KeyMet;
      if k in reachability {
        r := reachability[k];
        StoredWalk(k);
        if r.Found? {
          AnswerFromExact(p, active, k, r.walk);
        }
        return;
      }
      if k in active {
        r := Found(Walk({}, true));
        ActiveIsNotMissing(p, active, k);
        AnswerBackEdge(p, active, k);
        ActiveIsWalked(k);
        return;
      }
      ghost var before := active;
      RoomShrinks(Keys(p, names), active, k);
      Enter(k);
      r := WalkActive(k, before, names);
      Leave(k);
      if !(r.Found? && r.walk.tainted) {
        if r.Found? {
          UntaintedIsExact(p, before, k, r.walk);
        }
        StoreWalk(k, r);
      }
    }

    lemma InScope(k: Key)
      requires Sound() && k in scope
      ensures KeyMet(p, k, scope, limit)
    {
      hide Caches, KeyMet;
    }

    method WalkActive(k: Key, ghost before: set<Key>, ghost names: set<string>) returns (r: WalkResult)
      requires Ready(names) && k in Keys(p, names) && k in scope
      requires k !in before && active == before + {k} && Below(p, before, k)
      modifies this
      ensures Settled()
      ensures r.Null? <==> Missing(p, k)
      ensures r.Found? ==> Answer(p, before, k, r.walk)
      ensures KeyMet(p, k, walked, unresolved)
      decreases |Keys(p, names) - active|, 6
    {
      hide Sound, Answer, ClosureExact, Missing, CoversNames, Below, NoneMissing, IndexUnresolved, p.KnowsIndex,
           KeyMet, StatementsMet, AmbientMet, ReexportMet, StarsMet, IndexMet;
      InScope(k);
      KeyMetIff(p, k, scope, limit);
      var ix := GetIndex(k.file);
      ghost var met := unresolved;
      if k.name in ix.declarations {
        DeclaredNotMissing(p, k);
        NoneAboveIsMissing(p, before, k);
        var w := WalkStatements(k, before, names);
        r := Found(w);
      } else if !k.exported {
        LocalIsDeclared(p, k.file, k.name);
        r := Null;
      } else if k.name in ix.reexports {
        ReexportedNotMissing(p, k);
        NoneAboveIsMissing(p, before, k);
        var w := WalkReexport(k, before, names);
        r := Found(w);
      } else {
        r := WalkExportStars(k, before, names);
      }
      IndexMetGrows(p, k.file, met, unresolved);
      KeyMetIff(p, k, walked, unresolved);
    }

    method WalkStatements(k: Key, ghost before: set<Key>, ghost names: set<string>) returns (w: Walk)
      requires Ready(names) && NoneMissing(p, active) && k in Keys(p, names) && Declared(p, k)
      requires k !in before && active == before + {k}
      requires AmbientMet(p, k.file, limit) && StatementsMet(p, k.file, p.files[k.file].declarations[k.name], scope, limit)
      modifies this
      ensures Settled()
      ensures Answer(p, before, k, w)
      ensures AmbientMet(p, k.file, unresolved) && StatementsMet(p, k.file, p.files[k.file].declarations[k.name], walked, unresolved)
      decreases |Keys(p, names) - active|, 4
    {
      hide Sound, CoversNames, Keys, NoneMissing, Answer, AmbientExact, AmbientAnswer, AllInClosure, AmbientHeld, StatementsCovered,
           StatementCovered, FromStatement, ImportTypesCovered, ReferencesCovered, Join, StatementWalk,
           AmbientMet, StatementsMet, ImportTypesMet, ReferencesMet;
      var statements := p.files[k.file].declarations[k.name];
      w := AmbientContribution(k.file);
      AmbientIsExact(p, k.file, w);
      AmbientAllMet(k.file);
      StatementsStart(p, active, k, w);
      NoStatementsMet(p, k.file, walked, unresolved);
      assert statements[..0] == [];
      for i := 0 to |statements|
        invariant Ready(names) && Settled()
        invariant AllInClosure(p, k, w.sections) && AmbientHeld(p, k.file, w)
        invariant StatementsCovered(p, active, k, statements[..i], w)
        invariant AmbientMet(p, k.file, unresolved) && StatementsMet(p, k.file, statements[..i], walked, unresolved)
      {
        var st := statements[i];
        ghost var earlier, met := walked, unresolved;
        OneStatementMet(p, k.file, statements, st, scope, limit);
        var imported := WalkStatementImports(k.file, k.name, st, names);
        ghost var between, metBetween := walked, unresolved;
        var referenced := WalkReferences(k.file, st, names);
        StatementDone(p, active, k, st, imported, referenced);
        ImportTypesMetGrows(p, k.file, st.importTypes, between, metBetween, walked, unresolved);
        StatementsMetNext(p, k.file, statements, i, earlier, met, walked, unresolved);
        AmbientMetGrows(p, k.file, met, unresolved);
        var more := StatementWalk(k, st, imported, referenced);
        StatementNext(p, active, k, statements, i, w, more);
        w := Join(w, more);
      }
      assert statements[..|statements|] == statements;
      StatementsDone(p, before, k, w);
    }

    method WalkReexport(k: Key, ghost before: set<Key>, ghost names: set<string>) returns (w: Walk)
      requires Ready(names) && NoneMissing(p, active) && k in Keys(p, names) && !Declared(p, k) && Reexported(p, k)
      requires k !in before && active == before + {k}
      requires ReexportMet(p, k, scope, limit)
      modifies this
      ensures Settled()
      ensures Answer(p, before, k, w)
      ensures ReexportMet(p, k, walked, unresolved)
      decreases |Keys(p, names) - active|, 4
    {
      hide Sound, CoversNames, Answer, FallbackExact, DependencyAnswer, Missing, NoneMissing, Below, DependencyMet, FallbackMet;
      var f := k.file;
      ValidProgram();
      KnownReexport(p, names, f, k.name);
      match p.files[f].reexports[k.name] {
        case LocalName(n) =>
          LocalIsDeclared(p, f, n);
          FreeOfMissing(p, active, Key(f, false, n));
          var r := WalkDeclaration(Key(f, false, n), names);
          if r.Found? {
            w := r.walk;
            SingleTarget(p, before, k, ToKey(Key(f, false, n)), w);
          } else {
            w := RecallFallback(f);
            SingleTarget(p, before, k, ToFallback(f), w);
          }
        case FromModule(d) =>
          w := ResolveWalkDependency(d, f, names);
          ReexportModule(p, before, k, d, w);
      }
    }

    method WalkExportStars(k: Key, ghost before: set<Key>, ghost names: set<string>) returns (r: WalkResult)
      requires Ready(names) && k in Keys(p, names) && !Declared(p, k) && !Reexported(p, k) && k.exported
      requires k !in before && active == before + {k}
      requires Below(p, before, k) && StarsMet(p, k, scope, limit)
      modifies this
      ensures Settled()
      ensures r.Null? <==> Missing(p, k)
      ensures r.Found? ==> Answer(p, before, k, r.walk)
      ensures StarsMet(p, k, walked, unresolved)
      decreases |Keys(p, names) - active|, 5
    {
      hide Sound, Answer, CoversNames, Missing, Declared, Reexported, Below, NoneMissing, SkippedAll, Skipped,
           StarsMet, StarListMet, StarMet;
      var stars := p.files[k.file].exportStars;
      assert stars[..0] == [];
      SkippedNone(p, k);
      NoStarsMet(p, k, walked, unresolved);
      for i := 0 to |stars|
        invariant Ready(names) && Settled()
        invariant SkippedAll(p, k, stars[..i]) && StarListMet(p, k, stars[..i], walked, unresolved)
      {
        ghost var earlier, met := walked, unresolved;
        StarLimit(p, k, i, scope, limit);
        r := WalkStar(k, stars[i], i, before, names);
        StarListMetNext(p, k, stars, i, earlier, met, walked, unresolved);
        if r.Found? {
          StarsMetOf(p, k, i + 1, walked, unresolved);
          return;
        }
        SkippedNext(p, k, stars, i);
      }
      assert stars[..|stars|] == stars;
      AllSkipped(p, k);
      StarsMetOf(p, k, |stars|, walked, unresolved);
      r := Null;
    }

    /** One entry of the ordered search: null exactly when it is passed over. */
    method WalkStar(k: Key, d: Dependency, ghost i: nat, ghost before: set<Key>, ghost names: set<string>) returns (r: WalkResult)
      requires Ready(names) && k in Keys(p, names) && !Declared(p, k) && !Reexported(p, k) && k.exported
      requires k !in before && active == before + {k} && Below(p, before, k)
      requires i < |p.files[k.file].exportStars| && p.files[k.file].exportStars[i] == d
      requires SkippedAll(p, k, p.files[k.file].exportStars[..i]) && StarMet(p, k, d, scope, limit)
      modifies this
      ensures Settled()
      ensures r.Null? <==> Skipped(p, k, d)
      ensures r.Found? ==> !Missing(p, k) && Answer(p, before, k, r.walk)
      ensures StarMet(p, k, d, walked, unresolved)
      decreases |Keys(p, names) - active|, 4
    {
      hide Sound, Answer, FallbackExact, CoversNames, Missing, Declared, Reexported, Below, NoneMissing, SkippedAll, FallbackMet;
      r := Null;
      if d.Repo? {
        ValidProgram();
        KnownStar(p, k.file, d);
        StarIsBelow(p, before, k, d);
        r := WalkDeclaration(StarKey(d, k), names);
        if r.Found? {
          StarFound(p, before, k, i, r.walk);
        }
      } else if d.Failure? {
        var w := RecallFallback(k.file);
        StarFound(p, before, k, i, w);
        r := Found(w);
      }
    }
  }

  // ---------- a run whose order shows ----------

  /** `f` declares `n` and depends on nothing; `g` imports a module that cannot be resolved. */
  const TWO_FILES := Program(map[
    "f" := FileIndex("", [], map["n" := [Statement("", [], [])]], [], [], map[], map[], []),
    "g" := FileIndex("", [], map[], [], [Failure], map[], map[], [])])

  lemma TwoFilesMeet()
    ensures TWO_FILES.Valid() && Clean(TWO_FILES, Request("f", "n")) && Dirty(TWO_FILES, Request("g", "n"))
  {
    var root := Key("f", true, "n");
    forall g ensures !Meets(TWO_FILES, "f", "n", g) {
      NothingMetByF(g);
    }
    var other := Key("g", true, "n");
    assert Failure in TWO_FILES.files["g"].sideEffects;
    assert KeyOwnReports(TWO_FILES)(other, "g");
    CollectsOwn(VisitEdges(TWO_FILES), KeyOwnReports(TWO_FILES), other, "g");
    assert "g" in MetBy(TWO_FILES, "g", "n");
  }

  lemma NothingMetByF(g: File)
    ensures !Meets(TWO_FILES, "f", "n", g)
  {
    var root := Key("f", true, "n");
    DeclaredNotMissing(TWO_FILES, root);
    assert forall h :: !AmbientEdges(TWO_FILES)("f", h);
    NothingCollected(AmbientEdges(TWO_FILES), AmbientOwnReports(TWO_FILES), "f", g);
    assert forall j :: !VisitEdges(TWO_FILES)(root, j);
    assert !KeyOwnReports(TWO_FILES)(root, g);
    NothingCollected(VisitEdges(TWO_FILES), KeyOwnReports(TWO_FILES), root, g);
  }

  /** Where two such exports exist, the clean one is rendered first and remembered afterwards. */
  method RenderedBefore(p: Program, q: Request, d: Request) returns (first: Rendering, other: Rendering, again: Rendering)
    requires p.Valid() && Clean(p, q) && Dirty(p, d)
    ensures first.Closure? && other.Thrown? && again == first
  {
    assert MetBy(p, q.file, q.name) == {} && MetBy(p, d.file, d.name) != {};
    assert (q.file, q.name) != (d.file, d.name);
    var a := new Renderer(p);
    hide *;
    first := a.Render(q.file, q.name);
    other := a.Render(d.file, d.name);
    again := a.Render(q.file, q.name);
  }

  /** In the other order it is refused. */
  method RefusedAfter(p: Program, q: Request, d: Request) returns (other: Rendering, late: Rendering)
    requires p.Valid() && Clean(p, q) && Dirty(p, d)
    ensures other.Thrown? && late.Thrown?
  {
    assert MetBy(p, q.file, q.name) == {} && MetBy(p, d.file, d.name) != {};
    assert (q.file, q.name) != (d.file, d.name);
    var a := new Renderer(p);
    hide *;
    other := a.Render(d.file, d.name);
    late := a.Render(q.file, q.name);
  }
}
