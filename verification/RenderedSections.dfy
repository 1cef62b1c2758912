/** What a rendering holds and what it meets, read off the program: an export's own, and all that it brings along. */
module RenderedSections {
  import opened Reachability
  import opened DeclarationGraph
  import opened ClosureSteps
  import opened ClosureReports

  // ---------- whole files and ambient globals ----------

  /** A whole-file rendering is the file's text and the whole files it refers to. */
  lemma FallbackIs(p: Program, f: File, s: Section)
    requires p.Valid() && f in p.files
    ensures InFallback(p, f, s) <==>
      || s == Section("*", p.files[f].text)
      || exists d :: d in p.files[f].references && d.Repo? && InFallback(p, d.file, s)
  {
    if InFallback(p, f, s) && s != Section("*", p.files[f].text) {
      var g := CollectsUnfold(FileEdges(p), FileTexts(p), f, s);
    }
    if s == Section("*", p.files[f].text) {
      assert FileTexts(p)(f, s);
      CollectsOwn(FileEdges(p), FileTexts(p), f, s);
    }
    if d :| d in p.files[f].references && d.Repo? && InFallback(p, d.file, s) {
      KnownReference(p, p.files[f], d);
      assert FileEdges(p)(f, d.file);
      CollectsStep(FileEdges(p), FileTexts(p), f, d.file, s);
    }
  }

  /** Ambient sections are a file's globals, all its whole files if a side-effect import fails, and the ambient sections
      of the files it imports for their side effects. */
  lemma AmbientIs(p: Program, f: File, s: Section)
    requires p.Valid() && f in p.files
    ensures InAmbient(p, f, s) <==>
      || (exists t :: t in p.files[f].globals && s == Section("global", t))
      || (Failure in p.files[f].sideEffects && InFallback(p, f, s))
      || (exists d :: d in p.files[f].sideEffects && d.Repo? && InAmbient(p, d.file, s))
  {
    hide InFallback;
    if InAmbient(p, f, s) && !AmbientOwn(p, f, s) {
      var g := CollectsUnfold(AmbientEdges(p), AmbientOwns(p), f, s);
    }
    if AmbientOwn(p, f, s) {
      assert AmbientOwns(p)(f, s);
      CollectsOwn(AmbientEdges(p), AmbientOwns(p), f, s);
    }
    if d :| d in p.files[f].sideEffects && d.Repo? && InAmbient(p, d.file, s) {
      KnownReference(p, p.files[f], d);
      assert AmbientEdges(p)(f, d.file);
      CollectsStep(AmbientEdges(p), AmbientOwns(p), f, d.file, s);
    }
  }

  // ---------- what an export is rendered as ----------

  /** What a dependency of `owner` brings along: nothing, whole files, or all that is rendered for the name it asks for. */
  ghost predicate Brings(p: Program, owner: File, d: Dependency, s: Section) {
    match d
    case External(_) => false
    case Failure => InFallback(p, owner, s)
    case Repo(f, n) => if n == "*" then InFallback(p, f, s) else InRender(p, f, n, s)
  }

  /** What a reference by name brings along: a declaration of the file itself comes before an import. */
  ghost predicate NameBrings(p: Program, f: File, r: string, s: Section)
    requires f in p.files
  {
    var ix := p.files[f];
    if r in ix.declarations then InRender(p, f, r, s) else r in ix.imports && Brings(p, f, ix.imports[r], s)
  }

  ghost predicate StatementBrings(p: Program, f: File, st: Statement, s: Section)
    requires f in p.files
  {
    || (exists d :: d in st.importTypes && Brings(p, f, d, s))
    || (exists r :: r in st.refs && NameBrings(p, f, r, s))
  }

  /** What one of the targets of a declaration holds. */
  ghost predicate TargetHolds(p: Program, t: Target, s: Section) {
    match t
    case ToKey(j) => InClosure(p, j, s)
    case ToFallback(f) => InFallback(p, f, s)
  }

  lemma ClosureIs(p: Program, k: Key, s: Section)
    ensures InClosure(p, k, s) <==>
      || KeyText(p, k, s)
      || (Declared(p, k) && InAmbient(p, k.file, s))
      || exists t :: HasTarget(p, k, t) && TargetHolds(p, t, s)
  {
    hide KeyText, HasTarget, InAmbient, InFallback;
    if InClosure(p, k, s) && !KeyOwn(p, k, s) {
      var j := CollectsUnfold(KeyEdges(p), KeyOwns(p), k, s);
      assert HasTarget(p, k, ToKey(j)) && TargetHolds(p, ToKey(j), s);
    }
    if InClosure(p, k, s) && KeyOwn(p, k, s) {
      if f :| HasTarget(p, k, ToFallback(f)) && InFallback(p, f, s) {
        assert TargetHolds(p, ToFallback(f), s);
      }
    }
    if KeyOwn(p, k, s) {
      assert KeyOwns(p)(k, s);
      CollectsOwn(KeyEdges(p), KeyOwns(p), k, s);
    }
    if t :| HasTarget(p, k, t) && TargetHolds(p, t, s) {
      match t
      case ToKey(j) =>
        assert KeyEdges(p)(k, j);
        CollectsStep(KeyEdges(p), KeyOwns(p), k, j, s);
      case ToFallback(f) =>
        assert KeyOwn(p, k, s);
    }
  }

  /** A declared name means the same inside its file and as an export. */
  lemma LocalIsExported(p: Program, f: File, n: string, s: Section)
    requires f in p.files && n in p.files[f].declarations
    ensures InClosure(p, Key(f, false, n), s) <==> InRender(p, f, n, s)
    ensures InRender(p, f, n, s) <==> InClosure(p, Key(f, true, n), s)
  {
    var a, b := Key(f, false, n), Key(f, true, n);
    assert forall t :: HasTarget(p, a, t) <==> HasTarget(p, b, t);
    assert KeyText(p, a, s) <==> KeyText(p, b, s);
    assert !Missing(p, b);
    hide HasTarget, KeyText, InAmbient, Missing;
    ClosureIs(p, a, s);
    ClosureIs(p, b, s);
  }

  lemma ResolvedBrings(p: Program, owner: File, d: Dependency, s: Section)
    ensures (exists t :: Resolves(p, owner, d, t) && TargetHolds(p, t, s)) <==> Brings(p, owner, d, s)
  {
    hide InClosure, InFallback, Missing;
    match d
    case External(_) =>
    case Failure => assert Resolves(p, owner, d, ToFallback(owner));
    case Repo(f, n) =>
      var k := Key(f, true, n);
      if n == "*" || Missing(p, k) {
        assert Resolves(p, owner, d, ToFallback(f));
      } else {
        assert Resolves(p, owner, d, ToKey(k));
      }
  }

  lemma NamedBrings(p: Program, f: File, r: string, s: Section)
    requires f in p.files
    ensures (exists t :: RefersTo(p, f, r, t) && TargetHolds(p, t, s)) <==> NameBrings(p, f, r, s)
  {
    hide InClosure, InFallback, InRender, Resolves;
    var ix := p.files[f];
    if r in ix.declarations {
      LocalIsExported(p, f, r, s);
      assert RefersTo(p, f, r, ToKey(Key(f, false, r)));
    } else if r in ix.imports {
      ResolvedBrings(p, f, ix.imports[r], s);
    }
  }

  lemma StatementTargets(p: Program, f: File, st: Statement, s: Section)
    requires f in p.files
    ensures (exists t :: StatementTarget(p, f, st, t) && TargetHolds(p, t, s)) <==> StatementBrings(p, f, st, s)
  {
    hide TargetHolds, Resolves, RefersTo, Brings, NameBrings;
    forall d ensures (exists t :: Resolves(p, f, d, t) && TargetHolds(p, t, s)) <==> Brings(p, f, d, s) {
      ResolvedBrings(p, f, d, s);
    }
    forall r ensures (exists t :: RefersTo(p, f, r, t) && TargetHolds(p, t, s)) <==> NameBrings(p, f, r, s) {
      NamedBrings(p, f, r, s);
    }
    if t :| StatementTarget(p, f, st, t) && TargetHolds(p, t, s) {
      if d :| d in st.importTypes && Resolves(p, f, d, t) {
        assert Brings(p, f, d, s);
      } else {
        var r :| r in st.refs && RefersTo(p, f, r, t);
        assert NameBrings(p, f, r, s);
      }
    }
    if d :| d in st.importTypes && Brings(p, f, d, s) {
      var t :| Resolves(p, f, d, t) && TargetHolds(p, t, s);
      assert StatementTarget(p, f, st, t);
    }
    if r :| r in st.refs && NameBrings(p, f, r, s) {
      var t :| RefersTo(p, f, r, t) && TargetHolds(p, t, s);
      assert StatementTarget(p, f, st, t);
    }
  }

  /** A declared export is rendered as its statements under its name, the ambient sections of its file, and all that
      the statements bring along. */
  lemma DeclaredIs(p: Program, f: File, name: string, s: Section)
    requires f in p.files && name in p.files[f].declarations
    ensures InRender(p, f, name, s) <==>
      || InAmbient(p, f, s)
      || exists st :: st in p.files[f].declarations[name] && (s == Section(name, st.text) || StatementBrings(p, f, st, s))
  {
    var k := Key(f, true, name);
    LocalIsExported(p, f, name, s);
    ClosureIs(p, k, s);
    hide InRender, InClosure, InAmbient, StatementTarget, StatementBrings, TargetHolds;
    forall st ensures (exists t :: StatementTarget(p, f, st, t) && TargetHolds(p, t, s)) <==> StatementBrings(p, f, st, s) {
      StatementTargets(p, f, st, s);
    }
    if t :| HasTarget(p, k, t) && TargetHolds(p, t, s) {
      var st :| st in p.files[f].declarations[name] && StatementTarget(p, f, st, t);
      assert StatementBrings(p, f, st, s);
    }
    if st :| st in p.files[f].declarations[name] && StatementBrings(p, f, st, s) {
      var t :| StatementTarget(p, f, st, t) && TargetHolds(p, t, s);
      assert HasTarget(p, k, t);
    }
  }

  /** A re-exported name is rendered as the declaration of the file it stands for, or as what its module brings along. */
  lemma ReexportedIs(p: Program, f: File, name: string, s: Section)
    requires f in p.files && name !in p.files[f].declarations && name in p.files[f].reexports
    ensures InRender(p, f, name, s) <==> match p.files[f].reexports[name]
      case LocalName(n) => if n in p.files[f].declarations then InRender(p, f, n, s) else InFallback(p, f, s)
      case FromModule(d) => Brings(p, f, d, s)
  {
    var k := Key(f, true, name);
    assert !Missing(p, k);
    assert !Declared(p, k) && !KeyText(p, k, s);
    ClosureIs(p, k, s);
    hide InClosure, InAmbient, InFallback, Missing;
    match p.files[f].reexports[name]
    case LocalName(n) =>
      if n in p.files[f].declarations {
        LocalIsExported(p, f, n, s);
        assert HasTarget(p, k, ToKey(Key(f, false, n)));
      } else {
        assert HasTarget(p, k, ToFallback(f));
      }
    case FromModule(d) =>
      assert forall t :: HasTarget(p, k, t) <==> Resolves(p, f, d, t);
      hide HasTarget, Resolves;
      ResolvedBrings(p, f, d, s);
  }

  /** An entry of the ordered search brings along what it exports under the name, or the whole file if it fails. */
  lemma SearchedIs(p: Program, f: File, name: string, i: nat, s: Section)
    requires p.Valid() && f in p.files && name !in p.files[f].declarations && name !in p.files[f].reexports
    requires i < |p.files[f].exportStars|
    requires forall j :: 0 <= j < i ==> Skipped(p, Key(f, true, name), p.files[f].exportStars[j])
    requires !Skipped(p, Key(f, true, name), p.files[f].exportStars[i])
    ensures InRender(p, f, name, s) <==> match p.files[f].exportStars[i]
      case Failure => InFallback(p, f, s)
      case Repo(g, _) => InRender(p, g, name, s)
  {
    var k := Key(f, true, name);
    var d := p.files[f].exportStars[i];
    var target := if d.Repo? then ToKey(StarKey(d, k)) else ToFallback(f);
    assert !Missing(p, k) by {
      if Missing(p, k) && d.Repo? {
        MissingStar(p, k, d);
      }
    }
    assert StarTarget(p, k, target);
    assert forall t :: HasTarget(p, k, t) <==> t == target;
    assert !Declared(p, k) && !KeyText(p, k, s);
    assert d.Repo? ==> !Missing(p, StarKey(d, k));
    hide HasTarget, Missing, StarTarget, InClosure, InFallback;
    ClosureIs(p, k, s);
    assert (exists t :: HasTarget(p, k, t) && TargetHolds(p, t, s)) <==> TargetHolds(p, target, s);
  }

  // ---------- what every rendering keeps ----------

  /** A statement under its declared name, a global, or the text of a whole file. */
  ghost predicate Real(p: Program, s: Section) {
    || (exists g, n, st :: g in p.files && n in p.files[g].declarations && st in p.files[g].declarations[n] && s == Section(n, st.text))
    || (exists g, t :: g in p.files && t in p.files[g].globals && s == Section("global", t))
    || (exists g :: g in p.files && s == Section("*", p.files[g].text))
  }

  lemma FallbackIsReal(p: Program, f: File, s: Section)
    requires InFallback(p, f, s)
    ensures Real(p, s)
  {
    var q, g :| Links(FileEdges(p), q, f, g) && FileTexts(p)(g, s);
  }

  lemma AmbientIsReal(p: Program, f: File, s: Section)
    requires InAmbient(p, f, s)
    ensures Real(p, s)
  {
    var q, g :| Links(AmbientEdges(p), q, f, g) && AmbientOwns(p)(g, s);
    assert AmbientOwn(p, g, s);
    if Failure in p.files[g].sideEffects && InFallback(p, g, s) {
      FallbackIsReal(p, g, s);
    }
  }

  lemma RenderedIsReal(p: Program, f: File, name: string, s: Section)
    requires InRender(p, f, name, s)
    ensures Real(p, s)
  {
    if Missing(p, Key(f, true, name)) {
      FallbackIsReal(p, f, s);
    } else {
      var q, k :| Links(KeyEdges(p), q, Key(f, true, name), k) && KeyOwns(p)(k, s);
      assert KeyOwn(p, k, s);
      if g :| HasTarget(p, k, ToFallback(g)) && InFallback(p, g, s) {
        FallbackIsReal(p, g, s);
      } else if Declared(p, k) && InAmbient(p, k.file, s) {
        AmbientIsReal(p, k.file, s);
      }
    }
  }

  /** All statements that declare a name, each under the name. */
  ghost predicate HoldsDeclared(p: Program, f: File, n: string, sections: seq<Section>) {
    f in p.files && n in p.files[f].declarations ==>
      forall st :: st in p.files[f].declarations[n] ==> Section(n, st.text) in sections
  }

  ghost predicate HoldsReferred(p: Program, f: File, st: Statement, sections: seq<Section>)
    requires f in p.files
  {
    forall r :: r in st.refs ==>
      if r in p.files[f].declarations then HoldsDeclared(p, f, r, sections)
      else r in p.files[f].imports && p.files[f].imports[r].Repo? ==>
        var Repo(g, m) := p.files[f].imports[r];
        if m == "*" then g in p.files ==> Section("*", p.files[g].text) in sections else HoldsDeclared(p, g, m, sections)
  }

  /** What the list returned for a declared export holds at least. */
  ghost predicate HoldsExport(p: Program, f: File, name: string, sections: seq<Section>) {
    f in p.files && name in p.files[f].declarations ==>
      && HoldsDeclared(p, f, name, sections)
      && (forall t :: t in p.files[f].globals ==> Section("global", t) in sections)
      && (forall st :: st in p.files[f].declarations[name] ==> HoldsReferred(p, f, st, sections))
  }

  ghost predicate AllReal(p: Program, sections: seq<Section>) {
    forall s :: s in sections ==> Real(p, s)
  }

  lemma DeclaredIsHeld(p: Program, f: File, n: string, st: Statement)
    requires f in p.files && n in p.files[f].declarations && st in p.files[f].declarations[n]
    ensures InRender(p, f, n, Section(n, st.text))
  {
    DeclaredIs(p, f, n, Section(n, st.text));
  }

  lemma ReferredIsHeld(p: Program, f: File, name: string, st: Statement, sections: seq<Section>)
    requires p.Valid() && f in p.files && name in p.files[f].declarations && st in p.files[f].declarations[name]
    requires forall s :: InRender(p, f, name, s) ==> s in sections
    ensures HoldsReferred(p, f, st, sections)
  {
    hide InRender, InAmbient, InFallback, p.Valid;
    var ix := p.files[f];
    forall r, s | r in st.refs && NameBrings(p, f, r, s) ensures s in sections {
      DeclaredIs(p, f, name, s);
      assert StatementBrings(p, f, st, s);
    }
    forall r, st' | r in st.refs && r in ix.declarations && st' in ix.declarations[r] ensures Section(r, st'.text) in sections {
      DeclaredIsHeld(p, f, r, st');
      assert NameBrings(p, f, r, Section(r, st'.text));
    }
    forall r | r in st.refs && r !in ix.declarations && r in ix.imports && ix.imports[r].Repo?
      ensures var Repo(g, m) := ix.imports[r];
        if m == "*" then g in p.files ==> Section("*", p.files[g].text) in sections else HoldsDeclared(p, g, m, sections)
    {
      var Repo(g, m) := ix.imports[r];
      if m == "*" && g in p.files {
        FallbackIs(p, g, Section("*", p.files[g].text));
        assert NameBrings(p, f, r, Section("*", p.files[g].text));
      } else if m != "*" && g in p.files && m in p.files[g].declarations {
        forall st' | st' in p.files[g].declarations[m] ensures Section(m, st'.text) in sections {
          DeclaredIsHeld(p, g, m, st');
          assert NameBrings(p, f, r, Section(m, st'.text));
        }
      }
    }
  }

  /** A list of exactly the rendered sections holds at least those, and only real ones. */
  lemma RenderingHolds(p: Program, f: File, name: string, sections: seq<Section>)
    requires p.Valid() && forall s :: s in sections <==> InRender(p, f, name, s)
    ensures HoldsExport(p, f, name, sections) && AllReal(p, sections)
  {
    hide InRender, InAmbient, p.Valid, HoldsReferred, Real;
    forall s | s in sections ensures Real(p, s) {
      RenderedIsReal(p, f, name, s);
    }
    if f in p.files && name in p.files[f].declarations {
      forall st | st in p.files[f].declarations[name] ensures Section(name, st.text) in sections && HoldsReferred(p, f, st, sections) {
        DeclaredIsHeld(p, f, name, st);
        ReferredIsHeld(p, f, name, st, sections);
      }
      forall t | t in p.files[f].globals ensures Section("global", t) in sections {
        AmbientIs(p, f, Section("global", t));
        DeclaredIs(p, f, name, Section("global", t));
      }
    }
  }

  // ---------- what a rendering meets ----------

  /** Indexing the file resolves this dependency. */
  ghost predicate Lists(ix: FileIndex, d: Dependency) {
    || d in ix.sideEffects || d in ix.exportStars
    || (exists n :: n in ix.imports && ix.imports[n] == d)
    || (exists n :: n in ix.reexports && ix.reexports[n] == FromModule(d))
  }

  ghost predicate CannotResolve(ix: FileIndex) {
    exists d :: Lists(ix, d) && (d == Failure || d == External(true))
  }

  /** Rendering any export of a file meets what the file itself cannot resolve, whatever the export uses of it. */
  lemma OwnIsMet(p: Program, f: File, name: string, d: Dependency)
    requires f in p.files && Lists(p.files[f], d) && (d == Failure || d == External(true))
    ensures f in MetBy(p, f, name)
  {
    var ix := p.files[f];
    assert IndexUnresolved(ix) by {
      if d in ix.sideEffects {
        assert AnyUnresolved(ix.sideEffects);
      } else if d in ix.exportStars {
        assert AnyUnresolved(ix.exportStars);
      }
    }
    var k := Key(f, true, name);
    assert KeyOwnReports(p)(k, f);
    CollectsOwn(VisitEdges(p), KeyOwnReports(p), k, f);
  }

  ghost predicate BringsReport(p: Program, owner: File, d: Dependency, g: File) {
    match d
    case External(_) => false
    case Failure => FallbackReport(p, owner, g)
    case Repo(f, n) => if n == "*" then FallbackReport(p, f, g) else Meets(p, f, n, g)
  }

  ghost predicate NameBringsReport(p: Program, f: File, r: string, g: File)
    requires f in p.files
  {
    var ix := p.files[f];
    if r in ix.declarations then Meets(p, f, r, g) else r in ix.imports && BringsReport(p, f, ix.imports[r], g)
  }

  /** A statement meets what it cannot resolve itself, and what its import types and references meet. */
  ghost predicate StatementBringsReport(p: Program, f: File, st: Statement, g: File)
    requires f in p.files
  {
    || (g == f && exists d :: d in st.importTypes && (d == Failure || d == External(true)))
    || (exists d :: d in st.importTypes && BringsReport(p, f, d, g))
    || (exists r :: r in st.refs && NameBringsReport(p, f, r, g))
  }

  lemma KeyReportIs(p: Program, k: Key, g: File)
    ensures KeyReport(p, k, g) <==> KeyOwnReport(p, k, g) || exists j :: Visits(p, k, j) && KeyReport(p, j, g)
  {
    hide KeyOwnReport, Visits;
    if KeyReport(p, k, g) && !KeyOwnReport(p, k, g) {
      var j := CollectsUnfold(VisitEdges(p), KeyOwnReports(p), k, g);
    }
    if KeyOwnReport(p, k, g) {
      assert KeyOwnReports(p)(k, g);
      CollectsOwn(VisitEdges(p), KeyOwnReports(p), k, g);
    }
    if j :| Visits(p, k, j) && KeyReport(p, j, g) {
      assert VisitEdges(p)(k, j);
      CollectsStep(VisitEdges(p), KeyOwnReports(p), k, j, g);
    }
  }

  lemma LocalMeets(p: Program, f: File, n: string, g: File)
    requires f in p.files && n in p.files[f].declarations
    ensures KeyReport(p, Key(f, false, n), g) <==> Meets(p, f, n, g)
    ensures Meets(p, f, n, g) <==> KeyReport(p, Key(f, true, n), g)
  {
    var a, b := Key(f, false, n), Key(f, true, n);
    assert !Missing(p, b);
    assert forall j :: Visits(p, a, j) <==> Visits(p, b, j);
    assert forall t :: HasTarget(p, a, t) <==> HasTarget(p, b, t);
    assert KeyOwnReport(p, a, g) <==> KeyOwnReport(p, b, g);
    hide Visits, HasTarget, KeyOwnReport, Missing;
    KeyReportIs(p, a, g);
    KeyReportIs(p, b, g);
  }

  /** What the targets that are whole files report, and what the keys that are asked for do. */
  ghost predicate Reported(p: Program, whole: File -> bool, asked: Key -> bool, g: File) {
    (exists h :: whole(h) && FallbackReport(p, h, g)) || (exists j :: asked(j) && KeyReport(p, j, g))
  }

  lemma DependencyReports(p: Program, owner: File, d: Dependency, g: File)
    ensures Reported(p, h => Resolves(p, owner, d, ToFallback(h)), j => Asks(d, j), g) <==> BringsReport(p, owner, d, g)
  {
    hide FallbackReport, KeyReport, Missing;
    var whole, asked := (h: File) => Resolves(p, owner, d, ToFallback(h)), (j: Key) => Asks(d, j);
    match d
    case External(_) =>
    case Failure => assert whole(owner);
    case Repo(f, n) =>
      if n == "*" {
        assert whole(f);
      } else {
        assert asked(Key(f, true, n));
        assert Missing(p, Key(f, true, n)) ==> whole(f);
      }
  }

  predicate NameAsks(ix: FileIndex, f: File, r: string, j: Key) {
    if r in ix.declarations then j == Key(f, false, r) else r in ix.imports && Asks(ix.imports[r], j)
  }

  lemma NameReports(p: Program, f: File, r: string, g: File)
    requires f in p.files
    ensures Reported(p, h => RefersTo(p, f, r, ToFallback(h)), j => NameAsks(p.files[f], f, r, j), g) <==> NameBringsReport(p, f, r, g)
  {
    hide FallbackReport, KeyReport, Missing;
    var ix := p.files[f];
    var whole, asked := (h: File) => RefersTo(p, f, r, ToFallback(h)), (j: Key) => NameAsks(ix, f, r, j);
    if r in ix.declarations {
      LocalMeets(p, f, r, g);
      assert asked(Key(f, false, r));
    } else if r in ix.imports {
      var d := ix.imports[r];
      DependencyReports(p, f, d, g);
      var whole', asked' := (h: File) => Resolves(p, f, d, ToFallback(h)), (j: Key) => Asks(d, j);
      assert forall h :: whole(h) <==> whole'(h);
      assert forall j :: asked(j) <==> asked'(j);
    }
  }

  lemma StatementReports(p: Program, f: File, st: Statement, g: File)
    requires f in p.files
    ensures (g == f && AnyUnresolved(st.importTypes))
         || Reported(p, h => StatementTarget(p, f, st, ToFallback(h)), j => StatementVisits(p, f, st, j), g)
       <==> StatementBringsReport(p, f, st, g)
  {
    var ix := p.files[f];
    var whole, asked := (h: File) => StatementTarget(p, f, st, ToFallback(h)), (j: Key) => StatementVisits(p, f, st, j);
    hide FallbackReport, KeyReport, Missing, BringsReport, NameBringsReport, Resolves, RefersTo, Asks;
    forall d | d in st.importTypes && BringsReport(p, f, d, g) ensures Reported(p, whole, asked, g) {
      DependencyReports(p, f, d, g);
      assert forall h :: Resolves(p, f, d, ToFallback(h)) ==> whole(h);
      assert forall j :: Asks(d, j) ==> asked(j);
    }
    forall r | r in st.refs && NameBringsReport(p, f, r, g) ensures Reported(p, whole, asked, g) {
      NameReports(p, f, r, g);
      assert forall h :: RefersTo(p, f, r, ToFallback(h)) ==> whole(h);
      assert forall j :: NameAsks(ix, f, r, j) ==> asked(j);
    }
    forall h | whole(h) && FallbackReport(p, h, g) ensures StatementBringsReport(p, f, st, g) {
      if d :| d in st.importTypes && Resolves(p, f, d, ToFallback(h)) {
        DependencyReports(p, f, d, g);
      } else {
        var r :| r in st.refs && RefersTo(p, f, r, ToFallback(h));
        NameReports(p, f, r, g);
      }
    }
    forall j | asked(j) && KeyReport(p, j, g) ensures StatementBringsReport(p, f, st, g) {
      if d :| d in st.importTypes && Asks(d, j) {
        DependencyReports(p, f, d, g);
      } else {
        var r :| r in st.refs && NameAsks(ix, f, r, j);
        NameReports(p, f, r, g);
      }
    }
  }

  /** Rendering a declared export meets what its file cannot resolve, what the ambient files meet, and what each of
      its statements meets. */
  lemma DeclaredMeets(p: Program, f: File, name: string, g: File)
    requires f in p.files && name in p.files[f].declarations
    ensures Meets(p, f, name, g) <==>
      || (g == f && CannotResolve(p.files[f]))
      || AmbientReport(p, f, g)
      || exists st :: st in p.files[f].declarations[name] && StatementBringsReport(p, f, st, g)
  {
    var k := Key(f, true, name);
    var sts := p.files[f].declarations[name];
    LocalMeets(p, f, name, g);
    KeyReportIs(p, k, g);
    CannotResolveIs(p.files[f]);
    forall st | st in sts
      ensures (g == f && AnyUnresolved(st.importTypes))
           || Reported(p, h => StatementTarget(p, f, st, ToFallback(h)), j => StatementVisits(p, f, st, j), g)
         <==> StatementBringsReport(p, f, st, g)
    {
      StatementReports(p, f, st, g);
    }
    hide Meets, AmbientReport, FallbackReport, KeyReport, StatementTarget, StatementVisits, StatementBringsReport, IndexUnresolved, AnyUnresolved, CannotResolve;
    if h :| HasTarget(p, k, ToFallback(h)) && FallbackReport(p, h, g) {
      var st :| st in sts && StatementTarget(p, f, st, ToFallback(h));
      assert StatementBringsReport(p, f, st, g);
    }
    if j :| Visits(p, k, j) && KeyReport(p, j, g) {
      var st :| st in sts && StatementVisits(p, f, st, j);
      assert StatementBringsReport(p, f, st, g);
    }
    if st :| st in sts && StatementBringsReport(p, f, st, g) {
      if h :| StatementTarget(p, f, st, ToFallback(h)) && FallbackReport(p, h, g) {
        assert HasTarget(p, k, ToFallback(h));
      } else if j :| StatementVisits(p, f, st, j) && KeyReport(p, j, g) {
        assert Visits(p, k, j);
      }
    }
  }

  lemma CannotResolveIs(ix: FileIndex)
    ensures IndexUnresolved(ix) <==> CannotResolve(ix)
  {
    if d :| Lists(ix, d) && (d == Failure || d == External(true)) {
      assert Unresolved(d);
      assert d in ix.sideEffects ==> AnyUnresolved(ix.sideEffects);
      assert d in ix.exportStars ==> AnyUnresolved(ix.exportStars);
    }
    if d :| d in ix.sideEffects && Unresolved(d) {
      assert Lists(ix, d);
    }
    if d :| d in ix.exportStars && Unresolved(d) {
      assert Lists(ix, d);
    }
    if n :| n in ix.imports && Unresolved(ix.imports[n]) {
      assert Lists(ix, ix.imports[n]);
    }
    if n :| n in ix.reexports && ix.reexports[n].FromModule? && Unresolved(ix.reexports[n].dep) {
      assert Lists(ix, ix.reexports[n].dep);
    }
  }

  /** Whole files meet what they cannot resolve, in their index or among their references, and what those meet. */
  lemma FallbackMeets(p: Program, f: File, g: File)
    requires p.Valid() && f in p.files
    ensures FallbackReport(p, f, g) <==>
      || (g == f && (CannotResolve(p.files[f]) || exists d :: d in p.files[f].references && (d == Failure || d == External(true))))
      || exists d :: d in p.files[f].references && d.Repo? && FallbackReport(p, d.file, g)
  {
    CannotResolveIs(p.files[f]);
    hide IndexUnresolved, CannotResolve;
    if FallbackReport(p, f, g) && !FallbackOwnReport(p, f, g) {
      var h := CollectsUnfold(FileEdges(p), FallbackOwnReports(p), f, g);
    }
    if FallbackOwnReport(p, f, g) {
      assert FallbackOwnReports(p)(f, g);
      CollectsOwn(FileEdges(p), FallbackOwnReports(p), f, g);
    }
    if d :| d in p.files[f].references && d.Repo? && FallbackReport(p, d.file, g) {
      KnownReference(p, p.files[f], d);
      assert FileEdges(p)(f, d.file);
      CollectsStep(FileEdges(p), FallbackOwnReports(p), f, d.file, g);
    }
  }

  /** Ambient files meet what their index cannot resolve, whole files if a side effect fails, and what their side effects meet. */
  lemma AmbientMeets(p: Program, f: File, g: File)
    requires p.Valid() && f in p.files
    ensures AmbientReport(p, f, g) <==>
      || (g == f && CannotResolve(p.files[f]))
      || (Failure in p.files[f].sideEffects && FallbackReport(p, f, g))
      || exists d :: d in p.files[f].sideEffects && d.Repo? && AmbientReport(p, d.file, g)
  {
    CannotResolveIs(p.files[f]);
    hide IndexUnresolved, CannotResolve, FallbackReport;
    if AmbientReport(p, f, g) && !AmbientOwnReport(p, f, g) {
      var h := CollectsUnfold(AmbientEdges(p), AmbientOwnReports(p), f, g);
    }
    if AmbientOwnReport(p, f, g) {
      assert AmbientOwnReports(p)(f, g);
      CollectsOwn(AmbientEdges(p), AmbientOwnReports(p), f, g);
    }
    if d :| d in p.files[f].sideEffects && d.Repo? && AmbientReport(p, d.file, g) {
      KnownReference(p, p.files[f], d);
      assert AmbientEdges(p)(f, d.file);
      CollectsStep(AmbientEdges(p), AmbientOwnReports(p), f, d.file, g);
    }
  }

  /** A local name that is not declared meets no more than the index of its file. */
  lemma UndeclaredLocalMeets(p: Program, f: File, n: string, g: File)
    requires f in p.files && n !in p.files[f].declarations
    ensures KeyReport(p, Key(f, false, n), g) <==> g == f && IndexUnresolved(p.files[f])
  {
    KeyReportIs(p, Key(f, false, n), g);
    hide KeyReport, FallbackReport, AmbientReport, IndexUnresolved;
  }

  /** A re-exported name meets what its file cannot resolve, and what it is re-exported from. */
  lemma ReexportedMeets(p: Program, f: File, name: string, g: File)
    requires f in p.files && name !in p.files[f].declarations && name in p.files[f].reexports
    ensures Meets(p, f, name, g) <==>
      || (g == f && CannotResolve(p.files[f]))
      || match p.files[f].reexports[name]
         case LocalName(n) => if n in p.files[f].declarations then Meets(p, f, n, g) else FallbackReport(p, f, g)
         case FromModule(d) => BringsReport(p, f, d, g)
  {
    var k := Key(f, true, name);
    assert !Missing(p, k);
    KeyReportIs(p, k, g);
    CannotResolveIs(p.files[f]);
    match p.files[f].reexports[name] {
      case LocalName(n) =>
        assert forall j :: Visits(p, k, j) <==> j == Key(f, false, n);
        assert forall t :: HasTarget(p, k, t) <==>
          t == if n in p.files[f].declarations then ToKey(Key(f, false, n)) else ToFallback(f);
        hide Visits, HasTarget, KeyReport, FallbackReport, AmbientReport, IndexUnresolved, CannotResolve, Missing;
        if n in p.files[f].declarations {
          LocalMeets(p, f, n, g);
        } else {
          UndeclaredLocalMeets(p, f, n, g);
        }
      case FromModule(d) =>
        assert forall j :: Visits(p, k, j) <==> Asks(d, j);
        assert forall t :: HasTarget(p, k, t) <==> Resolves(p, f, d, t);
        DependencyReports(p, f, d, g);
        hide Visits, HasTarget, KeyReport, FallbackReport, AmbientReport, IndexUnresolved, CannotResolve, Missing, Asks, Resolves, BringsReport;
    }
  }

  /** The ordered search meets what each entry it comes to meets, up to the first that is not passed over; where that
      one fails, or where none is left, it meets what the whole file does. */
  lemma SearchedMeets(p: Program, f: File, name: string, g: File)
    requires f in p.files && name !in p.files[f].declarations && name !in p.files[f].reexports
    ensures var k, stars := Key(f, true, name), p.files[f].exportStars;
      Meets(p, f, name, g) <==>
      || (g == f && CannotResolve(p.files[f]))
      || (Missing(p, k) && FallbackReport(p, f, g))
      || exists i :: 0 <= i < |stars| && (forall j :: 0 <= j < i ==> Skipped(p, k, stars[j]))
           && match stars[i]
              case External(_) => false
              case Failure => FallbackReport(p, f, g)
              case Repo(h, _) => KeyReport(p, Key(h, true, name), g)
  {
    var k, stars := Key(f, true, name), p.files[f].exportStars;
    KeyReportIs(p, k, g);
    CannotResolveIs(p.files[f]);
    assert forall i :: 0 <= i <= |stars| ==> (SkippedAll(p, k, stars[..i]) <==> forall j :: 0 <= j < i ==> Skipped(p, k, stars[j])) by {
      forall i | 0 <= i <= |stars|
        ensures SkippedAll(p, k, stars[..i]) <==> forall j :: 0 <= j < i ==> Skipped(p, k, stars[j])
      {
        assert SkippedAll(p, k, stars[..i]) ==> forall j :: 0 <= j < i ==> stars[..i][j] == stars[j];
      }
    }
    hide KeyReport, FallbackReport, AmbientReport, IndexUnresolved, CannotResolve, Missing;
  }
}
