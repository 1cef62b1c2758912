/** Which unresolved dependencies a rendering meets: those that throw out of this and of every later fresh rendering. */
module ClosureReports {
  import opened Reachability
  import opened DeclarationGraph
  import opened ClosureSteps

  // ---------- what a whole-file fallback and ambient globals meet ----------

  ghost predicate FallbackOwnReport(p: Program, f: File, g: File) {
    f in p.files && g == f && (IndexUnresolved(p.files[f]) || AnyUnresolved(p.files[f].references))
  }

  ghost function FallbackOwnReports(p: Program): (File, File) -> bool {
    (f, g) => FallbackOwnReport(p, f, g)
  }

  /** The texts of `f` and of all it refers to are collected from files of which `g` has an unresolved dependency. */
  ghost predicate FallbackReport(p: Program, f: File, g: File) {
    Collects(FileEdges(p), FallbackOwnReports(p), f, g)
  }

  ghost predicate AmbientOwnReport(p: Program, f: File, g: File) {
    && f in p.files
    && ((g == f && IndexUnresolved(p.files[f])) || (Failure in p.files[f].sideEffects && FallbackReport(p, f, g)))
  }

  ghost function AmbientOwnReports(p: Program): (File, File) -> bool {
    (f, g) => AmbientOwnReport(p, f, g)
  }

  ghost predicate AmbientReport(p: Program, f: File, g: File) {
    Collects(AmbientEdges(p), AmbientOwnReports(p), f, g)
  }

  // ---------- what a declaration meets ----------

  /** The key a dependency is looked up under, found there or not. */
  predicate Asks(d: Dependency, j: Key) {
    d.Repo? && d.exportedName != "*" && j == Key(d.file, true, d.exportedName)
  }

  ghost predicate StatementVisits(p: Program, f: File, st: Statement, j: Key)
    requires f in p.files
  {
    var ix := p.files[f];
    || (exists d :: d in st.importTypes && Asks(d, j))
    || (exists r :: r in st.refs && if r in ix.declarations then j == Key(f, false, r) else r in ix.imports && Asks(ix.imports[r], j))
  }

  ghost predicate StarVisits(p: Program, k: Key, j: Key)
    requires k.file in p.files
  {
    var stars := p.files[k.file].exportStars;
    exists i :: 0 <= i < |stars| && SkippedAll(p, k, stars[..i]) && stars[i].Repo? && j == StarKey(stars[i], k)
  }

  /** Walking `k` walks `j`, failed lookups included. */
  ghost predicate Visits(p: Program, k: Key, j: Key) {
    && k.file in p.files
    && var ix := p.files[k.file];
       if k.name in ix.declarations then exists st :: st in ix.declarations[k.name] && StatementVisits(p, k.file, st, j)
       else if !k.exported then false
       else if k.name in ix.reexports then
         match ix.reexports[k.name]
         case LocalName(n) => j == Key(k.file, false, n)
         case FromModule(d) => Asks(d, j)
       else StarVisits(p, k, j)
  }

  ghost function VisitEdges(p: Program): (Key, Key) -> bool {
    (k, j) => Visits(p, k, j)
  }

  /** Walking `k` meets an unresolved dependency of `g`, the keys it walks on its way left aside. */
  ghost predicate KeyOwnReport(p: Program, k: Key, g: File) {
    && k.file in p.files
    && (|| (g == k.file && IndexUnresolved(p.files[k.file]))
        || (&& Declared(p, k) && g == k.file
            && exists st :: st in p.files[k.file].declarations[k.name] && AnyUnresolved(st.importTypes))
        || (Declared(p, k) && AmbientReport(p, k.file, g))
        || (exists f :: HasTarget(p, k, ToFallback(f)) && FallbackReport(p, f, g)))
  }

  ghost function KeyOwnReports(p: Program): (Key, File) -> bool {
    (k, g) => KeyOwnReport(p, k, g)
  }

  ghost predicate KeyReport(p: Program, k: Key, g: File) {
    Collects(VisitEdges(p), KeyOwnReports(p), k, g)
  }

  /** Rendering export `name` of `f` meets an unresolved dependency of `g`, whatever was rendered before. */
  ghost predicate Meets(p: Program, f: File, name: string, g: File) {
    var k := Key(f, true, name);
    KeyReport(p, k, g) || (Missing(p, k) && FallbackReport(p, f, g))
  }

  ghost function MetBy(p: Program, f: File, name: string): (met: set<File>)
    ensures met <= p.files.Keys
  {
    set g | g in p.files && Meets(p, f, name, g)
  }

  // ---------- the same, as the walks establish it ----------

  ghost predicate IndexMet(p: Program, f: File, met: set<File>) {
    f in p.files && IndexUnresolved(p.files[f]) ==> f in met
  }

  ghost predicate FallbackOwnMet(p: Program, f: File, met: set<File>) {
    FallbackOwnReport(p, f, f) ==> f in met
  }

  ghost predicate FallbackMet(p: Program, f: File, met: set<File>) {
    forall g :: FallbackReport(p, f, g) ==> g in met
  }

  ghost predicate AmbientMet(p: Program, f: File, met: set<File>) {
    forall g :: AmbientReport(p, f, g) ==> g in met
  }

  ghost predicate SideEffectMet(p: Program, f: File, d: Dependency, walked: set<File>, met: set<File>) {
    (d.Failure? ==> FallbackMet(p, f, met)) && (d.Repo? ==> d.file in walked)
  }

  ghost predicate SideEffectsMet(p: Program, f: File, ds: seq<Dependency>, walked: set<File>, met: set<File>) {
    forall d :: d in ds ==> SideEffectMet(p, f, d, walked, met)
  }

  ghost predicate AmbientFileMet(p: Program, f: File, walked: set<File>, met: set<File>) {
    IndexMet(p, f, met) && (f in p.files ==> SideEffectsMet(p, f, p.files[f].sideEffects, walked, met))
  }

  ghost predicate DependencyMet(p: Program, owner: File, d: Dependency, walked: set<Key>, met: set<File>) {
    && (forall j :: Asks(d, j) ==> j in walked)
    && (forall f :: Resolves(p, owner, d, ToFallback(f)) ==> FallbackMet(p, f, met))
  }

  ghost predicate ImportTypesMet(p: Program, f: File, ds: seq<Dependency>, walked: set<Key>, met: set<File>) {
    forall d :: d in ds ==> DependencyMet(p, f, d, walked, met) && (Unresolved(d) ==> f in met)
  }

  ghost predicate ReferenceMet(p: Program, f: File, r: string, walked: set<Key>, met: set<File>)
    requires f in p.files
  {
    var ix := p.files[f];
    if r in ix.declarations then Key(f, false, r) in walked
    else r in ix.imports ==> DependencyMet(p, f, ix.imports[r], walked, met)
  }

  ghost predicate ReferencesMet(p: Program, f: File, refs: seq<string>, walked: set<Key>, met: set<File>)
    requires f in p.files
  {
    forall r :: r in refs ==> ReferenceMet(p, f, r, walked, met)
  }

  ghost predicate StatementMet(p: Program, f: File, st: Statement, walked: set<Key>, met: set<File>)
    requires f in p.files
  {
    ImportTypesMet(p, f, st.importTypes, walked, met) && ReferencesMet(p, f, st.refs, walked, met)
  }

  ghost predicate StatementsMet(p: Program, f: File, sts: seq<Statement>, walked: set<Key>, met: set<File>)
    requires f in p.files
  {
    forall st :: st in sts ==> StatementMet(p, f, st, walked, met)
  }

  ghost predicate ReexportMet(p: Program, k: Key, walked: set<Key>, met: set<File>)
    requires k.file in p.files && k.name in p.files[k.file].reexports
  {
    match p.files[k.file].reexports[k.name]
    case LocalName(n) => Key(k.file, false, n) in walked && (n !in p.files[k.file].declarations ==> FallbackMet(p, k.file, met))
    case FromModule(d) => DependencyMet(p, k.file, d, walked, met)
  }

  ghost predicate StarMet(p: Program, k: Key, d: Dependency, walked: set<Key>, met: set<File>) {
    (d.Repo? ==> StarKey(d, k) in walked) && (d.Failure? ==> FallbackMet(p, k.file, met))
  }

  ghost predicate StarsMet(p: Program, k: Key, walked: set<Key>, met: set<File>)
    requires k.file in p.files
  {
    var stars := p.files[k.file].exportStars;
    forall i :: 0 <= i < |stars| && SkippedAll(p, k, stars[..i]) ==> StarMet(p, k, stars[i], walked, met)
  }

  /** All that walking `k` walks has been walked, and all it meets itself has been met. */
  ghost predicate KeyMet(p: Program, k: Key, walked: set<Key>, met: set<File>) {
    && IndexMet(p, k.file, met)
    && (k.file in p.files ==>
          var ix := p.files[k.file];
          if k.name in ix.declarations then
            AmbientMet(p, k.file, met) && StatementsMet(p, k.file, ix.declarations[k.name], walked, met)
          else if !k.exported then true
          else if k.name in ix.reexports then ReexportMet(p, k, walked, met)
          else StarsMet(p, k, walked, met))
  }

  // ---------- growing sets ----------

  lemma DependencyMetGrows(p: Program, owner: File, d: Dependency, w: set<Key>, m: set<File>, w': set<Key>, m': set<File>)
    requires DependencyMet(p, owner, d, w, m) && w <= w' && m <= m'
    ensures DependencyMet(p, owner, d, w', m')
  {
  }

  lemma ImportTypesMetGrows(p: Program, f: File, ds: seq<Dependency>, w: set<Key>, m: set<File>, w': set<Key>, m': set<File>)
    requires ImportTypesMet(p, f, ds, w, m) && w <= w' && m <= m'
    ensures ImportTypesMet(p, f, ds, w', m')
  {
    hide DependencyMet, Unresolved;
    forall d | d in ds ensures DependencyMet(p, f, d, w', m') {
      DependencyMetGrows(p, f, d, w, m, w', m');
    }
  }

  lemma ReferencesMetGrows(p: Program, f: File, refs: seq<string>, w: set<Key>, m: set<File>, w': set<Key>, m': set<File>)
    requires f in p.files && ReferencesMet(p, f, refs, w, m) && w <= w' && m <= m'
    ensures ReferencesMet(p, f, refs, w', m')
  {
    hide DependencyMet;
    forall r | r in refs ensures ReferenceMet(p, f, r, w', m') {
      assert ReferenceMet(p, f, r, w, m);
      if r !in p.files[f].declarations && r in p.files[f].imports {
        DependencyMetGrows(p, f, p.files[f].imports[r], w, m, w', m');
      }
    }
  }

  lemma StatementsMetGrows(p: Program, f: File, sts: seq<Statement>, w: set<Key>, m: set<File>, w': set<Key>, m': set<File>)
    requires f in p.files && StatementsMet(p, f, sts, w, m) && w <= w' && m <= m'
    ensures StatementsMet(p, f, sts, w', m')
  {
    hide ImportTypesMet, ReferencesMet;
    forall st | st in sts ensures StatementMet(p, f, st, w', m') {
      assert StatementMet(p, f, st, w, m);
      ImportTypesMetGrows(p, f, st.importTypes, w, m, w', m');
      ReferencesMetGrows(p, f, st.refs, w, m, w', m');
    }
  }

  lemma StarsMetGrows(p: Program, k: Key, w: set<Key>, m: set<File>, w': set<Key>, m': set<File>)
    requires k.file in p.files && StarsMet(p, k, w, m) && w <= w' && m <= m'
    ensures StarsMet(p, k, w', m')
  {
  }

  lemma KeyMetGrows(p: Program, k: Key, w: set<Key>, m: set<File>, w': set<Key>, m': set<File>)
    requires KeyMet(p, k, w, m) && w <= w' && m <= m'
    ensures KeyMet(p, k, w', m')
  {
    hide StatementsMet, StarsMet, DependencyMet, IndexUnresolved;
    if k.file in p.files {
      var ix := p.files[k.file];
      if k.name in ix.declarations {
        StatementsMetGrows(p, k.file, ix.declarations[k.name], w, m, w', m');
      } else if k.exported && k.name in ix.reexports {
        if ix.reexports[k.name].FromModule? {
          DependencyMetGrows(p, k.file, ix.reexports[k.name].dep, w, m, w', m');
        }
      } else if k.exported {
        StarsMetGrows(p, k, w, m, w', m');
      }
    }
  }

  lemma AmbientFileMetGrows(p: Program, f: File, w: set<File>, m: set<File>, w': set<File>, m': set<File>)
    requires AmbientFileMet(p, f, w, m) && w <= w' && m <= m'
    ensures AmbientFileMet(p, f, w', m')
  {
    hide IndexUnresolved;
    if f in p.files {
      forall d | d in p.files[f].sideEffects ensures SideEffectMet(p, f, d, w', m') {
        assert SideEffectMet(p, f, d, w, m);
      }
    }
  }

  // ---------- both forms agree ----------

  lemma DependencyMetIs(p: Program, owner: File, d: Dependency, w: set<Key>, m: set<File>)
    ensures DependencyMet(p, owner, d, w, m)
       <==> (forall j :: Asks(d, j) ==> j in w) && (forall f, g :: Resolves(p, owner, d, ToFallback(f)) && FallbackReport(p, f, g) ==> g in m)
  {
  }

  /** What one statement walks and meets. */
  ghost predicate StatementMeets(p: Program, f: File, st: Statement, w: set<Key>, m: set<File>)
    requires f in p.files
  {
    && (forall j :: StatementVisits(p, f, st, j) ==> j in w)
    && (forall g :: StatementTarget(p, f, st, ToFallback(g)) ==> FallbackMet(p, g, m))
    && (AnyUnresolved(st.importTypes) ==> f in m)
  }

  lemma StatementMetIs(p: Program, f: File, st: Statement, w: set<Key>, m: set<File>)
    requires f in p.files
    ensures StatementMet(p, f, st, w, m) <==> StatementMeets(p, f, st, w, m)
  {
    hide FallbackMet, Unresolved, Missing;
    if StatementMet(p, f, st, w, m) {
      StatementMetMeets(p, f, st, w, m);
    }
    if StatementMeets(p, f, st, w, m) {
      StatementMeetsMet(p, f, st, w, m);
    }
  }

  lemma StatementMetMeets(p: Program, f: File, st: Statement, w: set<Key>, m: set<File>)
    requires f in p.files && StatementMet(p, f, st, w, m)
    ensures StatementMeets(p, f, st, w, m)
  {
    hide FallbackMet, Unresolved, Missing;
    forall j | StatementVisits(p, f, st, j) ensures j in w {
      if d :| d in st.importTypes && Asks(d, j) {
        assert DependencyMet(p, f, d, w, m);
      } else {
        var r :| r in st.refs && if r in p.files[f].declarations then j == Key(f, false, r)
                                 else r in p.files[f].imports && Asks(p.files[f].imports[r], j);
        assert ReferenceMet(p, f, r, w, m);
      }
    }
    forall g | StatementTarget(p, f, st, ToFallback(g)) ensures FallbackMet(p, g, m) {
      if d :| d in st.importTypes && Resolves(p, f, d, ToFallback(g)) {
        assert DependencyMet(p, f, d, w, m);
      } else {
        var r :| r in st.refs && RefersTo(p, f, r, ToFallback(g));
        assert ReferenceMet(p, f, r, w, m);
      }
    }
  }

  lemma StatementMeetsMet(p: Program, f: File, st: Statement, w: set<Key>, m: set<File>)
    requires f in p.files && StatementMeets(p, f, st, w, m)
    ensures StatementMet(p, f, st, w, m)
  {
    hide FallbackMet, Unresolved, Missing;
    forall d | d in st.importTypes ensures DependencyMet(p, f, d, w, m) && (Unresolved(d) ==> f in m) {
      forall j | Asks(d, j) ensures j in w {
        assert StatementVisits(p, f, st, j);
      }
      forall g | Resolves(p, f, d, ToFallback(g)) ensures FallbackMet(p, g, m) {
        assert StatementTarget(p, f, st, ToFallback(g));
      }
    }
    forall r | r in st.refs ensures ReferenceMet(p, f, r, w, m) {
      var ix := p.files[f];
      if r in ix.declarations {
        assert StatementVisits(p, f, st, Key(f, false, r));
      } else if r in ix.imports {
        forall j | Asks(ix.imports[r], j) ensures j in w {
          assert StatementVisits(p, f, st, j);
        }
        forall g | Resolves(p, f, ix.imports[r], ToFallback(g)) ensures FallbackMet(p, g, m) {
          assert RefersTo(p, f, r, ToFallback(g));
          assert StatementTarget(p, f, st, ToFallback(g));
        }
      }
    }
  }

  ghost predicate StarsMeet(p: Program, k: Key, w: set<Key>, m: set<File>)
    requires k.file in p.files
  {
    && (forall j :: StarVisits(p, k, j) ==> j in w)
    && (forall g :: StarTarget(p, k, ToFallback(g)) ==> FallbackMet(p, g, m))
  }

  lemma StarsMetIs(p: Program, k: Key, w: set<Key>, m: set<File>)
    requires k.file in p.files
    ensures StarsMet(p, k, w, m) <==> StarsMeet(p, k, w, m)
  {
    hide FallbackMet, Missing;
    var stars := p.files[k.file].exportStars;
    if StarsMet(p, k, w, m) {
      forall g | StarTarget(p, k, ToFallback(g)) ensures FallbackMet(p, g, m) {
        var i :| 0 <= i < |stars| && (forall j :: 0 <= j < i ==> Skipped(p, k, stars[j])) && !Skipped(p, k, stars[i])
          && ToFallback(g) == if stars[i].Repo? then ToKey(StarKey(stars[i], k)) else ToFallback(k.file);
        assert SkippedAll(p, k, stars[..i]);
        assert StarMet(p, k, stars[i], w, m);
      }
    }
    if StarsMeet(p, k, w, m) {
      forall i | 0 <= i < |stars| && SkippedAll(p, k, stars[..i]) ensures StarMet(p, k, stars[i], w, m) {
        if stars[i].Repo? {
          assert StarVisits(p, k, StarKey(stars[i], k));
        } else if stars[i].Failure? {
          forall j | 0 <= j < i ensures Skipped(p, k, stars[j]) {
            assert stars[j] in stars[..i];
          }
          assert StarTarget(p, k, ToFallback(k.file));
        }
      }
    }
  }

  ghost predicate KeyMeets(p: Program, k: Key, w: set<Key>, m: set<File>) {
    (forall j :: Visits(p, k, j) ==> j in w) && (forall g :: KeyOwnReport(p, k, g) ==> g in m)
  }

  lemma KeyMetMeets(p: Program, k: Key, w: set<Key>, m: set<File>)
    requires KeyMet(p, k, w, m)
    ensures KeyMeets(p, k, w, m)
  {
    hide StatementMet, StarsMet, StatementVisits, StatementTarget, StarVisits, StarTarget, FallbackReport, AmbientReport, Missing, IndexUnresolved, AnyUnresolved;
    if k.file in p.files {
      var ix := p.files[k.file];
      if k.name in ix.declarations {
        forall st | st in ix.declarations[k.name] ensures StatementMeets(p, k.file, st, w, m) {
          StatementMetIs(p, k.file, st, w, m);
        }
      } else if k.exported && k.name !in ix.reexports {
        StarsMetIs(p, k, w, m);
      }
      forall f | HasTarget(p, k, ToFallback(f)) ensures FallbackMet(p, f, m) {
      }
    }
  }

  lemma KeyMeetsMet(p: Program, k: Key, w: set<Key>, m: set<File>)
    requires KeyMeets(p, k, w, m)
    ensures KeyMet(p, k, w, m)
  {
    hide StatementMet, StarsMet, StatementVisits, StatementTarget, StarVisits, StarTarget, FallbackReport, AmbientReport, Missing, IndexUnresolved, AnyUnresolved;
    if k.file in p.files {
      var ix := p.files[k.file];
      forall f | HasTarget(p, k, ToFallback(f)) ensures FallbackMet(p, f, m) {
        assert forall g :: FallbackReport(p, f, g) ==> KeyOwnReport(p, k, g);
      }
      if k.name in ix.declarations {
        assert forall g :: AmbientReport(p, k.file, g) ==> KeyOwnReport(p, k, g);
        forall st | st in ix.declarations[k.name] ensures StatementMet(p, k.file, st, w, m) {
          assert forall j :: StatementVisits(p, k.file, st, j) ==> Visits(p, k, j);
          assert forall f :: StatementTarget(p, k.file, st, ToFallback(f)) ==> HasTarget(p, k, ToFallback(f));
          assert AnyUnresolved(st.importTypes) ==> KeyOwnReport(p, k, k.file);
          StatementMetIs(p, k.file, st, w, m);
        }
      } else if k.exported && k.name in ix.reexports {
        match ix.reexports[k.name]
        case LocalName(n) => assert Visits(p, k, Key(k.file, false, n));
        case FromModule(d) =>
          assert forall j :: Asks(d, j) ==> Visits(p, k, j);
          assert forall f :: Resolves(p, k.file, d, ToFallback(f)) ==> HasTarget(p, k, ToFallback(f));
      } else if k.exported {
        assert forall j :: StarVisits(p, k, j) ==> Visits(p, k, j);
        assert forall f :: StarTarget(p, k, ToFallback(f)) ==> HasTarget(p, k, ToFallback(f));
        StarsMetIs(p, k, w, m);
      }
    }
  }

  // ---------- closed sets ----------

  /** When all that is walked has been walked through, every report of a walked key has been made. */
  lemma ClosedMet(p: Program, k: Key, w: set<Key>, m: set<File>)
    requires k in w && forall j :: j in w ==> KeyMet(p, j, w, m)
    ensures forall g :: KeyReport(p, k, g) ==> g in m
  {
    hide KeyMet, Visits, KeyOwnReport;
    forall j | j in w ensures KeyMeets(p, j, w, m) {
      KeyMetMeets(p, j, w, m);
    }
    forall g | KeyReport(p, k, g) ensures g in m {
      var q, b :| Links(VisitEdges(p), q, k, b) && KeyOwnReports(p)(b, g);
      ClosedHolds(VisitEdges(p), q, k, b, w);
    }
  }

  lemma ClosedAmbient(p: Program, f: File, w: set<File>, m: set<File>)
    requires f in w && forall g :: g in w ==> AmbientFileMet(p, g, w, m)
    ensures AmbientMet(p, f, m)
  {
    hide FallbackReport, IndexUnresolved;
    forall g, h | g in w && AmbientEdges(p)(g, h) ensures h in w {
      var d :| d in p.files[g].sideEffects && d.Repo? && d.file == h;
      assert SideEffectMet(p, g, d, w, m);
    }
    forall g, h | g in w && AmbientOwnReports(p)(g, h) ensures h in m {
      assert AmbientFileMet(p, g, w, m);
      if Failure in p.files[g].sideEffects {
        assert SideEffectMet(p, g, Failure, w, m);
      }
    }
    forall h | AmbientReport(p, f, h) ensures h in m {
      var q, b :| Links(AmbientEdges(p), q, f, b) && AmbientOwnReports(p)(b, h);
      ClosedHolds(AmbientEdges(p), q, f, b, w);
    }
  }

  lemma ClosedFallback(p: Program, f: File, w: set<File>, m: set<File>)
    requires f in w && forall g, h :: g in w && FileEdge(p, g, h) ==> h in w
    requires forall g :: g in w ==> FallbackOwnMet(p, g, m)
    ensures FallbackMet(p, f, m)
  {
    hide FileEdge, IndexUnresolved;
    forall h | FallbackReport(p, f, h) ensures h in m {
      var q, b :| Links(FileEdges(p), q, f, b) && FallbackOwnReports(p)(b, h);
      ClosedHolds(FileEdges(p), q, f, b, w);
    }
  }

  // ---------- one step further ----------

  lemma FallbackOwn(p: Program, f: File, m: set<File>)
    requires FallbackMet(p, f, m)
    ensures FallbackOwnMet(p, f, m)
  {
    if FallbackOwnReport(p, f, f) {
      CollectsOwn(FileEdges(p), FallbackOwnReports(p), f, f);
    }
  }

  lemma FallbackStep(p: Program, f: File, g: File, m: set<File>)
    requires FallbackMet(p, f, m) && FileEdge(p, f, g)
    ensures FallbackMet(p, g, m)
  {
    assert FileEdges(p)(f, g);
    forall h | FallbackReport(p, g, h) ensures h in m {
      CollectsStep(FileEdges(p), FallbackOwnReports(p), f, g, h);
    }
  }

  lemma AmbientOwnMet(p: Program, f: File, m: set<File>)
    requires AmbientMet(p, f, m) && f in p.files
    ensures IndexMet(p, f, m) && (Failure in p.files[f].sideEffects ==> FallbackMet(p, f, m))
  {
    forall g | AmbientOwnReports(p)(f, g) ensures g in m {
      CollectsOwn(AmbientEdges(p), AmbientOwnReports(p), f, g);
    }
    assert IndexUnresolved(p.files[f]) ==> AmbientOwnReports(p)(f, f);
    assert forall g :: Failure in p.files[f].sideEffects && FallbackReport(p, f, g) ==> AmbientOwnReports(p)(f, g);
  }

  lemma AmbientStepMet(p: Program, f: File, g: File, m: set<File>)
    requires AmbientMet(p, f, m) && AmbientEdge(p, f, g)
    ensures AmbientMet(p, g, m)
  {
    assert AmbientEdges(p)(f, g);
    forall h | AmbientReport(p, g, h) ensures h in m {
      CollectsStep(AmbientEdges(p), AmbientOwnReports(p), f, g, h);
    }
  }

  // ---------- the keys a walk can meet ----------

  lemma AskedIsKnown(p: Program, names: set<string>, d: Dependency, j: Key)
    requires Reachable(p, names, d) && Asks(d, j)
    ensures j in Keys(p, names)
  {
  }

  lemma StarIsKnown(p: Program, names: set<string>, k: Key, j: Key)
    requires p.Valid() && k.file in p.files && k.name in names && StarVisits(p, k, j)
    ensures j in Keys(p, names)
  {
    hide p.KnowsIndex, SkippedAll;
    var stars := p.files[k.file].exportStars;
    var i :| 0 <= i < |stars| && SkippedAll(p, k, stars[..i]) && stars[i].Repo? && j == StarKey(stars[i], k);
    KnownStar(p, k.file, stars[i]);
    assert j == Key(stars[i].file, true, k.name);
  }

  lemma StatementIsKnown(p: Program, names: set<string>, f: File, n: string, st: Statement, j: Key)
    requires p.Valid() && CoversNames(p, names) && f in p.files && n in p.files[f].declarations
    requires st in p.files[f].declarations[n] && StatementVisits(p, f, st, j)
    ensures j in Keys(p, names)
  {
    hide p.KnowsIndex;
    var ix := p.files[f];
    if d :| d in st.importTypes && Asks(d, j) {
      KnownImportType(p, names, f, n, st, d);
      AskedIsKnown(p, names, d, j);
    } else {
      var r :| r in st.refs && if r in ix.declarations then j == Key(f, false, r) else r in ix.imports && Asks(ix.imports[r], j);
      if r in ix.declarations {
        assert Mentions(ix, r);
      } else {
        KnownImport(p, names, f, r);
        AskedIsKnown(p, names, ix.imports[r], j);
      }
    }
  }

  lemma VisitsKnown(p: Program, names: set<string>, k: Key, j: Key)
    requires p.Valid() && CoversNames(p, names) && k in Keys(p, names) && Visits(p, k, j)
    ensures j in Keys(p, names)
  {
    var ix := p.files[k.file];
    assert k.name in names;
    hide p.Valid, CoversNames, StatementVisits, StarVisits;
    if k.name in ix.declarations {
      var st :| st in ix.declarations[k.name] && StatementVisits(p, k.file, st, j);
      StatementIsKnown(p, names, k.file, k.name, st, j);
    } else if k.name in ix.reexports {
      KnownReexport(p, names, k.file, k.name);
      if ix.reexports[k.name].FromModule? {
        AskedIsKnown(p, names, ix.reexports[k.name].dep, j);
      }
    } else {
      StarIsKnown(p, names, k, j);
    }
  }

  /** The keys a walk from `root` walks and the files it meets bound every walk on the way. */
  lemma ScopeMet(p: Program, names: set<string>, root: Key, w: set<Key>, m: set<File>)
    requires p.Valid() && CoversNames(p, names)
    requires forall k :: k in w <==> k in Keys(p, names) && Reaches(VisitEdges(p), root, k)
    requires forall g :: KeyReport(p, root, g) ==> g in m
    ensures forall k :: k in w ==> KeyMet(p, k, w, m)
  {
    hide Visits, KeyOwnReport, KeyMet, Keys, CoversNames, p.Valid;
    forall k | k in w ensures KeyMet(p, k, w, m) {
      forall j | Visits(p, k, j) ensures j in w {
        VisitsKnown(p, names, k, j);
        assert VisitEdges(p)(k, j);
        ReachesEdge(VisitEdges(p), root, k, j);
      }
      forall g | KeyOwnReport(p, k, g) ensures g in m {
        var q :| Links(VisitEdges(p), q, root, k);
        assert KeyOwnReports(p)(k, g);
      }
      KeyMeetsMet(p, k, w, m);
    }
  }

  lemma RootInScope(p: Program, root: Key)
    ensures Reaches(VisitEdges(p), root, root)
  {
    ReachesRefl(VisitEdges(p), root);
  }

  // ---------- a met dependency is real ----------

  lemma FallbackReportIsReal(p: Program, f: File, g: File)
    requires FallbackReport(p, f, g)
    ensures g in p.files && FileUnresolved(p.files[g])
  {
  }

  lemma KeyReportIsReal(p: Program, k: Key, g: File)
    requires KeyReport(p, k, g)
    ensures g in p.files && FileUnresolved(p.files[g])
  {
    hide IndexUnresolved, HasTarget, FallbackReport;
    var q, b :| Links(VisitEdges(p), q, k, b) && KeyOwnReports(p)(b, g);
    if f :| HasTarget(p, b, ToFallback(f)) && FallbackReport(p, f, g) {
      FallbackReportIsReal(p, f, g);
    } else if AmbientReport(p, b.file, g) {
      var r, c :| Links(AmbientEdges(p), r, b.file, c) && AmbientOwnReports(p)(c, g);
      if Failure in p.files[c].sideEffects && FallbackReport(p, c, g) {
        FallbackReportIsReal(p, c, g);
      }
    }
  }

  /** Only files that have an unresolved dependency are met. */
  lemma MetIsReal(p: Program, f: File, name: string, g: File)
    requires Meets(p, f, name, g)
    ensures g in MetBy(p, f, name) && FileUnresolved(p.files[g])
  {
    if KeyReport(p, Key(f, true, name), g) {
      KeyReportIsReal(p, Key(f, true, name), g);
    } else {
      FallbackReportIsReal(p, f, g);
    }
  }

  // ---------- along a whole-file fallback ----------

  ghost predicate ExploredMet(p: Program, before: set<File>, after: set<File>, met: set<File>) {
    forall g :: g in after && g !in before ==> FallbackOwnMet(p, g, met)
  }

  lemma NothingMet(p: Program)
    ensures forall s: set<File>, m: set<File> :: ExploredMet(p, s, s, m)
  {
  }

  lemma FallbackLimits(p: Program, f: File, m: set<File>)
    requires FallbackMet(p, f, m) && f in p.files
    ensures IndexMet(p, f, m) && (AnyUnresolved(p.files[f].references) ==> f in m)
  {
    FallbackOwn(p, f, m);
  }

  lemma ReferenceLimit(p: Program, f: File, d: Dependency, m: set<File>)
    requires f in p.files && d in p.files[f].references && (AnyUnresolved(p.files[f].references) ==> f in m)
    ensures Unresolved(d) ==> f in m
  {
  }

  /** The first `i` references are noted once the last of them is. */
  lemma ReferencesNoted(ix: FileIndex, f: File, i: nat, met: set<File>)
    requires i <= |ix.references|
    requires i > 0 ==> (AnyUnresolved(ix.references[..i - 1]) ==> f in met) && (Unresolved(ix.references[i - 1]) ==> f in met)
    ensures AnyUnresolved(ix.references[..i]) ==> f in met
  {
    if i > 0 {
      assert ix.references[..i] == ix.references[..i - 1] + [ix.references[i - 1]];
    }
  }

  lemma ExploredMetGrows(p: Program, before: set<File>, after: set<File>, m: set<File>, m': set<File>)
    requires ExploredMet(p, before, after, m) && m <= m'
    ensures ExploredMet(p, before, after, m')
  {
  }

  lemma IndexMetGrows(p: Program, f: File, m: set<File>, m': set<File>)
    requires IndexMet(p, f, m) && m <= m'
    ensures IndexMet(p, f, m')
  {
  }

  lemma ExploredMetStep(p: Program, before: set<File>, mid: set<File>, after: set<File>, m: set<File>, m': set<File>)
    requires ExploredMet(p, before, mid, m) && ExploredMet(p, mid, after, m') && m <= m'
    ensures ExploredMet(p, before, after, m')
  {
    hide FallbackOwnReport;
    forall g | g in after && g !in before ensures FallbackOwnMet(p, g, m') {
      if g in mid {
        assert FallbackOwnMet(p, g, m);
      }
    }
  }

  lemma ExploredMetRoot(p: Program, f: File, before: set<File>, after: set<File>, m: set<File>)
    requires f in p.files && ExploredMet(p, before + {f}, after, m)
    requires IndexMet(p, f, m) && (AnyUnresolved(p.files[f].references) ==> f in m)
    ensures ExploredMet(p, before, after, m)
  {
    hide IndexUnresolved, AnyUnresolved;
    forall g | g in after && g !in before ensures FallbackOwnMet(p, g, m) {
      if g != f {
        assert g !in before + {f};
      }
    }
  }

  // ---------- along the other walks ----------

  lemma AmbientMetGrows(p: Program, f: File, m: set<File>, m': set<File>)
    requires AmbientMet(p, f, m) && m <= m'
    ensures AmbientMet(p, f, m')
  {
  }

  lemma SideEffectsMetNext(p: Program, f: File, ds: seq<Dependency>, i: nat, w: set<File>, m: set<File>, w': set<File>, m': set<File>)
    requires i < |ds| && SideEffectsMet(p, f, ds[..i], w, m) && w <= w' && m <= m'
    requires SideEffectMet(p, f, ds[i], w', m')
    ensures SideEffectsMet(p, f, ds[..i + 1], w', m')
  {
    assert ds[..i + 1] == ds[..i] + [ds[i]];
    forall d | d in ds[..i + 1] ensures SideEffectMet(p, f, d, w', m') {
      if d in ds[..i] {
        assert SideEffectMet(p, f, d, w, m);
      }
    }
  }

  lemma AmbientFileMetOf(p: Program, f: File, w: set<File>, m: set<File>)
    requires f in p.files && IndexMet(p, f, m) && SideEffectsMet(p, f, p.files[f].sideEffects, w, m)
    ensures AmbientFileMet(p, f, w, m)
  {
  }

  lemma SideEffectIsEdge(p: Program, f: File, d: Dependency)
    requires p.Valid() && f in p.files && d in p.files[f].sideEffects && d.Repo?
    ensures AmbientEdge(p, f, d.file)
  {
    KnownReference(p, p.files[f], d);
  }

  /** What a dependency walks and meets, by its kind. */
  lemma DependencyMetIff(p: Program, owner: File, d: Dependency, w: set<Key>, m: set<File>)
    ensures DependencyMet(p, owner, d, w, m) <==> match d
      case External(_) => true
      case Failure => FallbackMet(p, owner, m)
      case Repo(f, n) =>
        if n == "*" then FallbackMet(p, f, m)
        else Key(f, true, n) in w && (Missing(p, Key(f, true, n)) ==> FallbackMet(p, f, m))
  {
    hide FallbackMet, Missing;
    match d
    case External(_) =>
    case Failure => assert Resolves(p, owner, d, ToFallback(owner));
    case Repo(f, n) =>
      if n == "*" || Missing(p, Key(f, true, n)) {
        assert Resolves(p, owner, d, ToFallback(f));
      }
      if n != "*" {
        assert Asks(d, Key(f, true, n));
      }
  }

  lemma ImportTypeMet(p: Program, f: File, ds: seq<Dependency>, d: Dependency, w: set<Key>, m: set<File>)
    requires ImportTypesMet(p, f, ds, w, m) && d in ds
    ensures DependencyMet(p, f, d, w, m) && (Unresolved(d) ==> f in m)
  {
  }

  lemma ImportTypesMetNext(p: Program, f: File, ds: seq<Dependency>, i: nat, w: set<Key>, m: set<File>, w': set<Key>, m': set<File>)
    requires i < |ds| && ImportTypesMet(p, f, ds[..i], w, m) && w <= w' && m <= m'
    requires DependencyMet(p, f, ds[i], w', m') && (Unresolved(ds[i]) ==> f in m')
    ensures ImportTypesMet(p, f, ds[..i + 1], w', m')
  {
    hide DependencyMet;
    ImportTypesMetGrows(p, f, ds[..i], w, m, w', m');
    assert ds[..i + 1] == ds[..i] + [ds[i]];
  }

  lemma ReferencesMetNext(p: Program, f: File, refs: seq<string>, i: nat, w: set<Key>, m: set<File>, w': set<Key>, m': set<File>)
    requires f in p.files && i < |refs| && ReferencesMet(p, f, refs[..i], w, m) && w <= w' && m <= m'
    requires ReferenceMet(p, f, refs[i], w', m')
    ensures ReferencesMet(p, f, refs[..i + 1], w', m')
  {
    hide ReferenceMet;
    ReferencesMetGrows(p, f, refs[..i], w, m, w', m');
    assert refs[..i + 1] == refs[..i] + [refs[i]];
  }

  lemma StatementsMetNext(p: Program, f: File, sts: seq<Statement>, i: nat, w: set<Key>, m: set<File>, w': set<Key>, m': set<File>)
    requires f in p.files && i < |sts| && StatementsMet(p, f, sts[..i], w, m) && w <= w' && m <= m'
    requires StatementMet(p, f, sts[i], w', m')
    ensures StatementsMet(p, f, sts[..i + 1], w', m')
  {
    hide StatementMet;
    StatementsMetGrows(p, f, sts[..i], w, m, w', m');
    assert sts[..i + 1] == sts[..i] + [sts[i]];
  }

  /** Which of the four parts a key's walk has. */
  lemma KeyMetIff(p: Program, k: Key, w: set<Key>, m: set<File>)
    requires k.file in p.files
    ensures KeyMet(p, k, w, m) <==>
      && IndexMet(p, k.file, m)
      && (Declared(p, k) ==>
            AmbientMet(p, k.file, m) && StatementsMet(p, k.file, p.files[k.file].declarations[k.name], w, m))
      && (!Declared(p, k) && Reexported(p, k) ==> ReexportMet(p, k, w, m))
      && (!Declared(p, k) && !Reexported(p, k) && k.exported ==> StarsMet(p, k, w, m))
  {
  }

  ghost predicate StarListMet(p: Program, k: Key, ds: seq<Dependency>, w: set<Key>, m: set<File>) {
    forall d :: d in ds ==> StarMet(p, k, d, w, m)
  }

  lemma StarListMetNext(p: Program, k: Key, ds: seq<Dependency>, i: nat, w: set<Key>, m: set<File>, w': set<Key>, m': set<File>)
    requires i < |ds| && StarListMet(p, k, ds[..i], w, m) && w <= w' && m <= m'
    requires StarMet(p, k, ds[i], w', m')
    ensures StarListMet(p, k, ds[..i + 1], w', m')
  {
    assert ds[..i + 1] == ds[..i] + [ds[i]];
    forall d | d in ds[..i + 1] ensures StarMet(p, k, d, w', m') {
      if d in ds[..i] {
        assert StarMet(p, k, d, w, m);
      }
    }
  }

  lemma SkippedEarlier(p: Program, k: Key, stars: seq<Dependency>, i: nat)
    requires i <= |stars| && SkippedAll(p, k, stars[..i])
    ensures forall j :: 0 <= j < i ==> Skipped(p, k, stars[j])
  {
    forall j | 0 <= j < i ensures Skipped(p, k, stars[j]) {
      assert stars[..i][j] == stars[j];
    }
  }

  /** The ordered search has met all it can once it stops at an entry it does not pass over, or at the end. */
  lemma StarsMetOf(p: Program, k: Key, n: nat, w: set<Key>, m: set<File>)
    requires k.file in p.files && n <= |p.files[k.file].exportStars|
    requires StarListMet(p, k, p.files[k.file].exportStars[..n], w, m)
    requires n == |p.files[k.file].exportStars| || (n > 0 && !Skipped(p, k, p.files[k.file].exportStars[n - 1]))
    ensures StarsMet(p, k, w, m)
  {
    hide StarMet, Skipped;
    var stars := p.files[k.file].exportStars;
    forall i | 0 <= i < |stars| && SkippedAll(p, k, stars[..i]) ensures StarMet(p, k, stars[i], w, m) {
      SkippedEarlier(p, k, stars, i);
      assert i < n;
      assert stars[..n][i] == stars[i];
    }
  }

  lemma StarLimit(p: Program, k: Key, i: nat, w: set<Key>, m: set<File>)
    requires k.file in p.files && i < |p.files[k.file].exportStars| && StarsMet(p, k, w, m)
    requires SkippedAll(p, k, p.files[k.file].exportStars[..i])
    ensures StarMet(p, k, p.files[k.file].exportStars[i], w, m)
  {
  }

  lemma NoSideEffectsMet(p: Program, f: File, w: set<File>, m: set<File>)
    ensures SideEffectsMet(p, f, [], w, m)
  {
  }

  lemma NoImportTypesMet(p: Program, f: File, w: set<Key>, m: set<File>)
    ensures ImportTypesMet(p, f, [], w, m)
  {
  }

  lemma NoReferencesMet(p: Program, f: File, w: set<Key>, m: set<File>)
    requires f in p.files
    ensures ReferencesMet(p, f, [], w, m)
  {
  }

  lemma NoStatementsMet(p: Program, f: File, w: set<Key>, m: set<File>)
    requires f in p.files
    ensures StatementsMet(p, f, [], w, m)
  {
  }

  lemma NoStarsMet(p: Program, k: Key, w: set<Key>, m: set<File>)
    ensures StarListMet(p, k, [], w, m)
  {
  }

  lemma OneReferenceMet(p: Program, f: File, refs: seq<string>, r: string, w: set<Key>, m: set<File>)
    requires f in p.files && ReferencesMet(p, f, refs, w, m) && r in refs
    ensures ReferenceMet(p, f, r, w, m)
  {
  }

  lemma OneStatementMet(p: Program, f: File, sts: seq<Statement>, st: Statement, w: set<Key>, m: set<File>)
    requires f in p.files && StatementsMet(p, f, sts, w, m) && st in sts
    ensures ImportTypesMet(p, f, st.importTypes, w, m) && ReferencesMet(p, f, st.refs, w, m)
  {
  }
}
