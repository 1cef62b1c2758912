/** The declaration graph that the API baseline renders, and what a rendered closure must contain. */
module DeclarationGraph {
  import opened Reachability

  type File = string

  datatype Key = Key(file: File, exported: bool, name: string)

  datatype Section = Section(name: string, text: string)

  /** A resolved module specifier. `unresolved` marks the external specifiers that are also reported
      as unresolved; a failure always is. */
  datatype Dependency =
    | External(unresolved: bool)
    | Failure
    | Repo(file: File, exportedName: string)

  datatype Reexport = LocalName(name: string) | FromModule(dep: Dependency)

  datatype Statement = Statement(text: string, importTypes: seq<Dependency>, refs: seq<string>)

  datatype FileIndex = FileIndex(
    text: string,
    references: seq<Dependency>,
    declarations: map<string, seq<Statement>>,
    globals: seq<string>,
    sideEffects: seq<Dependency>,
    imports: map<string, Dependency>,
    reexports: map<string, Reexport>,
    exportStars: seq<Dependency>)

  datatype Program = Program(files: map<File, FileIndex>) {

    ghost predicate Knows(d: Dependency) {
      d.Repo? ==> d.file in files
    }

    ghost predicate KnowsAll(ds: seq<Dependency>) {
      forall d :: d in ds ==> Knows(d)
    }

    ghost predicate KnowsIndex(ix: FileIndex) {
      && KnowsAll(ix.references)
      && KnowsAll(ix.sideEffects)
      && KnowsAll(ix.exportStars)
      && (forall n :: n in ix.imports ==> Knows(ix.imports[n]))
      && (forall n :: n in ix.reexports && ix.reexports[n].FromModule? ==> Knows(ix.reexports[n].dep))
      && (forall n, st :: n in ix.declarations && st in ix.declarations[n] ==> KnowsAll(st.importTypes))
    }

    /** Every dependency that resolves to a repository file resolves to a file of the program. */
    ghost predicate Valid() {
      forall f :: f in files ==> KnowsIndex(files[f])
    }
  }

  // ---------- the whole-file fallback ----------

  ghost predicate FileEdge(p: Program, f: File, g: File) {
    f in p.files && g in p.files && exists d :: d in p.files[f].references && d.Repo? && d.file == g
  }

  ghost function FileEdges(p: Program): (File, File) -> bool {
    (f, g) => FileEdge(p, f, g)
  }

  ghost predicate FileText(p: Program, f: File, s: Section) {
    f in p.files && s == Section("*", p.files[f].text)
  }

  ghost function FileTexts(p: Program): (File, Section) -> bool {
    (f, s) => FileText(p, f, s)
  }

  /** `s` is the full text of `f` or of a file it leads to through module references. */
  ghost predicate InFallback(p: Program, f: File, s: Section) {
    Collects(FileEdges(p), FileTexts(p), f, s)
  }

  // ---------- ambient globals ----------

  ghost predicate AmbientEdge(p: Program, f: File, g: File) {
    f in p.files && g in p.files && exists d :: d in p.files[f].sideEffects && d.Repo? && d.file == g
  }

  ghost function AmbientEdges(p: Program): (File, File) -> bool {
    (f, g) => AmbientEdge(p, f, g)
  }

  ghost predicate AmbientOwn(p: Program, f: File, s: Section) {
    && f in p.files
    && ((exists t :: t in p.files[f].globals && s == Section("global", t))
        || (Failure in p.files[f].sideEffects && InFallback(p, f, s)))
  }

  ghost function AmbientOwns(p: Program): (File, Section) -> bool {
    (f, s) => AmbientOwn(p, f, s)
  }

  ghost predicate InAmbient(p: Program, f: File, s: Section) {
    Collects(AmbientEdges(p), AmbientOwns(p), f, s)
  }

  // ---------- names that no declaration provides ----------

  predicate Declared(p: Program, k: Key) {
    k.file in p.files && k.name in p.files[k.file].declarations
  }

  predicate Reexported(p: Program, k: Key) {
    k.file in p.files && k.exported && k.name in p.files[k.file].reexports
  }

  function StarKey(d: Dependency, k: Key): Key
    requires d.Repo?
  {
    Key(d.file, true, k.name)
  }

  /** The search for `k` fails within `depth` levels of `export *`. */
  ghost predicate MissingWithin(p: Program, k: Key, depth: nat)
    decreases depth
  {
    && !Declared(p, k)
    && !Reexported(p, k)
    && (k.exported && k.file in p.files ==>
          forall d :: d in p.files[k.file].exportStars ==>
            && d != Failure
            && (d.Repo? ==> depth > 0 && MissingWithin(p, StarKey(d, k), depth - 1)))
  }

  ghost predicate Missing(p: Program, k: Key) {
    exists depth: nat :: MissingWithin(p, k, depth)
  }

  ghost function Least(p: Program, k: Key, depth: nat): (r: nat)
    requires MissingWithin(p, k, depth)
    ensures r <= depth && MissingWithin(p, k, r)
    ensures forall e: nat :: e < r ==> !MissingWithin(p, k, e)
    decreases depth
  {
    if e: nat :| e < depth && MissingWithin(p, k, e) then Least(p, k, e) else depth
  }

  ghost function Rank(p: Program, k: Key): (r: nat)
    requires Missing(p, k)
    ensures MissingWithin(p, k, r)
    ensures forall e: nat :: e < r ==> !MissingWithin(p, k, e)
  {
    var depth: nat :| MissingWithin(p, k, depth);
    Least(p, k, depth)
  }

  /** The star entries of a missing name are missing too, and closer to the end of the search. */
  lemma MissingStar(p: Program, k: Key, d: Dependency)
    requires Missing(p, k) && k.exported && k.file in p.files
    requires d in p.files[k.file].exportStars && d.Repo?
    ensures Missing(p, StarKey(d, k)) && Rank(p, StarKey(d, k)) < Rank(p, k)
  {
    var r := Rank(p, k);
    assert MissingWithin(p, StarKey(d, k), r - 1);
  }

  // ---------- the closure of a declaration ----------

  datatype Target = ToKey(key: Key) | ToFallback(file: File)

  ghost predicate Resolves(p: Program, owner: File, d: Dependency, t: Target) {
    match d
    case External(_) => false
    case Failure => t == ToFallback(owner)
    case Repo(f, n) =>
      if n == "*" || Missing(p, Key(f, true, n)) then t == ToFallback(f)
      else t == ToKey(Key(f, true, n))
  }

  ghost predicate RefersTo(p: Program, f: File, r: string, t: Target)
    requires f in p.files
  {
    var ix := p.files[f];
    if r in ix.declarations then t == ToKey(Key(f, false, r))
    else r in ix.imports && Resolves(p, f, ix.imports[r], t)
  }

  ghost predicate StatementTarget(p: Program, f: File, st: Statement, t: Target)
    requires f in p.files
  {
    || (exists d :: d in st.importTypes && Resolves(p, f, d, t))
    || (exists r :: r in st.refs && RefersTo(p, f, r, t))
  }

  /** A star entry that the ordered search passes over. */
  ghost predicate Skipped(p: Program, k: Key, d: Dependency) {
    d.External? || (d.Repo? && Missing(p, StarKey(d, k)))
  }

  ghost predicate StarTarget(p: Program, k: Key, t: Target)
    requires k.file in p.files
  {
    var stars := p.files[k.file].exportStars;
    exists i :: 0 <= i < |stars|
      && (forall j :: 0 <= j < i ==> Skipped(p, k, stars[j]))
      && !Skipped(p, k, stars[i])
      && t == if stars[i].Repo? then ToKey(StarKey(stars[i], k)) else ToFallback(k.file)
  }

  ghost predicate HasTarget(p: Program, k: Key, t: Target) {
    && k.file in p.files
    && var ix := p.files[k.file];
       if k.name in ix.declarations then
         exists st :: st in ix.declarations[k.name] && StatementTarget(p, k.file, st, t)
       else if !k.exported then false
       else if k.name in ix.reexports then
         match ix.reexports[k.name]
         case LocalName(n) =>
           t == if n in ix.declarations then ToKey(Key(k.file, false, n)) else ToFallback(k.file)
         case FromModule(d) => Resolves(p, k.file, d, t)
       else StarTarget(p, k, t)
  }

  ghost predicate KeyEdge(p: Program, k: Key, j: Key) {
    HasTarget(p, k, ToKey(j))
  }

  ghost function KeyEdges(p: Program): (Key, Key) -> bool {
    (k, j) => KeyEdge(p, k, j)
  }

  ghost predicate KeyText(p: Program, k: Key, s: Section) {
    && Declared(p, k)
    && exists st :: st in p.files[k.file].declarations[k.name] && s == Section(k.name, st.text)
  }

  ghost predicate KeyOwn(p: Program, k: Key, s: Section) {
    || KeyText(p, k, s)
    || (Declared(p, k) && InAmbient(p, k.file, s))
    || (exists f :: HasTarget(p, k, ToFallback(f)) && InFallback(p, f, s))
  }

  ghost function KeyOwns(p: Program): (Key, Section) -> bool {
    (k, s) => KeyOwn(p, k, s)
  }

  /** `s` belongs to `k` or to something `k` depends on, however long the chain. */
  ghost predicate InClosure(p: Program, k: Key, s: Section) {
    Collects(KeyEdges(p), KeyOwns(p), k, s)
  }

  /** `s` belongs to `k` or to something it reaches without touching `active`. */
  ghost predicate InClosureOff(p: Program, active: set<Key>, k: Key, s: Section) {
    CollectsAvoiding(KeyEdges(p), KeyOwns(p), active, k, s)
  }

  /** What rendering export `name` of `f` must produce. */
  ghost predicate InRender(p: Program, f: File, name: string, s: Section) {
    var k := Key(f, true, name);
    if Missing(p, k) then InFallback(p, f, s) else InClosure(p, k, s)
  }

  // ---------- the finite set of keys a walk can meet ----------

  function DependencyName(d: Dependency): set<string> {
    if d.Repo? then {d.exportedName} else {}
  }

  function ReexportName(r: Reexport): set<string> {
    match r
    case LocalName(n) => {n}
    case FromModule(d) => DependencyName(d)
  }

  predicate Imports(ix: FileIndex, x: string) {
    exists n :: n in ix.imports && x in DependencyName(ix.imports[n])
  }

  predicate Reexports(ix: FileIndex, x: string) {
    exists n :: n in ix.reexports && x in ReexportName(ix.reexports[n])
  }

  predicate ImportsTypes(ix: FileIndex, x: string) {
    exists n, st, d :: n in ix.declarations && st in ix.declarations[n] && d in st.importTypes && x in DependencyName(d)
  }

  /** A name the file declares, or asks another file for. */
  predicate Mentions(ix: FileIndex, x: string) {
    x in ix.declarations || Imports(ix, x) || Reexports(ix, x) || ImportsTypes(ix, x)
  }

  ghost function FileNames(ix: FileIndex): (names: set<string>)
    ensures forall x :: Mentions(ix, x) <==> x in names
  {
    var imported := set n, x | n in ix.imports && x in DependencyName(ix.imports[n]) :: x;
    var reexported := set n, x | n in ix.reexports && x in ReexportName(ix.reexports[n]) :: x;
    var types := set n, st, d, x | n in ix.declarations && st in ix.declarations[n] && d in st.importTypes && x in DependencyName(d) :: x;
    ix.declarations.Keys + imported + reexported + types
  }
}
