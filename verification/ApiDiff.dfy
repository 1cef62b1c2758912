/** Comparing two rendered SDK surfaces. */
module ApiDiff {
  import opened Options
  import opened TextOrder

  datatype Section = Section(name: string, text: string)

  datatype Snapshot = Snapshot(closureHash: Option<string>, declaration: Option<string>, kind: string)

  datatype Export = Export(exportName: string, surface: Snapshot)

  datatype Module = Module(entrypoint: string, exports: seq<Export>, importSpecifier: string)

  datatype Surface = Surface(declarationSections: seq<Section>, modules: seq<Module>)

  datatype Change = Added | Reachable | Removed | Signature

  datatype DeclarationChange = DeclarationChange(after: Option<string>, before: Option<string>, name: string)

  datatype ExportChange = ExportChange(
    entrypoint: string,
    exportName: string,
    change: Change,
    before: Option<Snapshot>,
    after: Option<Snapshot>,
    importSpecifier: string,
    declarationChanges: seq<DeclarationChange>)

  datatype EntrypointChange = EntrypointChange(entrypoint: string, exportNames: seq<string>, importSpecifier: string)

  datatype Payload = Payload(
    entrypointsAdded: seq<EntrypointChange>,
    entrypointsRemoved: seq<EntrypointChange>,
    exports: seq<ExportChange>)

  // ---------- lists as maps; a later entry replaces an earlier one ----------

  function ModuleMap(ms: seq<Module>): (m: map<string, Module>)
    ensures forall e :: e in m ==> m[e].entrypoint == e
  {
    if ms == [] then map[]
    else
      var last := ms[|ms| - 1];
      ModuleMap(ms[..|ms| - 1])[last.entrypoint := last]
  }

  function ExportMap(xs: seq<Export>): map<string, Snapshot> {
    if xs == [] then map[]
    else
      var last := xs[|xs| - 1];
      ExportMap(xs[..|xs| - 1])[last.exportName := last.surface]
  }

  function Exports(m: map<string, Module>, e: string): map<string, Snapshot> {
    if e in m then ExportMap(m[e].exports) else map[]
  }

  /** What a surface offers, by entrypoint and export name. */
  ghost function Offered(m: map<string, Module>): map<(string, string), Snapshot> {
    map e, n | e in m && n in Exports(m, e) :: (e, n) := Exports(m, e)[n]
  }

  function Lookup(m: map<string, Snapshot>, n: string): Option<Snapshot> {
    if n in m then Some(m[n]) else None
  }

  // ---------- the change record of one export ----------

  function Kind(before: Option<Snapshot>, after: Option<Snapshot>): Option<Change> {
    match (before, after)
    case (None, None) => None
    case (None, Some(_)) => Some(Added)
    case (Some(_), None) => Some(Removed)
    case (Some(b), Some(a)) =>
      if b.kind != a.kind || b.declaration != a.declaration then Some(Signature)
      else if b.closureHash != a.closureHash then Some(Reachable)
      else None
  }

  function Record(bm: map<string, Module>, am: map<string, Module>, e: string, n: string): Option<ExportChange>
    requires e in bm || e in am
  {
    var b, a := Lookup(Exports(bm, e), n), Lookup(Exports(am, e), n);
    match Kind(b, a)
    case None => None
    case Some(change) =>
      Some(ExportChange(e, n, change, b, a, if e in am then am[e].importSpecifier else bm[e].importSpecifier, []))
  }

  /** An export has a record exactly when what is offered under its name differs. */
  lemma RecordIff(bm: map<string, Module>, am: map<string, Module>, e: string, n: string)
    requires e in bm || e in am
    ensures Record(bm, am, e, n).None? <==> Lookup(Exports(bm, e), n) == Lookup(Exports(am, e), n)
  {
  }

  // ---------- all change records ----------

  function ExportRows(bm: map<string, Module>, am: map<string, Module>, e: string, names: seq<string>): seq<ExportChange>
    requires e in bm || e in am
  {
    if names == [] then []
    else
      ExportRows(bm, am, e, names[..|names| - 1])
      + match Record(bm, am, e, names[|names| - 1]) case None => [] case Some(r) => [r]
  }

  ghost function NamesAt(bm: map<string, Module>, am: map<string, Module>, e: string): set<string> {
    Exports(bm, e).Keys + Exports(am, e).Keys
  }

  ghost function EntryRows(bm: map<string, Module>, am: map<string, Module>, entries: seq<string>): seq<ExportChange>
    requires forall e :: e in entries ==> e in bm || e in am
  {
    if entries == [] then []
    else
      var e := entries[|entries| - 1];
      EntryRows(bm, am, entries[..|entries| - 1]) + ExportRows(bm, am, e, AscendingOf(NamesAt(bm, am, e)))
  }

  ghost function ChangeRows(bm: map<string, Module>, am: map<string, Module>): seq<ExportChange> {
    EntryRows(bm, am, AscendingOf(bm.Keys + am.Keys))
  }

  // ---------- the ascending list of a set ----------

  lemma {:induction false} SomeList(s: set<string>) returns (q: seq<string>)
    ensures Distinct(q) && forall x :: x in q <==> x in s
    decreases s
  {
    if s == {} {
      q := [];
    } else {
      var x :| x in s;
      var rest := SomeList(s - {x});
      q := [x] + rest;
    }
  }

  ghost predicate ListsAscending(q: seq<string>, s: set<string>) {
    Ascending(TextLess, q) && forall x :: x in q <==> x in s
  }

  lemma HasAscendingList(s: set<string>)
    ensures exists q :: ListsAscending(q, s)
  {
    var listed := SomeList(s);
    TextLessStrictTotal();
    SortedAscending(TextLess, listed);
    assert ListsAscending(Sorted(TextLess, listed), s);
  }

  ghost function AscendingOf(s: set<string>): (q: seq<string>)
    ensures ListsAscending(q, s)
  {
    HasAscendingList(s);
    var q :| ListsAscending(q, s);
    q
  }

  lemma AscendingOfIs(q: seq<string>, s: set<string>)
    requires ListsAscending(q, s)
    ensures q == AscendingOf(s)
  {
    TextLessStrictTotal();
    AscendingUnique(TextLess, q, AscendingOf(s));
  }

  method SortedNames(s: set<string>) returns (q: seq<string>)
    ensures q == AscendingOf(s)
  {
    var listed := Listed(s);
    q := Sorted(TextLess, listed);
    TextLessStrictTotal();
    SortedAscending(TextLess, listed);
    AscendingOfIs(q, s);
  }

  // ---------- membership and order of the rows ----------

  predicate RowLess(a: ExportChange, b: ExportChange) {
    TextLess(a.entrypoint, b.entrypoint) || (a.entrypoint == b.entrypoint && TextLess(a.exportName, b.exportName))
  }

  /** Each row comes after all rows before it. */
  ghost predicate RowsAscend(rows: seq<ExportChange>) {
    forall i, j :: 0 <= i < j < |rows| ==> RowLess(rows[i], rows[j])
  }

  lemma {:induction false} AscendingPrefix(q: seq<string>, n: nat)
    requires Ascending(TextLess, q) && n <= |q|
    ensures Ascending(TextLess, q[..n])
    decreases |q|
  {
    if n > 0 {
      AscendingPrefix(q[1..], n - 1);
      assert q[..n][1..] == q[1..][..n - 1];
    }
  }

  lemma LastIsLargest(q: seq<string>, x: string)
    requires Ascending(TextLess, q) && q != [] && x in q[..|q| - 1]
    ensures TextLess(x, q[|q| - 1])
  {
    var i :| 0 <= i < |q| - 1 && q[..|q| - 1][i] == x;
    AscendingAt(TextLess, q, i, |q| - 1);
  }

  lemma {:induction false} ExportRowMembers(
    bm: map<string, Module>, am: map<string, Module>, e: string, names: seq<string>, r: ExportChange)
    requires e in bm || e in am
    ensures r in ExportRows(bm, am, e, names) <==> r.entrypoint == e && r.exportName in names && Record(bm, am, e, r.exportName) == Some(r)
    decreases |names|
  {
    if names != [] {
      ExportRowMembers(bm, am, e, names[..|names| - 1], r);
      assert names == names[..|names| - 1] + [names[|names| - 1]];
    }
  }

  lemma {:induction false} EntryRowMembers(bm: map<string, Module>, am: map<string, Module>, entries: seq<string>, r: ExportChange)
    requires forall e :: e in entries ==> e in bm || e in am
    ensures r in EntryRows(bm, am, entries) <==>
      r.entrypoint in entries && Record(bm, am, r.entrypoint, r.exportName) == Some(r)
    decreases |entries|
  {
    if entries != [] {
      var e := entries[|entries| - 1];
      EntryRowMembers(bm, am, entries[..|entries| - 1], r);
      ExportRowMembers(bm, am, e, AscendingOf(NamesAt(bm, am, e)), r);
      assert entries == entries[..|entries| - 1] + [e];
      RecordNamed(bm, am, e, r.exportName);
    }
  }

  lemma RecordNamed(bm: map<string, Module>, am: map<string, Module>, e: string, n: string)
    requires e in bm || e in am
    ensures Record(bm, am, e, n).Some? ==> n in NamesAt(bm, am, e)
  {
  }

  lemma AscendAppend(rows: seq<ExportChange>, more: seq<ExportChange>)
    requires RowsAscend(rows) && RowsAscend(more)
    requires forall a, b :: a in rows && b in more ==> RowLess(a, b)
    ensures RowsAscend(rows + more)
  {
    var all := rows + more;
    forall i, j | 0 <= i < j < |all| ensures RowLess(all[i], all[j]) {
      if i < |rows| <= j {
        assert all[i] in rows && all[j] in more;
      }
    }
  }

  lemma {:induction false} ExportRowsAscend(bm: map<string, Module>, am: map<string, Module>, e: string, names: seq<string>)
    requires (e in bm || e in am) && Ascending(TextLess, names)
    ensures RowsAscend(ExportRows(bm, am, e, names))
    decreases |names|
  {
    if names != [] {
      var init := names[..|names| - 1];
      AscendingPrefix(names, |names| - 1);
      ExportRowsAscend(bm, am, e, init);
      var more := match Record(bm, am, e, names[|names| - 1]) case None => [] case Some(r) => [r];
      forall a, b | a in ExportRows(bm, am, e, init) && b in more ensures RowLess(a, b) {
        ExportRowMembers(bm, am, e, init, a);
        LastIsLargest(names, a.exportName);
      }
      AscendAppend(ExportRows(bm, am, e, init), more);
    }
  }

  lemma {:induction false} EntryRowsAscend(bm: map<string, Module>, am: map<string, Module>, entries: seq<string>)
    requires (forall e :: e in entries ==> e in bm || e in am) && Ascending(TextLess, entries)
    ensures RowsAscend(EntryRows(bm, am, entries))
    decreases |entries|
  {
    if entries != [] {
      var init, e := entries[..|entries| - 1], entries[|entries| - 1];
      AscendingPrefix(entries, |entries| - 1);
      EntryRowsAscend(bm, am, init);
      var names := AscendingOf(NamesAt(bm, am, e));
      ExportRowsAscend(bm, am, e, names);
      forall a, b | a in EntryRows(bm, am, init) && b in ExportRows(bm, am, e, names) ensures RowLess(a, b) {
        EntryRowMembers(bm, am, init, a);
        ExportRowMembers(bm, am, e, names, b);
        LastIsLargest(entries, a.entrypoint);
      }
      AscendAppend(EntryRows(bm, am, init), ExportRows(bm, am, e, names));
    }
  }

  /** The rows are in strictly ascending order, and there is one for each export that differs. */
  lemma ChangeRowsAre(bm: map<string, Module>, am: map<string, Module>)
    ensures RowsAscend(ChangeRows(bm, am))
    ensures forall r :: r in ChangeRows(bm, am) <==>
      (r.entrypoint in bm || r.entrypoint in am) && Record(bm, am, r.entrypoint, r.exportName) == Some(r)
  {
    var entries := AscendingOf(bm.Keys + am.Keys);
    EntryRowsAscend(bm, am, entries);
    forall r ensures r in ChangeRows(bm, am) <==>
      (r.entrypoint in bm || r.entrypoint in am) && Record(bm, am, r.entrypoint, r.exportName) == Some(r)
    {
      EntryRowMembers(bm, am, entries, r);
    }
  }

  lemma RowKeysDiffer(rows: seq<ExportChange>, i: nat, j: nat)
    requires RowsAscend(rows) && i < |rows| && j < |rows|
    requires rows[i].entrypoint == rows[j].entrypoint && rows[i].exportName == rows[j].exportName
    ensures i == j
  {
    TextLessTotal(rows[i].entrypoint, rows[i].entrypoint);
    TextLessTotal(rows[i].exportName, rows[i].exportName);
    assert !RowLess(rows[i], rows[j]) && !RowLess(rows[j], rows[i]);
  }

  // ---------- the rows as a patch ----------

  function Patched(m: map<(string, string), Snapshot>, rows: seq<ExportChange>): map<(string, string), Snapshot> {
    if rows == [] then m
    else
      var r := rows[|rows| - 1];
      var prior := Patched(m, rows[..|rows| - 1]);
      match r.after
      case None => prior - {(r.entrypoint, r.exportName)}
      case Some(snapshot) => prior[(r.entrypoint, r.exportName) := snapshot]
  }

  ghost predicate Touches(rows: seq<ExportChange>, k: (string, string)) {
    exists r :: r in rows && (r.entrypoint, r.exportName) == k
  }

  function At(m: map<(string, string), Snapshot>, k: (string, string)): Option<Snapshot> {
    if k in m then Some(m[k]) else None
  }

  /** The last row for a key decides; without one the key keeps what it had. */
  lemma {:induction false} PatchedElsewhere(m: map<(string, string), Snapshot>, rows: seq<ExportChange>, k: (string, string))
    requires !Touches(rows, k)
    ensures At(Patched(m, rows), k) == At(m, k)
    decreases |rows|
  {
    if rows != [] {
      var init, r := rows[..|rows| - 1], rows[|rows| - 1];
      assert r in rows && (r.entrypoint, r.exportName) != k;
      assert forall x :: x in init ==> x in rows;
      PatchedElsewhere(m, init, k);
    }
  }

  lemma {:induction false} PatchedThere(m: map<(string, string), Snapshot>, rows: seq<ExportChange>, i: nat)
    requires RowsAscend(rows) && i < |rows|
    ensures At(Patched(m, rows), (rows[i].entrypoint, rows[i].exportName)) == rows[i].after
    decreases |rows|
  {
    var init, r := rows[..|rows| - 1], rows[|rows| - 1];
    if i < |rows| - 1 {
      PatchedThere(m, init, i);
      if (r.entrypoint, r.exportName) == (rows[i].entrypoint, rows[i].exportName) {
        RowKeysDiffer(rows, i, |rows| - 1);
      }
    }
  }

  lemma PatchedAt(m: map<(string, string), Snapshot>, rows: seq<ExportChange>, k: (string, string))
    requires RowsAscend(rows)
    ensures !Touches(rows, k) ==> At(Patched(m, rows), k) == At(m, k)
    ensures forall r :: r in rows && (r.entrypoint, r.exportName) == k ==> At(Patched(m, rows), k) == r.after
  {
    if !Touches(rows, k) {
      PatchedElsewhere(m, rows, k);
    }
    forall r | r in rows && (r.entrypoint, r.exportName) == k ensures At(Patched(m, rows), k) == r.after {
      var i :| 0 <= i < |rows| && rows[i] == r;
      PatchedThere(m, rows, i);
    }
  }

  lemma OfferedAt(m: map<string, Module>, e: string, n: string)
    ensures At(Offered(m), (e, n)) == Lookup(Exports(m, e), n)
  {
  }

  /** Applying the rows to what was offered before gives exactly what is offered after. */
  lemma RowsArePatch(bm: map<string, Module>, am: map<string, Module>)
    ensures Patched(Offered(bm), ChangeRows(bm, am)) == Offered(am)
  {
    var rows := ChangeRows(bm, am);
    ChangeRowsAre(bm, am);
    var p := Patched(Offered(bm), rows);
    forall k: (string, string) ensures At(p, k) == At(Offered(am), k) {
      var e, n := k.0, k.1;
      PatchedAt(Offered(bm), rows, k);
      OfferedAt(bm, e, n);
      OfferedAt(am, e, n);
      if e in bm || e in am {
        RecordIff(bm, am, e, n);
        if Record(bm, am, e, n).Some? {
          var r := Record(bm, am, e, n).value;
          assert r in rows && (r.entrypoint, r.exportName) == k;
        }
      }
    }
    SameByAt(p, Offered(am));
  }

  lemma SameByAt(a: map<(string, string), Snapshot>, b: map<(string, string), Snapshot>)
    requires forall k :: At(a, k) == At(b, k)
    ensures a == b
  {
    forall k ensures k in a <==> k in b {
      assert At(a, k) == At(b, k);
    }
    forall k | k in a ensures a[k] == b[k] {
      assert At(a, k) == At(b, k);
    }
  }

  // ---------- diffing in reverse ----------

  function Flipped(c: Change): Change {
    match c
    case Added => Removed
    case Removed => Added
    case _ => c
  }

  /** The same export, seen from the other side. */
  ghost predicate Mirrors(r: ExportChange, r': ExportChange) {
    && r'.entrypoint == r.entrypoint && r'.exportName == r.exportName
    && r'.before == r.after && r'.after == r.before && r'.change == Flipped(r.change)
  }

  lemma RecordMirrors(bm: map<string, Module>, am: map<string, Module>, e: string, n: string)
    requires e in bm || e in am
    ensures Record(am, bm, e, n).Some? <==> Record(bm, am, e, n).Some?
    ensures Record(bm, am, e, n).Some? ==> Mirrors(Record(bm, am, e, n).value, Record(am, bm, e, n).value)
  {
  }

  lemma {:induction false} ExportRowsMirror(bm: map<string, Module>, am: map<string, Module>, e: string, names: seq<string>)
    requires e in bm || e in am
    ensures |ExportRows(am, bm, e, names)| == |ExportRows(bm, am, e, names)|
    ensures forall i :: 0 <= i < |ExportRows(bm, am, e, names)| ==>
      Mirrors(ExportRows(bm, am, e, names)[i], ExportRows(am, bm, e, names)[i])
    decreases |names|
  {
    if names != [] {
      ExportRowsMirror(bm, am, e, names[..|names| - 1]);
      RecordMirrors(bm, am, e, names[|names| - 1]);
    }
  }

  lemma {:induction false} EntryRowsMirror(bm: map<string, Module>, am: map<string, Module>, entries: seq<string>)
    requires forall e :: e in entries ==> e in bm || e in am
    ensures |EntryRows(am, bm, entries)| == |EntryRows(bm, am, entries)|
    ensures forall i :: 0 <= i < |EntryRows(bm, am, entries)| ==>
      Mirrors(EntryRows(bm, am, entries)[i], EntryRows(am, bm, entries)[i])
    decreases |entries|
  {
    if entries != [] {
      var e := entries[|entries| - 1];
      EntryRowsMirror(bm, am, entries[..|entries| - 1]);
      assert NamesAt(am, bm, e) == NamesAt(bm, am, e);
      ExportRowsMirror(bm, am, e, AscendingOf(NamesAt(bm, am, e)));
    }
  }

  /** Comparing the entrypoints in reverse gives the same rows with before and after exchanged. */
  lemma RowsMirror(bm: map<string, Module>, am: map<string, Module>)
    ensures |ChangeRows(am, bm)| == |ChangeRows(bm, am)|
    ensures forall i :: 0 <= i < |ChangeRows(bm, am)| ==> Mirrors(ChangeRows(bm, am)[i], ChangeRows(am, bm)[i])
  {
    assert am.Keys + bm.Keys == bm.Keys + am.Keys;
    EntryRowsMirror(bm, am, AscendingOf(bm.Keys + am.Keys));
  }

  // ---------- no changes ----------

  ghost predicate Unchanged(bm: map<string, Module>, am: map<string, Module>) {
    bm.Keys == am.Keys && Offered(bm) == Offered(am)
  }

  lemma NoRowsIff(bm: map<string, Module>, am: map<string, Module>)
    ensures ChangeRows(bm, am) == [] <==> Offered(bm) == Offered(am)
  {
    ChangeRowsAre(bm, am);
    RowsArePatch(bm, am);
    if ChangeRows(bm, am) != [] && Offered(bm) == Offered(am) {
      var r := ChangeRows(bm, am)[0];
      assert r in ChangeRows(bm, am);
      OfferedAt(bm, r.entrypoint, r.exportName);
      OfferedAt(am, r.entrypoint, r.exportName);
      RecordIff(bm, am, r.entrypoint, r.exportName);
    }
  }

  // ---------- entrypoints that come and go ----------

  function ExportNames(xs: seq<Export>): (ns: seq<string>)
    ensures |ns| == |xs|
  {
    seq(|xs|, i requires 0 <= i < |xs| => xs[i].exportName)
  }

  function ModuleChange(m: Module): EntrypointChange {
    EntrypointChange(m.entrypoint, Sorted(TextLess, ExportNames(m.exports)), m.importSpecifier)
  }

  function ModuleChanges(m: map<string, Module>, entries: seq<string>): seq<EntrypointChange>
    requires forall e :: e in entries ==> e in m
  {
    if entries == [] then []
    else ModuleChanges(m, entries[..|entries| - 1]) + [ModuleChange(m[entries[|entries| - 1]])]
  }

  ghost function Gained(from: map<string, Module>, to: map<string, Module>): seq<EntrypointChange> {
    ModuleChanges(to, AscendingOf(to.Keys - from.Keys))
  }

  lemma {:induction false} ModuleChangesLength(m: map<string, Module>, entries: seq<string>)
    requires forall e :: e in entries ==> e in m
    ensures |ModuleChanges(m, entries)| == |entries|
    decreases |entries|
  {
    if entries != [] {
      ModuleChangesLength(m, entries[..|entries| - 1]);
    }
  }

  // ---------- declaration changes ----------

  function TextsOf(s: set<Section>, n: string): set<string> {
    set x | x in s && x.name == n :: x.text
  }

  function NamesOf(s: set<Section>): set<string> {
    set x | x in s :: x.name
  }

  function TextAt(q: seq<string>, i: nat): Option<string> {
    if i < |q| then Some(q[i]) else None
  }

  function Larger(a: nat, b: nat): nat {
    if a < b then b else a
  }

  /** Removed and added texts of one name, side by side, the shorter list padded with nothing. */
  function Paired(n: string, removed: seq<string>, added: seq<string>): seq<DeclarationChange> {
    seq(Larger(|removed|, |added|), i requires i >= 0 => DeclarationChange(TextAt(added, i), TextAt(removed, i), n))
  }

  ghost function PairedFor(before: set<Section>, after: set<Section>, n: string): seq<DeclarationChange> {
    Paired(n, AscendingOf(TextsOf(before - after, n)), AscendingOf(TextsOf(after - before, n)))
  }

  ghost function PairedAll(before: set<Section>, after: set<Section>, names: seq<string>): seq<DeclarationChange> {
    if names == [] then []
    else PairedAll(before, after, names[..|names| - 1]) + PairedFor(before, after, names[|names| - 1])
  }

  ghost function DeclarationChanges(before: set<Section>, after: set<Section>): seq<DeclarationChange> {
    PairedAll(before, after, AscendingOf(NamesOf((before - after) + (after - before))))
  }

  function RowsNamed(rows: seq<DeclarationChange>, n: string): seq<DeclarationChange> {
    if rows == [] then []
    else RowsNamed(rows[..|rows| - 1], n) + if rows[|rows| - 1].name == n then [rows[|rows| - 1]] else []
  }

  function Befores(rows: seq<DeclarationChange>): seq<string> {
    if rows == [] then []
    else Befores(rows[..|rows| - 1]) + match rows[|rows| - 1].before case None => [] case Some(t) => [t]
  }

  function Afters(rows: seq<DeclarationChange>): seq<string> {
    if rows == [] then []
    else Afters(rows[..|rows| - 1]) + match rows[|rows| - 1].after case None => [] case Some(t) => [t]
  }

  lemma {:induction false} RowsNamedAppend(a: seq<DeclarationChange>, b: seq<DeclarationChange>, n: string)
    ensures RowsNamed(a + b, n) == RowsNamed(a, n) + RowsNamed(b, n)
    decreases |b|
  {
    if b == [] {
      assert a + b == a;
    } else {
      assert (a + b)[..|a + b| - 1] == a + b[..|b| - 1];
      RowsNamedAppend(a, b[..|b| - 1], n);
    }
  }

  lemma {:induction false} RowsNamedSame(rows: seq<DeclarationChange>, n: string)
    ensures (forall r :: r in rows ==> r.name == n) ==> RowsNamed(rows, n) == rows
    ensures (forall r :: r in rows ==> r.name != n) ==> RowsNamed(rows, n) == []
    decreases |rows|
  {
    if rows != [] {
      RowsNamedSame(rows[..|rows| - 1], n);
      assert rows == rows[..|rows| - 1] + [rows[|rows| - 1]];
    }
  }

  lemma PairedForNamed(before: set<Section>, after: set<Section>, name: string, n: string)
    ensures RowsNamed(PairedFor(before, after, name), n) == if name == n then PairedFor(before, after, n) else []
  {
    hide RowsNamed;
    RowsNamedSame(PairedFor(before, after, name), n);
  }

  lemma {:induction false} PairedAllNamed(before: set<Section>, after: set<Section>, names: seq<string>, n: string)
    requires Ascending(TextLess, names)
    ensures RowsNamed(PairedAll(before, after, names), n) == if n in names then PairedFor(before, after, n) else []
    decreases |names|
  {
    hide PairedFor, RowsNamed, Ascending;
    if names == [] {
      RowsNamedSame([], n);
    } else {
      var init, last := names[..|names| - 1], names[|names| - 1];
      AscendingPrefix(names, |names| - 1);
      PairedAllNamed(before, after, init, n);
      RowsNamedAppend(PairedAll(before, after, init), PairedFor(before, after, last), n);
      PairedForNamed(before, after, last, n);
      assert names == init + [last];
      if n in init {
        LastIsLargest(names, n);
        TextLessTotal(n, n);
      }
    }
  }

  lemma {:induction false} BeforesOf(rows: seq<DeclarationChange>, q: seq<string>)
    requires forall i :: 0 <= i < |rows| ==> rows[i].before == TextAt(q, i)
    ensures Befores(rows) == q[..if |rows| <= |q| then |rows| else |q|]
    decreases |rows|
  {
    if rows != [] {
      var k := |rows| - 1;
      BeforesOf(rows[..k], q);
      assert rows[k].before == TextAt(q, k);
      assert k < |q| ==> q[..k + 1] == q[..k] + [q[k]];
    }
  }

  lemma {:induction false} AftersOf(rows: seq<DeclarationChange>, q: seq<string>)
    requires forall i :: 0 <= i < |rows| ==> rows[i].after == TextAt(q, i)
    ensures Afters(rows) == q[..if |rows| <= |q| then |rows| else |q|]
    decreases |rows|
  {
    if rows != [] {
      var k := |rows| - 1;
      AftersOf(rows[..k], q);
      assert rows[k].after == TextAt(q, k);
      assert k < |q| ==> q[..k + 1] == q[..k] + [q[k]];
    }
  }

  lemma PairedSides(n: string, removed: seq<string>, added: seq<string>)
    ensures Befores(Paired(n, removed, added)) == removed && Afters(Paired(n, removed, added)) == added
  {
    var rows := Paired(n, removed, added);
    BeforesOf(rows, removed);
    AftersOf(rows, added);
  }

  lemma {:induction false} AscendingSize(q: seq<string>, s: set<string>)
    requires ListsAscending(q, s)
    ensures |q| == |s|
    decreases |q|
  {
    if q != [] {
      TextLessTotal(q[0], q[0]);
      assert q == [q[0]] + q[1..];
      AscendingSize(q[1..], s - {q[0]});
    } else {
      assert s == {};
    }
  }

  /** Under each name the texts reported as gone are exactly those only the old surface has, the texts
      reported as new exactly those only the new one has, each once, in as few rows as that takes. */
  lemma DeclarationsConserved(before: set<Section>, after: set<Section>, n: string)
    ensures var rows := RowsNamed(DeclarationChanges(before, after), n);
      && Befores(rows) == AscendingOf(TextsOf(before - after, n))
      && Afters(rows) == AscendingOf(TextsOf(after - before, n))
      && |rows| == Larger(|TextsOf(before - after, n)|, |TextsOf(after - before, n)|)
  {
    var gone, come := before - after, after - before;
    var removed, added := AscendingOf(TextsOf(gone, n)), AscendingOf(TextsOf(come, n));
    var names := AscendingOf(NamesOf(gone + come));
    PairedAllNamed(before, after, names, n);
    AscendingSize(removed, TextsOf(gone, n));
    AscendingSize(added, TextsOf(come, n));
    if n in names {
      PairedSides(n, removed, added);
    } else {
      assert TextsOf(gone, n) == {} && TextsOf(come, n) == {};
    }
  }

  ghost predicate MirrorsText(r: DeclarationChange, r': DeclarationChange) {
    r'.name == r.name && r'.before == r.after && r'.after == r.before
  }

  lemma {:induction false} PairedAllMirror(before: set<Section>, after: set<Section>, names: seq<string>)
    ensures |PairedAll(after, before, names)| == |PairedAll(before, after, names)|
    ensures forall i :: 0 <= i < |PairedAll(before, after, names)| ==>
      MirrorsText(PairedAll(before, after, names)[i], PairedAll(after, before, names)[i])
    decreases |names|
  {
    if names != [] {
      PairedAllMirror(before, after, names[..|names| - 1]);
    }
  }

  lemma DeclarationsMirror(before: set<Section>, after: set<Section>)
    ensures |DeclarationChanges(after, before)| == |DeclarationChanges(before, after)|
    ensures forall i :: 0 <= i < |DeclarationChanges(before, after)| ==>
      MirrorsText(DeclarationChanges(before, after)[i], DeclarationChanges(after, before)[i])
  {
    assert (after - before) + (before - after) == (before - after) + (after - before);
    PairedAllMirror(before, after, AscendingOf(NamesOf((before - after) + (after - before))));
  }

  // ---------- the whole diff ----------

  function SectionSet(ss: seq<Section>): set<Section> {
    set x | x in ss
  }

  function WithDeclarations(rows: seq<ExportChange>, ds: seq<DeclarationChange>): seq<ExportChange> {
    if rows == [] then [] else [rows[0].(declarationChanges := ds)] + rows[1..]
  }

  ghost function Diff(before: Surface, after: Surface): Payload {
    var bm, am := ModuleMap(before.modules), ModuleMap(after.modules);
    Payload(
      Gained(bm, am),
      Gained(am, bm),
      WithDeclarations(
        ChangeRows(bm, am),
        DeclarationChanges(SectionSet(before.declarationSections), SectionSet(after.declarationSections))))
  }

  predicate HasChanges(d: Payload) {
    |d.entrypointsAdded| > 0 || |d.entrypointsRemoved| > 0 || |d.exports| > 0
  }

  /** No changes are reported exactly when both surfaces have the same entrypoints and offer the same
      exports; the exports alone do not decide, for an entrypoint without exports still counts. */
  lemma NoChangesIff(before: Surface, after: Surface)
    ensures !HasChanges(Diff(before, after)) <==> Unchanged(ModuleMap(before.modules), ModuleMap(after.modules))
  {
    var bm, am := ModuleMap(before.modules), ModuleMap(after.modules);
    NoRowsIff(bm, am);
    GainedIff(bm, am);
    GainedIff(am, bm);
  }

  const NO_MODULES := Surface([], [])
  const EMPTY_MODULE := Surface([], [Module("e", [], "sdk/e")])

  /** A new entrypoint without exports is a change although nothing that is offered differs. */
  lemma EmptyEntrypointIsAChange()
    ensures Offered(ModuleMap(EMPTY_MODULE.modules)) == Offered(ModuleMap(NO_MODULES.modules))
    ensures HasChanges(Diff(NO_MODULES, EMPTY_MODULE)) && Diff(NO_MODULES, EMPTY_MODULE).exports == []
  {
    var bm, am := ModuleMap(NO_MODULES.modules), ModuleMap(EMPTY_MODULE.modules);
    assert EMPTY_MODULE.modules[..0] == [];
    assert am == map["e" := EMPTY_MODULE.modules[0]] && bm == map[];
    assert Offered(am) == map[] && Offered(bm) == map[];
    assert "e" in am.Keys && "e" !in bm.Keys;
    NoRowsIff(bm, am);
    NoChangesIff(NO_MODULES, EMPTY_MODULE);
  }

  lemma GainedIff(from: map<string, Module>, to: map<string, Module>)
    ensures |Gained(from, to)| > 0 <==> !(to.Keys <= from.Keys)
  {
    var entries := AscendingOf(to.Keys - from.Keys);
    ModuleChangesLength(to, entries);
    assert entries != [] ==> entries[0] in to.Keys - from.Keys;
    assert forall e :: e in to.Keys - from.Keys ==> e in entries;
    if entries == [] {
      forall e | e in to.Keys ensures e in from.Keys {
        assert e in to.Keys - from.Keys <==> e in entries;
      }
    }
  }

  lemma WithDeclarationsPatches(m: map<(string, string), Snapshot>, rows: seq<ExportChange>, ds: seq<DeclarationChange>)
    ensures Patched(m, WithDeclarations(rows, ds)) == Patched(m, rows)
  {
    if rows != [] {
      PatchedByFields(m, rows, WithDeclarations(rows, ds));
    }
  }

  lemma {:induction false} PatchedByFields(m: map<(string, string), Snapshot>, a: seq<ExportChange>, b: seq<ExportChange>)
    requires |a| == |b|
    requires forall i :: 0 <= i < |a| ==>
      a[i].entrypoint == b[i].entrypoint && a[i].exportName == b[i].exportName && a[i].after == b[i].after
    ensures Patched(m, a) == Patched(m, b)
    decreases |a|
  {
    if a != [] {
      PatchedByFields(m, a[..|a| - 1], b[..|b| - 1]);
    }
  }

  /** The payload is a faithful patch. */
  lemma DiffIsPatch(before: Surface, after: Surface)
    ensures Patched(Offered(ModuleMap(before.modules)), Diff(before, after).exports) == Offered(ModuleMap(after.modules))
  {
    var bm, am := ModuleMap(before.modules), ModuleMap(after.modules);
    RowsArePatch(bm, am);
    WithDeclarationsPatches(Offered(bm), ChangeRows(bm, am),
      DeclarationChanges(SectionSet(before.declarationSections), SectionSet(after.declarationSections)));
  }

  // ---------- the whole diff in reverse ----------

  ghost predicate MirrorsTexts(ds: seq<DeclarationChange>, ds': seq<DeclarationChange>) {
    |ds'| == |ds| && forall i :: 0 <= i < |ds| ==> MirrorsText(ds[i], ds'[i])
  }

  /** Entrypoints that came have gone, and every row has before and after exchanged, declarations included. */
  ghost predicate MirrorsPayload(d: Payload, d': Payload) {
    && d'.entrypointsAdded == d.entrypointsRemoved && d'.entrypointsRemoved == d.entrypointsAdded
    && |d'.exports| == |d.exports|
    && forall i :: 0 <= i < |d.exports| ==>
         && Mirrors(d.exports[i], d'.exports[i])
         && MirrorsTexts(d.exports[i].declarationChanges, d'.exports[i].declarationChanges)
  }

  ghost predicate SameSpecifier(bm: map<string, Module>, am: map<string, Module>, e: string) {
    e in bm && e in am ==> bm[e].importSpecifier == am[e].importSpecifier
  }

  /** A row is imported from the newer surface that has its entrypoint, and lists no declarations yet. */
  lemma RowIs(bm: map<string, Module>, am: map<string, Module>, i: nat)
    requires i < |ChangeRows(bm, am)|
    ensures var r := ChangeRows(bm, am)[i];
      && (r.entrypoint in bm || r.entrypoint in am) && r.declarationChanges == []
      && r.importSpecifier == if r.entrypoint in am then am[r.entrypoint].importSpecifier else bm[r.entrypoint].importSpecifier
  {
    ChangeRowsAre(bm, am);
    var r := ChangeRows(bm, am)[i];
    assert r in ChangeRows(bm, am);
  }

  /** Diffing in reverse mirrors the whole payload; a row keeps its import specifier exactly when
      both surfaces agree on it. */
  lemma ReverseMirrors(before: Surface, after: Surface)
    ensures MirrorsPayload(Diff(before, after), Diff(after, before))
    ensures forall i :: 0 <= i < |Diff(before, after).exports| ==>
      var r := Diff(before, after).exports[i];
      Diff(after, before).exports[i].importSpecifier == r.importSpecifier
      <==> SameSpecifier(ModuleMap(before.modules), ModuleMap(after.modules), r.entrypoint)
  {
    var bm, am := ModuleMap(before.modules), ModuleMap(after.modules);
    var bs, as' := SectionSet(before.declarationSections), SectionSet(after.declarationSections);
    RowsMirror(bm, am);
    DeclarationsMirror(bs, as');
    hide ChangeRows, DeclarationChanges, Gained, ModuleMap;
    var rows, rows' := Diff(before, after).exports, Diff(after, before).exports;
    forall i | 0 <= i < |rows|
      ensures Mirrors(rows[i], rows'[i])
      ensures MirrorsTexts(rows[i].declarationChanges, rows'[i].declarationChanges)
      ensures rows'[i].importSpecifier == rows[i].importSpecifier <==> SameSpecifier(bm, am, rows[i].entrypoint)
    {
      RowIs(bm, am, i);
      RowIs(am, bm, i);
    }
  }

  // ---------- what each part of the payload says ----------

  /** Module `i` is the one that counts for its entrypoint: no later one has the same. */
  predicate Counts(ms: seq<Module>, i: int, e: string) {
    0 <= i < |ms| && ms[i].entrypoint == e && forall j :: i < j < |ms| ==> ms[j].entrypoint != e
  }

  lemma {:induction false} LastModuleCounts(ms: seq<Module>, i: int, e: string)
    requires Counts(ms, i, e)
    ensures e in ModuleMap(ms) && ModuleMap(ms)[e] == ms[i]
    decreases |ms|
  {
    var n := |ms| - 1;
    if i < n {
      assert forall j :: 0 <= j < n ==> ms[..n][j] == ms[j];
      LastModuleCounts(ms[..n], i, e);
    }
  }

  /** Export `i` is the one that counts for its name. */
  predicate CountsHere(xs: seq<Export>, i: int, n: string) {
    0 <= i < |xs| && xs[i].exportName == n && forall j :: i < j < |xs| ==> xs[j].exportName != n
  }

  lemma {:induction false} LastExportCounts(xs: seq<Export>, i: int, n: string)
    requires CountsHere(xs, i, n)
    ensures n in ExportMap(xs) && ExportMap(xs)[n] == xs[i].surface
    decreases |xs|
  {
    var k := |xs| - 1;
    if i < k {
      assert forall j :: 0 <= j < k ==> xs[..k][j] == xs[j];
      LastExportCounts(xs[..k], i, n);
    }
  }

  /** A surface offers a snapshot when some module that counts has an export that counts with it. */
  ghost predicate Offers(s: Surface, e: string, n: string, x: Snapshot) {
    exists i, j :: Counts(s.modules, i, e) && CountsHere(s.modules[i].exports, j, n) && s.modules[i].exports[j].surface == x
  }

  lemma {:induction false} SomeModuleCounts(ms: seq<Module>, e: string) returns (i: int)
    requires e in ModuleMap(ms)
    ensures Counts(ms, i, e)
    decreases |ms|
  {
    i := |ms| - 1;
    if ms[i].entrypoint != e {
      i := SomeModuleCounts(ms[..|ms| - 1], e);
    }
  }

  lemma {:induction false} SomeExportCounts(xs: seq<Export>, n: string) returns (i: int)
    requires n in ExportMap(xs)
    ensures CountsHere(xs, i, n)
    decreases |xs|
  {
    i := |xs| - 1;
    if xs[i].exportName != n {
      i := SomeExportCounts(xs[..|xs| - 1], n);
    }
  }

  lemma OfferedIs(s: Surface, e: string, n: string, x: Snapshot)
    ensures Lookup(Exports(ModuleMap(s.modules), e), n) == Some(x) <==> Offers(s, e, n, x)
  {
    if i, j :| Counts(s.modules, i, e) && CountsHere(s.modules[i].exports, j, n) && s.modules[i].exports[j].surface == x {
      LastModuleCounts(s.modules, i, e);
      LastExportCounts(s.modules[i].exports, j, n);
    }
    if Lookup(Exports(ModuleMap(s.modules), e), n) == Some(x) {
      var i := SomeModuleCounts(s.modules, e);
      LastModuleCounts(s.modules, i, e);
      var j := SomeExportCounts(s.modules[i].exports, n);
      LastExportCounts(s.modules[i].exports, j, n);
    }
  }

  /** What a row says about its export: both sides as offered, and what kind of change that is. */
  ghost predicate RowTells(r: ExportChange, before: Surface, after: Surface) {
    && (forall x :: r.before == Some(x) <==> Offers(before, r.entrypoint, r.exportName, x))
    && (forall x :: r.after == Some(x) <==> Offers(after, r.entrypoint, r.exportName, x))
    && (r.before.Some? || r.after.Some?)
    && (r.change.Added? <==> r.before.None?)
    && (r.change.Removed? <==> r.after.None?)
    && (r.before.Some? && r.after.Some? ==>
          var b, a := r.before.value, r.after.value;
          && (r.change.Signature? <==> b.kind != a.kind || b.declaration != a.declaration)
          && (r.change.Reachable? <==> b.kind == a.kind && b.declaration == a.declaration)
          && (r.change.Reachable? ==> b.closureHash != a.closureHash))
  }

  lemma RowsTell(before: Surface, after: Surface, i: nat)
    requires i < |Diff(before, after).exports|
    ensures RowTells(Diff(before, after).exports[i], before, after)
  {
    var bm, am := ModuleMap(before.modules), ModuleMap(after.modules);
    ChangeRowsAre(bm, am);
    var row := ChangeRows(bm, am)[i];
    assert row in ChangeRows(bm, am);
    var r := Diff(before, after).exports[i];
    assert r == row.(declarationChanges := r.declarationChanges);
    hide ChangeRows, ModuleMap, Exports, Offers, Diff;
    forall x ensures row.before == Some(x) <==> Offers(before, row.entrypoint, row.exportName, x) {
      OfferedIs(before, row.entrypoint, row.exportName, x);
    }
    forall x ensures row.after == Some(x) <==> Offers(after, row.entrypoint, row.exportName, x) {
      OfferedIs(after, row.entrypoint, row.exportName, x);
    }
  }

  predicate HasRow(rows: seq<ExportChange>, e: string, n: string) {
    exists i :: 0 <= i < |rows| && rows[i].entrypoint == e && rows[i].exportName == n
  }

  ghost predicate RowsInOrder(rows: seq<ExportChange>) {
    forall i, j :: 0 <= i < j < |rows| ==>
      || Precedes(rows[i].entrypoint, rows[j].entrypoint)
      || (rows[i].entrypoint == rows[j].entrypoint && Precedes(rows[i].exportName, rows[j].exportName))
  }

  lemma AscendIsInOrder(rows: seq<ExportChange>)
    requires RowsAscend(rows)
    ensures RowsInOrder(rows)
  {
    forall i, j | 0 <= i < j < |rows|
      ensures || Precedes(rows[i].entrypoint, rows[j].entrypoint)
              || (rows[i].entrypoint == rows[j].entrypoint && Precedes(rows[i].exportName, rows[j].exportName))
    {
      TextLessIff(rows[i].entrypoint, rows[j].entrypoint);
      TextLessIff(rows[i].exportName, rows[j].exportName);
    }
  }

  lemma WithDeclarationsKeeps(rows: seq<ExportChange>, ds: seq<DeclarationChange>, e: string, n: string)
    ensures HasRow(WithDeclarations(rows, ds), e, n) <==> HasRow(rows, e, n)
    ensures RowsInOrder(rows) ==> RowsInOrder(WithDeclarations(rows, ds))
  {
    var out := WithDeclarations(rows, ds);
    assert forall i :: 0 <= i < |rows| ==> out[i].entrypoint == rows[i].entrypoint && out[i].exportName == rows[i].exportName;
    hide WithDeclarations, Precedes;
  }

  /** Exactly the exports that differ have a row, each one row, in the order of entrypoints and names. */
  lemma RowsCover(before: Surface, after: Surface, e: string, n: string)
    ensures HasRow(Diff(before, after).exports, e, n) <==> exists x :: Offers(before, e, n, x) != Offers(after, e, n, x)
    ensures RowsInOrder(Diff(before, after).exports)
  {
    var bm, am := ModuleMap(before.modules), ModuleMap(after.modules);
    var rows := ChangeRows(bm, am);
    ChangeRowsAre(bm, am);
    AscendIsInOrder(rows);
    WithDeclarationsKeeps(rows, DeclarationChanges(SectionSet(before.declarationSections), SectionSet(after.declarationSections)), e, n);
    RowAtIff(bm, am, rows, e, n);
    var b, a := Lookup(Exports(bm, e), n), Lookup(Exports(am, e), n);
    forall x ensures (b == Some(x) <==> Offers(before, e, n, x)) && (a == Some(x) <==> Offers(after, e, n, x)) {
      OfferedIs(before, e, n, x);
      OfferedIs(after, e, n, x);
    }
    DifferentLookups(b, a);
    hide ChangeRows, ModuleMap, Offers, Exports, RowsInOrder, HasRow, DeclarationChanges, WithDeclarations, RowsAscend;
  }

  lemma DifferentLookups(a: Option<Snapshot>, b: Option<Snapshot>)
    ensures a != b <==> exists x :: (a == Some(x)) != (b == Some(x))
  {
    if a != b {
      if a.Some? {
        assert (a == Some(a.value)) != (b == Some(a.value));
      } else {
        assert (a == Some(b.value)) != (b == Some(b.value));
      }
    }
  }

  lemma RowAtIff(bm: map<string, Module>, am: map<string, Module>, rows: seq<ExportChange>, e: string, n: string)
    requires forall r :: r in rows <==> (r.entrypoint in bm || r.entrypoint in am) && Record(bm, am, r.entrypoint, r.exportName) == Some(r)
    ensures HasRow(rows, e, n) <==> Lookup(Exports(bm, e), n) != Lookup(Exports(am, e), n)
  {
    if i :| 0 <= i < |rows| && rows[i].entrypoint == e && rows[i].exportName == n {
      assert rows[i] in rows;
      RecordIff(bm, am, e, n);
    }
    if Lookup(Exports(bm, e), n) != Lookup(Exports(am, e), n) {
      assert e in bm || e in am;
      RecordIff(bm, am, e, n);
      var r := Record(bm, am, e, n).value;
      assert r in rows;
    }
  }

  lemma {:induction false} ModuleChangesAt(m: map<string, Module>, entries: seq<string>, i: nat)
    requires (forall e :: e in entries ==> e in m) && i < |entries|
    ensures |ModuleChanges(m, entries)| == |entries| && ModuleChanges(m, entries)[i] == ModuleChange(m[entries[i]])
    decreases |entries|
  {
    ModuleChangesLength(m, entries);
    ModuleChangesLength(m, entries[..|entries| - 1]);
    if i < |entries| - 1 {
      ModuleChangesAt(m, entries[..|entries| - 1], i);
    }
  }

  ghost predicate HasEntrypoint(s: Surface, e: string) {
    exists i :: Counts(s.modules, i, e)
  }

  lemma HasEntrypointIs(s: Surface, e: string)
    ensures e in ModuleMap(s.modules) <==> HasEntrypoint(s, e)
  {
    if e in ModuleMap(s.modules) {
      var i := SomeModuleCounts(s.modules, e);
    }
    if i :| Counts(s.modules, i, e) {
      LastModuleCounts(s.modules, i, e);
    }
  }

  /** What an entrypoint change says about the module that counts: its specifier, and the names of its exports in order. */
  ghost predicate EntrypointTells(c: EntrypointChange, s: Surface) {
    forall i :: Counts(s.modules, i, c.entrypoint) ==>
      && c.importSpecifier == s.modules[i].importSpecifier
      && multiset(c.exportNames) == multiset(ExportNames(s.modules[i].exports))
      && Ordered(TextLess, c.exportNames)
  }

  lemma ModuleTells(s: Surface, e: string)
    requires e in ModuleMap(s.modules)
    ensures EntrypointTells(ModuleChange(ModuleMap(s.modules)[e]), s)
  {
    var c := ModuleChange(ModuleMap(s.modules)[e]);
    forall i | Counts(s.modules, i, c.entrypoint)
      ensures && c.importSpecifier == s.modules[i].importSpecifier
              && multiset(c.exportNames) == multiset(ExportNames(s.modules[i].exports))
              && Ordered(TextLess, c.exportNames)
    {
      LastModuleCounts(s.modules, i, e);
      TextLessStrictTotal();
      SortedKeeps(TextLess, ExportNames(s.modules[i].exports));
    }
  }

  predicate Lists(list: seq<EntrypointChange>, e: string) {
    exists i :: 0 <= i < |list| && list[i].entrypoint == e
  }

  ghost predicate EntrypointsAscend(list: seq<EntrypointChange>) {
    forall i, j :: 0 <= i < j < |list| ==> Precedes(list[i].entrypoint, list[j].entrypoint)
  }

  lemma ModuleChangesList(m: map<string, Module>, entries: seq<string>)
    requires Ascending(TextLess, entries) && (forall e :: e in entries ==> e in m) && forall e :: e in m ==> m[e].entrypoint == e
    ensures var list := ModuleChanges(m, entries);
      && (forall e :: Lists(list, e) <==> e in entries)
      && (forall i :: 0 <= i < |list| ==> list[i].entrypoint in m && list[i] == ModuleChange(m[list[i].entrypoint]))
      && EntrypointsAscend(list)
  {
    var list := ModuleChanges(m, entries);
    ModuleChangesLength(m, entries);
    forall i | 0 <= i < |list| ensures list[i] == ModuleChange(m[entries[i]]) && list[i].entrypoint == entries[i] {
      ModuleChangesAt(m, entries, i);
    }
    hide ModuleChanges, ModuleChange;
    forall e | e in entries ensures Lists(list, e) {
      var i :| 0 <= i < |entries| && entries[i] == e;
      assert list[i].entrypoint == e;
    }
    forall i, j | 0 <= i < j < |list| ensures Precedes(list[i].entrypoint, list[j].entrypoint) {
      AscendingAt(TextLess, entries, i, j);
      TextLessIff(entries[i], entries[j]);
    }
  }

  /** The entrypoints listed for `to` are exactly those `from` has not, in order, each with what its module offers. */
  lemma GainedIs(from: Surface, to: Surface)
    ensures var list := Gained(ModuleMap(from.modules), ModuleMap(to.modules));
      && (forall e :: Lists(list, e) <==> HasEntrypoint(to, e) && !HasEntrypoint(from, e))
      && (forall i :: 0 <= i < |list| ==> EntrypointTells(list[i], to))
      && EntrypointsAscend(list)
  {
    var fm, tm := ModuleMap(from.modules), ModuleMap(to.modules);
    var entries := AscendingOf(tm.Keys - fm.Keys);
    var list := Gained(fm, tm);
    ModuleChangesList(tm, entries);
    hide EntrypointTells, ModuleMap, HasEntrypoint, Lists, EntrypointsAscend, ModuleChanges, ModuleChange, Ascending;
    forall i | 0 <= i < |list| ensures EntrypointTells(list[i], to) {
      ModuleTells(to, list[i].entrypoint);
    }
    forall e ensures (e in tm <==> HasEntrypoint(to, e)) && (e in fm <==> HasEntrypoint(from, e)) {
      HasEntrypointIs(to, e);
      HasEntrypointIs(from, e);
    }
    forall e ensures e in entries <==> e in tm && e !in fm {
      assert e in entries <==> e in tm.Keys - fm.Keys;
    }
  }

  /** The payload lists the entrypoints that came and those that went, and puts all declaration changes on its first row. */
  lemma PayloadIs(before: Surface, after: Surface)
    ensures var d := Diff(before, after);
      && d.entrypointsAdded == Gained(ModuleMap(before.modules), ModuleMap(after.modules))
      && d.entrypointsRemoved == Gained(ModuleMap(after.modules), ModuleMap(before.modules))
      && var ds := DeclarationChanges(SectionSet(before.declarationSections), SectionSet(after.declarationSections));
         forall i :: 0 <= i < |d.exports| ==> d.exports[i].declarationChanges == (if i == 0 then ds else [])
  {
    var bm, am := ModuleMap(before.modules), ModuleMap(after.modules);
    forall i | 0 <= i < |ChangeRows(bm, am)| ensures ChangeRows(bm, am)[i].declarationChanges == [] {
      RowIs(bm, am, i);
    }
  }

  lemma PairedForName(before: set<Section>, after: set<Section>, n: string)
    ensures forall r :: r in PairedFor(before, after, n) ==> r.name == n
  {
  }

  lemma {:induction false} PairedAllNames(before: set<Section>, after: set<Section>, names: seq<string>)
    ensures forall r :: r in PairedAll(before, after, names) ==> r.name in names
    decreases |names|
  {
    hide PairedFor;
    if names != [] {
      PairedAllNames(before, after, names[..|names| - 1]);
      PairedForName(before, after, names[|names| - 1]);
    }
  }

  ghost predicate NamesAscend(rows: seq<DeclarationChange>) {
    forall i, j :: 0 <= i < j < |rows| ==> rows[i].name == rows[j].name || Precedes(rows[i].name, rows[j].name)
  }

  lemma {:induction false} PairedAllAscends(before: set<Section>, after: set<Section>, names: seq<string>)
    requires Ascending(TextLess, names)
    ensures NamesAscend(PairedAll(before, after, names))
    decreases |names|
  {
    hide PairedFor;
    if names != [] {
      var init, last := names[..|names| - 1], names[|names| - 1];
      AscendingPrefix(names, |names| - 1);
      PairedAllAscends(before, after, init);
      PairedAllNames(before, after, init);
      PairedForName(before, after, last);
      var a, b := PairedAll(before, after, init), PairedFor(before, after, last);
      var all := a + b;
      forall i, j | 0 <= i < j < |all| ensures all[i].name == all[j].name || Precedes(all[i].name, all[j].name) {
        if i < |a| <= j {
          assert a[i] in a && b[j - |a|] in b;
          LastIsLargest(names, a[i].name);
          TextLessIff(a[i].name, last);
        } else if |a| <= i {
          assert b[i - |a|] in b && b[j - |a|] in b;
        }
      }
    }
  }

  /** Declaration rows stand in the order of their names. */
  lemma DeclarationsAscend(before: set<Section>, after: set<Section>)
    ensures NamesAscend(DeclarationChanges(before, after))
  {
    PairedAllAscends(before, after, AscendingOf(NamesOf((before - after) + (after - before))));
  }

  // ---------- the order of the input lists does not matter ----------

  ghost predicate SameModule(m: Module, m': Module) {
    && m.entrypoint == m'.entrypoint && m.importSpecifier == m'.importSpecifier
    && ExportMap(m.exports) == ExportMap(m'.exports)
    && multiset(ExportNames(m.exports)) == multiset(ExportNames(m'.exports))
  }

  ghost predicate SameModules(m: map<string, Module>, m': map<string, Module>) {
    m.Keys == m'.Keys && forall e :: e in m ==> SameModule(m[e], m'[e])
  }

  ghost predicate SameSurface(s: Surface, s': Surface) {
    && SameModules(ModuleMap(s.modules), ModuleMap(s'.modules))
    && SectionSet(s.declarationSections) == SectionSet(s'.declarationSections)
  }

  lemma {:induction false} SameExportRows(
    bm: map<string, Module>, am: map<string, Module>, bm': map<string, Module>, am': map<string, Module>,
    e: string, names: seq<string>)
    requires SameModules(bm, bm') && SameModules(am, am') && (e in bm || e in am)
    ensures ExportRows(bm, am, e, names) == ExportRows(bm', am', e, names)
    decreases |names|
  {
    if names != [] {
      SameExportRows(bm, am, bm', am', e, names[..|names| - 1]);
      assert e in bm ==> SameModule(bm[e], bm'[e]);
      assert e in am ==> SameModule(am[e], am'[e]);
    }
  }

  lemma {:induction false} SameEntryRows(
    bm: map<string, Module>, am: map<string, Module>, bm': map<string, Module>, am': map<string, Module>,
    entries: seq<string>)
    requires SameModules(bm, bm') && SameModules(am, am') && forall e :: e in entries ==> e in bm || e in am
    ensures EntryRows(bm, am, entries) == EntryRows(bm', am', entries)
    decreases |entries|
  {
    if entries != [] {
      var e := entries[|entries| - 1];
      SameEntryRows(bm, am, bm', am', entries[..|entries| - 1]);
      assert e in bm ==> SameModule(bm[e], bm'[e]);
      assert e in am ==> SameModule(am[e], am'[e]);
      SameExportRows(bm, am, bm', am', e, AscendingOf(NamesAt(bm, am, e)));
    }
  }

  lemma {:induction false} SameModuleChanges(m: map<string, Module>, m': map<string, Module>, entries: seq<string>)
    requires SameModules(m, m') && forall e :: e in entries ==> e in m
    ensures ModuleChanges(m, entries) == ModuleChanges(m', entries)
    decreases |entries|
  {
    if entries != [] {
      var e := entries[|entries| - 1];
      SameModuleChanges(m, m', entries[..|entries| - 1]);
      assert SameModule(m[e], m'[e]);
      SameSorted(ExportNames(m[e].exports), ExportNames(m'[e].exports));
    }
  }

  lemma SameSorted(a: seq<string>, b: seq<string>)
    requires multiset(a) == multiset(b)
    ensures Sorted(TextLess, a) == Sorted(TextLess, b)
  {
    TextLessStrictTotal();
    SortedKeeps(TextLess, a);
    SortedKeeps(TextLess, b);
    OrderedUnique(TextLess, Sorted(TextLess, a), Sorted(TextLess, b));
  }

  /** Surfaces that list the same things give the same payload, whatever the order of their lists. */
  lemma DiffIsCanonical(before: Surface, after: Surface, before': Surface, after': Surface)
    requires SameSurface(before, before') && SameSurface(after, after')
    ensures Diff(before, after) == Diff(before', after')
  {
    var bm, am := ModuleMap(before.modules), ModuleMap(after.modules);
    var bm', am' := ModuleMap(before'.modules), ModuleMap(after'.modules);
    SameEntryRows(bm, am, bm', am', AscendingOf(bm.Keys + am.Keys));
    SameModuleChanges(am, am', AscendingOf(am.Keys - bm.Keys));
    SameModuleChanges(bm, bm', AscendingOf(bm.Keys - am.Keys));
  }

  ghost predicate DistinctEntrypoints(ms: seq<Module>) {
    forall i, j :: 0 <= i < j < |ms| ==> ms[i].entrypoint != ms[j].entrypoint
  }

  lemma {:induction false} ModuleMapHolds(ms: seq<Module>, e: string)
    ensures e in ModuleMap(ms) <==> exists m :: m in ms && m.entrypoint == e
    ensures e in ModuleMap(ms) ==> ModuleMap(ms)[e] in ms
    decreases |ms|
  {
    if ms != [] {
      ModuleMapHolds(ms[..|ms| - 1], e);
      assert ms == ms[..|ms| - 1] + [ms[|ms| - 1]];
    }
  }

  /** Modules may be listed in any order, as long as each entrypoint is listed once. */
  lemma ModulesPermute(ms: seq<Module>, ms': seq<Module>)
    requires multiset(ms) == multiset(ms') && DistinctEntrypoints(ms)
    ensures ModuleMap(ms) == ModuleMap(ms')
  {
    forall m ensures m in ms <==> m in ms' {
      assert m in ms <==> m in multiset(ms);
    }
    forall e ensures e in ModuleMap(ms) <==> e in ModuleMap(ms') {
      ModuleMapHolds(ms, e);
      ModuleMapHolds(ms', e);
    }
    forall e | e in ModuleMap(ms) ensures ModuleMap(ms)[e] == ModuleMap(ms')[e] {
      ModuleMapHolds(ms, e);
      ModuleMapHolds(ms', e);
    }
  }

  ghost predicate DistinctExports(xs: seq<Export>) {
    forall x, x' :: x in xs && x' in xs && x.exportName == x'.exportName ==> x == x'
  }

  lemma {:induction false} ExportMapHolds(xs: seq<Export>, n: string)
    ensures n in ExportMap(xs) <==> exists x :: x in xs && x.exportName == n
    ensures n in ExportMap(xs) ==> Export(n, ExportMap(xs)[n]) in xs
    decreases |xs|
  {
    if xs != [] {
      ExportMapHolds(xs[..|xs| - 1], n);
      assert xs == xs[..|xs| - 1] + [xs[|xs| - 1]];
    }
  }

  lemma ExportsPermute(xs: seq<Export>, xs': seq<Export>)
    requires multiset(xs) == multiset(xs') && DistinctExports(xs)
    ensures ExportMap(xs) == ExportMap(xs') && multiset(ExportNames(xs)) == multiset(ExportNames(xs'))
  {
    forall x ensures x in xs <==> x in xs' {
      assert x in xs <==> x in multiset(xs);
    }
    forall n ensures n in ExportMap(xs) <==> n in ExportMap(xs') {
      ExportMapHolds(xs, n);
      ExportMapHolds(xs', n);
    }
    forall n | n in ExportMap(xs) ensures ExportMap(xs)[n] == ExportMap(xs')[n] {
      ExportMapHolds(xs, n);
      ExportMapHolds(xs', n);
    }
    NamesPermute(xs, xs');
  }

  lemma WithoutOne(xs: seq<Export>, i: nat)
    requires i < |xs|
    ensures multiset(xs[..i] + xs[i + 1..]) == multiset(xs) - multiset{xs[i]}
  {
    assert xs == xs[..i] + [xs[i]] + xs[i + 1..];
  }

  lemma TakeOne(xs: seq<Export>, xs': seq<Export>) returns (i: nat)
    requires multiset(xs) == multiset(xs') && xs != []
    ensures i < |xs'| && xs'[i] == xs[0]
    ensures multiset(xs[1..]) == multiset(xs'[..i] + xs'[i + 1..])
  {
    assert xs[0] in multiset(xs');
    i :| 0 <= i < |xs'| && xs'[i] == xs[0];
    WithoutOne(xs', i);
    assert xs == [xs[0]] + xs[1..];
  }

  lemma NothingLeft(xs: seq<Export>, xs': seq<Export>)
    requires multiset(xs) == multiset(xs') && xs == []
    ensures xs' == []
  {
    assert |multiset(xs')| == 0;
  }

  lemma NamesWithoutFirst(xs: seq<Export>)
    requires xs != []
    ensures multiset(ExportNames(xs)) == multiset{xs[0].exportName} + multiset(ExportNames(xs[1..]))
  {
    assert ExportNames(xs) == [xs[0].exportName] + ExportNames(xs[1..]);
  }

  lemma {:induction false} NamesPermute(xs: seq<Export>, xs': seq<Export>)
    requires multiset(xs) == multiset(xs')
    ensures multiset(ExportNames(xs)) == multiset(ExportNames(xs'))
    decreases |xs|
  {
    hide ExportNames;
    if xs == [] {
      NothingLeft(xs, xs');
    } else {
      var i := TakeOne(xs, xs');
      var rest := xs'[..i] + xs'[i + 1..];
      NamesPermute(xs[1..], rest);
      NamesWithoutOne(xs', i);
      NamesWithoutFirst(xs);
    }
  }

  lemma NamesWithoutOne(xs: seq<Export>, i: nat)
    requires i < |xs|
    ensures multiset(ExportNames(xs)) == multiset{xs[i].exportName} + multiset(ExportNames(xs[..i] + xs[i + 1..]))
  {
    var ns := ExportNames(xs);
    assert ns == ns[..i] + [ns[i]] + ns[i + 1..];
    assert ExportNames(xs[..i] + xs[i + 1..]) == ns[..i] + ns[i + 1..];
  }

  /** The same module with its exports in another order. */
  ghost predicate RearrangedModule(m: Module, m': Module) {
    && m'.entrypoint == m.entrypoint && m'.importSpecifier == m.importSpecifier
    && DistinctExports(m.exports) && multiset(m'.exports) == multiset(m.exports)
  }

  ghost predicate RearrangedEach(ms: seq<Module>, ms': seq<Module>) {
    |ms'| == |ms| && forall i :: 0 <= i < |ms| ==> RearrangedModule(ms[i], ms'[i])
  }

  /** The same surface with its modules, the exports of each module and its sections in another order. */
  ghost predicate Rearranged(s: Surface, s': Surface) {
    && DistinctEntrypoints(s.modules)
    && (exists ms :: RearrangedEach(s.modules, ms) && multiset(ms) == multiset(s'.modules))
    && multiset(s.declarationSections) == multiset(s'.declarationSections)
  }

  lemma {:induction false} RearrangedModules(ms: seq<Module>, ms': seq<Module>)
    requires RearrangedEach(ms, ms')
    ensures SameModules(ModuleMap(ms), ModuleMap(ms'))
    decreases |ms|
  {
    if ms != [] {
      var k := |ms| - 1;
      RearrangedModules(ms[..k], ms'[..k]);
      hide SameModule;
      SameOne(ms[k], ms'[k]);
    }
  }

  lemma SameOne(m: Module, m': Module)
    requires RearrangedModule(m, m')
    ensures SameModule(m, m')
  {
    ExportsPermute(m.exports, m'.exports);
  }

  lemma RearrangedIsSame(s: Surface, s': Surface)
    requires Rearranged(s, s')
    ensures SameSurface(s, s')
  {
    var ms :| RearrangedEach(s.modules, ms) && multiset(ms) == multiset(s'.modules);
    RearrangedModules(s.modules, ms);
    ModulesPermute(ms, s'.modules);
    forall x ensures x in s.declarationSections <==> x in s'.declarationSections {
      assert x in s.declarationSections <==> x in multiset(s.declarationSections);
    }
  }

  /** Rearranging modules, exports and sections on either side leaves the payload as it is. */
  lemma DiffIgnoresOrder(before: Surface, after: Surface, before': Surface, after': Surface)
    requires Rearranged(before, before') && Rearranged(after, after')
    ensures Diff(before, after) == Diff(before', after')
  {
    RearrangedIsSame(before, before');
    RearrangedIsSame(after, after');
    DiffIsCanonical(before, after, before', after');
  }

  // ---------- the loops ----------

  method IndexModules(ms: seq<Module>) returns (m: map<string, Module>)
    ensures m == ModuleMap(ms)
  {
    m := map[];
    for i := 0 to |ms|
      invariant m == ModuleMap(ms[..i])
    {
      assert ms[..i + 1][..i] == ms[..i];
      m := m[ms[i].entrypoint := ms[i]];
    }
    assert ms[..|ms|] == ms;
  }

  method IndexExports(xs: seq<Export>) returns (m: map<string, Snapshot>)
    ensures m == ExportMap(xs)
  {
    m := map[];
    for i := 0 to |xs|
      invariant m == ExportMap(xs[..i])
    {
      assert xs[..i + 1][..i] == xs[..i];
      m := m[xs[i].exportName := xs[i].surface];
    }
    assert xs[..|xs|] == xs;
  }

  /** The rows of one entrypoint. */
  method DiffExports(bm: map<string, Module>, am: map<string, Module>, e: string) returns (rows: seq<ExportChange>)
    requires e in bm || e in am
    ensures rows == ExportRows(bm, am, e, AscendingOf(NamesAt(bm, am, e)))
  {
    var beforeExports, afterExports := map[], map[];
    if e in bm {
      beforeExports := IndexExports(bm[e].exports);
    }
    if e in am {
      afterExports := IndexExports(am[e].exports);
    }
    var importSpecifier := if e in am then am[e].importSpecifier else bm[e].importSpecifier;
    var names := SortedNames(beforeExports.Keys + afterExports.Keys);
    rows := [];
    for i := 0 to |names|
      invariant rows == ExportRows(bm, am, e, names[..i])
    {
      assert names[..i + 1][..i] == names[..i];
      var n := names[i];
      if n !in beforeExports && n in afterExports {
        rows := rows + [ExportChange(e, n, Added, None, Some(afterExports[n]), importSpecifier, [])];
        continue;
      }
      if n in beforeExports && n !in afterExports {
        rows := rows + [ExportChange(e, n, Removed, Some(beforeExports[n]), None, importSpecifier, [])];
        continue;
      }
      if n !in beforeExports || n !in afterExports {
        continue;
      }
      var b, a := beforeExports[n], afterExports[n];
      if b.kind != a.kind || b.declaration != a.declaration {
        rows := rows + [ExportChange(e, n, Signature, Some(b), Some(a), importSpecifier, [])];
      } else if b.closureHash != a.closureHash {
        rows := rows + [ExportChange(e, n, Reachable, Some(b), Some(a), importSpecifier, [])];
      }
    }
    assert names[..|names|] == names;
  }

  function Kept(entries: seq<string>, s: set<string>): (r: seq<string>)
    ensures forall x :: x in r <==> x in entries && x in s
  {
    if entries == [] then []
    else
      assert entries == entries[..|entries| - 1] + [entries[|entries| - 1]];
      Kept(entries[..|entries| - 1], s) + if entries[|entries| - 1] in s then [entries[|entries| - 1]] else []
  }

  lemma {:induction false} KeptAscends(entries: seq<string>, s: set<string>)
    requires Ascending(TextLess, entries)
    ensures Ascending(TextLess, Kept(entries, s))
    decreases |entries|
  {
    if entries != [] {
      var init, last := entries[..|entries| - 1], entries[|entries| - 1];
      AscendingPrefix(entries, |entries| - 1);
      KeptAscends(init, s);
      if last in s {
        forall x | x in Kept(init, s) ensures TextLess(x, last) {
          LastIsLargest(entries, x);
        }
        AscendingSnoc(Kept(init, s), last);
      } else {
        assert Kept(init, s) + [] == Kept(init, s);
      }
    }
  }

  lemma KeptAll(entries: seq<string>, s: set<string>, all: set<string>)
    requires ListsAscending(entries, all) && s <= all
    ensures Kept(entries, s) == AscendingOf(s)
  {
    KeptAscends(entries, s);
    AscendingOfIs(Kept(entries, s), s);
  }

  lemma {:induction false} AscendingSnoc(q: seq<string>, x: string)
    requires Ascending(TextLess, q) && forall y :: y in q ==> TextLess(y, x)
    ensures Ascending(TextLess, q + [x])
    decreases |q|
  {
    if q != [] {
      AscendingSnoc(q[1..], x);
      assert (q + [x])[1..] == q[1..] + [x];
    }
  }

  lemma KeptChangesNext(m: map<string, Module>, entries: seq<string>, i: nat, s: set<string>)
    requires i < |entries| && s <= m.Keys
    ensures ModuleChanges(m, Kept(entries[..i + 1], s))
         == ModuleChanges(m, Kept(entries[..i], s)) + if entries[i] in s then [ModuleChange(m[entries[i]])] else []
  {
    assert entries[..i + 1][..i] == entries[..i];
    var k := Kept(entries[..i], s);
    assert (k + [entries[i]])[..|k|] == k && k + [] == k;
  }

  lemma EntryRowsNext(bm: map<string, Module>, am: map<string, Module>, entries: seq<string>, i: nat)
    requires i < |entries| && forall e :: e in entries ==> e in bm || e in am
    ensures EntryRows(bm, am, entries[..i + 1])
         == EntryRows(bm, am, entries[..i]) + ExportRows(bm, am, entries[i], AscendingOf(NamesAt(bm, am, entries[i])))
  {
    assert entries[..i + 1][..i] == entries[..i];
  }

  method DiffPluginSdkApi(before: Surface, after: Surface) returns (d: Payload)
    ensures d == Diff(before, after)
  {
    hide ModuleMap, EntryRows, ModuleChanges, ModuleChange, Kept, ExportRows, DeclarationChanges;
    var bm := IndexModules(before.modules);
    var am := IndexModules(after.modules);
    var entries := SortedNames(bm.Keys + am.Keys);
    ghost var gained, lost := am.Keys - bm.Keys, bm.Keys - am.Keys;
    assert forall e :: e in entries ==> e in bm.Keys + am.Keys;
    assert entries[..0] == [];
    NothingYet(bm, am, gained, lost);
    var added, removed, rows := [], [], [];
    for i := 0 to |entries|
      invariant added == ModuleChanges(am, Kept(entries[..i], gained))
      invariant removed == ModuleChanges(bm, Kept(entries[..i], lost))
      invariant forall e :: e in entries[..i] ==> e in bm || e in am
      invariant rows == EntryRows(bm, am, entries[..i])
    {
      var e := entries[i];
      assert entries[..i + 1] == entries[..i] + [e] && e in bm.Keys + am.Keys;
      KeptChangesNext(am, entries, i, gained);
      KeptChangesNext(bm, entries, i, lost);
      EntryRowsNext(bm, am, entries, i);
      if e !in bm && e in am {
        added := added + [ModuleChange(am[e])];
      }
      if e in bm && e !in am {
        removed := removed + [ModuleChange(bm[e])];
      }
      var more := DiffExports(bm, am, e);
      rows := rows + more;
    }
    assert entries[..|entries|] == entries;
    KeptAll(entries, gained, bm.Keys + am.Keys);
    KeptAll(entries, lost, bm.Keys + am.Keys);
    if rows != [] {
      var ds := CollectDeclarationChanges(before.declarationSections, after.declarationSections);
      rows := [rows[0].(declarationChanges := ds)] + rows[1..];
    }
    d := Payload(added, removed, rows);
  }

  lemma NothingYet(bm: map<string, Module>, am: map<string, Module>, gained: set<string>, lost: set<string>)
    requires gained <= am.Keys && lost <= bm.Keys
    ensures ModuleChanges(am, Kept([], gained)) == [] && ModuleChanges(bm, Kept([], lost)) == []
    ensures EntryRows(bm, am, []) == []
  {
  }

  /** Texts that only the first list has, grouped by name. */
  method GroupMissing(from: seq<Section>, other: seq<Section>) returns (groups: map<string, set<string>>)
    ensures groups.Keys == NamesOf(SectionSet(from) - SectionSet(other))
    ensures forall n :: n in groups ==> groups[n] == TextsOf(SectionSet(from) - SectionSet(other), n)
  {
    groups := map[];
    for i := 0 to |from|
      invariant groups.Keys == NamesOf(SectionSet(from[..i]) - SectionSet(other))
      invariant forall n :: n in groups ==> groups[n] == TextsOf(SectionSet(from[..i]) - SectionSet(other), n)
    {
      var x := from[i];
      ghost var prior := SectionSet(from[..i]) - SectionSet(other);
      assert from[..i + 1] == from[..i] + [x];
      if x !in other {
        assert SectionSet(from[..i + 1]) - SectionSet(other) == prior + {x};
        GroupNext(prior, x);
        groups := groups[x.name := (if x.name in groups then groups[x.name] else {}) + {x.text}];
      } else {
        assert SectionSet(from[..i + 1]) - SectionSet(other) == prior;
      }
    }
    assert from[..|from|] == from;
  }

  lemma GroupNext(s: set<Section>, x: Section)
    ensures NamesOf(s + {x}) == NamesOf(s) + {x.name}
    ensures forall n :: TextsOf(s + {x}, n) == TextsOf(s, n) + if n == x.name then {x.text} else {}
    ensures x.name !in NamesOf(s) ==> TextsOf(s, x.name) == {}
  {
  }

  method CollectDeclarationChanges(before: seq<Section>, after: seq<Section>) returns (rows: seq<DeclarationChange>)
    ensures rows == DeclarationChanges(SectionSet(before), SectionSet(after))
  {
    var removedByName := GroupMissing(before, after);
    var addedByName := GroupMissing(after, before);
    ghost var b, a := SectionSet(before), SectionSet(after);
    assert NamesOf((b - a) + (a - b)) == NamesOf(b - a) + NamesOf(a - b);
    var names := SortedNames(removedByName.Keys + addedByName.Keys);
    rows := [];
    for i := 0 to |names|
      invariant rows == PairedAll(b, a, names[..i])
    {
      assert names[..i + 1][..i] == names[..i];
      var n := names[i];
      assert n !in removedByName ==> TextsOf(b - a, n) == {};
      assert n !in addedByName ==> TextsOf(a - b, n) == {};
      var removed := SortedNames(if n in removedByName then removedByName[n] else {});
      var added := SortedNames(if n in addedByName then addedByName[n] else {});
      var pairs := PairUp(n, removed, added);
      rows := rows + pairs;
    }
    assert names[..|names|] == names;
  }

  method PairUp(n: string, removed: seq<string>, added: seq<string>) returns (rows: seq<DeclarationChange>)
    ensures rows == Paired(n, removed, added)
  {
    rows := [];
    var count := Larger(|removed|, |added|);
    for index := 0 to count
      invariant rows == Paired(n, removed, added)[..index]
    {
      rows := rows + [DeclarationChange(TextAt(added, index), TextAt(removed, index), n)];
    }
  }
}
