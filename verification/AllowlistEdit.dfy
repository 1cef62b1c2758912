/** Editing an allowlist inside a configuration document: what an edit writes, and what is read back. */
module AllowlistEdit {
  import opened Options
  import opened StringCoercion
  import opened TextOrder
  import opened ConfigTree

  datatype Paths = Paths(read: seq<Path>, write: Path, cleanup: seq<Path>)

  const DM_PATHS := Paths([["allowFrom"]], ["allowFrom"], [])
  const GROUP_PATHS := Paths([["groupAllowFrom"]], ["groupAllowFrom"], [])
  const LEGACY_DM_PATHS := Paths([["allowFrom"], ["dm", "allowFrom"]], ["allowFrom"], [["dm", "allowFrom"]])

  datatype Action = Add | Remove

  /** The channel, the account, and the helpers that name it. */
  datatype Context = Context(
    channel: string,
    account: string,
    defaultAccount: string,
    blocked: bool,
    lookup: set<string> -> Option<string>)

  /** One edit. `normalize` is applied to each entry by itself. */
  datatype Edit = Edit(action: Action, entry: string, normalize: string -> seq<string>, effective: seq<string>, paths: Paths)

  datatype Outcome = InvalidEntry | Done(changed: bool) | Throws

  // ---------- stored entries ----------

  /** An entry as text, as string conversion gives it. */
  function Show(v: Value): string {
    match v
    case Null => "null"
    case Scalar(text) => text
    case Record(_) => "[object Object]"
    case Array(items, _) => ShowItems(items)
  }

  function ShowItems(items: seq<Value>): string {
    if items == [] then ""
    else
      (if items[0].Null? then "" else Show(items[0])) + (if |items| == 1 then "" else ",") + ShowItems(items[1..])
  }

  function ShowAll(items: seq<Value>): (r: seq<string>)
    ensures |r| == |items|
  {
    seq(|items|, i requires 0 <= i < |items| => Show(items[i]))
  }

  function Texts(list: seq<string>): (r: seq<Value>)
    ensures |r| == |list|
  {
    seq(|list|, i requires 0 <= i < |list| => Scalar(list[i]))
  }

  /** Trimmed, without empty texts, each text once, in the order first seen. */
  function UniqueEntries(list: seq<string>): seq<string> {
    if list == [] then []
    else
      var r := UniqueEntries(list[..|list| - 1]);
      var t := Trim(list[|list| - 1]);
      if t == "" || t in r then r else r + [t]
  }

  predicate IsList(v: Value, p: Path) {
    Get(v, p).Some? && Get(v, p).value.Array?
  }

  predicate HasStoredList(target: Value, read: seq<Path>) {
    exists i :: 0 <= i < |read| && IsList(target, read[i])
  }

  function StoredEntries(target: Value, read: seq<Path>): seq<string> {
    if read == [] then []
    else
      var last := read[|read| - 1];
      StoredEntries(target, read[..|read| - 1])
      + if IsList(target, last) then ShowAll(Get(target, last).value.items) else []
  }

  /** The list an edit starts from: what is stored, or else what is inherited. */
  function View(target: Value, e: Edit): seq<string> {
    UniqueEntries(if HasStoredList(target, e.paths.read) then StoredEntries(target, e.paths.read) else e.effective)
  }

  // ---------- the edit on lists ----------

  predicate Matches(e: Edit, value: string) {
    exists i :: 0 <= i < |e.normalize(value)| && e.normalize(value)[i] in e.normalize(e.entry)
  }

  predicate HasMatch(e: Edit, list: seq<string>) {
    exists i :: 0 <= i < |list| && Matches(e, list[i])
  }

  function Without(e: Edit, list: seq<string>): seq<string> {
    if list == [] then []
    else
      var last := list[|list| - 1];
      Without(e, list[..|list| - 1]) + if Matches(e, last) then [] else [last]
  }

  function Next(e: Edit, list: seq<string>): seq<string> {
    match e.action
    case Add => if HasMatch(e, list) then list else list + [Trim(e.entry)]
    case Remove => Without(e, list)
  }

  predicate Changes(e: Edit, list: seq<string>) {
    if e.action.Add? then !HasMatch(e, list) else HasMatch(e, list)
  }

  /** Writing or deleting at the empty path does nothing. */
  function WriteAt(v: Value, p: Path, x: Value): Value {
    if p == [] then v else Set(v, p, x)
  }

  function DeleteAt(v: Value, p: Path): Value {
    if p == [] then v else Delete(v, p)
  }

  function DeleteAll(v: Value, ps: seq<Path>): Value {
    if ps == [] then v else DeleteAt(DeleteAll(v, ps[..|ps| - 1]), ps[|ps| - 1])
  }

  function Written(target: Value, e: Edit, next: seq<string>): Value {
    DeleteAll(WriteAt(target, e.paths.write, Array(Texts(next), map[])), e.paths.cleanup)
  }

  function EditTarget(target: Value, e: Edit): Value {
    if Changes(e, View(target, e)) then Written(target, e, Next(e, View(target, e))) else target
  }

  /** One list is written, everything read is written or cleaned, and the places do not overlap. */
  ghost predicate Canonical(p: Paths) {
    && p.write != [] && p.write[0] != "accounts" && p.write in p.read
    && (forall i :: 0 <= i < |p.cleanup| ==> p.cleanup[i] != [] && p.cleanup[i][0] != "accounts" && Independent(p.cleanup[i], p.write))
    && (forall i, j :: 0 <= i < j < |p.cleanup| ==> Independent(p.cleanup[i], p.cleanup[j]))
    && (forall r :: r in p.read ==> r == p.write || r in p.cleanup)
  }

  lemma SourcePathsAreCanonical()
    ensures Canonical(DM_PATHS) && Canonical(GROUP_PATHS) && Canonical(LEGACY_DM_PATHS)
  {
    assert DM_PATHS.write[0] == "allowFrom" && LEGACY_DM_PATHS.cleanup[0][0] == "dm";
  }

  // ---------- lists ----------

  /** What the unique, trimmed, non-empty entries of a list look like. */
  ghost predicate Clean(list: seq<string>) {
    && (forall i :: 0 <= i < |list| ==> list[i] != "" && Trim(list[i]) == list[i])
    && (forall i, j :: 0 <= i < j < |list| ==> list[i] != list[j])
  }

  lemma {:induction false} UniqueIsClean(list: seq<string>)
    ensures Clean(UniqueEntries(list))
  {
    if list != [] {
      UniqueIsClean(list[..|list| - 1]);
      TrimIff(list[|list| - 1]);
    }
  }

  lemma {:induction false} UniqueStable(list: seq<string>)
    requires Clean(list)
    ensures UniqueEntries(list) == list
  {
    if list != [] {
      var last := list[|list| - 1];
      UniqueStable(list[..|list| - 1]);
      assert last !in list[..|list| - 1];
      assert list == list[..|list| - 1] + [last];
    }
  }

  /** Entries seen before add nothing. */
  lemma {:induction false} UniqueSeen(a: seq<string>, b: seq<string>)
    requires forall i :: 0 <= i < |b| ==> Trim(b[i]) == "" || Trim(b[i]) in UniqueEntries(a)
    ensures UniqueEntries(a + b) == UniqueEntries(a)
  {
    if b == [] {
      assert a + b == a;
    } else {
      UniqueSeen(a, b[..|b| - 1]);
      assert (a + b)[..|a + b| - 1] == a + b[..|b| - 1];
    }
  }

  lemma {:induction false} WithoutIs(e: Edit, list: seq<string>)
    ensures forall x :: x in Without(e, list) <==> x in list && !Matches(e, x)
  {
    hide Matches;
    if list != [] {
      var init, last := list[..|list| - 1], list[|list| - 1];
      WithoutIs(e, init);
      assert list == init + [last];
    }
  }

  lemma {:induction false} WithoutIsClean(e: Edit, list: seq<string>)
    requires Clean(list)
    ensures Clean(Without(e, list))
  {
    hide Matches, Trim;
    if list != [] {
      var init, last := list[..|list| - 1], list[|list| - 1];
      WithoutIs(e, init);
      WithoutIsClean(e, init);
      assert last !in init;
    }
  }

  /** What is left of a list has no match. */
  lemma WithoutHasNoMatch(e: Edit, list: seq<string>)
    ensures !HasMatch(e, Without(e, list))
  {
    hide Matches;
    WithoutIs(e, list);
    hide Without;
    forall i | 0 <= i < |Without(e, list)| ensures !Matches(e, Without(e, list)[i]) {
      assert Without(e, list)[i] in Without(e, list);
    }
  }

  /** A list without a match is kept whole. */
  lemma {:induction false} WithoutKeepsAll(e: Edit, list: seq<string>)
    requires !HasMatch(e, list)
    ensures Without(e, list) == list
  {
    hide Matches;
    if list != [] {
      var init, last := list[..|list| - 1], list[|list| - 1];
      assert forall i :: 0 <= i < |init| ==> init[i] == list[i];
      WithoutKeepsAll(e, init);
      assert list == init + [last];
    }
  }

  /** The normaliser does not see outer white space. */
  ghost predicate TrimInsensitive(f: string -> seq<string>) {
    forall s: string :: f(Trim(s)) == f(s)
  }

  ghost predicate Usable(e: Edit) {
    TrimInsensitive(e.normalize) && e.normalize(e.entry) != []
  }

  lemma EntryMatchesItself(e: Edit)
    requires Usable(e)
    ensures Matches(e, Trim(e.entry))
  {
    assert e.normalize(Trim(e.entry)) == e.normalize(e.entry);
    assert e.normalize(Trim(e.entry))[0] in e.normalize(e.entry);
  }

  /** The list an edit leaves to be read: an entry of white space alone is written but never read back. */
  function Result(e: Edit, list: seq<string>): seq<string> {
    if e.action.Add? && Trim(e.entry) == "" then list else Next(e, list)
  }

  lemma NextReadsAsResult(e: Edit, list: seq<string>)
    requires Usable(e) && Clean(list)
    ensures UniqueEntries(Next(e, list)) == Result(e, list) && Clean(Result(e, list))
  {
    WithoutIsClean(e, list);
    UniqueStable(list);
    EntryMatchesItself(e);
    hide Matches;
    if e.action.Add? && !HasMatch(e, list) {
      var t := Trim(e.entry);
      TrimIff(e.entry);
      var next := list + [t];
      assert next[..|next| - 1] == list;
      assert t !in list;
    } else if e.action.Remove? {
      UniqueStable(Without(e, list));
    }
  }

  /** Adding makes the entry readable and removing makes it unreadable, and nothing else is lost or gained. */
  lemma ResultIff(e: Edit, list: seq<string>)
    requires Usable(e)
    ensures e.action.Add? ==> (HasMatch(e, Result(e, list)) <==> HasMatch(e, list) || Trim(e.entry) != "")
    ensures e.action.Remove? ==> !HasMatch(e, Result(e, list))
    ensures forall x :: !Matches(e, x) ==> (x in Result(e, list) <==> x in list)
    ensures e.action.Add? ==> list <= Result(e, list)
  {
    WithoutIs(e, list);
    WithoutHasNoMatch(e, list);
    EntryMatchesItself(e);
    hide Matches;
    if e.action.Add? && !HasMatch(e, list) && Trim(e.entry) != "" {
      var next := list + [Trim(e.entry)];
      assert Matches(e, next[|list|]);
    }
  }

  /** Removing what was just added gives back the list there was. */
  lemma RemoveUndoesAdd(e: Edit, list: seq<string>)
    requires Usable(e) && e.action.Add? && !HasMatch(e, list)
    ensures Result(e.(action := Remove), Result(e, list)) == list
  {
    var r := e.(action := Remove);
    assert forall x :: Matches(r, x) <==> Matches(e, x);
    assert !HasMatch(r, list);
    WithoutKeepsAll(r, list);
    EntryMatchesItself(e);
    if Trim(e.entry) != "" {
      var next := list + [Trim(e.entry)];
      assert next[..|next| - 1] == list;
    }
  }

  // ---------- reading back what was written ----------

  ghost predicate Cleanable(target: Value, p: Paths)
    requires Canonical(p)
  {
    forall i :: 0 <= i < |p.cleanup| ==> !Stuck(target, p.cleanup[i])
  }

  /** Deleting the paths leaves the written list and removes every one of them. */
  lemma {:induction false} AfterDeletes(v: Value, write: Path, ps: seq<Path>, all: seq<Path>)
    requires ps <= all
    requires forall i :: 0 <= i < |all| ==> all[i] != [] && Independent(all[i], write) && !Stuck(v, all[i])
    requires forall i, j :: 0 <= i < j < |all| ==> Independent(all[i], all[j])
    ensures Get(DeleteAll(v, ps), write) == Get(v, write)
    ensures forall i :: 0 <= i < |all| ==> !Stuck(DeleteAll(v, ps), all[i])
    ensures forall i :: 0 <= i < |ps| ==> Get(DeleteAll(v, ps), ps[i]).None?
  {
    if ps != [] {
      var init, last := ps[..|ps| - 1], ps[|ps| - 1];
      AfterDeletes(v, write, init, all);
      var w := DeleteAll(v, init);
      assert last == all[|ps| - 1];
      DeleteFrame(w, last, write);
      DeleteIff(w, last);
      forall i | 0 <= i < |all| ensures !Stuck(Delete(w, last), all[i]) {
        if i != |ps| - 1 {
          assert Independent(last, all[i]);
          StuckAfterDelete(w, last, all[i]);
        }
      }
      forall i | 0 <= i < |ps| - 1 ensures Get(Delete(w, last), ps[i]).None? {
        assert ps[i] == init[i] == all[i];
        assert Independent(all[i], last);
        DeleteFrame(w, last, ps[i]);
      }
    }
  }

  /** After a changing edit the write path holds the one list, and no other path that is read holds any. */
  lemma OneCanonicalPath(target: Value, e: Edit, next: seq<string>)
    requires Canonical(e.paths) && Cleanable(target, e.paths)
    ensures Get(Written(target, e, next), e.paths.write) == Some(Array(Texts(next), map[]))
    ensures forall i :: 0 <= i < |e.paths.cleanup| ==> Get(Written(target, e, next), e.paths.cleanup[i]).None?
  {
    var p := e.paths;
    var list := Array(Texts(next), map[]);
    var v := Set(target, p.write, list);
    GetOfSet(target, p.write, [], list);
    assert p.write + [] == p.write;
    forall i | 0 <= i < |p.cleanup| ensures !Stuck(v, p.cleanup[i]) {
      StuckAfterSet(target, p.write, list, p.cleanup[i]);
    }
    AfterDeletes(v, p.write, p.cleanup, p.cleanup);
  }

  lemma TextsShown(list: seq<string>)
    ensures ShowAll(Texts(list)) == list
  {
  }

  lemma {:induction false} StoredAfterWrite(v: Value, write: Path, read: seq<Path>, next: seq<string>)
    requires Get(v, write) == Some(Array(Texts(next), map[]))
    requires forall r :: r in read ==> r == write || Get(v, r).None?
    ensures UniqueEntries(StoredEntries(v, read)) == if write in read then UniqueEntries(next) else []
  {
    assert UniqueEntries([]) == [];
    TextsShown(next);
    hide UniqueEntries, Show, ShowAll, Texts;
    if read != [] {
      var init, last := read[..|read| - 1], read[|read| - 1];
      assert read == init + [last];
      StoredAfterWrite(v, write, init, next);
      var before := StoredEntries(v, init);
      if last == write {
        if write in init {
          UniqueHolds(next);
          UniqueSeen(before, next);
        } else {
          OnlyBlanks(before, next);
        }
      } else {
        assert before + [] == before;
      }
    }
  }

  lemma {:induction false} UniqueHolds(list: seq<string>)
    ensures forall i :: 0 <= i < |list| ==> Trim(list[i]) == "" || Trim(list[i]) in UniqueEntries(list)
  {
    if list != [] {
      UniqueHolds(list[..|list| - 1]);
    }
  }

  lemma {:induction false} OnlyBlanks(a: seq<string>, b: seq<string>)
    requires UniqueEntries(a) == []
    ensures UniqueEntries(a + b) == UniqueEntries(b)
  {
    if b == [] {
      assert a + b == a;
    } else {
      OnlyBlanks(a, b[..|b| - 1]);
      assert (a + b)[..|a + b| - 1] == a + b[..|b| - 1];
    }
  }

  lemma WrittenReadsBack(target: Value, e: Edit, next: seq<string>)
    requires Canonical(e.paths) && Cleanable(target, e.paths)
    ensures View(Written(target, e, next), e) == UniqueEntries(next)
  {
    OneCanonicalPath(target, e, next);
    var v := Written(target, e, next);
    hide Written, UniqueEntries, StoredEntries;
    var i :| 0 <= i < |e.paths.read| && e.paths.read[i] == e.paths.write;
    assert IsList(v, e.paths.read[i]);
    StoredAfterWrite(v, e.paths.write, e.paths.read, next);
  }

  /** What is read after an edit is the edited list, wherever the list was stored or inherited from before. */
  lemma EditReadsBack(target: Value, e: Edit)
    requires Canonical(e.paths) && Cleanable(target, e.paths) && Usable(e)
    ensures View(EditTarget(target, e), e) == Result(e, View(target, e))
  {
    hide Canonical, Cleanable, Usable, Clean, Written, UniqueEntries, StoredEntries, HasMatch;
    var list := View(target, e);
    assert Clean(list) by {
      UniqueIsClean(if HasStoredList(target, e.paths.read) then StoredEntries(target, e.paths.read) else e.effective);
    }
    if Changes(e, list) {
      NextReadsAsResult(e, list);
      WrittenReadsBack(target, e, Next(e, list));
    } else if e.action.Remove? {
      WithoutKeepsAll(e, list);
    }
  }

  /** An edit made twice changes nothing the second time, unless it adds white space alone. */
  lemma EditTwice(target: Value, e: Edit)
    requires Canonical(e.paths) && Cleanable(target, e.paths) && Usable(e)
    ensures Changes(e, View(EditTarget(target, e), e))
       <==> e.action.Add? && Trim(e.entry) == "" && !HasMatch(e, View(target, e))
  {
    EditReadsBack(target, e);
    ResultIff(e, View(target, e));
  }

  /** An entry of white space alone, added to an empty list. */
  const BLANK_EDIT := Edit(Add, " ", s => [Trim(s)], [], DM_PATHS)

  /** It is written, is not read back, and is reported as a change again. */
  lemma BlankEntryChangesTwice()
    ensures var after := EditTarget(EMPTY, BLANK_EDIT);
      && Changes(BLANK_EDIT, View(EMPTY, BLANK_EDIT))
      && after != EMPTY && View(after, BLANK_EDIT) == []
      && Changes(BLANK_EDIT, View(after, BLANK_EDIT))
  {
    var e := BLANK_EDIT;
    assert Trim(" ") == "" by {
      assert TrimStart(" ") == "";
    }
    assert TrimInsensitive(e.normalize) by {
      forall s: string ensures e.normalize(Trim(s)) == e.normalize(s) {
        TrimIff(s);
      }
    }
    assert View(EMPTY, e) == [];
    EditTwice(EMPTY, e);
    EditReadsBack(EMPTY, e);
    SourcePathsAreCanonical();
    WrittenIsList(e);
  }

  lemma WrittenIsList(e: Edit)
    requires e.paths == DM_PATHS
    ensures IsList(Written(EMPTY, e, [""]), ["allowFrom"])
  {
    SourcePathsAreCanonical();
    OneCanonicalPath(EMPTY, e, [""]);
  }
}
