/** The allowlist edit on a whole configuration document: where it writes, and what it leaves alone. */
module AllowlistEditor {
  import opened Options
  import opened StringCoercion
  import opened ConfigTree
  import opened AllowlistEdit

  datatype Resolved = Target(root: Value, at: Path) | Fails(root: Value)

  predicate IsBlankAt(v: Value, p: Path) {
    Get(v, p).None? || Get(v, p).value.Null?
  }

  /** Gives the path an empty object if nothing, or `null`, is there. */
  function Fill(v: Value, p: Path): Value {
    if IsBlankAt(v, p) then Set(v, p, EMPTY) else v
  }

  function ChannelPath(ctx: Context): Path {
    ["channels", ctx.channel]
  }

  function AccountsPath(ctx: Context): Path {
    ["channels", ctx.channel, "accounts"]
  }

  function AccountKey(ctx: Context, keys: set<string>): string {
    if ctx.lookup(keys).Some? then ctx.lookup(keys).value else ctx.account
  }

  function ResolveAccount(v: Value, ctx: Context): Resolved {
    var a := AccountsPath(ctx);
    if !ObjectAt(v, ChannelPath(ctx)) then Fails(v)
    else
      var w := Fill(v, a);
      if !ObjectAt(w, a) then Fails(w)
      else
        var at := a + [AccountKey(ctx, Get(w, a).value.fields.Keys)];
        Target(if ObjectAt(w, at) then w else Set(w, at, EMPTY), at)
  }

  predicate UsesChannel(v: Value, ctx: Context) {
    ctx.blocked || (ctx.account == ctx.defaultAccount && !ObjectAt(v, AccountsPath(ctx)))
  }

  function Resolve(v: Value, ctx: Context): Resolved {
    var one := Fill(v, ["channels"]);
    if !ObjectAt(one, ["channels"]) then Fails(one)
    else
      var two := Fill(one, ChannelPath(ctx));
      if UsesChannel(two, ctx) then Target(two, ChannelPath(ctx)) else ResolveAccount(two, ctx)
  }

  lemma GetOfSetSelf(v: Value, p: Path, x: Value)
    ensures Get(Set(v, p, x), p) == Some(x)
  {
    GetOfSet(v, p, [], x);
    assert p + [] == p;
  }

  lemma FillFills(v: Value, p: Path)
    ensures !IsBlankAt(Fill(v, p), p)
  {
    GetOfSetSelf(v, p, EMPTY);
  }

  /** Filling a path changes nothing but the path itself and what leads to it. */
  lemma FillFrame(v: Value, p: Path, q: Path)
    requires !(q <= p)
    ensures Get(Fill(v, p), q) == Get(v, q)
  {
    if p <= q {
      var rest := q[|p|..];
      assert q == p + rest;
      GetThrough(v, p, rest);
      GetOfSet(v, p, rest, EMPTY);
    } else if Fill(v, p) != v {
      SetFrame(v, p, EMPTY, q);
    }
  }

  lemma FillKeepsObject(v: Value, p: Path, q: Path)
    requires q <= p && q != p && ObjectAt(v, q)
    ensures ObjectAt(Fill(v, p), q)
  {
    SetAbove(v, p, EMPTY, q);
  }

  lemma TargetExists(v: Value, ctx: Context)
    ensures Resolve(v, ctx).Target? ==> Get(Resolve(v, ctx).root, Resolve(v, ctx).at).Some?
  {
    var one := Fill(v, ["channels"]);
    var two := Fill(one, ChannelPath(ctx));
    FillFills(one, ChannelPath(ctx));
    if Resolve(v, ctx).Target? && !UsesChannel(two, ctx) {
      var w := Fill(two, AccountsPath(ctx));
      var at := AccountsPath(ctx) + [AccountKey(ctx, Get(w, AccountsPath(ctx)).value.fields.Keys)];
      GetOfSetSelf(w, at, EMPTY);
    }
  }

  function TargetOf(r: Resolved): Value
    requires r.Target?
  {
    if Get(r.root, r.at).Some? then Get(r.root, r.at).value else Null
  }

  /** The whole edit: the document it leaves, and its outcome. */
  function EditDocument(v: Value, ctx: Context, e: Edit): (Value, Outcome) {
    match Resolve(v, ctx)
    case Fails(root) => (root, Throws)
    case Target(root, at) =>
      var target := TargetOf(Target(root, at));
      if e.normalize(e.entry) == [] then (root, InvalidEntry)
      else if !Changes(e, View(target, e)) then (root, Done(false))
      else if !IsObject(target) then (root, Throws)
      else (Set(root, at, EditTarget(target, e)), Done(true))
  }

  // ---------- the same place is found again ----------

  /** A key that is found is one of the keys, and an account's own key is found once it is there. */
  ghost predicate StableLookup(ctx: Context) {
    forall keys: set<string> ::
      if ctx.lookup(keys).Some? then ctx.lookup(keys).value in keys
      else ctx.lookup(keys + {ctx.account}) == Some(ctx.account)
  }

  /** A document in which resolving the target has nothing to create. */
  ghost predicate Ready(v: Value, ctx: Context, at: Path) {
    && ObjectAt(v, ["channels"])
    && !IsBlankAt(v, ChannelPath(ctx))
    && if UsesChannel(v, ctx) then at == ChannelPath(ctx)
       else
         && ObjectAt(v, ChannelPath(ctx)) && ObjectAt(v, AccountsPath(ctx))
         && at == AccountsPath(ctx) + [AccountKey(ctx, Get(v, AccountsPath(ctx)).value.fields.Keys)]
         && ObjectAt(v, at)
  }

  lemma ReadyResolves(v: Value, ctx: Context, at: Path)
    requires Ready(v, ctx, at)
    ensures Resolve(v, ctx) == Target(v, at)
  {
  }

  lemma AccountResolvesReady(v: Value, ctx: Context)
    requires StableLookup(ctx)
    requires ObjectAt(v, ["channels"]) && ObjectAt(v, ChannelPath(ctx)) && !UsesChannel(v, ctx)
    requires ResolveAccount(v, ctx).Target?
    ensures Ready(ResolveAccount(v, ctx).root, ctx, ResolveAccount(v, ctx).at)
  {
    var a := AccountsPath(ctx);
    assert ["channels"] <= a && ChannelPath(ctx) <= a;
    var w := Fill(v, a);
    FillKeepsObject(v, a, ["channels"]);
    FillKeepsObject(v, a, ChannelPath(ctx));
    var keys := Get(w, a).value.fields.Keys;
    var key := AccountKey(ctx, keys);
    var at := a + [key];
    if !ObjectAt(w, at) {
      var r := Set(w, at, EMPTY);
      SetAbove(w, at, EMPTY, ["channels"]);
      SetAbove(w, at, EMPTY, ChannelPath(ctx));
      SetThrough(w, a, [key], EMPTY);
      GetOfSetSelf(w, a, Set(Get(w, a).value, [key], EMPTY));
      GetOfSetSelf(w, at, EMPTY);
      assert Get(r, a).value.fields.Keys == keys + {key};
      assert ctx.lookup(keys).Some? ==> keys + {key} == keys;
    }
  }

  lemma ResolvesReady(v: Value, ctx: Context)
    requires StableLookup(ctx) && Resolve(v, ctx).Target?
    ensures Ready(Resolve(v, ctx).root, ctx, Resolve(v, ctx).at)
  {
    hide StableLookup, ResolveAccount;
    var one := Fill(v, ["channels"]);
    assert ["channels"] <= ChannelPath(ctx);
    FillKeepsObject(one, ChannelPath(ctx), ["channels"]);
    FillFills(one, ChannelPath(ctx));
    var two := Fill(one, ChannelPath(ctx));
    if !UsesChannel(two, ctx) {
      assert ObjectAt(two, ChannelPath(ctx)) by {
        NeedsChannel(two, ctx);
      }
      AccountResolvesReady(two, ctx);
    }
  }

  lemma NeedsChannel(v: Value, ctx: Context)
    requires ResolveAccount(v, ctx).Target?
    ensures ObjectAt(v, ChannelPath(ctx))
  {
  }

  /** Writing inside the target, away from the accounts, leaves the target where it is. */
  lemma ReadyStays(v: Value, ctx: Context, at: Path, target: Value)
    requires Ready(v, ctx, at) && ObjectAt(v, at) && IsObject(target)
    requires Child(target, "accounts") == Child(Get(v, at).value, "accounts")
    ensures Ready(Set(v, at, target), ctx, at)
  {
    var w := Set(v, at, target);
    var c, a := ChannelPath(ctx), AccountsPath(ctx);
    assert ["channels"] <= c && c <= a && a == c + ["accounts"];
    GetOfSetSelf(v, at, target);
    assert ["channels"] <= at;
    SetAbove(v, at, target, ["channels"]);
    if UsesChannel(v, ctx) {
      GetThrough(v, c, ["accounts"]);
      GetThrough(w, c, ["accounts"]);
      assert Get(target, ["accounts"]) == Child(target, "accounts");
      assert Get(w, a) == Get(v, a);
    } else {
      var key := Leaf(at);
      assert at == a + [key] && c <= at && c != at;
      SetAbove(v, at, target, c);
      SetThrough(v, a, [key], target);
      GetOfSetSelf(v, a, Set(Get(v, a).value, [key], target));
      GetThrough(v, a, [key]);
      assert Get(w, a).value.fields.Keys == Get(v, a).value.fields.Keys;
    }
  }

  // ---------- what the edit leaves alone ----------

  /** Outside the written and the cleaned paths of the target. */
  ghost predicate Elsewhere(p: Paths, q: Path) {
    Independent(p.write, q) && forall i :: 0 <= i < |p.cleanup| ==> Independent(p.cleanup[i], q)
  }

  lemma {:induction false} DeleteAllFrame(v: Value, ps: seq<Path>, q: Path)
    requires forall i :: 0 <= i < |ps| ==> ps[i] != [] && Independent(ps[i], q)
    ensures Get(DeleteAll(v, ps), q) == Get(v, q)
    ensures IsObject(v) ==> IsObject(DeleteAll(v, ps))
  {
    if ps != [] {
      var init, last := ps[..|ps| - 1], ps[|ps| - 1];
      DeleteAllFrame(v, init, q);
      DeleteFrame(DeleteAll(v, init), last, q);
      if IsObject(v) {
        DeleteKeepsKind(DeleteAll(v, init), last, []);
      }
    }
  }

  lemma TargetFrame(target: Value, e: Edit, q: Path)
    requires Canonical(e.paths) && Elsewhere(e.paths, q)
    ensures Get(EditTarget(target, e), q) == Get(target, q)
    ensures IsObject(target) ==> IsObject(EditTarget(target, e))
  {
    hide Changes, Next, View;
    var list := Array(Texts(Next(e, View(target, e))), map[]);
    var v := Set(target, e.paths.write, list);
    DeleteAllFrame(v, e.paths.cleanup, q);
    SetFrame(target, e.paths.write, list, q);
    if IsObject(target) {
      SetKeepsKind(target, e.paths.write, list, []);
    }
  }

  lemma AccountsUntouched(target: Value, e: Edit)
    requires Canonical(e.paths) && IsObject(target)
    ensures IsObject(EditTarget(target, e)) && Child(EditTarget(target, e), "accounts") == Child(target, "accounts")
  {
    var q := ["accounts"];
    CanonicalStarts(e.paths);
    hide Canonical, EditTarget;
    assert forall p: Path :: p != [] && p[0] != "accounts" ==> Independent(p, q);
    TargetFrame(target, e, q);
    assert Get(EditTarget(target, e), q) == Child(EditTarget(target, e), "accounts");
    assert Get(target, q) == Child(target, "accounts");
  }

  lemma CanonicalStarts(p: Paths)
    requires Canonical(p)
    ensures p.write != [] && p.write[0] != "accounts"
    ensures forall i :: 0 <= i < |p.cleanup| ==> p.cleanup[i] != [] && p.cleanup[i][0] != "accounts"
  {
  }

  lemma ResolveFrame(v: Value, ctx: Context, q: Path)
    requires Resolve(v, ctx).Target? && !(q <= Resolve(v, ctx).at)
    ensures Get(Resolve(v, ctx).root, q) == Get(v, q)
  {
    var c, a := ChannelPath(ctx), AccountsPath(ctx);
    assert ["channels"] <= c && c <= a;
    var one := Fill(v, ["channels"]);
    var two := Fill(one, c);
    var at := Resolve(v, ctx).at;
    assert c <= at;
    FillFrame(v, ["channels"], q);
    FillFrame(one, c, q);
    if !UsesChannel(two, ctx) {
      var w := Fill(two, a);
      assert a <= at;
      FillFrame(two, a, q);
      if !ObjectAt(w, at) {
        if at <= q {
          var rest := q[|at|..];
          assert q == at + rest && rest != [];
          GetThrough(w, at, rest);
          GetOfSet(w, at, rest, EMPTY);
        } else {
          SetFrame(w, at, EMPTY, q);
        }
      }
    }
  }

  /** A resolution that fails leaves everything but the path to the accounts as it was. */
  lemma FailureFrame(v: Value, ctx: Context, q: Path)
    requires Resolve(v, ctx).Fails? && !(q <= AccountsPath(ctx))
    ensures Get(Resolve(v, ctx).root, q) == Get(v, q)
  {
    var c, a := ChannelPath(ctx), AccountsPath(ctx);
    assert ["channels"] <= a && c <= a;
    var one := Fill(v, ["channels"]);
    FillFrame(v, ["channels"], q);
    FillFrame(one, c, q);
    FillFrame(Fill(one, c), a, q);
  }

  /** The paths an edit has no business with, by how its target is resolved. */
  ghost predicate Untouched(r: Resolved, ctx: Context, p: Paths, q: Path) {
    match r
    case Fails(_) => !(q <= AccountsPath(ctx))
    case Target(_, at) => !(q <= at) && (at <= q ==> Elsewhere(p, q[|at|..]))
  }

  /** Whatever the outcome, a path that neither leads to the target nor meets the edited paths reads as before. */
  lemma EditLeavesTheRest(v: Value, ctx: Context, e: Edit, q: Path)
    requires Canonical(e.paths) && Untouched(Resolve(v, ctx), ctx, e.paths, q)
    ensures Get(EditDocument(v, ctx, e).0, q) == Get(v, q)
  {
    CanonicalStarts(e.paths);
    hide Canonical, Resolve, EditTarget, View;
    var r := Resolve(v, ctx);
    if r.Fails? {
      FailureFrame(v, ctx, q);
      return;
    }
    ResolveFrame(v, ctx, q);
    TargetExists(v, ctx);
    var target := TargetOf(r);
    var changed := EditTarget(target, e);
    if r.at <= q {
      var rest := q[|r.at|..];
      assert q == r.at + rest;
      GetOfSet(r.root, r.at, rest, changed);
      GetThrough(r.root, r.at, rest);
      TargetFrame(target, e, rest);
    } else {
      SetFrame(r.root, r.at, changed, q);
    }
  }

  // ---------- reading the document back ----------

  /** The list the context reads in the document. */
  function ViewIn(v: Value, ctx: Context, e: Edit): seq<string> {
    if Resolve(v, ctx).Target? then View(TargetOf(Resolve(v, ctx)), e) else []
  }

  ghost predicate CleanableIn(v: Value, ctx: Context, p: Paths)
    requires Canonical(p)
  {
    Resolve(v, ctx).Target? ==> Cleanable(TargetOf(Resolve(v, ctx)), p)
  }

  /** A finished edit leaves a document in which the same target holds the edited values. */
  lemma EditedTarget(v: Value, ctx: Context, e: Edit)
    requires Canonical(e.paths) && StableLookup(ctx) && EditDocument(v, ctx, e).1.Done?
    ensures var r, w := Resolve(v, ctx), EditDocument(v, ctx, e).0;
      r.Target? && Resolve(w, ctx) == Target(w, r.at) && TargetOf(Target(w, r.at)) == EditTarget(TargetOf(r), e)
  {
    CanonicalStarts(e.paths);
    hide Canonical, Resolve, View, Ready, StableLookup, Changes, Written;
    var r := Resolve(v, ctx);
    var target := TargetOf(r);
    ResolvesReady(v, ctx);
    TargetExists(v, ctx);
    if Changes(e, View(target, e)) {
      AccountsUntouched(target, e);
      ReadyStays(r.root, ctx, r.at, EditTarget(target, e));
      GetOfSetSelf(r.root, r.at, EditTarget(target, e));
      ReadyResolves(Set(r.root, r.at, EditTarget(target, e)), ctx, r.at);
    } else {
      ReadyResolves(r.root, ctx, r.at);
    }
  }

  /** The list read back from the document is the edited list, and the outcome says whether it was edited. */
  lemma DocumentReadsBack(v: Value, ctx: Context, e: Edit)
    requires Canonical(e.paths) && StableLookup(ctx) && Usable(e) && CleanableIn(v, ctx, e.paths)
    requires EditDocument(v, ctx, e).1.Done?
    ensures ViewIn(EditDocument(v, ctx, e).0, ctx, e) == Result(e, ViewIn(v, ctx, e))
    ensures EditDocument(v, ctx, e).1.changed <==> Changes(e, ViewIn(v, ctx, e))
    ensures CleanableIn(EditDocument(v, ctx, e).0, ctx, e.paths)
  {
    EditedTarget(v, ctx, e);
    hide Canonical, StableLookup, Resolve, View, Changes, Written, Usable, Result;
    var target := TargetOf(Resolve(v, ctx));
    EditReadsBack(target, e);
    StillCleanable(target, e);
  }

  lemma StillCleanable(target: Value, e: Edit)
    requires Canonical(e.paths) && Cleanable(target, e.paths)
    ensures Cleanable(EditTarget(target, e), e.paths)
  {
    hide View, Changes, Next, Written;
    OneCanonicalPath(target, e, Next(e, View(target, e)));
  }

  /** Making the same edit again reports no change and leaves the document as it is. */
  lemma SecondEditChangesNothing(v: Value, ctx: Context, e: Edit)
    requires Canonical(e.paths) && StableLookup(ctx) && Usable(e) && CleanableIn(v, ctx, e.paths)
    requires EditDocument(v, ctx, e).1.Done? && (e.action.Add? ==> Trim(e.entry) != "")
    ensures var w := EditDocument(v, ctx, e).0; EditDocument(w, ctx, e) == (w, Done(false))
  {
    EditedTarget(v, ctx, e);
    hide Canonical, StableLookup, Resolve, View, Changes, Written;
    EditTwice(TargetOf(Resolve(v, ctx)), e);
  }

  /** Adding an entry that was not there and removing it again gives back the list there was. */
  lemma RemoveRestoresTheList(v: Value, ctx: Context, e: Edit)
    requires Canonical(e.paths) && StableLookup(ctx) && Usable(e) && CleanableIn(v, ctx, e.paths)
    requires e.action.Add? && EditDocument(v, ctx, e).1 == Done(true)
    ensures var w := EditDocument(v, ctx, e).0;
      var undo := EditDocument(w, ctx, e.(action := Remove));
      undo.1.Done? && ViewIn(undo.0, ctx, e) == ViewIn(v, ctx, e)
  {
    DocumentReadsBack(v, ctx, e);
    EditedTarget(v, ctx, e);
    AccountsUntouched(TargetOf(Resolve(v, ctx)), e);
    hide Resolve, View, Written, StableLookup, Canonical;
    var w := EditDocument(v, ctx, e).0;
    var r := e.(action := Remove);
    assert forall x :: View(x, r) == View(x, e) by {
      SameView(e, r);
    }
    DocumentReadsBack(w, ctx, r);
    RemoveUndoesAdd(e, ViewIn(v, ctx, e));
  }

  lemma SameView(e: Edit, r: Edit)
    requires r == e.(action := Remove)
    ensures forall x :: View(x, r) == View(x, e)
  {
  }

  // ---------- the edit in place ----------

  /** Making sure of one more object along a path is making sure of the longer path. */
  lemma EnsureOneMore(v: Value, p: Path, k: string)
    ensures var w := Set(v, p, AsObject(Get(v, p)));
      Set(w, p + [k], AsObject(Get(w, p + [k]))) == Set(v, p + [k], AsObject(Get(v, p + [k])))
  {
    var here := AsObject(Get(v, p));
    var w := Set(v, p, here);
    GetOfSetSelf(v, p, here);
    GetOfSet(v, p, [k], here);
    GetThrough(v, p, [k]);
    assert AsObject(Get(here, [k])) == AsObject(Get(v, p + [k]));
    var x := AsObject(Get(v, p + [k]));
    SetThrough(w, p, [k], x);
    SetThrough(v, p, [k], x);
    SetOfSet(v, p, here, Set(here, [k], x));
  }

  /** Making sure of the parent first does not change what a write leaves. */
  lemma EnsureThenSet(v: Value, p: Path, k: string, x: Value)
    ensures Set(Set(v, p, AsObject(Get(v, p))), p + [k], x) == Set(v, p + [k], x)
  {
    var here := AsObject(Get(v, p));
    GetOfSetSelf(v, p, here);
    SetThrough(Set(v, p, here), p, [k], x);
    SetThrough(v, p, [k], x);
    SetOfSet(v, p, here, Set(here, [k], x));
  }

  /** A field set or deleted inside a nested object is set or deleted inside the object around it. */
  lemma DeleteThrough(v: Value, at: Path, p: Path)
    requires p != [] && ObjectAt(v, at)
    ensures Set(v, at, Delete(Get(v, at).value, p)) ==
      if |p| == 1 then Set(v, at, Drop(Get(v, at).value, p[0]))
      else if ObjectAt(v, at + Parent(p)) && Get(v, at + Parent(p)).value.Record?
      then Set(v, at + Parent(p), Drop(Get(v, at + Parent(p)).value, Leaf(p)))
      else v
  {
    var target := Get(v, at).value;
    GetThrough(v, at, Parent(p));
    SetOfGet(v, at);
    if |p| == 1 {
      assert p == [p[0]] && at + Parent(p) == at;
    } else if ObjectAt(target, Parent(p)) && Get(target, Parent(p)).value.Record? {
      SetThrough(v, at, Parent(p), Drop(Get(target, Parent(p)).value, Leaf(p)));
    }
  }

  class ConfigEditor {
    var root: Value

    constructor (parsed: Value)
      ensures root == parsed
    {
      root := parsed;
    }

    method FillObject(p: Path)
      modifies this
      ensures root == Fill(old(root), p)
    {
      if IsBlankAt(root, p) {
        root := Set(root, p, EMPTY);
      }
    }

    /** The object to edit, or failure where the document's shape stops the write. */
    method ResolveWriteTarget(ctx: Context) returns (found: bool, at: Path)
      modifies this
      ensures Resolve(old(root), ctx) == if found then Target(root, at) else Fails(root)
    {
      at := ChannelPath(ctx);
      FillObject(["channels"]);
      if !ObjectAt(root, ["channels"]) {
        return false, at;
      }
      FillObject(at);
      if ctx.blocked {
        return true, at;
      }
      var hasAccounts := ObjectAt(root, AccountsPath(ctx));
      var useAccount := ctx.account != ctx.defaultAccount || hasAccounts;
      if !useAccount {
        return true, at;
      }
      if !ObjectAt(root, at) {
        return false, at;
      }
      var accounts := AccountsPath(ctx);
      FillObject(accounts);
      if !ObjectAt(root, accounts) {
        return false, at;
      }
      at := accounts + [AccountKey(ctx, Get(root, accounts).value.fields.Keys)];
      if !ObjectAt(root, at) {
        root := Set(root, at, EMPTY);
      }
      found := true;
    }

    method EnsureNestedObject(at: Path, p: Path) returns (current: Path)
      requires ObjectAt(root, at)
      modifies this
      ensures current == at + p
      ensures root == Set(old(root), current, AsObject(Get(old(root), current)))
    {
      current := at;
      SetOfGet(root, at);
      for i := 0 to |p|
        invariant current == at + p[..i]
        invariant root == Set(old(root), current, AsObject(Get(old(root), current)))
      {
        ghost var before, up := root, current;
        current := current + [p[i]];
        if !ObjectAt(root, current) {
          root := Set(root, current, EMPTY);
        } else {
          SetOfGet(root, current);
        }
        EnsureOneMore(old(root), up, p[i]);
        assert root == Set(before, current, AsObject(Get(before, current)));
      }
    }

    method SetNestedValue(at: Path, p: Path, value: Value)
      requires ObjectAt(root, at)
      modifies this
      ensures root == if p == [] then old(root) else Set(old(root), at + p, value)
    {
      if p == [] {
        return;
      }
      if |p| == 1 {
        root := Set(root, at + [p[0]], value);
        assert p == [p[0]];
        return;
      }
      var parent := EnsureNestedObject(at, Parent(p));
      EnsureThenSet(old(root), parent, Leaf(p), value);
      root := Set(root, parent + [Leaf(p)], value);
      assert parent + [Leaf(p)] == at + p;
    }

    method DeleteNestedValue(at: Path, p: Path)
      requires ObjectAt(root, at)
      modifies this
      ensures root == if p == [] then old(root) else Set(old(root), at, Delete(Get(old(root), at).value, p))
    {
      if p == [] {
        return;
      }
      DeleteThrough(root, at, p);
      if |p| == 1 {
        root := Set(root, at, Drop(Get(root, at).value, p[0]));
        return;
      }
      var parent := at + Parent(p);
      if Get(root, parent).None? || !Get(root, parent).value.Record? {
        return;
      }
      root := Set(root, parent, Drop(Get(root, parent).value, Leaf(p)));
    }

    /** Every entry of every list that is read, in order. */
    method CollectStored(at: Path, read: seq<Path>) returns (entries: seq<string>, found: bool)
      requires Get(root, at).Some?
      ensures entries == StoredEntries(Get(root, at).value, read)
      ensures found == HasStoredList(Get(root, at).value, read)
    {
      entries, found := [], false;
      var target := Get(root, at).value;
      for i := 0 to |read|
        invariant entries == StoredEntries(target, read[..i])
        invariant found == exists j :: 0 <= j < i && IsList(target, read[j])
      {
        assert read[..i + 1][..i] == read[..i];
        if IsList(target, read[i]) {
          found := true;
          var items := Get(target, read[i]).value.items;
          var before := entries;
          for j := 0 to |items|
            invariant entries == before + ShowAll(items)[..j]
          {
            entries := entries + [Show(items[j])];
          }
        }
      }
      assert read[..|read|] == read;
    }

    /** The entries to keep when one is removed. */
    method KeepOthers(e: Edit, existing: seq<string>) returns (keep: seq<string>, changed: bool)
      ensures keep == Without(e, existing) && changed == HasMatch(e, existing)
    {
      keep, changed := [], false;
      for i := 0 to |existing|
        invariant keep == Without(e, existing[..i])
        invariant changed == exists j :: 0 <= j < i && Matches(e, existing[j])
      {
        assert existing[..i + 1][..i] == existing[..i];
        if Matches(e, existing[i]) {
          changed := true;
        } else {
          keep := keep + [existing[i]];
        }
      }
      assert existing[..|existing|] == existing;
    }

    method WriteList(at: Path, e: Edit, next: seq<string>)
      requires ObjectAt(root, at)
      modifies this
      ensures root == Set(old(root), at, Written(Get(old(root), at).value, e, next))
    {
      var list := Array(Texts(next), map[]);
      ghost var target := Get(root, at).value;
      ghost var written := WriteAt(target, e.paths.write, list);
      SetNestedValue(at, e.paths.write, list);
      if e.paths.write == [] {
        SetOfGet(old(root), at);
      } else {
        SetThrough(old(root), at, e.paths.write, list);
        SetKeepsKind(target, e.paths.write, list, []);
      }
      var cleanup := e.paths.cleanup;
      for i := 0 to |cleanup|
        invariant root == Set(old(root), at, DeleteAll(written, cleanup[..i]))
        invariant IsObject(DeleteAll(written, cleanup[..i]))
      {
        ghost var so := DeleteAll(written, cleanup[..i]);
        GetOfSetSelf(old(root), at, so);
        assert cleanup[..i + 1][..i] == cleanup[..i];
        if cleanup[i] != [] {
          DeleteKeepsKind(so, cleanup[i], []);
          SetOfSet(old(root), at, so, Delete(so, cleanup[i]));
        }
        DeleteNestedValue(at, cleanup[i]);
      }
      assert cleanup[..|cleanup|] == cleanup;
    }

    method ApplyEdit(ctx: Context, e: Edit) returns (outcome: Outcome)
      modifies this
      ensures (root, outcome) == EditDocument(old(root), ctx, e)
    {
      hide Resolve, Written, StoredEntries, HasStoredList, Without, HasMatch, UniqueEntries;
      TargetExists(root, ctx);
      var found, at := ResolveWriteTarget(ctx);
      if !found {
        return Throws;
      }
      assert Resolve(old(root), ctx) == Target(root, at);
      var stored, hasStoredList := CollectStored(at, e.paths.read);
      var existing := UniqueEntries(if hasStoredList then stored else e.effective);
      assert existing == View(Get(root, at).value, e);
      if e.normalize(e.entry) == [] {
        return InvalidEntry;
      }
      var next, changed := existing, false;
      if e.action.Add? {
        if !HasMatch(e, existing) {
          next, changed := existing + [Trim(e.entry)], true;
        }
      } else {
        next, changed := KeepOthers(e, existing);
      }
      assert changed == Changes(e, existing);
      if !changed {
        return Done(false);
      }
      if !ObjectAt(root, at) {
        return Throws;
      }
      WriteList(at, e, next);
      outcome := Done(true);
    }
  }
}
