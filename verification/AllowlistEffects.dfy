/** What an edit leaves in the document, told from the entries that were stored or inherited before. */
module AllowlistEffects {
  import opened Options
  import opened StringCoercion
  import opened ConfigTree
  import opened AllowlistEdit
  import opened AllowlistEditor

  // ---------- lists without repetition ----------

  ghost predicate FirstSeenAt(base: seq<string>, x: string, a: int) {
    0 <= a < |base| && Trim(base[a]) == x && forall b :: 0 <= b < a ==> Trim(base[b]) != x
  }

  ghost predicate Occurs(base: seq<string>, x: string) {
    exists a :: FirstSeenAt(base, x, a)
  }

  ghost predicate SeenBefore(base: seq<string>, x: string, y: string) {
    exists a, b :: a < b && FirstSeenAt(base, x, a) && FirstSeenAt(base, y, b)
  }

  /** The trimmed entries of `base` that are not blank and that `keep` keeps, each once, in the order first seen. */
  ghost predicate ListsOnce(list: seq<string>, base: seq<string>, keep: string -> bool) {
    && (forall x :: x in list <==> x != "" && keep(x) && Occurs(base, x))
    && (forall i, j :: 0 <= i < j < |list| ==> SeenBefore(base, list[i], list[j]))
  }

  lemma SeenGrows(base: seq<string>, x: string, a: int)
    requires base != []
    ensures var n := |base| - 1;
      FirstSeenAt(base, x, a) <==> FirstSeenAt(base[..n], x, a) || (a == n && Trim(base[n]) == x && !Occurs(base[..n], x))
  {
    hide Trim;
    var n := |base| - 1;
    var init := base[..n];
    assert forall b :: 0 <= b < n ==> init[b] == base[b];
    if a == n && Trim(base[n]) == x && !Occurs(init, x) {
      forall b | 0 <= b < n ensures Trim(base[b]) != x {
        if Trim(init[b]) == x {
          var c := FirstOf(init, x, b);
        }
      }
    }
    if FirstSeenAt(base, x, a) && a == n {
      assert forall b :: !FirstSeenAt(init, x, b);
    }
  }

  lemma FirstOf(base: seq<string>, x: string, b: nat) returns (a: int)
    requires b < |base| && Trim(base[b]) == x
    ensures FirstSeenAt(base, x, a)
  {
    a := 0;
    while Trim(base[a]) != x
      invariant 0 <= a <= b && forall c :: 0 <= c < a ==> Trim(base[c]) != x
      decreases b - a
    {
      a := a + 1;
    }
  }

  lemma {:induction false} UniqueListsOnce(base: seq<string>)
    ensures ListsOnce(UniqueEntries(base), base, x => true)
    decreases |base|
  {
    hide Trim;
    if base != [] {
      var n := |base| - 1;
      var t, r := Trim(base[n]), UniqueEntries(base[..n]);
      UniqueListsOnce(base[..n]);
      forall x, a ensures FirstSeenAt(base, x, a) <==>
        FirstSeenAt(base[..n], x, a) || (a == n && t == x && !Occurs(base[..n], x))
      {
        SeenGrows(base, x, a);
      }
      hide FirstSeenAt;
      forall x, y | SeenBefore(base[..n], x, y) ensures SeenBefore(base, x, y) {
      }
      if t != "" && t !in r {
        assert FirstSeenAt(base, t, n);
        forall x | x in r ensures SeenBefore(base, x, t) {
          var a :| FirstSeenAt(base[..n], x, a);
          SeenInside(base[..n], x, a);
          assert FirstSeenAt(base, x, a) && a < n;
        }
      }
    }
  }

  lemma SeenInside(base: seq<string>, x: string, a: int)
    requires FirstSeenAt(base, x, a)
    ensures 0 <= a < |base|
  {
  }

  /** What is left after a removal keeps its order. */
  lemma {:induction false} WithoutKeepsOrder(e: Edit, list: seq<string>, i: nat, j: nat) returns (a: nat, b: nat)
    requires i < j < |Without(e, list)|
    ensures a < b < |list| && list[a] == Without(e, list)[i] && list[b] == Without(e, list)[j]
    decreases |list|
  {
    hide Matches;
    var init, last := list[..|list| - 1], list[|list| - 1];
    if j < |Without(e, init)| {
      a, b := WithoutKeepsOrder(e, init, i, j);
    } else {
      WithoutIs(e, init);
      assert Without(e, init)[i] in init;
      a :| 0 <= a < |init| && init[a] == Without(e, init)[i];
      b := |list| - 1;
    }
  }

  /** The entry and the value have a normalised form in common. */
  ghost predicate Alike(e: Edit, x: string) {
    exists n :: n in e.normalize(x) && n in e.normalize(e.entry)
  }

  lemma MatchesIsAlike(e: Edit, x: string)
    ensures Matches(e, x) <==> Alike(e, x)
  {
  }

  lemma RemovalListsOnce(e: Edit, list: seq<string>, base: seq<string>)
    requires ListsOnce(list, base, x => true)
    ensures ListsOnce(Without(e, list), base, x => !Alike(e, x))
  {
    hide Without, Matches, Alike, SeenBefore, Occurs;
    WithoutIs(e, list);
    forall x ensures Matches(e, x) <==> Alike(e, x) {
      MatchesIsAlike(e, x);
    }
    var left := Without(e, list);
    forall i, j | 0 <= i < j < |left| ensures SeenBefore(base, left[i], left[j]) {
      var a, b := WithoutKeepsOrder(e, list, i, j);
    }
  }

  // ---------- what an edit starts from ----------

  /** The entries of the list at a path of the document; nothing but an array has any. */
  function EntriesAt(v: Value, p: Path): seq<string> {
    match Get(v, p)
    case Some(Array(items, _)) => ShowAll(items)
    case _ => []
  }

  predicate ArrayAt(v: Value, p: Path) {
    Get(v, p).Some? && Get(v, p).value.Array?
  }

  /** Inherited entries where no path that is read holds a list, and otherwise the entries of exactly those lists. */
  ghost predicate StartsFrom(v: Value, at: Path, e: Edit, base: seq<string>) {
    var read := e.paths.read;
    if forall i :: 0 <= i < |read| ==> !ArrayAt(v, at + read[i]) then base == e.effective
    else
      && (forall x :: x in base <==> exists i :: 0 <= i < |read| && x in EntriesAt(v, at + read[i]))
      && (|read| == 1 ==> base == EntriesAt(v, at + read[0]))
      && (|read| == 2 ==> base == EntriesAt(v, at + read[0]) + EntriesAt(v, at + read[1]))
  }

  function BaseOf(target: Value, e: Edit): seq<string> {
    if HasStoredList(target, e.paths.read) then StoredEntries(target, e.paths.read) else e.effective
  }

  lemma StoredSplits(target: Value, read: seq<Path>)
    requires read != []
    ensures StoredEntries(target, read) == StoredEntries(target, read[..|read| - 1]) + EntriesAt(target, read[|read| - 1])
  {
  }

  lemma {:induction false} StoredAre(target: Value, read: seq<Path>, x: string)
    ensures x in StoredEntries(target, read) <==> exists i :: 0 <= i < |read| && x in EntriesAt(target, read[i])
  {
    if read != [] {
      StoredSplits(target, read);
      StoredAre(target, read[..|read| - 1], x);
      hide StoredEntries, EntriesAt;
      assert forall i :: 0 <= i < |read| - 1 ==> read[..|read| - 1][i] == read[i];
    }
  }

  lemma StoredOfOneOrTwo(target: Value, read: seq<Path>)
    ensures |read| == 1 ==> StoredEntries(target, read) == EntriesAt(target, read[0])
    ensures |read| == 2 ==> StoredEntries(target, read) == EntriesAt(target, read[0]) + EntriesAt(target, read[1])
  {
    if |read| == 2 {
      assert read[..1] == [read[0]] && read[..1][..0] == [];
      assert StoredEntries(target, read[..1]) == StoredEntries(target, []) + EntriesAt(target, read[0]);
    } else if |read| == 1 {
      assert read[..0] == [];
    }
  }

  /** Reading inside the target is reading the document as it was. */
  lemma TargetReads(v: Value, ctx: Context, p: Path)
    requires Resolve(v, ctx).Target? && p != []
    ensures Get(TargetOf(Resolve(v, ctx)), p) == Get(v, Resolve(v, ctx).at + p)
  {
    hide Resolve;
    var r := Resolve(v, ctx);
    TargetExists(v, ctx);
    assert !(r.at + p <= r.at);
    ResolveFrame(v, ctx, r.at + p);
    GetThrough(r.root, r.at, p);
  }

  lemma BaseIs(v: Value, ctx: Context, e: Edit)
    requires Canonical(e.paths) && Resolve(v, ctx).Target?
    ensures StartsFrom(v, Resolve(v, ctx).at, e, BaseOf(TargetOf(Resolve(v, ctx)), e))
  {
    var target, at, read := TargetOf(Resolve(v, ctx)), Resolve(v, ctx).at, e.paths.read;
    forall i | 0 <= i < |read| ensures Get(target, read[i]) == Get(v, at + read[i]) {
      ReadIsNotEmpty(e.paths, read[i]);
      TargetReads(v, ctx, read[i]);
    }
    hide Canonical, Resolve, StoredEntries;
    forall x ensures x in StoredEntries(target, read) <==> exists i :: 0 <= i < |read| && x in EntriesAt(v, at + read[i]) {
      StoredAre(target, read, x);
    }
    StoredOfOneOrTwo(target, read);
  }

  lemma ReadIsNotEmpty(p: Paths, r: Path)
    requires Canonical(p) && r in p.read
    ensures r != []
  {
  }

  // ---------- what it writes ----------

  /** Some entry it starts from is like the one to be added or removed. */
  ghost predicate AnyAlike(base: seq<string>, e: Edit) {
    exists x :: x != "" && Occurs(base, x) && Alike(e, x)
  }

  /** The list an edit writes: for an addition what was there and then the entry, and for a removal what is not like it. */
  ghost predicate WrittenFrom(list: seq<string>, base: seq<string>, e: Edit) {
    match e.action
    case Add =>
      && list != [] && list[|list| - 1] == Trim(e.entry) && ListsOnce(list[..|list| - 1], base, x => true)
    case Remove => ListsOnce(list, base, x => !Alike(e, x))
  }

  ghost predicate WritesList(v: Value, p: Path, base: seq<string>, e: Edit) {
    exists list :: Get(v, p) == Some(Array(Texts(list), map[])) && WrittenFrom(list, base, e)
  }

  lemma HasMatchIs(e: Edit, base: seq<string>)
    ensures HasMatch(e, UniqueEntries(base)) <==> AnyAlike(base, e)
  {
    UniqueListsOnce(base);
    var list := UniqueEntries(base);
    hide UniqueEntries, Occurs, Matches, Alike;
    forall x ensures Matches(e, x) <==> Alike(e, x) {
      MatchesIsAlike(e, x);
    }
    if HasMatch(e, list) {
      var i :| 0 <= i < |list| && Matches(e, list[i]);
      assert list[i] in list;
    }
    if x :| x != "" && Occurs(base, x) && Alike(e, x) {
      assert x in list;
    }
  }

  lemma NextIsWritten(e: Edit, base: seq<string>)
    ensures WrittenFrom(Next(e, UniqueEntries(base)), base, e) || !Changes(e, UniqueEntries(base))
  {
    UniqueListsOnce(base);
    var list := UniqueEntries(base);
    hide UniqueEntries, ListsOnce, HasMatch;
    if e.action.Remove? {
      RemovalListsOnce(e, list, base);
    } else if !HasMatch(e, list) {
      var next := list + [Trim(e.entry)];
      assert next[..|next| - 1] == list;
    }
  }

  /** The edit of a document, told from its entries: it reports a change exactly when the entry is new, or is there to
      be removed, and then the one canonical path holds the entries there were, the inherited ones where none were
      stored, with the entry added or removed. */
  lemma EditWrites(v: Value, ctx: Context, e: Edit, base: seq<string>)
    requires Canonical(e.paths) && CleanableIn(v, ctx, e.paths) && Resolve(v, ctx).Target?
    requires base == BaseOf(TargetOf(Resolve(v, ctx)), e)
    ensures StartsFrom(v, Resolve(v, ctx).at, e, base)
    ensures EditDocument(v, ctx, e).1.InvalidEntry? <==> e.normalize(e.entry) == []
    ensures EditDocument(v, ctx, e).1 == Done(false) <==>
      e.normalize(e.entry) != [] && if e.action.Add? then AnyAlike(base, e) else !AnyAlike(base, e)
    ensures EditDocument(v, ctx, e).1 == Done(true) ==>
      WritesList(EditDocument(v, ctx, e).0, Resolve(v, ctx).at + e.paths.write, base, e)
  {
    BaseIs(v, ctx, e);
    HasMatchIs(e, base);
    var r := Resolve(v, ctx);
    var target := TargetOf(r);
    assert View(target, e) == UniqueEntries(base);
    NextIsWritten(e, base);
    hide StartsFrom, HasMatch, AnyAlike, UniqueEntries, View, Canonical, Resolve, WrittenFrom;
    if EditDocument(v, ctx, e).1 == Done(true) {
      var next := Next(e, UniqueEntries(base));
      OneCanonicalPath(target, e, next);
      GetOfSet(r.root, r.at, e.paths.write, EditTarget(target, e));
    }
  }

  // ---------- where it writes ----------

  /** Something that can neither be filled in nor edited stands at the path. */
  predicate InTheWay(v: Value, p: Path) {
    Get(v, p).Some? && !Get(v, p).value.Null? && !Get(v, p).value.Record? && !Get(v, p).value.Array?
  }

  predicate EditsChannel(v: Value, ctx: Context) {
    var accounts := ["channels", ctx.channel, "accounts"];
    ctx.blocked || (ctx.account == ctx.defaultAccount && (Get(v, accounts).None? || Get(v, accounts).value.Null? || InTheWay(v, accounts)))
  }

  /** The keys under which the channel has accounts. */
  function AccountKeys(v: Value, ctx: Context): set<string> {
    match Get(v, ["channels", ctx.channel, "accounts"])
    case Some(Record(fields)) => fields.Keys
    case Some(Array(_, fields)) => fields.Keys
    case _ => {}
  }

  /** The channel itself is edited exactly when the account is blocked, or is the default one of a channel without an
      accounts object; otherwise the account is, under the key that is found for it among the channel's accounts. */
  lemma TargetIs(v: Value, ctx: Context)
    requires Resolve(v, ctx).Target?
    ensures var found := ctx.lookup(AccountKeys(v, ctx));
      Resolve(v, ctx).at ==
        if EditsChannel(v, ctx) then ["channels", ctx.channel]
        else ["channels", ctx.channel, "accounts", if found.Some? then found.value else ctx.account]
  {
    var a := AccountsPath(ctx);
    var one := Fill(v, ["channels"]);
    var two := Fill(one, ChannelPath(ctx));
    FillFrame(v, ["channels"], a);
    FillFrame(one, ChannelPath(ctx), a);
    assert Get(two, a) == Get(v, a);
    GetOfSetSelf(two, a, EMPTY);
    hide Set;
    assert UsesChannel(two, ctx) <==> EditsChannel(v, ctx);
    var w := Fill(two, a);
    assert Get(w, a) == if IsBlankAt(v, a) then Some(EMPTY) else Get(v, a);
    assert ObjectAt(w, a) ==> Get(w, a).value.fields.Keys == AccountKeys(v, ctx);
  }

  /** The edit cannot be placed exactly when something stands in the way of the channels, or of the account to be edited. */
  lemma FailsIff(v: Value, ctx: Context)
    ensures Resolve(v, ctx).Fails? <==>
      || InTheWay(v, ["channels"])
      || (!EditsChannel(v, ctx) && (InTheWay(v, ["channels", ctx.channel]) || InTheWay(v, ["channels", ctx.channel, "accounts"])))
  {
    var c, a := ChannelPath(ctx), AccountsPath(ctx);
    var one := Fill(v, ["channels"]);
    var two := Fill(one, c);
    FillFrame(v, ["channels"], c);
    FillFrame(v, ["channels"], a);
    FillFrame(one, c, a);
    GetOfSetSelf(v, ["channels"], EMPTY);
    GetOfSetSelf(one, c, EMPTY);
    GetOfSetSelf(two, a, EMPTY);
    hide Set;
    assert UsesChannel(two, ctx) <==> EditsChannel(v, ctx);
  }
}
