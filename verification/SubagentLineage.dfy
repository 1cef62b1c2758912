/** Subagent sessions: how deep a session is, what its depth lets it spawn, and which sessions are subagents. */
module SubagentLineage {
  import opened FiniteSets
  import opened Options
  import opened StringCoercion

  datatype DepthValue = NoDepth | Whole(n: int) | Fractional | TextDepth(text: string)

  datatype Entry = Entry(sessionId: Option<string>, spawnDepth: DepthValue, spawnedBy: Option<string>)

  type Store = map<string, Entry>

  /** What a session key alone says about depth, and how a number is read from text. */
  datatype Helpers = Helpers(depth: string -> nat, parse: string -> Option<int>)

  function NormalizeSpawnDepth(h: Helpers, v: DepthValue): Option<nat> {
    match v
    case Whole(n) => if n >= 0 then Some(n) else None
    case TextDepth(text) => if h.parse(text).Some? && h.parse(text).value >= 0 then Some(h.parse(text).value) else None
    case _ => None
  }

  function StoredDepth(h: Helpers, store: Store, key: string): Option<nat> {
    if key in store then NormalizeSpawnDepth(h, store[key].spawnDepth) else None
  }

  function ParentOf(store: Store, key: string): Option<string> {
    if key in store then NormalizeOptional(store[key].spawnedBy) else None
  }

  function DepthFrom(h: Helpers, store: Store, key: string, visited: set<string>): Option<nat>
    decreases |store.Keys - visited|
  {
    if key in visited then None
    else if StoredDepth(h, store, key).Some? then StoredDepth(h, store, key)
    else if ParentOf(store, key).None? then None
    else
      var parent := ParentOf(store, key).value;
      RoomShrinks(store.Keys, visited, key);
      var above := DepthFrom(h, store, parent, visited + {key});
      Some(if above.Some? then above.value + 1 else h.depth(parent) + 1)
  }

  function Depth(h: Helpers, store: Store, key: string): nat {
    var d := DepthFrom(h, store, key, {});
    if key != "" && d.Some? then d.value else h.depth(key)
  }

  // ---------- lineages ----------

  /** A session whose depth comes from its parent. */
  predicate Inherits(h: Helpers, store: Store, key: string) {
    StoredDepth(h, store, key).None? && ParentOf(store, key).Some?
  }

  /** The chain of parents, up to the first session that does not inherit or that was seen before. */
  ghost predicate IsLineage(h: Helpers, store: Store, chain: seq<string>, visited: set<string>) {
    && chain != []
    && (forall i :: 0 <= i < |chain| - 1 ==>
          Inherits(h, store, chain[i]) && ParentOf(store, chain[i]) == Some(chain[i + 1]) && chain[i] !in visited)
    && (forall i, j :: 0 <= i < j < |chain| - 1 ==> chain[i] != chain[j])
    && (Inherits(h, store, Last(chain)) ==> Last(chain) in visited || Last(chain) in chain[..|chain| - 1])
  }

  function Last(chain: seq<string>): string
    requires chain != []
  {
    chain[|chain| - 1]
  }

  /** What a session's depth is when its parents are not asked. */
  function BaseDepth(h: Helpers, store: Store, key: string): nat {
    if StoredDepth(h, store, key).Some? then StoredDepth(h, store, key).value else h.depth(key)
  }

  ghost predicate NoneStored(h: Helpers, store: Store, keys: set<string>) {
    forall k :: k in keys ==> StoredDepth(h, store, k).None?
  }

  lemma LineageTail(h: Helpers, store: Store, chain: seq<string>, visited: set<string>)
    requires IsLineage(h, store, chain, visited) && |chain| > 1
    ensures IsLineage(h, store, chain[1..], visited + {chain[0]})
  {
    var tail := chain[1..];
    if Inherits(h, store, Last(chain)) && Last(chain) !in visited {
      var i :| 0 <= i < |chain| - 1 && chain[i] == Last(chain);
      assert i > 0 ==> tail[..|tail| - 1][i - 1] == Last(tail);
    }
  }

  /** One step of the walk: a session that inherits asks its parent, and any other answers for itself. */
  lemma DepthStep(h: Helpers, store: Store, key: string, visited: set<string>)
    ensures key in visited ==> DepthFrom(h, store, key, visited).None?
    ensures key !in visited && !Inherits(h, store, key) ==> DepthFrom(h, store, key, visited) == StoredDepth(h, store, key)
    ensures key !in visited && Inherits(h, store, key) ==>
      var parent := ParentOf(store, key).value;
      var above := DepthFrom(h, store, parent, visited + {key});
      DepthFrom(h, store, key, visited) == Some(if above.Some? then above.value + 1 else h.depth(parent) + 1)
  {
    hide StoredDepth;
    if key !in visited && Inherits(h, store, key) {
      RoomShrinks(store.Keys, visited, key);
    }
  }

  lemma {:induction false} DepthFromIs(h: Helpers, store: Store, chain: seq<string>, visited: set<string>)
    requires IsLineage(h, store, chain, visited) && NoneStored(h, store, visited)
    ensures DepthFrom(h, store, chain[0], visited)
         == if |chain| == 1 && StoredDepth(h, store, chain[0]).None? then None
            else Some(|chain| - 1 + BaseDepth(h, store, Last(chain)))
    decreases |chain|
  {
    hide StoredDepth, ParentOf, DepthFrom;
    DepthStep(h, store, chain[0], visited);
    if |chain| > 1 {
      LineageTail(h, store, chain, visited);
      DepthFromIs(h, store, chain[1..], visited + {chain[0]});
    }
  }

  lemma LineageExtends(h: Helpers, store: Store, key: string, rest: seq<string>, visited: set<string>)
    requires Inherits(h, store, key) && key !in visited
    requires IsLineage(h, store, rest, visited + {key}) && ParentOf(store, key) == Some(rest[0])
    ensures IsLineage(h, store, [key] + rest, visited)
  {
    hide Inherits, ParentOf;
    var chain := [key] + rest;
    forall i, j | 0 <= i < j < |chain| - 1 ensures chain[i] != chain[j] {
      assert chain[j] == rest[j - 1];
    }
    assert chain[..|chain| - 1] == [key] + rest[..|rest| - 1];
  }

  lemma {:induction false} LineageExists(h: Helpers, store: Store, key: string, visited: set<string>) returns (chain: seq<string>)
    ensures IsLineage(h, store, chain, visited) && chain[0] == key
    decreases |store.Keys - visited|
  {
    if key in visited || !Inherits(h, store, key) {
      chain := [key];
    } else {
      RoomShrinks(store.Keys, visited, key);
      var rest := LineageExists(h, store, ParentOf(store, key).value, visited + {key});
      LineageExtends(h, store, key, rest, visited);
      chain := [key] + rest;
    }
  }

  /** Whatever the parents form, a cycle included, depth is the length of the lineage and the depth where it ends. */
  lemma DepthIs(h: Helpers, store: Store, chain: seq<string>)
    requires IsLineage(h, store, chain, {}) && (chain[0] == "" ==> |chain| == 1 && StoredDepth(h, store, "").None?)
    ensures Depth(h, store, chain[0]) == |chain| - 1 + BaseDepth(h, store, Last(chain))
  {
    DepthFromIs(h, store, chain, {});
  }

  /** A session that inherits is one deeper than its parent, unless it is its own ancestor and its key says otherwise. */
  lemma ChildIsOneDeeperIff(h: Helpers, store: Store, child: string, chain: seq<string>)
    requires child != "" && Inherits(h, store, child)
    requires IsLineage(h, store, chain, {}) && ParentOf(store, child) == Some(chain[0])
    ensures Depth(h, store, child) == Depth(h, store, chain[0]) + 1
       <==> child !in chain || h.depth(child) == h.depth(chain[0]) + 1
  {
    DepthIs(h, store, chain);
    if child in chain {
      var round := [child] + chain[..|chain| - 1];
      CycleTurns(h, store, child, chain);
      DepthIs(h, store, round);
    } else {
      var longer := [child] + chain;
      LineageGrows(h, store, child, chain);
      DepthIs(h, store, longer);
    }
  }

  /** A session stored as its own parent has depth one, and is not one deeper than that parent. */
  lemma OwnParentIsNotDeeper(h: Helpers)
    requires forall key :: h.depth(key) == 0
    ensures var store := map["s" := Entry(None, NoDepth, Some("s"))];
      && ParentOf(store, "s") == Some("s") && Depth(h, store, "s") == 1
  {
    var store := map["s" := Entry(None, NoDepth, Some("s"))];
    assert Trim("s") == "s" by {
      TrimIff("s");
    }
    DepthIs(h, store, ["s", "s"]);
  }

  lemma LineageGrows(h: Helpers, store: Store, child: string, chain: seq<string>)
    requires Inherits(h, store, child) && child !in chain
    requires IsLineage(h, store, chain, {}) && ParentOf(store, child) == Some(chain[0])
    ensures IsLineage(h, store, [child] + chain, {}) && Last([child] + chain) == Last(chain)
  {
    var longer := [child] + chain;
    forall i, j | 0 <= i < j < |longer| - 1 ensures longer[i] != longer[j] {
      assert longer[j] == chain[j - 1];
      assert chain[j - 1] in chain;
    }
    assert longer[..|longer| - 1] == [child] + chain[..|chain| - 1];
  }

  /** A cycle read from one of its sessions is the same cycle read from the next, one step further round. */
  lemma CycleTurns(h: Helpers, store: Store, child: string, chain: seq<string>)
    requires Inherits(h, store, child) && child in chain
    requires IsLineage(h, store, chain, {}) && ParentOf(store, child) == Some(chain[0])
    ensures |chain| > 1 && Last(chain) == chain[0] && chain[|chain| - 2] == child
    ensures IsLineage(h, store, [child] + chain[..|chain| - 1], {})
  {
    hide Inherits, ParentOf;
    var n := |chain| - 1;
    assert chain == chain[..n] + [Last(chain)];
    assert child in chain[..n];
    var j :| 0 <= j < n && chain[j] == child;
    assert chain[j + 1] == chain[0];
    assert j + 1 == n;
    var round := [child] + chain[..n];
    assert |round| == n + 1 && round[n] == child && round[..n][0] == child;
    forall a, b | 0 <= a < b < |round| - 1 ensures round[a] != round[b] {
      assert round[b] == chain[b - 1];
      assert a > 0 ==> round[a] == chain[a - 1];
    }
    forall i | 0 <= i < |round| - 1
      ensures Inherits(h, store, round[i]) && ParentOf(store, round[i]) == Some(round[i + 1])
    {
      assert round[i + 1] == chain[i];
      assert i > 0 ==> round[i] == chain[i - 1];
    }
  }

  /** The depth a session stores itself: a whole number, or text that reads as one, not below zero. */
  ghost predicate Stores(h: Helpers, v: DepthValue, n: int) {
    n >= 0 && (v == Whole(n) || (v.TextDepth? && h.parse(v.text) == Some(n)))
  }

  /** A session with a depth of its own has that depth. Without one it inherits if it names a parent, and otherwise has
      the depth its key says, as a session that is not stored has. */
  lemma OwnDepthFirst(h: Helpers, store: Store, key: string)
    requires key != ""
    ensures key in store ==> forall n: nat :: Stores(h, store[key].spawnDepth, n) ==> Depth(h, store, key) == n
    ensures Inherits(h, store, key) <==>
      && key in store && (forall n :: !Stores(h, store[key].spawnDepth, n))
      && store[key].spawnedBy.Some? && Trim(store[key].spawnedBy.value) != ""
    ensures !Inherits(h, store, key) && (key in store ==> forall n :: !Stores(h, store[key].spawnDepth, n)) ==>
      Depth(h, store, key) == h.depth(key)
  {
    if key in store {
      var v := store[key].spawnDepth;
      assert NormalizeSpawnDepth(h, v).Some? ==> Stores(h, v, NormalizeSpawnDepth(h, v).value);
      assert forall n: nat :: Stores(h, v, n) ==> NormalizeSpawnDepth(h, v) == Some(n);
    }
    DepthStep(h, store, key, {});
    hide Trim, DepthFrom;
  }

  // ---------- spawning ----------

  /** Floor of a finite number, or the fallback, not below a least value. */
  function IntegerOption(value: Option<real>, fallback: int, least: int): (r: int)
    ensures r >= least
  {
    var n := if value.Some? then value.value.Floor else fallback;
    if n < least then least else n
  }

  datatype Role = Main | Orchestrator | LeafRole

  function RoleForDepth(depth: Option<real>, maxDepth: Option<real>, defaultMax: int): Role {
    var d := IntegerOption(depth, 0, 0);
    var m := IntegerOption(maxDepth, defaultMax, 1);
    if d <= 0 then Main else if d < m then Orchestrator else LeafRole
  }

  datatype Capabilities = Capabilities(depth: int, role: Role, controlsChildren: bool, canSpawn: bool)

  function ResolveCapabilities(depth: Option<real>, maxDepth: Option<real>, defaultMax: int): Capabilities {
    var role := RoleForDepth(depth, maxDepth, defaultMax);
    Capabilities(IntegerOption(depth, 0, 0), role, !role.LeafRole?, role.Main? || role.Orchestrator?)
  }

  /** The number rounded down, but not below the least one. */
  lemma IntegerOptionIs(value: Option<real>, fallback: int, least: int)
    ensures var r := IntegerOption(value, fallback, least);
      match value
      case None => r == if fallback >= least then fallback else least
      case Some(x) => if x >= least as real then r as real <= x < r as real + 1.0 else r == least
  {
  }

  /** Depth nothing is the main session; at the limit or beyond a session is a leaf, and below it an orchestrator. */
  lemma RoleIs(depth: nat, maxDepth: Option<real>, defaultMax: int)
    ensures var role := ResolveCapabilities(Some(depth as real), maxDepth, defaultMax).role;
      && (role.Main? <==> depth == 0)
      && (role.LeafRole? <==> depth > 0 && depth >= IntegerOption(maxDepth, defaultMax, 1))
  {
    assert (depth as real).Floor == depth;
  }

  lemma CanSpawnIff(depth: nat, maxDepth: Option<real>, defaultMax: int)
    ensures var c := ResolveCapabilities(Some(depth as real), maxDepth, defaultMax);
      && (c.canSpawn <==> depth < IntegerOption(maxDepth, defaultMax, 1))
      && (c.controlsChildren <==> c.canSpawn) && c.depth == depth
  {
    assert (depth as real).Floor == depth;
  }

  /** A new session that stores no depth of its own. */
  function Spawned(store: Store, child: string, parent: string): Store {
    store[child := Entry(None, NoDepth, Some(parent))]
  }

  /** A key nobody has used, as a session or as a parent. */
  ghost predicate Unused(store: Store, child: string) {
    child != "" && child !in store && forall k :: k in store ==> ParentOf(store, k) != Some(child)
  }

  lemma SpawnKeepsOthers(h: Helpers, store: Store, child: string, parent: string, k: string)
    requires k != child
    ensures var grown := Spawned(store, child, parent);
      && Inherits(h, grown, k) == Inherits(h, store, k) && ParentOf(grown, k) == ParentOf(store, k)
      && BaseDepth(h, grown, k) == BaseDepth(h, store, k)
  {
  }

  lemma SpawnKeepsLineage(h: Helpers, store: Store, child: string, parent: string, chain: seq<string>)
    requires Unused(store, child) && IsLineage(h, store, chain, {}) && chain[0] != child
    ensures IsLineage(h, Spawned(store, child, parent), chain, {})
    ensures child !in chain && Last(chain) != child
  {
    forall i | 0 <= i < |chain| ensures chain[i] != child {
      if i > 0 {
        assert ParentOf(store, chain[i - 1]) == Some(chain[i]);
      }
    }
    forall i | 0 <= i < |chain|
      ensures Inherits(h, Spawned(store, child, parent), chain[i]) == Inherits(h, store, chain[i])
      ensures ParentOf(Spawned(store, child, parent), chain[i]) == ParentOf(store, chain[i])
    {
      SpawnKeepsOthers(h, store, child, parent, chain[i]);
    }
    hide Inherits, ParentOf, Spawned;
  }

  /** A spawned session is one deeper than the one that spawned it, and no other depth changes. */
  lemma SpawnDepth(h: Helpers, store: Store, child: string, parent: string, k: string)
    requires Unused(store, child) && NormalizeOptional(Some(parent)) == Some(parent) && parent != child && k != child
    requires k == "" ==> k !in store
    ensures var grown := Spawned(store, child, parent);
      Depth(h, grown, k) == Depth(h, store, k) && Depth(h, grown, child) == Depth(h, store, parent) + 1
  {
    var grown := Spawned(store, child, parent);
    var chain := LineageExists(h, store, k, {});
    SpawnKeepsLineage(h, store, child, parent, chain);
    DepthIs(h, store, chain);
    DepthIs(h, grown, chain);
    var above := LineageExists(h, store, parent, {});
    SpawnKeepsLineage(h, store, child, parent, above);
    DepthIs(h, store, above);
    DepthIs(h, grown, above);
    LineageGrows(h, grown, child, above);
    DepthIs(h, grown, [child] + above);
  }

  datatype Spawn = Spawn(child: string, parent: string)

  function SpawnAll(store: Store, spawns: seq<Spawn>): Store {
    if spawns == [] then store
    else Spawned(SpawnAll(store, spawns[..|spawns| - 1]), spawns[|spawns| - 1].child, spawns[|spawns| - 1].parent)
  }

  /** Each session is spawned under an unused key by one that may spawn at that moment. */
  ghost predicate Permitted(h: Helpers, store: Store, spawns: seq<Spawn>, maxDepth: Option<real>, defaultMax: int) {
    forall i :: 0 <= i < |spawns| ==> MaySpawn(h, SpawnAll(store, spawns[..i]), spawns[i], maxDepth, defaultMax)
  }

  ghost predicate MaySpawn(h: Helpers, now: Store, s: Spawn, maxDepth: Option<real>, defaultMax: int) {
    && Unused(now, s.child) && NormalizeOptional(Some(s.parent)) == Some(s.parent) && s.parent != s.child
    && ResolveCapabilities(Some(Depth(h, now, s.parent) as real), maxDepth, defaultMax).canSpawn
  }

  lemma SpawnStaysWithinCap(h: Helpers, now: Store, s: Spawn, maxDepth: Option<real>, defaultMax: int)
    requires MaySpawn(h, now, s, maxDepth, defaultMax) && WithinCap(h, now, IntegerOption(maxDepth, defaultMax, 1))
    ensures WithinCap(h, Spawned(now, s.child, s.parent), IntegerOption(maxDepth, defaultMax, 1))
  {
    CanSpawnIff(Depth(h, now, s.parent), maxDepth, defaultMax);
    hide Depth, ResolveCapabilities, NormalizeOptional, IntegerOption;
    forall k | k in Spawned(now, s.child, s.parent)
      ensures Depth(h, Spawned(now, s.child, s.parent), k) <= IntegerOption(maxDepth, defaultMax, 1)
    {
      SpawnDepth(h, now, s.child, s.parent, if k == s.child then s.parent else k);
    }
  }

  ghost predicate WithinCap(h: Helpers, store: Store, cap: int) {
    "" !in store && forall k :: k in store ==> Depth(h, store, k) <= cap
  }

  /** However sessions spawn one another, none is ever deeper than the limit. */
  lemma {:induction false} SpawningStaysWithinCap(
      h: Helpers, store: Store, spawns: seq<Spawn>, maxDepth: Option<real>, defaultMax: int)
    requires WithinCap(h, store, IntegerOption(maxDepth, defaultMax, 1))
    requires Permitted(h, store, spawns, maxDepth, defaultMax)
    ensures WithinCap(h, SpawnAll(store, spawns), IntegerOption(maxDepth, defaultMax, 1))
  {
    hide WithinCap, MaySpawn, IntegerOption, Spawned;
    if spawns != [] {
      var init, s := spawns[..|spawns| - 1], spawns[|spawns| - 1];
      forall i | 0 <= i < |init| ensures MaySpawn(h, SpawnAll(store, init[..i]), init[i], maxDepth, defaultMax) {
        assert init[..i] == spawns[..i];
      }
      SpawningStaysWithinCap(h, store, init, maxDepth, defaultMax);
      SpawnStaysWithinCap(h, SpawnAll(store, init), s, maxDepth, defaultMax);
    }
  }

  // ---------- the walk ----------

  lemma ParentIsTrimmed(store: Store, key: string)
    ensures ParentOf(store, key).Some? ==> Trim(ParentOf(store, key).value) == ParentOf(store, key).value != ""
    ensures ParentOf(store, key).Some? ==> key in store
  {
    if ParentOf(store, key).Some? {
      TrimIff(store[key].spawnedBy.value);
    }
  }

  class DepthWalk {
    var visited: set<string>

    constructor ()
      ensures visited == {}
    {
      visited := {};
    }

    method DepthFromStore(h: Helpers, store: Store, key: string) returns (depth: Option<nat>)
      modifies this
      ensures depth == if Trim(key) == "" then None else DepthFrom(h, store, Trim(key), old(visited))
      decreases |store.Keys - visited|
    {
      var normalized := NormalizeOptional(Some(key));
      if normalized.None? {
        return None;
      }
      var at := normalized.value;
      if at in visited {
        return None;
      }
      ghost var before := visited;
      visited := visited + {at};
      var stored := StoredDepth(h, store, at);
      if stored.Some? {
        return stored;
      }
      var parent := ParentOf(store, at);
      if parent.None? {
        return None;
      }
      ParentIsTrimmed(store, at);
      hide Trim, Tidy, ParentOf;
      RoomShrinks(store.Keys, before, at);
      var above := DepthFromStore(h, store, parent.value);
      if above.Some? {
        return Some(above.value + 1);
      }
      return Some(h.depth(parent.value) + 1);
    }
  }

  method GetSubagentDepth(h: Helpers, store: Store, sessionKey: Option<string>) returns (depth: nat)
    ensures var raw := if sessionKey.None? then "" else Trim(sessionKey.value);
      && depth == Depth(h, store, raw)
      && (raw != "" ==> exists chain :: IsLineage(h, store, chain, {}) && chain[0] == raw
                                        && depth == |chain| - 1 + BaseDepth(h, store, Last(chain)))
  {
    var raw := if sessionKey.None? then "" else Trim(sessionKey.value);
    if raw == "" {
      return h.depth("");
    }
    TrimIff(sessionKey.value);
    var walk := new DepthWalk();
    var found := walk.DepthFromStore(h, store, raw);
    depth := if found.Some? then found.value else h.depth(raw);
    ghost var chain := LineageExists(h, store, raw, {});
    DepthIs(h, store, chain);
  }

  /** The first stored session with the identifier. */
  method FindEntryById(entries: seq<Entry>, sessionId: string) returns (found: Option<nat>)
    ensures match found
      case Some(i) => i < |entries| && Trim(sessionId) != "" && NormalizeOptional(entries[i].sessionId) == Some(Trim(sessionId))
                      && forall j :: 0 <= j < i ==> NormalizeOptional(entries[j].sessionId) != Some(Trim(sessionId))
      case None => forall j :: 0 <= j < |entries| ==> NormalizeOptional(entries[j].sessionId) != Some(Trim(sessionId))
  {
    var wanted := NormalizeOptional(Some(sessionId));
    if wanted.None? {
      return None;
    }
    for i := 0 to |entries|
      invariant forall j :: 0 <= j < i ==> NormalizeOptional(entries[j].sessionId) != wanted
    {
      if NormalizeOptional(entries[i].sessionId) == wanted {
        return Some(i);
      }
    }
    found := None;
  }
}
