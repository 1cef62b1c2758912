/** Which sessions count as subagents: by their key, by their stored envelope, or through the sessions they came from. */
module SubagentEnvelope {
  import opened FiniteSets
  import opened Options
  import opened StringCoercion

  datatype Kind = Subagent | Dashboard | Acp | Other

  /** What a stored session says: a role or scope of its own, a whole spawn depth of one or more, and where it was spawned. */
  datatype Envelope = Envelope(marked: bool, spawned: bool, spawnedBy: Option<string>) {

    function Parent(): Option<string> {
      NormalizeOptional(spawnedBy)
    }
  }

  /** `given` is the caller's store, and `loaded` what is read from disk where that store does not apply. */
  datatype Sessions = Sessions(
    kind: string -> Kind,
    sameAgent: (string, string) -> bool,
    given: map<string, Envelope>,
    loaded: map<string, Envelope>)

  /** A session on the way: its trimmed key, whether the caller's store applies, and the entry the caller brings along. */
  datatype Node = Node(key: string, own: bool, entry: Option<Envelope>)

  function EnvelopeOf(s: Sessions, n: Node): Option<Envelope> {
    var store := if n.own then s.given else s.loaded;
    if n.entry.Some? then n.entry else if n.key in store then Some(store[n.key]) else None
  }

  datatype Verdict = Yes | No | AskParent(parent: string)

  /** What one session decides by itself. */
  function Judge(s: Sessions, n: Node): (v: Verdict)
    ensures v.AskParent? ==> n.entry.Some? || n.key in Keys(s)
    ensures v.AskParent? ==> v.parent != "" && Trim(v.parent) == v.parent
  {
    match s.kind(n.key)
    case Subagent => Yes
    case Other => No
    case Dashboard =>
      (match EnvelopeOf(s, n)
       case None => No
       case Some(e) => if e.spawned && e.Parent().Some? then Yes else No)
    case Acp =>
      match EnvelopeOf(s, n)
      case None => No
      case Some(e) =>
        if e.marked then Yes
        else if e.Parent().None? then No
        else
          TrimIff(e.spawnedBy.value);
          AskParent(e.Parent().value)
  }

  function Keys(s: Sessions): set<string> {
    s.given.Keys + s.loaded.Keys
  }

  /** The session a session asks; only the first one can have an entry of the caller's. */
  function Next(s: Sessions, n: Node, parent: string): Node {
    Node(parent, n.own && s.sameAgent(n.key, parent), None)
  }

  predicate IsEnvelope(s: Sessions, n: Node, visited: set<string>)
    decreases n.entry.Some?, |Keys(s) - visited|
  {
    if n.key in visited then false
    else
      match Judge(s, n)
      case Yes => true
      case No => false
      case AskParent(parent) =>
        if n.entry.None? then
          RoomShrinks(Keys(s), visited, n.key);
          IsEnvelope(s, Next(s, n, parent), visited + {n.key})
        else IsEnvelope(s, Next(s, n, parent), visited + {n.key})
  }

  // ---------- chains of parents ----------

  /** What is stored for a session: the entry the caller brings along, or else that of the store that applies. */
  ghost predicate HasEnvelope(s: Sessions, n: Node, e: Envelope) {
    if n.entry.Some? then e == n.entry.value
    else if n.own then n.key in s.given && s.given[n.key] == e
    else n.key in s.loaded && s.loaded[n.key] == e
  }

  ghost predicate NamesParent(e: Envelope, parent: string) {
    parent != "" && e.spawnedBy.Some? && Trim(e.spawnedBy.value) == parent
  }

  /** The session says yes by itself: by its key, as a dashboard session that was spawned, or as a marked one. */
  ghost predicate SaysYes(s: Sessions, n: Node) {
    || s.kind(n.key) == Subagent
    || (s.kind(n.key) == Dashboard && exists e :: HasEnvelope(s, n, e) && e.spawned && exists parent :: NamesParent(e, parent))
    || (s.kind(n.key) == Acp && exists e :: HasEnvelope(s, n, e) && e.marked)
  }

  /** The session leaves it to its parent: only an unmarked envelope of the right kind does. */
  ghost predicate LeavesIt(s: Sessions, n: Node, parent: string) {
    s.kind(n.key) == Acp && exists e :: HasEnvelope(s, n, e) && !e.marked && NamesParent(e, parent)
  }

  lemma JudgeMeans(s: Sessions, n: Node)
    ensures Judge(s, n).Yes? <==> SaysYes(s, n)
    ensures forall parent :: Judge(s, n) == AskParent(parent) <==> LeavesIt(s, n, parent)
  {
    hide Trim;
    var stored := EnvelopeOf(s, n);
    assert forall e :: HasEnvelope(s, n, e) <==> stored == Some(e);
    if stored.Some? && stored.value.Parent().Some? {
      assert NamesParent(stored.value, stored.value.Parent().value);
    }
  }

  /** Each session leaves it to the next, the caller's store is used until the chain leaves its agent, an entry of the
      caller's counts for the first session only, and no key repeats. */
  ghost predicate IsChain(s: Sessions, chain: seq<Node>) {
    && chain != []
    && (forall i :: 0 <= i < |chain| - 1 ==> LeavesIt(s, chain[i], chain[i + 1].key))
    && (forall i :: 0 <= i < |chain| - 1 ==> chain[i + 1].own == (chain[i].own && s.sameAgent(chain[i].key, chain[i + 1].key)))
    && (forall i :: 0 < i < |chain| ==> chain[i].entry.None?)
    && (forall i, j :: 0 <= i < j < |chain| ==> chain[i].key != chain[j].key)
  }

  ghost predicate Reaches(s: Sessions, start: Node, chain: seq<Node>, visited: set<string>) {
    && IsChain(s, chain) && chain[0] == start && SaysYes(s, chain[|chain| - 1])
    && forall i :: 0 <= i < |chain| ==> chain[i].key !in visited
  }

  lemma {:induction false} EnvelopeHasChain(s: Sessions, start: Node, visited: set<string>) returns (chain: seq<Node>)
    requires IsEnvelope(s, start, visited)
    ensures Reaches(s, start, chain, visited)
    decreases start.entry.Some?, |Keys(s) - visited|
  {
    hide Keys, Judge, SaysYes, LeavesIt;
    JudgeMeans(s, start);
    match Judge(s, start)
    case Yes => chain := [start];
    case AskParent(parent) =>
      if start.entry.None? {
        RoomShrinks(Keys(s), visited, start.key);
      }
      var rest := EnvelopeHasChain(s, Next(s, start, parent), visited + {start.key});
      chain := [start] + rest;
  }

  lemma {:induction false} ChainMakesEnvelope(s: Sessions, chain: seq<Node>, visited: set<string>)
    requires chain != [] && Reaches(s, chain[0], chain, visited)
    ensures IsEnvelope(s, chain[0], visited)
    decreases |chain|
  {
    hide Keys, Judge, SaysYes, LeavesIt;
    JudgeMeans(s, chain[0]);
    if |chain| > 1 {
      var rest := chain[1..];
      assert Judge(s, chain[0]) == AskParent(chain[1].key);
      assert rest[0] == Next(s, chain[0], chain[1].key);
      if chain[0].entry.None? {
        RoomShrinks(Keys(s), visited, chain[0].key);
      }
      ChainMakesEnvelope(s, rest, visited + {chain[0].key});
    }
  }

  /** Malformed parents, cycles included, never stop the walk, and it says yes exactly when some ancestor says yes. */
  lemma EnvelopeIff(s: Sessions, n: Node)
    ensures IsEnvelope(s, n, {}) <==> exists chain :: Reaches(s, n, chain, {})
  {
    if IsEnvelope(s, n, {}) {
      var chain := EnvelopeHasChain(s, n, {});
    } else if exists chain :: Reaches(s, n, chain, {}) {
      var chain :| Reaches(s, n, chain, {});
      ChainMakesEnvelope(s, chain, {});
    }
  }

  class EnvelopeWalk {
    var visited: set<string>

    constructor ()
      ensures visited == {}
    {
      visited := {};
    }

    method IsStoredSubagentEnvelope(s: Sessions, sessionKey: string, own: bool, entry: Option<Envelope>) returns (r: bool)
      modifies this
      ensures r <==> Trim(sessionKey) != "" && IsEnvelope(s, Node(Trim(sessionKey), own, entry), old(visited))
      decreases entry.Some?, |Keys(s) - visited|
    {
      hide Keys, Trim;
      var normalized := NormalizeOptional(Some(sessionKey));
      if normalized.None? || normalized.value in visited {
        return false;
      }
      var n := Node(normalized.value, own, entry);
      ghost var before := visited;
      visited := visited + {n.key};
      var verdict := JudgeSession(s, n);
      hide Judge;
      if !verdict.AskParent? {
        return verdict.Yes?;
      }
      if entry.None? {
        RoomShrinks(Keys(s), before, n.key);
      }
      r := IsStoredSubagentEnvelope(s, verdict.parent, own && s.sameAgent(n.key, verdict.parent), None);
    }

    /** The branches one session is put through before its parent is asked. */
    method JudgeSession(s: Sessions, n: Node) returns (v: Verdict)
      ensures v == Judge(s, n)
    {
      if s.kind(n.key).Subagent? {
        return Yes;
      }
      if s.kind(n.key).Other? {
        return No;
      }
      var entry := EnvelopeOf(s, n);
      if s.kind(n.key).Dashboard? {
        return if entry.Some? && entry.value.spawned && entry.value.Parent().Some? then Yes else No;
      }
      if entry.None? {
        return No;
      }
      if entry.value.marked {
        return Yes;
      }
      var parent := entry.value.Parent();
      return if parent.None? then No else AskParent(parent.value);
    }
  }
}
