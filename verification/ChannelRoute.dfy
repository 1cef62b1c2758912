/** Channel routes: normalisation, comparison, and the keys that stand for them. */
module ChannelRoute {
  import opened JsonStrings
  import opened Options
  import opened StringCoercion

  /** A loose thread identifier; other types of value count as absent. */
  datatype ThreadValue = NoThread | Text(text: string) | Finite(number: real) | NotFinite

  datatype ThreadId = TextId(text: string) | NumberId(id: int)

  datatype Input = Input(
    channel: Option<string>,
    accountId: Option<string>,
    to: Option<string>,
    rawTo: Option<string>,
    chatType: Option<string>,
    threadId: ThreadValue)

  datatype Target = Target(to: string, rawTo: Option<string>, chatType: Option<string>)

  datatype Route = Route(
    channel: Option<string>,
    accountId: Option<string>,
    target: Option<Target>,
    thread: Option<ThreadId>)

  /** The two helpers whose text is not modelled: lower case, and account identifiers. */
  datatype Helpers = Helpers(lower: string -> string, account: string -> Option<string>)

  /** Rounds toward zero. */
  function Truncate(x: real): int {
    if x >= 0.0 then x.Floor else -((-x).Floor)
  }

  function NormalizeThread(v: ThreadValue): Option<ThreadId> {
    match v
    case NoThread => None
    case NotFinite => None
    case Finite(x) => Some(NumberId(Truncate(x)))
    case Text(s) =>
      match NormalizeOptional(Some(s))
      case None => None
      case Some(t) => Some(TextId(t))
  }

  function AsValue(t: Option<ThreadId>): ThreadValue {
    match t
    case None => NoThread
    case Some(TextId(s)) => Text(s)
    case Some(NumberId(n)) => Finite(n as real)
  }

  /** The text of a thread identifier, which is normalised once more. */
  function ThreadText(t: Option<ThreadId>): Option<string> {
    match NormalizeThread(AsValue(t))
    case None => None
    case Some(TextId(s)) => Some(s)
    case Some(NumberId(n)) => Some(Decimal(n))
  }

  /** An empty text counts as absent. */
  function Filled(s: Option<string>): Option<string> {
    if s == Some("") then None else s
  }

  function Channel(h: Helpers, s: Option<string>): Option<string> {
    match NormalizeOptional(s)
    case None => None
    case Some(t) => Filled(Some(h.lower(t)))
  }

  function Account(h: Helpers, s: Option<string>): Option<string> {
    match s
    case None => None
    case Some(t) => Filled(h.account(t))
  }

  function Normalize(h: Helpers, input: Input): Option<Route> {
    var channel := Channel(h, input.channel);
    var accountId := Account(h, input.accountId);
    var to := NormalizeOptional(input.to);
    var rawTo := NormalizeOptional(input.rawTo);
    var thread := NormalizeThread(input.threadId);
    if channel.None? && to.None? && accountId.None? && thread.None? then None
    else
      Some(Route(channel, accountId,
                 if to.None? then None
                 else Some(Target(to.value, if rawTo == to then None else rawTo, Filled(input.chatType))),
                 thread))
  }

  function NormalizeInput(h: Helpers, input: Option<Input>): Option<Route> {
    if input.None? then None else Normalize(h, input.value)
  }

  function OrEmpty(s: Option<string>): string {
    if s.None? then "" else s.value
  }

  function To(r: Route): Option<string> {
    if r.target.None? then None else Some(r.target.value.to)
  }

  /** The four parts a key is made of. */
  function Parts(r: Option<Route>): seq<string> {
    match r
    case None => ["", "", "", ""]
    case Some(r) => [OrEmpty(r.channel), OrEmpty(To(r)), OrEmpty(r.accountId), OrEmpty(ThreadText(r.thread))]
  }

  function DedupeKey(h: Helpers, input: Option<Input>): string {
    WriteArray(Parts(NormalizeInput(h, input)))
  }

  predicate ThreadsEqual(a: Option<ThreadId>, b: Option<ThreadId>) {
    ThreadText(a) == ThreadText(b)
  }

  predicate AccountsCompatible(a: Option<string>, b: Option<string>) {
    OrEmpty(a) == "" || OrEmpty(b) == "" || a == b
  }

  predicate MatchExact(a: Option<Route>, b: Option<Route>) {
    && a.Some? && b.Some?
    && a.value.channel == b.value.channel
    && To(a.value) == To(b.value)
    && OrEmpty(a.value.accountId) == OrEmpty(b.value.accountId)
    && ThreadsEqual(a.value.thread, b.value.thread)
  }

  predicate ShareConversation(a: Option<Route>, b: Option<Route>) {
    && a.Some? && b.Some?
    && a.value.channel == b.value.channel
    && To(a.value) == To(b.value)
    && AccountsCompatible(a.value.accountId, b.value.accountId)
    && (a.value.thread.None? || b.value.thread.None? || ThreadsEqual(a.value.thread, b.value.thread))
  }

  predicate TargetsMatchExact(h: Helpers, a: Option<Input>, b: Option<Input>) {
    MatchExact(NormalizeInput(h, a), NormalizeInput(h, b))
  }

  // ---------- what normalisation guarantees ----------

  lemma TruncateWhole(n: int)
    ensures Truncate(n as real) == n
  {
    assert (-(n as real)) == (-n) as real;
  }

  /** A normalised thread identifier is its own normal form, so it always has a text, and not an empty one. */
  lemma ThreadKeepsItsText(v: ThreadValue)
    ensures var t := NormalizeThread(v);
      NormalizeThread(AsValue(t)) == t && (ThreadText(t).Some? <==> t.Some?) && ThreadText(t) != Some("")
  {
    match v
    case Finite(x) => TruncateWhole(Truncate(x));
    case Text(s) => TrimIff(s);
    case _ =>
  }

  /** No part that is present is empty, and some part is present. */
  ghost predicate Normal(r: Route) {
    && r.channel != Some("") && r.accountId != Some("") && To(r) != Some("") && ThreadText(r.thread) != Some("")
    && (ThreadText(r.thread).Some? <==> r.thread.Some?)
    && (r.channel.Some? || r.accountId.Some? || r.target.Some? || r.thread.Some?)
  }

  lemma NormalizedIsNormal(h: Helpers, input: Option<Input>)
    ensures NormalizeInput(h, input).Some? ==> Normal(NormalizeInput(h, input).value)
  {
    if input.Some? {
      ThreadKeepsItsText(input.value.threadId);
    }
  }

  lemma PartsIff(a: Option<Route>, b: Option<Route>)
    requires (a.Some? ==> Normal(a.value)) && (b.Some? ==> Normal(b.value))
    ensures Parts(a) == Parts(b) <==> MatchExact(a, b) || (a.None? && b.None?)
  {
    if Parts(a) == Parts(b) {
      assert forall i :: 0 <= i < 4 ==> Parts(a)[i] == Parts(b)[i];
    }
  }

  // ---------- what is read from an input ----------

  /** The texts an input gives for channel, destination, account and thread; absent and blank are the same. */
  function ChannelText(h: Helpers, s: Option<string>): string {
    if s.None? || Trim(s.value) == "" then "" else h.lower(Trim(s.value))
  }

  function TargetText(s: Option<string>): string {
    if s.None? then "" else Trim(s.value)
  }

  function AccountText(h: Helpers, s: Option<string>): string {
    if s.None? || h.account(s.value).None? then "" else h.account(s.value).value
  }

  function ThreadAsText(v: ThreadValue): string {
    match v
    case Text(s) => Trim(s)
    case Finite(x) => Decimal(Truncate(x))
    case _ => ""
  }

  /** The fraction is dropped, whichever the sign. */
  lemma TruncateIs(x: real)
    ensures x >= 0.0 ==> Truncate(x) as real <= x < Truncate(x) as real + 1.0
    ensures x < 0.0 ==> Truncate(x) as real - 1.0 < x <= Truncate(x) as real
  {
  }

  /** An input is a route exactly when some text is not empty, and the route holds those texts; what was written for the
      destination is kept only if it differs, and a chat type only with a destination. */
  lemma NormalizeMeans(h: Helpers, input: Input)
    ensures Normalize(h, input).None? <==>
      ChannelText(h, input.channel) == "" && TargetText(input.to) == "" && AccountText(h, input.accountId) == "" && ThreadAsText(input.threadId) == ""
    ensures var r := Normalize(h, input);
      r.Some? ==>
        && OrEmpty(r.value.channel) == ChannelText(h, input.channel)
        && OrEmpty(To(r.value)) == TargetText(input.to)
        && OrEmpty(r.value.accountId) == AccountText(h, input.accountId)
        && OrEmpty(ThreadText(r.value.thread)) == ThreadAsText(input.threadId)
        && (r.value.target.Some? ==>
              var raw, t := TargetText(input.rawTo), r.value.target.value;
              && t.rawTo == (if raw == "" || raw == TargetText(input.to) then None else Some(raw))
              && OrEmpty(t.chatType) == OrEmpty(input.chatType))
  {
    ThreadKeepsItsText(input.threadId);
    match input.threadId
    case Finite(x) => TruncateWhole(Truncate(x));
    case Text(s) => TrimIff(s);
    case _ =>
  }

  /** Two inputs share a dedupe key exactly when they give the same four texts. */
  lemma DedupeKeyTells(h: Helpers, a: Input, b: Input)
    ensures DedupeKey(h, Some(a)) == DedupeKey(h, Some(b)) <==>
      && ChannelText(h, a.channel) == ChannelText(h, b.channel)
      && TargetText(a.to) == TargetText(b.to)
      && AccountText(h, a.accountId) == AccountText(h, b.accountId)
      && ThreadAsText(a.threadId) == ThreadAsText(b.threadId)
  {
    NormalizeMeans(h, a);
    NormalizeMeans(h, b);
    var p, q := Parts(Normalize(h, a)), Parts(Normalize(h, b));
    assert p == [ChannelText(h, a.channel), TargetText(a.to), AccountText(h, a.accountId), ThreadAsText(a.threadId)];
    assert q == [ChannelText(h, b.channel), TargetText(b.to), AccountText(h, b.accountId), ThreadAsText(b.threadId)];
    hide Normalize, Parts, ChannelText, TargetText, AccountText, ThreadAsText;
    if WriteArray(p) == WriteArray(q) {
      ArrayTextIsUnambiguous(p, q);
      assert p[0] == q[0] && p[1] == q[1] && p[2] == q[2] && p[3] == q[3];
    }
  }

  /** Routes of two inputs share a conversation exactly when channel and destination agree, and account and thread do as
      far as both have one. */
  lemma SharesMeans(h: Helpers, a: Input, b: Input)
    requires Normalize(h, a).Some? && Normalize(h, b).Some?
    ensures ShareConversation(Normalize(h, a), Normalize(h, b)) <==>
      var account, account' := AccountText(h, a.accountId), AccountText(h, b.accountId);
      var thread, thread' := ThreadAsText(a.threadId), ThreadAsText(b.threadId);
      && ChannelText(h, a.channel) == ChannelText(h, b.channel) && TargetText(a.to) == TargetText(b.to)
      && (account == "" || account' == "" || account == account')
      && (thread == "" || thread' == "" || thread == thread')
  {
    NormalizeMeans(h, a);
    NormalizeMeans(h, b);
    NormalizedIsNormal(h, Some(a));
    NormalizedIsNormal(h, Some(b));
    hide Normalize, ChannelText, TargetText, AccountText, ThreadAsText, ThreadText;
  }

  // ---------- keys and comparisons ----------

  /** Two inputs share a dedupe key exactly when their routes match, or neither is a route at all. */
  lemma DedupeKeyIff(h: Helpers, a: Option<Input>, b: Option<Input>)
    ensures DedupeKey(h, a) == DedupeKey(h, b)
       <==> TargetsMatchExact(h, a, b) || (NormalizeInput(h, a).None? && NormalizeInput(h, b).None?)
  {
    var left, right := NormalizeInput(h, a), NormalizeInput(h, b);
    NormalizedIsNormal(h, a);
    NormalizedIsNormal(h, b);
    PartsIff(left, right);
    if DedupeKey(h, a) == DedupeKey(h, b) {
      ArrayTextIsUnambiguous(Parts(left), Parts(right));
    }
  }

  function TrimIfAny(s: Option<string>): Option<string> {
    if s.None? then None else Some(Trim(s.value))
  }

  /** The key depends on the destination itself and not on how it was written, nor on outer white space. */
  lemma KeyIgnores(h: Helpers, a: Input, rawTo: Option<string>, chatType: Option<string>)
    ensures DedupeKey(h, Some(a.(rawTo := rawTo, chatType := chatType))) == DedupeKey(h, Some(a))
    ensures DedupeKey(h, Some(a.(channel := TrimIfAny(a.channel), to := TrimIfAny(a.to)))) == DedupeKey(h, Some(a))
    ensures a.threadId.Text? ==>
      DedupeKey(h, Some(a.(threadId := Text(Trim(a.threadId.text))))) == DedupeKey(h, Some(a))
  {
    hide WriteArray, Trim;
    if a.channel.Some? {
      TrimIff(a.channel.value);
    }
    if a.to.Some? {
      TrimIff(a.to.value);
    }
    if a.threadId.Text? {
      TrimIff(a.threadId.text);
    }
  }

  /** Matching is an equivalence on routes, and routes that match share a conversation with the same routes. */
  lemma ExactMatchIsCongruence(a: Option<Route>, b: Option<Route>, c: Option<Route>)
    requires a.Some? && b.Some? && c.Some?
    requires Normal(a.value) && Normal(b.value) && Normal(c.value)
    ensures MatchExact(a, a) && ShareConversation(a, a)
    ensures MatchExact(a, b) <==> MatchExact(b, a)
    ensures ShareConversation(a, b) <==> ShareConversation(b, a)
    ensures MatchExact(a, b) && MatchExact(b, c) ==> MatchExact(a, c)
    ensures MatchExact(a, b) ==> ShareConversation(a, b) && (ShareConversation(a, c) <==> ShareConversation(b, c))
  {
  }

  /** Sharing a conversation is not transitive: a parent shares with both of two threads that do not share. */
  lemma SharingIsNotTransitive()
    ensures exists a, b, c ::
      ShareConversation(a, b) && ShareConversation(b, c) && !ShareConversation(a, c)
  {
    var parent := Some(Route(Some("c"), None, None, None));
    var one := Some(Route(Some("c"), None, None, Some(TextId("1"))));
    var two := Some(Route(Some("c"), None, None, Some(TextId("2"))));
    TrimIff("1");
    TrimIff("2");
    assert ShareConversation(one, parent) && ShareConversation(parent, two) && !ShareConversation(one, two);
  }

  /** Sharing carries over through a middle route exactly when it widens neither the account nor the thread,
      judged over every pair of outer routes. */
  lemma SharingThroughIff(b: Route)
    requires Normal(b) && b.channel.Some?
    ensures b.accountId.Some? && b.thread.Some?
       <==> forall a: Route, c: Route :: Normal(a) && Normal(c) && ShareConversation(Some(a), Some(b)) && ShareConversation(Some(b), Some(c))
                 ==> ShareConversation(Some(a), Some(c))
  {
    if b.thread.None? {
      var a, c := b.(thread := Some(TextId("1"))), b.(thread := Some(TextId("2")));
      TrimIff("1");
      TrimIff("2");
      assert ThreadText(a.thread) == Some("1") && ThreadText(c.thread) == Some("2");
      assert Normal(a) && Normal(c);
      assert ShareConversation(Some(a), Some(b)) && ShareConversation(Some(b), Some(c)) && !ShareConversation(Some(a), Some(c));
    } else if b.accountId.None? {
      var a, c := b.(accountId := Some("1")), b.(accountId := Some("2"));
      assert Normal(a) && Normal(c);
      assert ShareConversation(Some(a), Some(b)) && ShareConversation(Some(b), Some(c)) && !ShareConversation(Some(a), Some(c));
    }
  }

  // ---------- the compact key ----------

  function Join(parts: seq<string>): string
    requires parts != []
  {
    if |parts| == 1 then parts[0] else parts[0] + "|" + Join(parts[1..])
  }

  function CompactKeyOf(r: Option<Route>): Option<string> {
    if r.None? || OrEmpty(r.value.channel) == "" || OrEmpty(To(r.value)) == "" then None else Some(Join(Parts(r)))
  }

  /** What a compact key is asked for: a route, which is read again as loose input, or a loose target. */
  datatype KeyInput = FromRoute(route: Route) | FromTarget(input: Input)

  function AsInput(r: Route): Input {
    Input(r.channel, r.accountId, To(r), None, None, AsValue(r.thread))
  }

  function NormalizeKeyInput(h: Helpers, k: Option<KeyInput>): Option<Route> {
    match k
    case None => None
    case Some(FromRoute(r)) => Normalize(h, AsInput(r))
    case Some(FromTarget(input)) => Normalize(h, input)
  }

  function CompactKey(h: Helpers, k: Option<KeyInput>): Option<string> {
    CompactKeyOf(NormalizeKeyInput(h, k))
  }

  /** Reading a channel or an account a second time changes nothing. */
  ghost predicate Idempotent(h: Helpers) {
    && (forall s :: Channel(h, Channel(h, s)) == Channel(h, s))
    && (forall s :: Account(h, Account(h, s)) == Account(h, s))
  }

  lemma OptionalIsStable(s: Option<string>)
    ensures NormalizeOptional(NormalizeOptional(s)) == NormalizeOptional(s)
  {
    if s.Some? {
      TrimIff(s.value);
    }
  }

  /** A normalised route has the compact key of the input it came from. */
  lemma CompactKeyOfRoute(h: Helpers, input: Input)
    requires Idempotent(h) && Normalize(h, input).Some?
    ensures MatchExact(NormalizeKeyInput(h, Some(FromRoute(Normalize(h, input).value))), Normalize(h, input))
    ensures CompactKey(h, Some(FromRoute(Normalize(h, input).value))) == CompactKey(h, Some(FromTarget(input)))
  {
    var r := Normalize(h, input).value;
    OptionalIsStable(input.to);
    ThreadKeepsItsText(input.threadId);
    assert Channel(h, r.channel) == r.channel && Account(h, r.accountId) == r.accountId;
    assert NormalizeOptional(To(r)) == To(r) && NormalizeThread(AsValue(r.thread)) == r.thread;
    hide Channel, Account, NormalizeOptional, NormalizeThread;
    assert Parts(Normalize(h, AsInput(r))) == Parts(Some(r));
  }

  /** Helpers that leave text as it is. */
  const PLAIN := Helpers(s => s, s => Some(s))

  const PIPE_IN_TARGET := Route(Some("a"), None, Some(Target("b|c", None, None)), None)
  const PIPE_IN_CHANNEL := Route(Some("a|b"), None, Some(Target("c", None, None)), None)

  lemma TidyRouteIsRead(r: Route)
    requires r.channel.Some? && r.channel.value != "" && Tidy(r.channel.value)
    requires r.target.Some? && r.target.value.to != "" && Tidy(r.target.value.to)
    requires r == Route(r.channel, None, Some(Target(r.target.value.to, None, None)), None)
    ensures NormalizeKeyInput(PLAIN, Some(FromRoute(r))) == Some(r)
  {
    TrimIff(r.channel.value);
    TrimIff(r.target.value.to);
    hide Trim, Tidy;
  }

  lemma JoinsAlike()
    ensures Join(Parts(Some(PIPE_IN_TARGET))) == Join(Parts(Some(PIPE_IN_CHANNEL)))
  {
    var p, q := Parts(Some(PIPE_IN_TARGET)), Parts(Some(PIPE_IN_CHANNEL));
    assert p[1..] == ["b|c", "", ""] && q[1..] == ["c", "", ""];
    assert p[1..][1..] == q[1..][1..] == ["", ""];
    assert ["", ""][1..] == [""];
    assert Join(["", ""]) == "|";
    assert Join(p[1..]) == "b|c||" && Join(q[1..]) == "c||";
    assert Join(p) == "a" + "|" + "b|c||" == "a|b|c||";
    assert Join(q) == "a|b" + "|" + "c||" == "a|b|c||";
  }

  /** The compact key is for people: two routes that differ can share it once a part holds the separator. */
  lemma CompactKeyIsAmbiguous()
    ensures var a, b := Some(FromRoute(PIPE_IN_TARGET)), Some(FromRoute(PIPE_IN_CHANNEL));
      && CompactKey(PLAIN, a).Some? && CompactKey(PLAIN, a) == CompactKey(PLAIN, b)
      && !MatchExact(NormalizeKeyInput(PLAIN, a), NormalizeKeyInput(PLAIN, b))
  {
    TidyRouteIsRead(PIPE_IN_TARGET);
    TidyRouteIsRead(PIPE_IN_CHANNEL);
    hide NormalizeKeyInput;
    JoinsAlike();
    assert PIPE_IN_TARGET.target.value.to[0] != PIPE_IN_CHANNEL.target.value.to[0];
  }

  /** How many separators a part holds itself. */
  function Bars(s: string): nat {
    if s == "" then 0 else Bars(s[..|s| - 1]) + if s[|s| - 1] == '|' then 1 else 0
  }

  lemma {:induction false} BarsUpTo(s: string, n: nat)
    requires n <= |s|
    ensures Bars(s[..n]) <= Bars(s)
  {
    if n == |s| {
      assert s[..n] == s;
    } else {
      BarsUpTo(s[..|s| - 1], n);
      assert s[..|s| - 1][..n] == s[..n];
    }
  }

  /** A longer first part holds the separator that ends the shorter one. */
  lemma ShorterHasFewer(a: string, x: string, b: string, y: string)
    requires a + "|" + x == b + "|" + y && |a| < |b|
    ensures Bars(a) < Bars(b)
  {
    var t := a + "|" + x;
    assert b == t[..|b|];
    assert b[..|a| + 1] == t[..|a| + 1] == a + "|";
    assert (a + "|")[..|a|] == a;
    BarsUpTo(b, |a| + 1);
  }

  lemma FirstPartIsUnambiguous(a: string, x: string, b: string, y: string)
    requires Bars(a) == Bars(b) && a + "|" + x == b + "|" + y
    ensures a == b && x == y
  {
    if |a| < |b| {
      ShorterHasFewer(a, x, b, y);
    } else if |b| < |a| {
      ShorterHasFewer(b, y, a, x);
    }
    var t := a + "|" + x;
    assert a == t[..|a|] == t[..|b|] == b;
    assert x == t[|a| + 1..] == t[|b| + 1..] == y;
  }

  /** Part by part, two keys hold equally many separators. */
  ghost predicate SameBars(p: seq<string>, q: seq<string>) {
    |p| == |q| && forall i :: 0 <= i < |p| ==> Bars(p[i]) == Bars(q[i])
  }

  lemma {:induction false} JoinIsUnambiguous(p: seq<string>, q: seq<string>)
    requires p != [] && SameBars(p, q) && Join(p) == Join(q)
    ensures p == q
    decreases |p|
  {
    if |p| > 1 {
      FirstPartIsUnambiguous(p[0], Join(p[1..]), q[0], Join(q[1..]));
      JoinIsUnambiguous(p[1..], q[1..]);
      assert p == [p[0]] + p[1..] && q == [q[0]] + q[1..];
    }
  }

  lemma KeyInputIsNormal(h: Helpers, k: Option<KeyInput>)
    ensures NormalizeKeyInput(h, k).Some? ==> Normal(NormalizeKeyInput(h, k).value)
  {
    match k
    case None =>
    case Some(FromRoute(r)) => NormalizedIsNormal(h, Some(AsInput(r)));
    case Some(FromTarget(input)) => NormalizedIsNormal(h, Some(input));
  }

  /** Two compact keys stand for matching routes exactly when they are equal and hold, part by part, equally many separators. */
  lemma CompactKeyIff(h: Helpers, a: Option<KeyInput>, b: Option<KeyInput>)
    requires CompactKey(h, a).Some? && CompactKey(h, b).Some?
    ensures MatchExact(NormalizeKeyInput(h, a), NormalizeKeyInput(h, b))
       <==> CompactKey(h, a) == CompactKey(h, b) && SameBars(Parts(NormalizeKeyInput(h, a)), Parts(NormalizeKeyInput(h, b)))
  {
    var left, right := NormalizeKeyInput(h, a), NormalizeKeyInput(h, b);
    KeyInputIsNormal(h, a);
    KeyInputIsNormal(h, b);
    hide NormalizeKeyInput;
    PartsIff(left, right);
    if CompactKey(h, a) == CompactKey(h, b) && SameBars(Parts(left), Parts(right)) {
      JoinIsUnambiguous(Parts(left), Parts(right));
    }
  }

  ghost predicate Plain(parts: seq<string>) {
    forall i :: 0 <= i < |parts| ==> Bars(parts[i]) == 0
  }

  /** Where no part holds the separator, the compact key tells routes apart as well as the dedupe key does. */
  lemma PlainCompactKeyIff(h: Helpers, a: Option<KeyInput>, b: Option<KeyInput>)
    requires CompactKey(h, a).Some? && CompactKey(h, b).Some?
    requires Plain(Parts(NormalizeKeyInput(h, a))) && Plain(Parts(NormalizeKeyInput(h, b)))
    ensures CompactKey(h, a) == CompactKey(h, b) <==> MatchExact(NormalizeKeyInput(h, a), NormalizeKeyInput(h, b))
  {
    CompactKeyIff(h, a, b);
    assert |Parts(NormalizeKeyInput(h, a))| == |Parts(NormalizeKeyInput(h, b))|;
  }
}
