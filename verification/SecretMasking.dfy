/** Masking credentials in log text: four patterns substituted one after the other. */
module SecretMasking {

  /** A fixed prefix, then characters of one class: exactly `min` of them, or at least that many. */
  datatype Pattern = Pattern(prefix: string, dashes: bool, min: nat, exact: bool)

  const GOOGLE := Pattern("AIzaSy", true, 33, true)
  const GEMINI := Pattern("AQ.", true, 40, false)
  const GROQ := Pattern("gsk_", false, 40, false)
  const OPENAI := Pattern("sk-", false, 32, false)

  const SECRET_PATTERNS := [GOOGLE, GEMINI, GROQ, OPENAI]

  const REDACTED := "[REDACTED_SECRET]"

  predicate InClass(p: Pattern, c: char) {
    'A' <= c <= 'Z' || 'a' <= c <= 'z' || '0' <= c <= '9' || (p.dashes && (c == '_' || c == '-'))
  }

  predicate Bracket(c: char) {
    c == '[' || c == ']'
  }

  /** No bracket can be part of a match, and no match fits between the brackets of a redaction. */
  ghost predicate Separable(p: Pattern) {
    (forall i :: 0 <= i < |p.prefix| ==> !Bracket(p.prefix[i])) && p.min >= 17
  }

  lemma AllSeparable()
    ensures forall p :: p in SECRET_PATTERNS ==> Separable(p)
  {
  }

  // ---------- matching and substitution on text ----------

  function TextRun(p: Pattern, s: string): (n: nat)
    ensures n <= |s|
  {
    if s == "" || !InClass(p, s[0]) then 0 else 1 + TextRun(p, s[1..])
  }

  predicate TextMatches(p: Pattern, s: string) {
    p.prefix <= s && TextRun(p, s[|p.prefix|..]) >= p.min
  }

  /** Repetition is greedy. */
  function TextMatchLength(p: Pattern, s: string): (n: nat)
    requires TextMatches(p, s)
    ensures |p.prefix| + p.min <= n <= |s|
  {
    |p.prefix| + if p.exact then p.min else TextRun(p, s[|p.prefix|..])
  }

  /** The words the pattern describes, all their characters at once. */
  ghost predicate InLanguage(p: Pattern, w: string) {
    && p.prefix <= w
    && (forall i :: |p.prefix| <= i < |w| ==> InClass(p, w[i]))
    && if p.exact then |w| == |p.prefix| + p.min else |w| >= |p.prefix| + p.min
  }

  lemma {:induction false} RunIsLongest(p: Pattern, s: string)
    ensures forall i :: 0 <= i < TextRun(p, s) ==> InClass(p, s[i])
    ensures TextRun(p, s) < |s| ==> !InClass(p, s[TextRun(p, s)])
  {
    if s != "" && InClass(p, s[0]) {
      RunIsLongest(p, s[1..]);
      assert forall i :: 0 < i < |s| ==> s[i] == s[1..][i - 1];
    }
  }

  lemma {:induction false} InClassRun(p: Pattern, s: string, n: nat)
    requires n <= |s| && forall i :: 0 <= i < n ==> InClass(p, s[i])
    ensures TextRun(p, s) >= n
  {
    if n > 0 {
      InClassRun(p, s[1..], n - 1);
    }
  }

  /** A text matches exactly when one of its prefixes is a word of the pattern, and then the longest one is taken. */
  lemma MatchesIff(p: Pattern, s: string)
    ensures TextMatches(p, s) ==> InLanguage(p, s[..TextMatchLength(p, s)])
    ensures forall n: nat :: n <= |s| && InLanguage(p, s[..n]) ==> TextMatches(p, s) && n <= TextMatchLength(p, s)
  {
    var k := |p.prefix|;
    if p.prefix <= s {
      RunIsLongest(p, s[k..]);
    }
    forall n: nat | n <= |s| && InLanguage(p, s[..n])
      ensures TextMatches(p, s) && n <= TextMatchLength(p, s)
    {
      assert s[..k] == s[..n][..k] == p.prefix;
      InClassRun(p, s[k..], n - k);
    }
  }

  /** Leftmost matches, none overlapping the one before. */
  function Substitute(p: Pattern, s: string): string {
    if s == "" then ""
    else if TextMatches(p, s) && TextMatchLength(p, s) > 0 then REDACTED + Substitute(p, s[TextMatchLength(p, s)..])
    else [s[0]] + Substitute(p, s[1..])
  }

  ghost predicate NoTextMatch(p: Pattern, s: string) {
    forall i :: 0 <= i <= |s| ==> !TextMatches(p, s[i..])
  }

  function MaskWith(patterns: seq<Pattern>, s: string): string {
    if patterns == [] then s
    else Substitute(patterns[|patterns| - 1], MaskWith(patterns[..|patterns| - 1], s))
  }

  function Mask(s: string): string {
    MaskWith(SECRET_PATTERNS, s)
  }

  // ---------- text with provenance ----------

  /** A character of the input and where it stood, or a redacted stretch of the input. */
  datatype Token = Keep(c: char, at: nat) | Cut(from: nat, until: nat)

  function Start(t: Token): nat {
    match t
    case Keep(_, at) => at
    case Cut(from, _) => from
  }

  function End(t: Token): nat {
    match t
    case Keep(_, at) => at + 1
    case Cut(_, until) => until
  }

  function Render(ts: seq<Token>): string {
    if ts == [] then ""
    else (match ts[0] case Keep(c, _) => [c] case Cut(_, _) => REDACTED) + Render(ts[1..])
  }

  function Run(p: Pattern, ts: seq<Token>): (n: nat)
    ensures n <= |ts| && forall i :: 0 <= i < n ==> ts[i].Keep?
  {
    if ts == [] || ts[0].Cut? || !InClass(p, ts[0].c) then 0 else 1 + Run(p, ts[1..])
  }

  predicate Begins(prefix: string, ts: seq<Token>) {
    prefix == "" || (ts != [] && ts[0].Keep? && ts[0].c == prefix[0] && Begins(prefix[1..], ts[1..]))
  }

  lemma {:induction false} BeginsLength(prefix: string, ts: seq<Token>)
    requires Begins(prefix, ts)
    ensures |prefix| <= |ts| && forall i :: 0 <= i < |prefix| ==> ts[i].Keep?
    decreases |prefix|
  {
    if prefix != "" {
      BeginsLength(prefix[1..], ts[1..]);
    }
  }

  predicate Matches(p: Pattern, ts: seq<Token>) {
    && Begins(p.prefix, ts)
    && (BeginsLength(p.prefix, ts); Run(p, ts[|p.prefix|..]) >= p.min)
  }

  function MatchLength(p: Pattern, ts: seq<Token>): (n: nat)
    requires Matches(p, ts)
    ensures |p.prefix| + p.min <= n <= |ts| && forall i :: 0 <= i < n ==> ts[i].Keep?
  {
    BeginsLength(p.prefix, ts);
    var run := Run(p, ts[|p.prefix|..]);
    assert forall i :: |p.prefix| <= i < |p.prefix| + run ==> ts[i] == ts[|p.prefix|..][i - |p.prefix|];
    |p.prefix| + if p.exact then p.min else run
  }

  function Redact(p: Pattern, ts: seq<Token>): seq<Token> {
    if ts == [] then []
    else if Matches(p, ts) && MatchLength(p, ts) > 0 then
      var n := MatchLength(p, ts);
      [Cut(Start(ts[0]), End(ts[n - 1]))] + Redact(p, ts[n..])
    else [ts[0]] + Redact(p, ts[1..])
  }

  ghost predicate NoMatch(p: Pattern, ts: seq<Token>) {
    forall i :: 0 <= i <= |ts| ==> !Matches(p, ts[i..])
  }

  // ---------- redaction creates no match ----------

  /** Redaction never lengthens a run. */
  lemma {:induction false} RunShrinks(q: Pattern, p: Pattern, ts: seq<Token>)
    ensures Run(q, Redact(p, ts)) <= Run(q, ts)
    decreases |ts|
  {
    if ts != [] && !(Matches(p, ts) && MatchLength(p, ts) > 0) {
      RunShrinks(q, p, ts[1..]);
      assert Redact(p, ts)[1..] == Redact(p, ts[1..]);
    }
  }

  /** Kept characters at the front were at the front before. */
  lemma {:induction false} BeginsBefore(prefix: string, p: Pattern, ts: seq<Token>)
    requires Begins(prefix, Redact(p, ts))
    ensures Begins(prefix, ts) && |prefix| <= |ts| && |prefix| <= |Redact(p, ts)|
    ensures Redact(p, ts)[|prefix|..] == Redact(p, ts[|prefix|..])
    decreases |prefix|
  {
    if prefix != "" {
      assert ts != [] && !(Matches(p, ts) && MatchLength(p, ts) > 0);
      assert Redact(p, ts)[1..] == Redact(p, ts[1..]);
      BeginsBefore(prefix[1..], p, ts[1..]);
      assert Redact(p, ts)[|prefix|..] == Redact(p, ts[1..])[|prefix| - 1..];
      assert ts[1..][|prefix| - 1..] == ts[|prefix|..];
    } else {
      assert Redact(p, ts)[0..] == Redact(p, ts) && ts[0..] == ts;
    }
  }

  /** Whatever matches after a redaction matched before it, whichever patterns are meant. */
  lemma MatchBefore(q: Pattern, p: Pattern, ts: seq<Token>)
    requires Matches(q, Redact(p, ts))
    ensures Matches(q, ts)
  {
    BeginsBefore(q.prefix, p, ts);
    RunShrinks(q, p, ts[|q.prefix|..]);
  }

  lemma {:induction false} NoMatchStays(q: Pattern, p: Pattern, ts: seq<Token>)
    requires NoMatch(q, ts)
    ensures NoMatch(q, Redact(p, ts))
    decreases |ts|
  {
    var r := Redact(p, ts);
    if ts != [] {
      var n := if Matches(p, ts) && MatchLength(p, ts) > 0 then MatchLength(p, ts) else 1;
      forall i | 0 <= i <= |ts[n..]| ensures !Matches(q, ts[n..][i..]) {
        assert ts[n..][i..] == ts[n + i..];
      }
      NoMatchStays(q, p, ts[n..]);
      assert r[1..] == Redact(p, ts[n..]);
      forall i | 0 <= i <= |r| ensures !Matches(q, r[i..]) {
        if i == 0 {
          assert r[0..] == r && ts[0..] == ts;
          if Matches(q, r) {
            MatchBefore(q, p, ts);
          }
        } else {
          assert r[i..] == r[1..][i - 1..];
        }
      }
    } else {
      assert r == ts;
    }
  }

  lemma FirstIsKept(p: Pattern, ts: seq<Token>)
    requires Matches(p, ts) && p.min > 0
    ensures ts != [] && ts[0].Keep?
  {
    var n := MatchLength(p, ts);
    assert n > 0;
  }

  lemma {:induction false} NoMatchLeft(p: Pattern, ts: seq<Token>)
    requires p.min > 0
    ensures NoMatch(p, Redact(p, ts))
    decreases |ts|
  {
    var r := Redact(p, ts);
    if ts != [] {
      var n := if Matches(p, ts) && MatchLength(p, ts) > 0 then MatchLength(p, ts) else 1;
      NoMatchLeft(p, ts[n..]);
      assert r[1..] == Redact(p, ts[n..]);
      forall i | 0 <= i <= |r| ensures !Matches(p, r[i..]) {
        if i == 0 {
          assert r[0..] == r;
          if Matches(p, r) {
            FirstIsKept(p, r);
            MatchBefore(p, p, ts);
          }
        } else {
          assert r[i..] == r[1..][i - 1..];
        }
      }
    } else {
      forall i | 0 <= i <= |r| ensures !Matches(p, r[i..]) {
        if Matches(p, r[i..]) {
          FirstIsKept(p, r[i..]);
        }
      }
    }
  }

  // ---------- tokens and text agree ----------

  lemma {:induction false} RunOfRender(p: Pattern, ts: seq<Token>)
    ensures TextRun(p, Render(ts)) == Run(p, ts)
  {
    if ts != [] && ts[0].Keep? {
      RunOfRender(p, ts[1..]);
      assert Render(ts)[1..] == Render(ts[1..]);
    } else if ts != [] {
      assert Render(ts)[0] == '[';
    }
  }

  lemma {:induction false} PrefixOfRender(prefix: string, ts: seq<Token>)
    requires forall i :: 0 <= i < |prefix| ==> !Bracket(prefix[i])
    ensures prefix <= Render(ts) <==> Begins(prefix, ts)
    ensures Begins(prefix, ts) ==> |prefix| <= |ts| && Render(ts)[|prefix|..] == Render(ts[|prefix|..])
    decreases |prefix|
  {
    if prefix == "" {
      assert ts[0..] == ts && Render(ts)[0..] == Render(ts);
    } else if ts != [] && ts[0].Keep? {
      PrefixOfRender(prefix[1..], ts[1..]);
      var text := Render(ts);
      assert text[1..] == Render(ts[1..]);
      assert prefix == [prefix[0]] + prefix[1..];
      assert prefix <= text <==> prefix[0] == text[0] && prefix[1..] <= text[1..];
      if Begins(prefix, ts) {
        assert text[|prefix|..] == text[1..][|prefix| - 1..];
        assert ts[|prefix|..] == ts[1..][|prefix| - 1..];
      }
    } else if ts != [] {
      assert Render(ts)[0] == '[';
    }
  }

  lemma {:induction false} RenderAfterKept(ts: seq<Token>, n: nat)
    requires n <= |ts| && forall i :: 0 <= i < n ==> ts[i].Keep?
    ensures n <= |Render(ts)| && Render(ts)[n..] == Render(ts[n..])
  {
    if n == 0 {
      assert ts[0..] == ts && Render(ts)[0..] == Render(ts);
    } else {
      RenderAfterKept(ts[1..], n - 1);
      assert Render(ts)[1..] == Render(ts[1..]);
      assert Render(ts)[n..] == Render(ts)[1..][n - 1..];
      assert ts[n..] == ts[1..][n - 1..];
    }
  }

  /** A pattern finds in the rendered text exactly what it finds in the tokens. */
  lemma MatchOfRender(p: Pattern, ts: seq<Token>)
    requires Separable(p)
    ensures TextMatches(p, Render(ts)) <==> Matches(p, ts)
    ensures Matches(p, ts) ==> TextMatchLength(p, Render(ts)) == MatchLength(p, ts)
  {
    PrefixOfRender(p.prefix, ts);
    if Begins(p.prefix, ts) {
      RunOfRender(p, ts[|p.prefix|..]);
    }
  }

  lemma {:induction false} RunHasNoBracket(p: Pattern, s: string, k: nat)
    requires k < TextRun(p, s)
    ensures InClass(p, s[k]) && !Bracket(s[k])
  {
    if k > 0 {
      RunHasNoBracket(p, s[1..], k - 1);
    }
  }

  lemma MatchHasNoBracket(p: Pattern, s: string, k: nat)
    requires Separable(p) && TextMatches(p, s) && k < |p.prefix| + p.min
    ensures k < |s| && !Bracket(s[k])
  {
    if k < |p.prefix| {
      assert s[k] == p.prefix[k];
    } else {
      RunHasNoBracket(p, s[|p.prefix|..], k - |p.prefix|);
    }
  }

  /** No match starts inside a redaction. */
  lemma NothingInsideRedaction(p: Pattern, k: nat, rest: string)
    requires Separable(p) && k < |REDACTED|
    ensures !TextMatches(p, REDACTED[k..] + rest)
  {
    var text := REDACTED[k..] + rest;
    assert text[|REDACTED| - 1 - k] == ']';
    if TextMatches(p, text) {
      MatchHasNoBracket(p, text, |REDACTED| - 1 - k);
    }
  }

  lemma {:induction false} SubstituteSkips(p: Pattern, plain: string, rest: string)
    requires forall k :: 0 <= k < |plain| ==> !TextMatches(p, plain[k..] + rest)
    ensures Substitute(p, plain + rest) == plain + Substitute(p, rest)
  {
    if plain == "" {
      assert plain + rest == rest;
    } else {
      assert plain[0..] + rest == plain + rest;
      assert (plain + rest)[1..] == plain[1..] + rest;
      forall k | 0 <= k < |plain[1..]| ensures !TextMatches(p, plain[1..][k..] + rest) {
        assert plain[1..][k..] == plain[k + 1..];
      }
      SubstituteSkips(p, plain[1..], rest);
    }
  }

  lemma SubstituteSkipsRedaction(p: Pattern, rest: string)
    requires Separable(p)
    ensures Substitute(p, REDACTED + rest) == REDACTED + Substitute(p, rest)
  {
    forall k | 0 <= k < |REDACTED| ensures !TextMatches(p, REDACTED[k..] + rest) {
      NothingInsideRedaction(p, k, rest);
    }
    SubstituteSkips(p, REDACTED, rest);
  }

  /** Substituting in the text is redacting the tokens. */
  lemma {:induction false} SubstituteIsRedact(p: Pattern, ts: seq<Token>)
    requires Separable(p)
    ensures Substitute(p, Render(ts)) == Render(Redact(p, ts))
    decreases |ts|
  {
    if ts != [] {
      var text := Render(ts);
      MatchOfRender(p, ts);
      if Matches(p, ts) {
        var n := MatchLength(p, ts);
        RenderAfterKept(ts, n);
        SubstituteIsRedact(p, ts[n..]);
        assert text != "";
        assert Redact(p, ts)[1..] == Redact(p, ts[n..]);
      } else {
        SubstituteIsRedact(p, ts[1..]);
        assert Redact(p, ts)[1..] == Redact(p, ts[1..]);
        if ts[0].Keep? {
          assert text[1..] == Render(ts[1..]);
        } else {
          SubstituteSkipsRedaction(p, Render(ts[1..]));
        }
      }
    }
  }

  lemma {:induction false} NoMatchInRender(p: Pattern, ts: seq<Token>, i: nat)
    requires Separable(p) && NoMatch(p, ts) && i <= |Render(ts)|
    ensures !TextMatches(p, Render(ts)[i..])
  {
    var text := Render(ts);
    if i == 0 {
      assert text[0..] == text && ts[0..] == ts;
      MatchOfRender(p, ts);
    } else {
      forall j | 0 <= j <= |ts[1..]| ensures !Matches(p, ts[1..][j..]) {
        assert ts[1..][j..] == ts[1 + j..];
      }
      if ts[0].Keep? {
        NoMatchInRender(p, ts[1..], i - 1);
        assert text[i..] == Render(ts[1..])[i - 1..];
      } else if i < |REDACTED| {
        NothingInsideRedaction(p, i, Render(ts[1..]));
        assert text[i..] == REDACTED[i..] + Render(ts[1..]);
      } else {
        NoMatchInRender(p, ts[1..], i - |REDACTED|);
        assert text[i..] == Render(ts[1..])[i - |REDACTED|..];
      }
    }
  }

  // ---------- where every character came from ----------

  ghost predicate IsSecret(w: string) {
    exists p :: p in SECRET_PATTERNS && TextMatches(p, w) && TextMatchLength(p, w) == |w|
  }

  /** The tokens cover `s` from `at` to its end: kept characters are its own, cuts are whole secrets. */
  ghost predicate Traces(ts: seq<Token>, s: string, at: nat) {
    if ts == [] then at == |s|
    else
      && Start(ts[0]) == at
      && at < End(ts[0]) <= |s|
      && (match ts[0] case Keep(c, k) => s[k] == c case Cut(from, until) => IsSecret(s[from..until]))
      && Traces(ts[1..], s, End(ts[0]))
  }

  function Whole(s: string, at: nat): (ts: seq<Token>)
    requires at <= |s|
    decreases |s| - at
  {
    if at == |s| then [] else [Keep(s[at], at)] + Whole(s, at + 1)
  }

  lemma {:induction false} WholeTraces(s: string, at: nat)
    requires at <= |s|
    ensures Traces(Whole(s, at), s, at) && Render(Whole(s, at)) == s[at..]
    decreases |s| - at
  {
    hide IsSecret;
    if at < |s| {
      WholeTraces(s, at + 1);
      assert Whole(s, at)[1..] == Whole(s, at + 1);
    }
  }

  /** A stretch of kept tokens is the stretch of the input it stands for. */
  lemma {:induction false} KeptStretch(ts: seq<Token>, s: string, at: nat, n: nat)
    requires Traces(ts, s, at) && n <= |ts| && forall i :: 0 <= i < n ==> ts[i].Keep?
    ensures at + n <= |s| && Traces(ts[n..], s, at + n)
    ensures forall i :: 0 <= i < n ==> ts[i] == Keep(s[at + i], at + i)
  {
    hide IsSecret;
    if n == 0 {
      TracesWithin(ts, s, at);
      assert ts[0..] == ts;
    } else {
      KeptStretch(ts[1..], s, at + 1, n - 1);
      assert ts[n..] == ts[1..][n - 1..];
      forall i | 0 <= i < n ensures ts[i] == Keep(s[at + i], at + i) {
        if i > 0 {
          assert ts[i] == ts[1..][i - 1];
        }
      }
    }
  }

  lemma TracesWithin(ts: seq<Token>, s: string, at: nat)
    requires Traces(ts, s, at)
    ensures at <= |s|
  {
    hide IsSecret;
  }

  lemma {:induction false} RenderOfKept(ts: seq<Token>, w: string)
    requires |w| <= |ts| && forall i :: 0 <= i < |w| ==> ts[i].Keep? && ts[i].c == w[i]
    ensures w <= Render(ts)
  {
    if w != "" {
      RenderOfKept(ts[1..], w[1..]);
      assert w == [w[0]] + w[1..];
    }
  }

  lemma {:induction false} RunOfPrefix(p: Pattern, s: string, n: nat)
    requires n <= TextRun(p, s)
    ensures TextRun(p, s[..n]) == n
  {
    if n > 0 {
      RunOfPrefix(p, s[1..], n - 1);
      assert s[..n][1..] == s[1..][..n - 1];
    }
  }

  /** What a match covers is a match by itself, and all of it. */
  lemma MatchAlone(p: Pattern, s: string)
    requires TextMatches(p, s)
    ensures var w := s[..TextMatchLength(p, s)]; TextMatches(p, w) && TextMatchLength(p, w) == |w|
  {
    var n := TextMatchLength(p, s);
    var w := s[..n];
    var k := |p.prefix|;
    RunOfPrefix(p, s[k..], n - k);
    assert w[k..] == s[k..][..n - k];
  }

  /** The stretch a pattern matches at the front of the tokens is a secret of the input. */
  lemma MatchIsSecret(p: Pattern, ts: seq<Token>, s: string, at: nat)
    requires p in SECRET_PATTERNS && Traces(ts, s, at) && Matches(p, ts)
    ensures var n := MatchLength(p, ts);
      at + n <= |s| && IsSecret(s[at..at + n]) && Traces(ts[n..], s, at + n) && (n > 0 ==> End(ts[n - 1]) == at + n)
  {
    AllSeparable();
    var n := MatchLength(p, ts);
    MatchOfRender(p, ts);
    KeptStretch(ts, s, at, n);
    var w := s[at..at + n];
    RenderOfKept(ts, w);
    assert Render(ts)[..n] == w;
    MatchAlone(p, Render(ts));
  }

  lemma {:induction false} RedactTraces(p: Pattern, ts: seq<Token>, s: string, at: nat)
    requires p in SECRET_PATTERNS && Traces(ts, s, at)
    ensures Traces(Redact(p, ts), s, at)
    decreases |ts|
  {
    hide IsSecret, Matches;
    if ts != [] {
      var r := Redact(p, ts);
      if Matches(p, ts) && MatchLength(p, ts) > 0 {
        var n := MatchLength(p, ts);
        MatchIsSecret(p, ts, s, at);
        RedactTraces(p, ts[n..], s, at + n);
        assert r[1..] == Redact(p, ts[n..]);
      } else {
        RedactTraces(p, ts[1..], s, End(ts[0]));
        assert r[1..] == Redact(p, ts[1..]);
      }
    }
  }

  // ---------- masking ----------

  function RedactWith(patterns: seq<Pattern>, ts: seq<Token>): seq<Token> {
    if patterns == [] then ts
    else Redact(patterns[|patterns| - 1], RedactWith(patterns[..|patterns| - 1], ts))
  }

  ghost predicate Known(patterns: seq<Pattern>) {
    forall p :: p in patterns ==> p in SECRET_PATTERNS
  }

  ghost predicate NoneMatch(patterns: seq<Pattern>, ts: seq<Token>) {
    forall p :: p in patterns ==> NoMatch(p, ts)
  }

  lemma RedactKeepsNoneMatch(patterns: seq<Pattern>, last: Pattern, ts: seq<Token>)
    requires NoneMatch(patterns, ts) && last.min > 0
    ensures NoneMatch(patterns + [last], Redact(last, ts))
  {
    hide Redact, NoMatch;
    forall p | p in patterns + [last] ensures NoMatch(p, Redact(last, ts)) {
      if p in patterns {
        NoMatchStays(p, last, ts);
      } else {
        NoMatchLeft(last, ts);
      }
    }
  }

  lemma {:induction false} RedactWithIsFaithful(patterns: seq<Pattern>, s: string)
    requires Known(patterns)
    ensures Traces(RedactWith(patterns, Whole(s, 0)), s, 0)
    ensures Render(RedactWith(patterns, Whole(s, 0))) == MaskWith(patterns, s)
    ensures NoneMatch(patterns, RedactWith(patterns, Whole(s, 0)))
  {
    hide Redact, Substitute, Traces, Render, Whole;
    WholeTraces(s, 0);
    if patterns != [] {
      var last, before := patterns[|patterns| - 1], patterns[..|patterns| - 1];
      assert patterns == before + [last];
      assert last in SECRET_PATTERNS;
      RedactWithIsFaithful(before, s);
      var ts := RedactWith(before, Whole(s, 0));
      AllSeparable();
      hide *;
      assert RedactWith(patterns, Whole(s, 0)) == Redact(last, ts);
      RedactTraces(last, ts, s, 0);
      SubstituteIsRedact(last, ts);
      RedactKeepsNoneMatch(before, last, ts);
    }
  }

  /** The mask hides every match of every pattern, including the ones a later substitution could have uncovered. */
  lemma MaskHidesEverySecret(s: string, p: Pattern)
    requires p in SECRET_PATTERNS
    ensures NoTextMatch(p, Mask(s))
  {
    RedactWithIsFaithful(SECRET_PATTERNS, s);
    AllSeparable();
    var ts := RedactWith(SECRET_PATTERNS, Whole(s, 0));
    forall i | 0 <= i <= |Mask(s)| ensures !TextMatches(p, Mask(s)[i..]) {
      NoMatchInRender(p, ts, i);
    }
  }

  /** No stretch of the masked text is a word of any pattern. */
  lemma NoSecretIsLeft(s: string, p: Pattern, i: nat, j: nat)
    requires p in SECRET_PATTERNS && i <= j <= |Mask(s)|
    ensures !InLanguage(p, Mask(s)[i..j])
  {
    hide Mask, InLanguage;
    MaskHidesEverySecret(s, p);
    MatchesIff(p, Mask(s)[i..]);
    assert Mask(s)[i..][..j - i] == Mask(s)[i..j];
  }

  /** The output is the input cut into pieces in order: what is kept is unchanged, what is cut is a secret. */
  lemma MaskKeepsTheRest(s: string)
    ensures exists ts :: Traces(ts, s, 0) && Render(ts) == Mask(s)
  {
    RedactWithIsFaithful(SECRET_PATTERNS, s);
  }

  lemma {:induction false} NothingToSubstitute(p: Pattern, s: string)
    requires NoTextMatch(p, s)
    ensures Substitute(p, s) == s
  {
    if s != "" {
      assert s[0..] == s;
      forall i | 0 <= i <= |s[1..]| ensures !TextMatches(p, s[1..][i..]) {
        assert s[1..][i..] == s[1 + i..];
      }
      NothingToSubstitute(p, s[1..]);
    }
  }

  lemma {:induction false} NothingToMask(patterns: seq<Pattern>, s: string)
    requires forall p :: p in patterns ==> NoTextMatch(p, s)
    ensures MaskWith(patterns, s) == s
  {
    if patterns != [] {
      NothingToMask(patterns[..|patterns| - 1], s);
      NothingToSubstitute(patterns[|patterns| - 1], s);
    }
  }

  lemma MaskIsIdempotent(s: string)
    ensures Mask(Mask(s)) == Mask(s)
  {
    forall p | p in SECRET_PATTERNS ensures NoTextMatch(p, Mask(s)) {
      MaskHidesEverySecret(s, p);
    }
    NothingToMask(SECRET_PATTERNS, Mask(s));
  }

  /** Text is left alone exactly when it holds no secret. */
  lemma MaskChangesIff(s: string)
    ensures Mask(s) == s <==> forall p :: p in SECRET_PATTERNS ==> NoTextMatch(p, s)
  {
    if Mask(s) == s {
      forall p | p in SECRET_PATTERNS ensures NoTextMatch(p, s) {
        MaskHidesEverySecret(s, p);
      }
    } else if forall p :: p in SECRET_PATTERNS ==> NoTextMatch(p, s) {
      NothingToMask(SECRET_PATTERNS, s);
    }
  }

  // ---------- the four kinds of secret, spelled out ----------

  predicate Alphanumeric(c: char) {
    'A' <= c <= 'Z' || 'a' <= c <= 'z' || '0' <= c <= '9'
  }

  predicate AlphanumericFrom(w: string, n: nat) {
    forall i :: n <= i < |w| ==> Alphanumeric(w[i])
  }

  predicate DashedFrom(w: string, n: nat) {
    forall i :: n <= i < |w| ==> Alphanumeric(w[i]) || w[i] == '_' || w[i] == '-'
  }

  predicate GoogleKey(w: string) {
    |w| == 39 && w[..6] == "AIzaSy" && DashedFrom(w, 6)
  }

  predicate GeminiToken(w: string) {
    |w| >= 43 && w[..3] == "AQ." && DashedFrom(w, 3)
  }

  predicate GroqKey(w: string) {
    |w| >= 44 && w[..4] == "gsk_" && AlphanumericFrom(w, 4)
  }

  predicate OpenAiKey(w: string) {
    |w| >= 35 && w[..3] == "sk-" && AlphanumericFrom(w, 3)
  }

  predicate Secret(w: string) {
    GoogleKey(w) || GeminiToken(w) || GroqKey(w) || OpenAiKey(w)
  }

  /** The patterns, in the order of substitution, describe exactly those. */
  lemma PatternsAre(w: string)
    ensures |SECRET_PATTERNS| == 4
    ensures InLanguage(SECRET_PATTERNS[0], w) <==> GoogleKey(w)
    ensures InLanguage(SECRET_PATTERNS[1], w) <==> GeminiToken(w)
    ensures InLanguage(SECRET_PATTERNS[2], w) <==> GroqKey(w)
    ensures InLanguage(SECRET_PATTERNS[3], w) <==> OpenAiKey(w)
  {
  }

  lemma SecretIff(w: string)
    ensures Secret(w) <==> exists p :: p in SECRET_PATTERNS && InLanguage(p, w)
  {
    PatternsAre(w);
    hide InLanguage, GoogleKey, GeminiToken, GroqKey, OpenAiKey;
    assert forall i :: 0 <= i < 4 ==> SECRET_PATTERNS[i] in SECRET_PATTERNS;
  }

  lemma NoTextMatchIff(p: Pattern, s: string)
    ensures NoTextMatch(p, s) <==> forall i, j :: 0 <= i <= j <= |s| ==> !InLanguage(p, s[i..j])
  {
    hide InLanguage, TextMatches;
    forall i, j | NoTextMatch(p, s) && 0 <= i <= j <= |s| ensures !InLanguage(p, s[i..j]) {
      MatchesIff(p, s[i..]);
      assert s[i..][..j - i] == s[i..j];
      assert !TextMatches(p, s[i..]);
    }
    forall i | 0 <= i <= |s| && TextMatches(p, s[i..]) ensures exists j :: i <= j <= |s| && InLanguage(p, s[i..j]) {
      MatchesIff(p, s[i..]);
      var n := TextMatchLength(p, s[i..]);
      assert s[i..][..n] == s[i..i + n];
    }
  }

  ghost predicate HoldsSecret(s: string) {
    exists i, j :: 0 <= i <= j <= |s| && Secret(s[i..j])
  }

  lemma HoldsSecretIff(s: string)
    ensures !HoldsSecret(s) <==> forall p :: p in SECRET_PATTERNS ==> NoTextMatch(p, s)
  {
    hide Secret, InLanguage, NoTextMatch;
    forall p ensures NoTextMatch(p, s) <==> forall i, j :: 0 <= i <= j <= |s| ==> !InLanguage(p, s[i..j]) {
      NoTextMatchIff(p, s);
    }
    forall i, j | 0 <= i <= j <= |s|
      ensures Secret(s[i..j]) <==> exists p :: p in SECRET_PATTERNS && InLanguage(p, s[i..j])
    {
      SecretIff(s[i..j]);
    }
  }

  /** Masked text holds no secret, and text is left as it is exactly when it holds none. */
  lemma NoSecretSurvives(s: string)
    ensures !HoldsSecret(Mask(s)) && (Mask(s) == s <==> !HoldsSecret(s))
  {
    hide Mask, NoTextMatch;
    forall p | p in SECRET_PATTERNS ensures NoTextMatch(p, Mask(s)) {
      MaskHidesEverySecret(s, p);
    }
    HoldsSecretIff(Mask(s));
    HoldsSecretIff(s);
    MaskChangesIff(s);
  }

  /** A Google key alone is replaced by the redaction text and nothing else. */
  lemma GoogleKeyIsRedacted(w: string)
    requires GoogleKey(w)
    ensures Mask(w) == "[REDACTED_SECRET]"
  {
    PatternsAre(w);
    assert w[..39] == w;
    MatchesIff(GOOGLE, w);
    assert TextMatchLength(GOOGLE, w) == 39 && w[39..] == "";
    var once := Substitute(GOOGLE, w);
    assert once == REDACTED + Substitute(GOOGLE, "") == REDACTED;
    forall p | p in SECRET_PATTERNS ensures NoTextMatch(p, REDACTED) {
    }
    assert SECRET_PATTERNS[..4] == SECRET_PATTERNS && SECRET_PATTERNS[..3][..2][..1] == [GOOGLE] && SECRET_PATTERNS[..3][..2] == [GOOGLE, GEMINI];
    assert SECRET_PATTERNS[..3] == [GOOGLE, GEMINI, GROQ] && [GOOGLE][..0] == [];
    hide TextMatches, InLanguage;
    NothingToSubstitute(GEMINI, REDACTED);
    NothingToSubstitute(GROQ, REDACTED);
    NothingToSubstitute(OPENAI, REDACTED);
    hide Substitute;
    assert MaskWith([GOOGLE], w) == Substitute(GOOGLE, MaskWith([], w));
    assert MaskWith([GOOGLE, GEMINI], w) == Substitute(GEMINI, MaskWith([GOOGLE], w));
    assert MaskWith([GOOGLE, GEMINI, GROQ], w) == Substitute(GROQ, MaskWith([GOOGLE, GEMINI], w));
  }

  method MaskSecrets(text: string) returns (masked: string)
    ensures masked == Mask(text)
    ensures forall p :: p in SECRET_PATTERNS ==> NoTextMatch(p, masked)
    ensures exists ts :: Traces(ts, text, 0) && Render(ts) == masked
  {
    MaskKeepsTheRest(text);
    forall p | p in SECRET_PATTERNS ensures NoTextMatch(p, Mask(text)) {
      MaskHidesEverySecret(text, p);
    }
    if text == "" {
      assert Mask(text) == "" by {
        forall p | p in SECRET_PATTERNS ensures NoTextMatch(p, "") {
        }
        NothingToMask(SECRET_PATTERNS, "");
      }
      return text;
    }
    masked := text;
    for i := 0 to |SECRET_PATTERNS|
      invariant masked == MaskWith(SECRET_PATTERNS[..i], text)
    {
      masked := Substitute(SECRET_PATTERNS[i], masked);
      assert SECRET_PATTERNS[..i + 1][..i] == SECRET_PATTERNS[..i];
    }
    assert SECRET_PATTERNS[..|SECRET_PATTERNS|] == SECRET_PATTERNS;
  }
}
