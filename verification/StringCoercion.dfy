/** String trimming and loose values, as the shared normalisation helpers read them. */
module StringCoercion {
  import opened Options

  /** White space and line terminators of ECMA-262, sections 12.2 and 12.3. */
  predicate Space(c: char) {
    || c in {' ', '\t', '\n', '\r', '\U{000B}', '\U{000C}', '\U{00A0}', '\U{1680}'}
    || '\U{2000}' <= c <= '\U{200A}'
    || c in {'\U{2028}', '\U{2029}', '\U{202F}', '\U{205F}', '\U{3000}', '\U{FEFF}'}
  }

  function TrimStart(s: string): string {
    if s != "" && Space(s[0]) then TrimStart(s[1..]) else s
  }

  function TrimEnd(s: string): string {
    if s != "" && Space(s[|s| - 1]) then TrimEnd(s[..|s| - 1]) else s
  }

  function Trim(s: string): string {
    TrimEnd(TrimStart(s))
  }

  /** Nothing left to trim. */
  predicate Tidy(s: string) {
    s != "" ==> !Space(s[0]) && !Space(s[|s| - 1])
  }

  lemma {:induction false} TrimEndIsTidy(s: string)
    requires s != "" ==> !Space(s[0])
    ensures Tidy(TrimEnd(s))
  {
    if s != "" && Space(s[|s| - 1]) {
      TrimEndIsTidy(s[..|s| - 1]);
    }
  }

  lemma {:induction false} TrimStartIsTidy(s: string)
    ensures TrimStart(s) != "" ==> !Space(TrimStart(s)[0])
  {
    if s != "" && Space(s[0]) {
      TrimStartIsTidy(s[1..]);
    }
  }

  /** Trimming leaves no outer white space, and only texts with outer white space change. */
  lemma TrimIff(s: string)
    ensures Tidy(Trim(s)) && (Trim(s) == s <==> Tidy(s)) && Trim(Trim(s)) == Trim(s)
  {
    TrimStartIsTidy(s);
    TrimEndIsTidy(TrimStart(s));
  }

  predicate Spaces(s: string) {
    forall i :: 0 <= i < |s| ==> Space(s[i])
  }

  lemma {:induction false} TrimStartCuts(s: string) returns (i: nat)
    ensures i <= |s| && TrimStart(s) == s[i..] && Spaces(s[..i])
  {
    i := 0;
    if s != "" && Space(s[0]) {
      var j := TrimStartCuts(s[1..]);
      i := j + 1;
      assert s[i..] == s[1..][j..] && s[..i] == [s[0]] + s[1..][..j];
    }
  }

  lemma {:induction false} TrimEndCuts(s: string) returns (j: nat)
    ensures j <= |s| && TrimEnd(s) == s[..j] && Spaces(s[j..])
  {
    j := |s|;
    if s != "" && Space(s[|s| - 1]) {
      j := TrimEndCuts(s[..|s| - 1]);
      assert s[j..] == s[..|s| - 1][j..] + [s[|s| - 1]];
    }
  }

  /** Trimming cuts white space off both ends and nothing else. */
  lemma TrimCuts(s: string) returns (before: string, after: string)
    ensures s == before + Trim(s) + after && Spaces(before) && Spaces(after)
  {
    var i := TrimStartCuts(s);
    var j := TrimEndCuts(s[i..]);
    before, after := s[..i], s[i..][j..];
    assert s == s[..i] + s[i..] && s[i..] == s[i..][..j] + s[i..][j..];
  }

  /** A text is trimmed to exactly one of its stretches: the one with only white space around it and none at its ends. */
  lemma TrimIs(before: string, middle: string, after: string)
    requires Spaces(before) && Spaces(after) && Tidy(middle)
    ensures Trim(before + middle + after) == middle
  {
    var s := before + middle + after;
    var a, b := TrimCuts(s);
    TrimIff(s);
    var t := Trim(s);
    assert forall k :: 0 <= k < |t| ==> t[k] == s[|a| + k];
    if middle == "" {
      assert forall i :: 0 <= i < |s| ==> Space(s[i]);
    } else {
      assert s[|before|] == middle[0] && s[|before| + |middle| - 1] == middle[|middle| - 1];
      assert t == "" ==> s == a + b;
      assert t != "";
      assert s[|a|] == t[0] && s[|a| + |t| - 1] == t[|t| - 1];
      assert |a| == |before|;
      assert |b| == |after|;
      assert t == s[|a|..|s| - |b|] == middle;
    }
  }

  /** Trimmed text, or nothing when no text is left. */
  function NormalizeOptional(s: Option<string>): (r: Option<string>)
    ensures r.Some? ==> r.value != "" && Tidy(r.value)
  {
    if s.None? then None
    else
      TrimIff(s.value);
      if Trim(s.value) == "" then None else Some(Trim(s.value))
  }

  function Digit(n: nat): char
    requires n < 10
  {
    '0' + n as char
  }

  function Digits(n: nat): (s: string)
    ensures s != ""
  {
    (if n < 10 then "" else Digits(n / 10)) + [Digit(n % 10)]
  }

  /** A whole number in decimal. */
  function Decimal(n: int): (s: string)
    ensures s != ""
  {
    if n < 0 then "-" + Digits(-n) else Digits(n)
  }

  predicate AllDigits(s: string) {
    forall i :: 0 <= i < |s| ==> '0' <= s[i] <= '9'
  }

  /** The number that a text of digits stands for. */
  function ReadDigits(s: string): nat
    requires AllDigits(s)
  {
    if s == "" then 0 else ReadDigits(s[..|s| - 1]) * 10 + (s[|s| - 1] as nat - '0' as nat)
  }

  lemma ReadOneMore(s: string, d: nat)
    requires AllDigits(s) && d < 10
    ensures AllDigits(s + [Digit(d)]) && ReadDigits(s + [Digit(d)]) == ReadDigits(s) * 10 + d
  {
    assert (s + [Digit(d)])[..|s|] == s;
  }

  lemma {:induction false} DigitsReadBack(n: nat)
    ensures AllDigits(Digits(n)) && ReadDigits(Digits(n)) == n
    ensures n > 0 ==> Digits(n)[0] != '0'
  {
    if n >= 10 {
      DigitsReadBack(n / 10);
      ReadOneMore(Digits(n / 10), n % 10);
    } else {
      ReadOneMore("", n);
      assert Digits(n) == "" + [Digit(n)];
    }
  }

  /** The decimal text of a whole number: its sign, and digits that read back, without leading zeros. */
  lemma DecimalIs(n: int)
    ensures exists digits: string ::
      && digits != "" && AllDigits(digits)
      && ReadDigits(digits) == (if n < 0 then -n else n) && (n != 0 ==> digits[0] != '0')
      && Decimal(n) == (if n < 0 then "-" else "") + digits
  {
    var size := if n < 0 then -n else n;
    DigitsReadBack(size);
    assert Decimal(n) == (if n < 0 then "-" else "") + Digits(size);
  }
}
