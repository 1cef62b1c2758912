/** The three scanning loops over base64 text, and what they accept. */
module Base64 {
  import opened Base64Spec
  import opened Options

  // ---------- what the loops compute, on text without whitespace ----------

  ghost predicate ValidOf(c: seq<Code>) {
    |c| > 0 && |c| % 4 == 0 && Shaped(c)
  }

  ghost predicate CanonicalLength(c: seq<Code>) {
    |c| > 0 && (|c| % 4 == 0 || (Padding(c) == 0 && |c| % 4 != 1))
  }

  ghost function CanonicalOf(c: seq<Code>): Option<seq<Code>> {
    if Shaped(c) && CanonicalLength(c) && SpareBitsZero(Letters(c)) then
      Some(if |c| % 4 == 0 then c else c + seq(4 - |c| % 4, _ => PAD))
    else None
  }

  function EstimateOf(c: seq<Code>): nat {
    var n := |c| * 3 / 4 - (if Padding(c) > 2 then 2 else Padding(c));
    if n < 0 then 0 else n
  }

  // ---------- acceptance ----------

  ghost predicate Encodes(c: seq<Code>, b: seq<Byte>) {
    b != [] && (c == Encode(b) || c == Bare(b))
  }

  lemma LengthArithmetic(n: nat, bare: nat)
    requires bare == BareLength(n)
    ensures bare % 4 != 1 && (bare + |Pads(n)|) % 4 == 0 && (bare % 4 == 0 <==> n % 3 == 0)
    ensures (bare + |Pads(n)|) * 3 / 4 - |Pads(n)| == n
    ensures n % 3 != 0 ==> |Pads(n)| == 4 - bare % 4 && bare * 3 / 4 == n
    ensures n % 3 == 0 ==> |Pads(n)| == 0
    ensures n > 0 <==> bare > 0
  {
    hide Pads;
    var q, r := n / 3, n % 3;
    PadsAre(n);
    Quarter(q, 0);
    if r == 0 {
      assert bare == 4 * q && n == 3 * q;
      Quarter(3 * q, 0);
    } else if r == 1 {
      assert bare == 4 * q + 2 && n == 3 * q + 1;
      Quarter(q, 2);
      Quarter(q + 1, 0);
      Quarter(3 * q + 3, 0);
      Quarter(3 * q + 1, 2);
    } else {
      assert bare == 4 * q + 3 && n == 3 * q + 2;
      Quarter(q, 3);
      Quarter(q + 1, 0);
      Quarter(3 * q + 3, 0);
      Quarter(3 * q + 2, 1);
    }
  }

  lemma Quarter(q: nat, r: nat)
    requires r < 4
    ensures (4 * q + r) / 4 == q && (4 * q + r) % 4 == r
  {
  }

  lemma LengthsOf(b: seq<Byte>)
    ensures |Encode(b)| == |Bare(b)| + |Pads(|b|)| && |Pads(|b|)| <= 2
    ensures |Encode(b)| % 4 == 0 && (|Bare(b)| % 4 == 0 <==> |b| % 3 == 0)
    ensures |Bare(b)| % 4 != 1 && |Encode(b)| * 3 / 4 - |Pads(|b|)| == |b|
    ensures |b| % 3 != 0 ==> |Pads(|b|)| == 4 - |Bare(b)| % 4 && |Bare(b)| * 3 / 4 == |b|
    ensures |b| % 3 == 0 ==> |Pads(|b|)| == 0
    ensures b != [] <==> |Bare(b)| > 0
  {
    hide Bare, Pads;
    BareShape(b);
    LengthArithmetic(|b|, |Bare(b)|);
    PadsAre(|b|);
  }

  lemma PadsAre(n: nat)
    ensures |Pads(n)| == if n % 3 == 0 then 0 else 3 - n % 3
    ensures forall i :: 0 <= i < |Pads(n)| ==> Pads(n)[i] == PAD
  {
  }

  lemma EncodedParts(b: seq<Byte>)
    ensures Padding(Encode(b)) == |Pads(|b|)| && Letters(Encode(b)) == Bare(b)
    ensures Padding(Bare(b)) == 0 && Letters(Bare(b)) == Bare(b)
    ensures Shaped(Encode(b)) && Shaped(Bare(b))
  {
    BareShape(b);
    PadsAre(|b|);
    PaddingUnique(Bare(b), Pads(|b|));
    PaddingUnique(Bare(b), []);
    assert Bare(b) + [] == Bare(b);
  }

  lemma EncodedIsAccepted(c: seq<Code>, b: seq<Byte>)
    requires Encodes(c, b)
    ensures CanonicalOf(c) == Some(Encode(b))
  {
    BareShape(b);
    LengthsOf(b);
    EncodedParts(b);
    if c == Bare(b) && |c| % 4 != 0 {
      assert seq(4 - |c| % 4, _ => PAD) == Pads(|b|);
    } else {
      assert |c| % 4 == 0;
      if c == Bare(b) {
        assert c + Pads(|b|) == c;
      }
    }
  }

  lemma AcceptedLength(c: seq<Code>)
    requires CanonicalOf(c).Some?
    ensures AllData(Letters(c)) && SpareBitsZero(Letters(c)) && Padding(c) <= 2 && |c| == |Letters(c)| + Padding(c)
    ensures |Letters(c)| % 4 != 1 && |c| > Padding(c) && (Padding(c) > 0 ==> |c| % 4 == 0)
  {
    hide AllData, SpareBitsZero, Padding;
  }

  lemma WholeGroups(b: seq<Byte>)
    ensures (|Bare(b)| + |Pads(|b|)|) % 4 == 0 && |Pads(|b|)| <= 2 && (b != [] <==> |Bare(b)| > 0)
  {
    LengthsOf(b);
    hide Bare, Pads;
    assert |Encode(b)| == |Bare(b)| + |Pads(|b|)|;
  }

  lemma AllPads(c: seq<Code>, n: nat)
    requires Padding(c) == |Pads(n)|
    ensures c == Letters(c) + Pads(n)
  {
    PadsAre(n);
    hide Pads;
  }

  lemma AcceptedIsEncoded(c: seq<Code>) returns (b: seq<Byte>)
    requires CanonicalOf(c).Some?
    ensures Encodes(c, b)
  {
    hide *;
    AcceptedLength(c);
    var d := Letters(c);
    b := Decode(d);
    BareDecode(d);
    WholeGroups(b);
    if Padding(c) == 0 {
      NoPadding(c);
    } else {
      SamePadding(|d|, Padding(c), |Pads(|b|)|);
      AllPads(c, |b|);
    }
    EncodesBy(c, b);
  }

  lemma EncodesBy(c: seq<Code>, b: seq<Byte>)
    requires b != [] && (c == Bare(b) || c == Bare(b) + Pads(|b|))
    ensures Encodes(c, b)
  {
    hide Bare, Pads;
  }

  lemma NoPadding(c: seq<Code>)
    requires Padding(c) == 0
    ensures Letters(c) == c
  {
  }

  lemma SamePadding(d: nat, p: nat, q: nat)
    requires p <= 2 && q <= 2 && (d + p) % 4 == 0 && (d + q) % 4 == 0
    ensures p == q
  {
  }

  lemma OnlyOneMeaning(c: seq<Code>, b: seq<Byte>, b': seq<Byte>)
    requires Encodes(c, b) && Encodes(c, b')
    ensures b == b'
  {
    EncodedParts(b);
    EncodedParts(b');
    assert Bare(b) == Letters(c) == Bare(b');
    DecodeBare(b);
    DecodeBare(b');
  }

  /** `t` is the answer exactly when the text without whitespace encodes some bytes, with its padding
      or with none of it, and then `t` is their padded encoding. */
  lemma CanonicalIff(s: seq<Code>, t: seq<Code>)
    ensures CanonicalOf(Strip(s)) == Some(t) <==> exists b :: Encodes(Strip(s), b) && t == Encode(b)
  {
    if CanonicalOf(Strip(s)) == Some(t) {
      var b := AcceptedIsEncoded(Strip(s));
      EncodedIsAccepted(Strip(s), b);
    }
    if b :| Encodes(Strip(s), b) && t == Encode(b) {
      EncodedIsAccepted(Strip(s), b);
    }
  }

  lemma EncodedIsSolid(b: seq<Byte>)
    ensures Strip(Encode(b)) == Encode(b)
  {
    BareShape(b);
    PadsAre(|b|);
    StripSolid(Encode(b));
  }

  /** Canonical text is its own canonical form. */
  lemma CanonicalIsIdempotent(s: seq<Code>)
    requires CanonicalOf(Strip(s)).Some?
    ensures var t := CanonicalOf(Strip(s)).value; CanonicalOf(Strip(t)) == Some(t)
  {
    var b := AcceptedIsEncoded(Strip(s));
    EncodedIsAccepted(Strip(s), b);
    EncodedIsSolid(b);
    EncodedIsAccepted(Encode(b), b);
  }

  /** Text comes back unchanged exactly when it is valid and its spare bits are zero. */
  lemma UnchangedIff(s: seq<Code>)
    ensures CanonicalOf(Strip(s)) == Some(s) <==> ValidOf(s) && SpareBitsZero(Letters(s))
  {
    StripSolid(s);
    if CanonicalOf(Strip(s)) == Some(s) {
      var b := AcceptedIsEncoded(Strip(s));
      EncodedIsAccepted(Strip(s), b);
      LengthsOf(b);
      EncodedIsSolid(b);
    }
    if ValidOf(s) {
      forall i | 0 <= i < |s| ensures !IsSpace(s[i]) {
        if i < |Letters(s)| {
          assert IsData(Letters(s)[i]);
        } else {
          assert s[i] == PAD;
        }
      }
    }
  }

  /** The estimate is exact on everything that is accepted. */
  lemma EstimateIsExact(s: seq<Code>, b: seq<Byte>)
    requires Encodes(Strip(s), b)
    ensures EstimateOf(Strip(s)) == |b|
  {
    LengthsOf(b);
    BareShape(b);
    EncodedParts(b);
  }

  /** Whitespace does not matter to either loop, wherever it stands. */
  lemma WhitespaceIsIgnored(a: seq<Code>, w: seq<Code>, b: seq<Code>)
    requires forall i :: 0 <= i < |w| ==> IsSpace(w[i])
    ensures EstimateOf(Strip(a + w + b)) == EstimateOf(Strip(a + b))
    ensures CanonicalOf(Strip(a + w + b)) == CanonicalOf(Strip(a + b))
  {
    StripInsert(a, w, b);
  }

  lemma ShapedIsNotForeign(c: seq<Code>, j: nat)
    requires j < |c| && Shaped(c)
    ensures !Foreign(c[j])
  {
    hide Padding;
    var n := |c| - Padding(c);
    assert j < n ==> c[..n][j] == c[j];
  }

  lemma ForeignIsRejected(s: seq<Code>, i: nat)
    requires i < |s| && Foreign(s[i])
    ensures CanonicalOf(Strip(s)).None?
  {
    StripKeeps(s, i);
    var c := Strip(s);
    var j: nat :| j < |c| && c[j] == s[i];
    hide Shaped, Strip;
    assert !Shaped(c) by {
      if Shaped(c) {
        ShapedIsNotForeign(c, j);
      }
    }
  }

  /** Control characters and blanks, however many and wherever they stand, change neither result. */
  lemma BlanksAreIgnored(a: seq<Code>, w: seq<Code>, b: seq<Code>)
    requires forall i :: 0 <= i < |w| ==> w[i] <= 0x20
    ensures EstimateOf(Strip(a + w + b)) == EstimateOf(Strip(a + b))
    ensures CanonicalOf(Strip(a + w + b)) == CanonicalOf(Strip(a + b))
  {
    WhitespaceIsIgnored(a, w, b);
  }

  // ---------- the loops ----------

  lemma StripSnoc(s: seq<Code>, i: nat)
    requires i < |s|
    ensures Strip(s[..i + 1]) == Strip(s[..i]) + if IsSpace(s[i]) then [] else [s[i]]
  {
    assert s[..i + 1][..i] == s[..i];
  }

  lemma PaddingSnoc(c: seq<Code>, x: Code)
    ensures Padding(c + [x]) == if x == PAD then Padding(c) + 1 else 0
  {
    assert (c + [x])[..|c|] == c;
  }

  /** Once the text so far cannot be shaped, no continuation can. */
  lemma {:induction false} UnshapedStays(c: seq<Code>, rest: seq<Code>)
    requires !Shaped(c)
    ensures !Shaped(c + rest)
    decreases |rest|
  {
    if rest == [] {
      assert c + rest == c;
    } else {
      UnshapedNext(c, rest[0]);
      assert c + rest == (c + [rest[0]]) + rest[1..];
      UnshapedStays(c + [rest[0]], rest[1..]);
    }
  }

  lemma UnshapedNext(c: seq<Code>, x: Code)
    requires !Shaped(c)
    ensures !Shaped(c + [x])
  {
    PaddingSnoc(c, x);
    var n := Padding(c);
    if x == PAD {
      assert (c + [x])[..|c| - n] == c[..|c| - n];
    } else if n <= 2 {
      var i :| 0 <= i < |c| - n && !IsData(c[i]);
      assert (c + [x])[..|c| + 1][i] == c[i];
    } else {
      assert (c + [x])[..|c| + 1][|c| - 1] == PAD;
    }
  }

  lemma ShapedPad(c: seq<Code>)
    requires Shaped(c)
    ensures Shaped(c + [PAD]) <==> Padding(c) < 2
    ensures Letters(c + [PAD]) == Letters(c)
  {
    hide IsData, Padding;
    PaddingSnoc(c, PAD);
    assert (c + [PAD])[..|c| - Padding(c)] == c[..|c| - Padding(c)];
  }

  lemma ShapedLetter(c: seq<Code>, x: Code)
    requires Shaped(c) && x != PAD
    ensures Shaped(c + [x]) <==> Padding(c) == 0 && IsData(x)
    ensures Padding(c) == 0 ==> Letters(c + [x]) == Letters(c) + [x]
  {
    hide IsData;
    PaddingSnoc(c, x);
    var d := c + [x];
    assert d[..|d|] == d;
    if Padding(c) > 0 {
      PadIsNoData();
      assert d[|c| - 1] == PAD;
    } else {
      assert c[..|c|] == c;
      assert d[|c|] == x;
    }
  }

  lemma PadIsNoData()
    ensures !IsData(PAD)
  {
  }

  /** What the scan knows about the solid text it has passed. */
  ghost predicate Scanned(c: seq<Code>, padding: nat, sawPadding: bool, lastDataCode: Code) {
    && Shaped(c) && padding == Padding(c) && (sawPadding <==> padding > 0)
    && (Letters(c) != [] ==> lastDataCode == Letters(c)[|Letters(c)| - 1])
  }

  lemma ScannedPad(c: seq<Code>, padding: nat, sawPadding: bool, last: Code)
    requires Scanned(c, padding, sawPadding, last)
    ensures if padding < 2 then Scanned(c + [PAD], padding + 1, true, last) else !Shaped(c + [PAD])
  {
    ShapedPad(c);
    PaddingSnoc(c, PAD);
  }

  lemma ScannedLetter(c: seq<Code>, padding: nat, sawPadding: bool, last: Code, x: Code)
    requires Scanned(c, padding, sawPadding, last) && x != PAD
    ensures if sawPadding || !IsData(x) then !Shaped(c + [x]) else Scanned(c + [x], padding, sawPadding, x)
  {
    ShapedLetter(c, x);
    PaddingSnoc(c, x);
  }

  lemma StripSplit(s: seq<Code>, i: nat)
    requires i <= |s|
    ensures Strip(s) == Strip(s[..i]) + Strip(s[i..])
  {
    assert s == s[..i] + s[i..];
    StripConcat(s[..i], s[i..]);
  }

  lemma Rejected(s: seq<Code>, i: nat)
    requires i <= |s| && !Shaped(Strip(s[..i]))
    ensures !Shaped(Strip(s))
  {
    StripSplit(s, i);
    UnshapedStays(Strip(s[..i]), Strip(s[i..]));
  }

  method IsValidBase64(value: seq<Code>) returns (valid: bool)
    ensures valid <==> ValidOf(value)
  {
    hide Shaped, Scanned, IsData;
    if |value| == 0 || |value| % 4 != 0 {
      return false;
    }
    var padding := 0;
    var sawPadding := false;
    ghost var last := 0;
    ScanStart();
    for i := 0 to |value|
      invariant Scanned(value[..i], padding, sawPadding, last)
    {
      var code := value[i];
      assert value[..i + 1] == value[..i] + [code];
      assert value == value[..i + 1] + value[i + 1..];
      if !Shaped(value[..i + 1]) {
        UnshapedStays(value[..i + 1], value[i + 1..]);
      }
      if code == 0x3d {
        ScannedPad(value[..i], padding, sawPadding, last);
        ScannedPadding(value[..i], padding, sawPadding, last);
        padding := padding + 1;
        if padding > 2 {
          return false;
        }
        sawPadding := true;
        continue;
      }
      ScannedLetter(value[..i], padding, sawPadding, last, code);
      if sawPadding || !IsData(code) {
        return false;
      }
      last := code;
    }
    assert value[..|value|] == value;
    ScannedPadding(value, padding, sawPadding, last);
    return true;
  }

  lemma ScanStart()
    ensures Scanned([], 0, false, 0)
  {
  }

  lemma ScannedPadding(c: seq<Code>, padding: nat, sawPadding: bool, last: Code)
    requires Scanned(c, padding, sawPadding, last)
    ensures padding <= 2 && Shaped(c)
  {
  }

  /** The output buffer is allocated on the first whitespace, one shorter than the text. */
  method CanonicalizeBase64(s: seq<Code>) returns (r: Option<seq<Code>>)
    ensures r == CanonicalOf(Strip(s))
  {
    hide Strip, Shaped, Scanned, IsData, CanonicalLength;
    var out: array?<Code> := null;
    var outLen := 0;
    var padding := 0;
    var sawPadding := false;
    var lastDataCode := 0;
    ScanStart();
    StripNothing();
    assert s[..0] == [];
    for i := 0 to |s|
      invariant out != null ==> fresh(out) && out.Length == |s| - 1 && outLen < i && out[..outLen] == Strip(s[..i])
      invariant out == null ==> Strip(s[..i]) == s[..i]
      invariant Scanned(Strip(s[..i]), padding, sawPadding, lastDataCode)
    {
      var code := s[i];
      ghost var clean := Strip(s[..i]);
      StripSnoc(s, i);
      if code <= 0x20 {
        assert Strip(s[..i + 1]) == clean;
        if out == null {
          out := Backfilled(s, i);
          outLen := i;
        }
        continue;
      }
      if !Shaped(clean + [code]) {
        Rejected(s, i + 1);
      }
      if code == 0x3d {
        ScannedPad(clean, padding, sawPadding, lastDataCode);
        ScannedPadding(clean, padding, sawPadding, lastDataCode);
        padding := padding + 1;
        if padding > 2 {
          return None;
        }
        sawPadding := true;
      } else {
        ScannedLetter(clean, padding, sawPadding, lastDataCode, code);
        if sawPadding || !IsData(code) {
          return None;
        }
        lastDataCode := code;
      }
      if out != null {
        out[outLen] := code;
        outLen := outLen + 1;
      } else {
        assert s[..i + 1] == s[..i] + [code];
      }
    }
    assert s[..|s|] == s;
    var cleaned := if out == null then s else out[..outLen];
    r := Finish(cleaned, padding, sawPadding, lastDataCode);
  }

  lemma StripNothing()
    ensures Strip([]) == []
  {
  }

  method Backfilled(s: seq<Code>, n: nat) returns (out: array<Code>)
    requires n < |s|
    ensures fresh(out) && out.Length == |s| - 1 && out[..n] == s[..n]
  {
    out := new Code[|s| - 1];
    for j := 0 to n
      invariant out[..j] == s[..j]
    {
      out[j] := s[j];
    }
  }

  /** Length, padding and spare-bit checks once the whole text has been scanned. */
  method Finish(c: seq<Code>, padding: nat, sawPadding: bool, lastDataCode: Code) returns (r: Option<seq<Code>>)
    requires Scanned(c, padding, sawPadding, lastDataCode)
    ensures r == CanonicalOf(c)
  {
    if |c| == 0 {
      return None;
    }
    var remainder := |c| % 4;
    if remainder != 0 && (sawPadding || remainder == 1) {
      return None;
    }
    var effectivePadding := if remainder == 0 then padding else 4 - remainder;
    assert |Letters(c)| == |c| - padding;
    assert effectivePadding == 2 <==> |Letters(c)| % 4 == 2;
    assert effectivePadding == 1 <==> |Letters(c)| % 4 == 3;
    var spare := if effectivePadding == 2 then 16 else if effectivePadding == 1 then 4 else 1;
    if spare != 1 {
      assert IsData(lastDataCode);
      if DataValue(lastDataCode) % spare != 0 {
        return None;
      }
    }
    return Some(if remainder == 0 then c else c + seq(4 - remainder, _ => PAD));
  }

  method SkipSpacesBack(s: seq<Code>, from: int) returns (end: int)
    requires -1 <= from < |s|
    ensures -1 <= end <= from && (end >= 0 ==> !IsSpace(s[end]))
    ensures Strip(s[..end + 1]) == Strip(s[..from + 1])
  {
    end := from;
    while end >= 0 && s[end] <= 0x20
      invariant -1 <= end <= from
      invariant Strip(s[..end + 1]) == Strip(s[..from + 1])
    {
      StripSnoc(s, end);
      end := end - 1;
    }
  }

  method CountSolid(s: seq<Code>) returns (n: nat)
    ensures n == |Strip(s)|
  {
    StripNothing();
    hide Strip;
    n := |s|;
    var first := 0;
    while first < |s| && s[first] > 0x20
      invariant first <= |s| && Strip(s[..first]) == s[..first]
    {
      StripSnoc(s, first);
      assert s[..first + 1] == s[..first] + [s[first]];
      first := first + 1;
    }
    for i := first to |s|
      invariant n == |s| - i + |Strip(s[..i])|
    {
      StripSnoc(s, i);
      if s[i] <= 0x20 {
        n := n - 1;
      }
    }
    assert s[..|s|] == s;
  }

  method EstimateBase64DecodedBytes(s: seq<Code>) returns (n: nat)
    ensures n == EstimateOf(Strip(s))
  {
    StripNothing();
    hide Strip, Padding;
    var effectiveLen := CountSolid(s);
    if effectiveLen == 0 {
      return 0;
    }
    var padding: int := 0;
    assert s[..|s|] == s;
    var end := SkipSpacesBack(s, |s| - 1);
    if end >= 0 && s[end] == PAD {
      padding := 1;
      PaddingAt(s, end);
      var before := SkipSpacesBack(s, end - 1);
      if before >= 0 && s[before] == PAD {
        padding := 2;
        PaddingAt(s, before);
      } else if before >= 0 {
        PaddingAt(s, before);
      }
    } else if end >= 0 {
      PaddingAt(s, end);
    }
    var estimated: int := effectiveLen as int * 3 / 4 - padding;
    n := if estimated < 0 then 0 else estimated;
  }

  lemma PaddingAt(s: seq<Code>, end: nat)
    requires end < |s| && !IsSpace(s[end])
    ensures Padding(Strip(s[..end + 1])) == if s[end] == PAD then Padding(Strip(s[..end])) + 1 else 0
  {
    StripSnoc(s, end);
    PaddingSnoc(Strip(s[..end]), s[end]);
  }
}
