/** Base64 over code units, after sections 3.2, 3.5 and 4 of RFC 4648. */
module Base64Spec {

  type Code = x: int | 0 <= x < 0x1_0000

  type Byte = x: int | 0 <= x < 0x100

  type Sextet = x: int | 0 <= x < 64

  const PAD: Code := 0x3d

  // ---------- the alphabet ----------

  predicate IsData(c: Code) {
    0x41 <= c <= 0x5a || 0x61 <= c <= 0x7a || 0x30 <= c <= 0x39 || c == 0x2b || c == 0x2f
  }

  function DataValue(c: Code): (v: Sextet)
    requires IsData(c)
  {
    if 0x41 <= c <= 0x5a then c - 0x41
    else if 0x61 <= c <= 0x7a then c - 0x61 + 26
    else if 0x30 <= c <= 0x39 then c - 0x30 + 52
    else if c == 0x2b then 62
    else 63
  }

  function Letter(v: Sextet): (c: Code)
    ensures IsData(c) && c != PAD && DataValue(c) == v
  {
    if v < 26 then 0x41 + v
    else if v < 52 then 0x61 + v - 26
    else if v < 62 then 0x30 + v - 52
    else if v == 62 then 0x2b
    else 0x2f
  }

  lemma LetterOfValue(c: Code)
    requires IsData(c)
    ensures Letter(DataValue(c)) == c
  {
  }

  // ---------- encoding ----------

  function Quad(a: Byte, b: Byte, c: Byte): (q: seq<Code>)
    ensures |q| == 4
  {
    [Letter(a / 4), Letter(a % 4 * 16 + b / 16), Letter(b % 16 * 4 + c / 64), Letter(c % 64)]
  }

  /** The encoding without its padding. */
  function Bare(b: seq<Byte>): seq<Code> {
    if |b| == 0 then []
    else if |b| == 1 then [Letter(b[0] / 4), Letter(b[0] % 4 * 16)]
    else if |b| == 2 then [Letter(b[0] / 4), Letter(b[0] % 4 * 16 + b[1] / 16), Letter(b[1] % 16 * 4)]
    else Quad(b[0], b[1], b[2]) + Bare(b[3..])
  }

  function Pads(n: nat): (p: seq<Code>) {
    if n % 3 == 1 then [PAD, PAD] else if n % 3 == 2 then [PAD] else []
  }

  function Encode(b: seq<Byte>): seq<Code> {
    Bare(b) + Pads(|b|)
  }

  // ---------- decoding ----------

  function FirstByte(v: Sextet, w: Sextet): Byte {
    v * 4 + w / 16
  }

  function SecondByte(v: Sextet, w: Sextet): Byte {
    v % 16 * 16 + w / 4
  }

  function ThirdByte(v: Sextet, w: Sextet): Byte {
    v % 4 * 64 + w
  }

  ghost predicate AllData(d: seq<Code>) {
    forall i :: 0 <= i < |d| ==> IsData(d[i])
  }

  ghost function Decode(d: seq<Code>): seq<Byte>
    requires AllData(d) && |d| % 4 != 1
  {
    if |d| == 0 then []
    else if |d| == 2 then [FirstByte(DataValue(d[0]), DataValue(d[1]))]
    else if |d| == 3 then
      [FirstByte(DataValue(d[0]), DataValue(d[1])), SecondByte(DataValue(d[1]), DataValue(d[2]))]
    else
      [FirstByte(DataValue(d[0]), DataValue(d[1])), SecondByte(DataValue(d[1]), DataValue(d[2])),
       ThirdByte(DataValue(d[2]), DataValue(d[3]))] + Decode(d[4..])
  }

  /** The bits of the last letter that no byte uses are zero. */
  predicate SpareBitsZero(d: seq<Code>) {
    && (|d| % 4 == 2 ==> IsData(d[|d| - 1]) && DataValue(d[|d| - 1]) % 16 == 0)
    && (|d| % 4 == 3 ==> IsData(d[|d| - 1]) && DataValue(d[|d| - 1]) % 4 == 0)
  }

  function BareLength(n: nat): nat {
    n / 3 * 4 + (if n % 3 == 1 then 2 else if n % 3 == 2 then 3 else 0)
  }

  lemma BareLengthStep(n: nat)
    requires n >= 3
    ensures BareLength(n) == BareLength(n - 3) + 4
  {
    assert n / 3 == (n - 3) / 3 + 1 && n % 3 == (n - 3) % 3;
  }

  lemma {:induction false} BareShape(b: seq<Byte>)
    ensures AllData(Bare(b)) && SpareBitsZero(Bare(b))
    ensures |Bare(b)| == BareLength(|b|)
    decreases |b|
  {
    hide Letter, IsData, DataValue;
    if |b| >= 3 {
      hide BareLength, SpareBitsZero;
      BareShape(b[3..]);
      BareLengthStep(|b|);
      assert Bare(b) == Quad(b[0], b[1], b[2]) + Bare(b[3..]);
      SpareBitsOfTail(Quad(b[0], b[1], b[2]), Bare(b[3..]));
    }
  }

  lemma SpareBitsOfTail(q: seq<Code>, t: seq<Code>)
    requires |q| == 4 && SpareBitsZero(t)
    ensures SpareBitsZero(q + t)
  {
    hide IsData, DataValue;
    assert |q + t| % 4 == |t| % 4;
    if t != [] {
      assert (q + t)[|q + t| - 1] == t[|t| - 1];
    }
  }

  lemma QuadOfBytes(a: Byte, b: Byte, c: Byte)
    ensures FirstByte(a / 4, a % 4 * 16 + b / 16) == a
    ensures SecondByte(a % 4 * 16 + b / 16, b % 16 * 4 + c / 64) == b
    ensures ThirdByte(b % 16 * 4 + c / 64, c % 64) == c
  {
  }

  lemma BytesOfQuad(v: Sextet, w: Sextet, x: Sextet, y: Sextet)
    ensures var a, b, c := FirstByte(v, w), SecondByte(w, x), ThirdByte(x, y);
      a / 4 == v && a % 4 * 16 + b / 16 == w && b % 16 * 4 + c / 64 == x && c % 64 == y
  {
  }

  /** Decoding undoes encoding. */
  lemma {:induction false} DecodeBare(b: seq<Byte>)
    ensures AllData(Bare(b)) && |Bare(b)| % 4 != 1 && Decode(Bare(b)) == b
    decreases |b|
  {
    hide Letter, IsData, DataValue, FirstByte, SecondByte, ThirdByte, AllData, SpareBitsZero;
    BareShape(b);
    if |b| == 1 {
      QuadOfBytes(b[0], 0, 0);
    } else if |b| == 2 {
      QuadOfBytes(b[0], b[1], 0);
    } else if |b| >= 3 {
      DecodeBare(b[3..]);
      DecodeStep(b);
    }
  }

  lemma DecodeStep(b: seq<Byte>)
    requires |b| >= 3 && AllData(Bare(b)) && |Bare(b)| % 4 != 1
    requires AllData(Bare(b[3..])) && |Bare(b[3..])| % 4 != 1 && Decode(Bare(b[3..])) == b[3..]
    ensures Decode(Bare(b)) == b
  {
    hide Letter, IsData, DataValue, FirstByte, SecondByte, ThirdByte, AllData;
    QuadOfBytes(b[0], b[1], b[2]);
    assert Bare(b)[..4] == Quad(b[0], b[1], b[2]);
    assert Bare(b)[4..] == Bare(b[3..]);
    assert b == [b[0], b[1], b[2]] + b[3..];
  }

  /** Encoding undoes decoding, for letters whose spare bits are zero. */
  lemma {:induction false} BareDecode(d: seq<Code>)
    requires AllData(d) && |d| % 4 != 1 && SpareBitsZero(d)
    ensures Bare(Decode(d)) == d
    decreases |d|
  {
    hide Letter, IsData, DataValue, Bare, Decode, SpareBitsZero, AllData;
    if |d| == 2 {
      ShortDecode(d, 0);
    } else if |d| == 3 {
      FirstIsData(d, 2);
      ShortDecode(d, DataValue(d[2]));
    } else if |d| >= 4 {
      TailOfLetters(d);
      BareDecode(d[4..]);
      EncodeStep(d);
    } else {
      assert d == [];
      NothingDecoded();
    }
  }

  lemma FirstIsData(d: seq<Code>, i: nat)
    requires AllData(d) && i < |d|
    ensures IsData(d[i])
  {
  }

  lemma NothingDecoded()
    ensures Bare(Decode([])) == []
  {
  }

  lemma TailOfLetters(d: seq<Code>)
    requires AllData(d) && |d| % 4 != 1 && SpareBitsZero(d) && |d| >= 4
    ensures AllData(d[4..]) && |d[4..]| % 4 != 1 && SpareBitsZero(d[4..])
  {
    hide IsData, DataValue;
    assert |d| % 4 == |d[4..]| % 4;
  }

  lemma ShortDecode(d: seq<Code>, x: Sextet)
    requires AllData(d) && SpareBitsZero(d) && (|d| == 2 || (|d| == 3 && x == DataValue(d[2])))
    ensures Bare(Decode(d)) == d
  {
    hide Letter, IsData, DataValue, FirstByte, SecondByte, ThirdByte;
    BytesOfQuad(DataValue(d[0]), DataValue(d[1]), x, 0);
    LetterOfValue(d[0]);
    LetterOfValue(d[1]);
    var a := Decode(d);
    if |d| == 2 {
      assert Bare(a) == [Letter(a[0] / 4), Letter(a[0] % 4 * 16)];
    } else {
      LetterOfValue(d[2]);
    }
  }

  lemma EncodeStep(d: seq<Code>)
    requires |d| >= 4 && AllData(d) && |d| % 4 != 1
    requires AllData(d[4..]) && |d[4..]| % 4 != 1 && Bare(Decode(d[4..])) == d[4..]
    ensures Bare(Decode(d)) == d
  {
    hide Letter, IsData, DataValue, FirstByte, SecondByte, ThirdByte;
    BytesOfQuad(DataValue(d[0]), DataValue(d[1]), DataValue(d[2]), DataValue(d[3]));
    LetterOfValue(d[0]);
    LetterOfValue(d[1]);
    LetterOfValue(d[2]);
    LetterOfValue(d[3]);
    var a := Decode(d);
    assert a[3..] == Decode(d[4..]);
    assert Quad(a[0], a[1], a[2]) == d[..4];
    assert d == d[..4] + d[4..];
  }

  // ---------- whitespace and padding ----------

  predicate IsSpace(c: Code) {
    c <= 0x20
  }

  /** The text without its control characters and spaces. */
  function Strip(s: seq<Code>): (r: seq<Code>)
    ensures |r| <= |s|
    ensures forall i :: 0 <= i < |r| ==> !IsSpace(r[i])
  {
    if s == [] then []
    else Strip(s[..|s| - 1]) + if IsSpace(s[|s| - 1]) then [] else [s[|s| - 1]]
  }

  lemma {:induction false} StripConcat(a: seq<Code>, b: seq<Code>)
    ensures Strip(a + b) == Strip(a) + Strip(b)
    decreases |b|
  {
    if b == [] {
      assert a + b == a;
    } else {
      assert (a + b)[..|a + b| - 1] == a + b[..|b| - 1];
      StripConcat(a, b[..|b| - 1]);
    }
  }

  lemma {:induction false} StripSpaces(w: seq<Code>)
    requires forall i :: 0 <= i < |w| ==> IsSpace(w[i])
    ensures Strip(w) == []
    decreases |w|
  {
    if w != [] {
      StripSpaces(w[..|w| - 1]);
    }
  }

  lemma {:induction false} StripSolid(s: seq<Code>)
    ensures Strip(s) == s <==> forall i :: 0 <= i < |s| ==> !IsSpace(s[i])
    ensures |Strip(s)| == |s| ==> Strip(s) == s
    decreases |s|
  {
    if s != [] {
      StripSolid(s[..|s| - 1]);
      assert s == s[..|s| - 1] + [s[|s| - 1]];
      if Strip(s) == s {
        assert Strip(s[..|s| - 1]) == s[..|s| - 1] by {
          assert Strip(s)[..|s| - 1] == s[..|s| - 1];
        }
      }
    }
  }

  /** Whitespace may be inserted or removed anywhere. */
  lemma StripInsert(a: seq<Code>, w: seq<Code>, b: seq<Code>)
    requires forall i :: 0 <= i < |w| ==> IsSpace(w[i])
    ensures Strip(a + w + b) == Strip(a + b)
  {
    StripConcat(a + w, b);
    StripConcat(a, w);
    StripConcat(a, b);
    StripSpaces(w);
    assert Strip(a) + [] == Strip(a);
  }

  /** How many padding characters end the text. */
  function Padding(c: seq<Code>): (n: nat)
    ensures n <= |c|
    ensures forall i :: |c| - n <= i < |c| ==> c[i] == PAD
    ensures n < |c| ==> c[|c| - n - 1] != PAD
  {
    if c == [] || c[|c| - 1] != PAD then 0 else 1 + Padding(c[..|c| - 1])
  }

  /** Letters, then at most two padding characters. */
  ghost predicate Shaped(c: seq<Code>) {
    Padding(c) <= 2 && AllData(c[..|c| - Padding(c)])
  }

  ghost function Letters(c: seq<Code>): seq<Code> {
    c[..|c| - Padding(c)]
  }

  lemma {:induction false} PaddingUnique(d: seq<Code>, p: seq<Code>)
    requires AllData(d) && forall i :: 0 <= i < |p| ==> p[i] == PAD
    ensures Padding(d + p) == |p| && Letters(d + p) == d
    decreases |p|
  {
    if p == [] {
      assert d + p == d;
    } else {
      assert (d + p)[..|d + p| - 1] == d + p[..|p| - 1];
      PaddingUnique(d, p[..|p| - 1]);
      assert (d + p)[..|d|] == d;
    }
  }

  /** The alphabet of table 1 of RFC 4648: three runs of letters and digits, then plus and slash. */
  lemma AlphabetIs(v: Sextet)
    ensures Letter(0) == 'A' as int && Letter(25) == 'Z' as int && Letter(26) == 'a' as int && Letter(51) == 'z' as int
    ensures Letter(52) == '0' as int && Letter(61) == '9' as int && Letter(62) == '+' as int && Letter(63) == '/' as int
    ensures v !in {25, 51, 61, 62, 63} ==> Letter(v + 1) == Letter(v) + 1
  {
  }

  function Codes(s: string): seq<int> {
    seq(|s|, i requires 0 <= i < |s| => s[i] as int)
  }

  /** Test vectors of section 10 of RFC 4648, and one for the two letters that are not alphanumeric. */
  lemma TestVectors()
    ensures Encode([]) == []
    ensures Encode([0x66]) == Codes("Zg==")
    ensures Encode([0x66, 0x6f]) == Codes("Zm8=")
    ensures Encode([0x66, 0x6f, 0x6f]) == Codes("Zm9v")
    ensures Encode([0xfb, 0xff]) == Codes("+/8=")
  {
    var foo: seq<Byte> := [0x66, 0x6f, 0x6f];
    assert foo[3..] == [];
    assert Encode(foo) == Codes("Zm9v");
  }

  /** Nothing but letters, padding and what counts as white space can stand in a text that is accepted. */
  predicate Foreign(c: Code) {
    c > 0x20 && c != 0x3d && c != 0x2b && c != 0x2f && !(0x30 <= c <= 0x39) && !(0x41 <= c <= 0x5a) && !(0x61 <= c <= 0x7a)
  }

  lemma {:induction false} StripKeeps(s: seq<Code>, i: nat)
    requires i < |s| && !IsSpace(s[i])
    ensures s[i] in Strip(s)
  {
    if i < |s| - 1 {
      StripKeeps(s[..|s| - 1], i);
    }
  }

  lemma {:induction false} OnlySpaces(s: seq<Code>)
    requires forall i :: 0 <= i < |s| ==> s[i] <= 0x20
    ensures Strip(s) == []
  {
    if s != [] {
      OnlySpaces(s[..|s| - 1]);
    }
  }
}
