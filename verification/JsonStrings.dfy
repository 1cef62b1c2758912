/** JSON text of an array of strings, written as `JSON.stringify` writes it, and read back. */
module JsonStrings {
  import opened Options

  function HexDigit(n: nat): char
    requires n < 16
  {
    "0123456789abcdef"[n]
  }

  function HexValue(c: char): Option<nat> {
    if '0' <= c <= '9' then Some(c as int - '0' as int)
    else if 'a' <= c <= 'f' then Some(c as int - 'a' as int + 10)
    else if 'A' <= c <= 'F' then Some(c as int - 'A' as int + 10)
    else None
  }

  /** The letter after the backslash of a two-character escape, and the character it stands for. */
  const SHORT_ESCAPES: map<char, char> :=
    map['\"' := '\"', '\\' := '\\', 'b' := '\U{0008}', 'f' := '\U{000C}', 'n' := '\n', 'r' := '\r', 't' := '\t']

  function Escape(c: char): string {
    if c == '\"' then "\\\""
    else if c == '\\' then "\\\\"
    else if c == '\U{0008}' then "\\b"
    else if c == '\U{000C}' then "\\f"
    else if c == '\n' then "\\n"
    else if c == '\r' then "\\r"
    else if c == '\t' then "\\t"
    else if c < ' ' then "\\u00" + [HexDigit(c as int / 16), HexDigit(c as int % 16)]
    else [c]
  }

  function WriteBody(s: string): string {
    if s == "" then "" else Escape(s[0]) + WriteBody(s[1..])
  }

  function WriteString(s: string): string {
    "\"" + WriteBody(s) + "\""
  }

  function WriteItems(parts: seq<string>): string
    requires parts != []
  {
    WriteString(parts[0]) + if |parts| == 1 then "" else "," + WriteItems(parts[1..])
  }

  function WriteArray(parts: seq<string>): string {
    if parts == [] then "[]" else "[" + WriteItems(parts) + "]"
  }

  // ---------- reading ----------

  /** Reads one character, written plainly or escaped, and gives the text after it. */
  function ReadChar(s: string): Option<(char, string)> {
    if s == "" || s[0] == '\"' || s[0] < ' ' then None
    else if s[0] != '\\' then Some((s[0], s[1..]))
    else if |s| < 2 then None
    else if s[1] in SHORT_ESCAPES then Some((SHORT_ESCAPES[s[1]], s[2..]))
    else if s[1] == '/' then Some(('/', s[2..]))
    else if s[1] == 'u' && |s| >= 6 then
      var a, b, c, d := HexValue(s[2]), HexValue(s[3]), HexValue(s[4]), HexValue(s[5]);
      if a.None? || b.None? || c.None? || d.None? then None
      else ReadUnit(a.value * 4096 + b.value * 256 + c.value * 16 + d.value, s[6..])
    else None
  }

  function ReadUnit(code: nat, rest: string): Option<(char, string)> {
    if code < 0xD800 || 0xE000 <= code < 0x1_0000 then Some((code as char, rest)) else None
  }

  lemma ReadCharShortens(s: string)
    ensures ReadChar(s).Some? ==> |ReadChar(s).value.1| < |s|
  {
  }

  /** Reads up to the closing quote, and gives the text after it. */
  function ReadBody(s: string): Option<(string, string)>
    decreases |s|
  {
    if s == "" then None
    else if s[0] == '\"' then Some(("", s[1..]))
    else
      ReadCharShortens(s);
      match ReadChar(s)
      case None => None
      case Some((c, rest)) =>
        match ReadBody(rest)
        case None => None
        case Some((text, after)) => Some(([c] + text, after))
  }

  lemma {:induction false} ReadBodyShortens(s: string)
    ensures ReadBody(s).Some? ==> |ReadBody(s).value.1| < |s|
    decreases |s|
  {
    ReadCharShortens(s);
    if s != "" && s[0] != '\"' && ReadChar(s).Some? {
      ReadBodyShortens(ReadChar(s).value.1);
    }
  }

  /** Reads strings up to the closing bracket, which has to end the text. */
  function ReadItems(s: string): Option<seq<string>>
    decreases |s|
  {
    if s == "" || s[0] != '\"' then None
    else
      ReadBodyShortens(s[1..]);
      match ReadBody(s[1..])
      case None => None
      case Some((text, rest)) =>
        if rest == "]" then Some([text])
        else if rest == "" || rest[0] != ',' then None
        else
          match ReadItems(rest[1..])
          case None => None
          case Some(texts) => Some([text] + texts)
  }

  function ReadArray(s: string): Option<seq<string>> {
    if s == "[]" then Some([])
    else if s == "" || s[0] != '[' then None
    else ReadItems(s[1..])
  }

  // ---------- round trip ----------

  lemma HexReadsBack(n: nat)
    requires n < 16
    ensures HexValue(HexDigit(n)) == Some(n)
  {
  }

  lemma UnitEscapeReadsBack(n: nat, rest: string)
    requires n < 32
    ensures ReadChar("\\u00" + [HexDigit(n / 16), HexDigit(n % 16)] + rest) == Some((n as char, rest))
  {
    hide HexDigit, HexValue;
    var text := "\\u00" + [HexDigit(n / 16), HexDigit(n % 16)] + rest;
    HexReadsBack(n / 16);
    HexReadsBack(n % 16);
    assert HexValue('0') == Some(0) by {
      ZeroReads();
    }
    assert text[6..] == rest && text[1] == 'u' && text[2] == '0' && text[3] == '0';
  }

  lemma ZeroReads()
    ensures HexValue('0') == Some(0)
  {
  }

  lemma EscapedCharReadsBack(c: char, rest: string)
    ensures ReadChar(Escape(c) + rest) == Some((c, rest)) && Escape(c) != "" && Escape(c)[0] != '\"'
  {
    hide HexDigit, HexValue;
    var text := Escape(c) + rest;
    if |Escape(c)| == 6 {
      UnitEscapeReadsBack(c as int, rest);
    } else if |Escape(c)| == 2 {
      assert text[2..] == rest;
    } else {
      assert text[1..] == rest;
    }
  }

  lemma {:induction false} BodyReadsBack(s: string, rest: string)
    ensures ReadBody(WriteBody(s) + "\"" + rest) == Some((s, rest))
  {
    var text := WriteBody(s) + "\"" + rest;
    if s == "" {
      assert text[1..] == rest;
    } else {
      var after := WriteBody(s[1..]) + "\"" + rest;
      assert text == Escape(s[0]) + after;
      EscapedCharReadsBack(s[0], after);
      BodyReadsBack(s[1..], rest);
      assert [s[0]] + s[1..] == s;
    }
  }

  lemma {:induction false} ItemsReadBack(parts: seq<string>)
    requires parts != []
    ensures ReadItems(WriteItems(parts) + "]") == Some(parts)
  {
    hide ReadBody, WriteBody, ReadChar;
    var text := WriteItems(parts) + "]";
    var rest := if |parts| == 1 then "]" else "," + WriteItems(parts[1..]) + "]";
    assert text == "\"" + (WriteBody(parts[0]) + "\"" + rest);
    BodyReadsBack(parts[0], rest);
    assert text[1..] == WriteBody(parts[0]) + "\"" + rest;
    assert ReadBody(text[1..]) == Some((parts[0], rest));
    if |parts| == 1 {
      assert parts == [parts[0]];
    } else {
      assert rest[1..] == WriteItems(parts[1..]) + "]";
      ItemsReadBack(parts[1..]);
      assert [parts[0]] + parts[1..] == parts;
    }
  }

  /** Every array of strings is read back from its JSON text, whatever its strings hold. */
  lemma ArrayReadsBack(parts: seq<string>)
    ensures ReadArray(WriteArray(parts)) == Some(parts)
  {
    if parts != [] {
      ItemsReadBack(parts);
      assert WriteArray(parts)[1..] == WriteItems(parts) + "]";
      assert WriteItems(parts)[0] == '\"';
    }
  }

  lemma ArrayTextIsUnambiguous(a: seq<string>, b: seq<string>)
    requires WriteArray(a) == WriteArray(b)
    ensures a == b
  {
    ArrayReadsBack(a);
    ArrayReadsBack(b);
  }

  /** A part is written plainly but for quotes, backslashes and control characters, and those in lower case. */
  lemma EscapesAre(c: char)
    ensures c != '\"' && c != '\\' && c >= ' ' ==> Escape(c) == [c]
    ensures Escape('\"') == "\\\"" && Escape('\\') == "\\\\" && Escape('\n') == "\\n" && Escape('\t') == "\\t"
    ensures Escape('\U{0000}') == "\\u0000" && Escape('\U{001F}') == "\\u001f"
  {
  }

  lemma EmptyPartsAre()
    ensures WriteArray(["", "a"]) == "[\"\",\"a\"]"
  {
    assert ["", "a"][1..] == ["a"] && "a"[1..] == "";
    assert WriteBody("a") == "a" + WriteBody("");
    assert WriteString("a") == "\"a\"";
    assert WriteItems(["a"]) == "\"a\"";
    assert WriteItems(["", "a"]) == "\"\"" + ("," + "\"a\"");
  }
}
