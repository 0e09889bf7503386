/** The JSON text of one stream frame's payload. The server writes `{'content': c}` with
    Python's `json.dumps` (default settings: `ensure_ascii`, `", "` and `": "` as
    separators), so the string `c` is written with every character outside printable
    ASCII escaped; the browser reads it back with `JSON.parse`. Both directions are
    modelled for this one document shape, and the round trip is proved. */
module JsonText {
  import opened Wrappers

  // ---------------------------------------------------------------------------
  // Hexadecimal digits

  /** One lower-case hexadecimal digit, as Python writes them. */
  function HexDigit(d: nat): (c: char)
    requires d < 16
    ensures ' ' <= c <= '~'
  {
    if d < 10 then ('0' as int + d) as char else ('a' as int + d - 10) as char
  }

  /** The value of a hexadecimal digit of either case, as `JSON.parse` accepts them. */
  function HexDigitValue(c: char): (v: Option<nat>)
    ensures v.Some? ==> v.value < 16
  {
    if '0' <= c <= '9' then Some(c as int - '0' as int)
    else if 'a' <= c <= 'f' then Some(c as int - 'a' as int + 10)
    else if 'A' <= c <= 'F' then Some(c as int - 'A' as int + 10)
    else None
  }

  lemma HexDigitRoundTrip(d: nat)
    requires d < 16
    ensures HexDigitValue(HexDigit(d)) == Some(d)
  {
  }

  /** Four hexadecimal digits for a 16-bit code unit (the `XXXX` of `\uXXXX`). */
  function Hex4(n: nat): (h: string)
    requires n < 0x1_0000
    ensures |h| == 4
    ensures forall i :: 0 <= i < 4 ==> ' ' <= h[i] <= '~'
  {
    var r1 := n / 16;
    var r2 := r1 / 16;
    [HexDigit(r2 / 16), HexDigit(r2 % 16), HexDigit(r1 % 16), HexDigit(n % 16)]
  }

  /** The value of four hexadecimal digits; `None` if any of them is not one. */
  function Hex4Value(h: string): (v: Option<nat>)
    requires |h| == 4
    ensures v.Some? ==> v.value < 0x1_0000
  {
    match (HexDigitValue(h[0]), HexDigitValue(h[1]), HexDigitValue(h[2]), HexDigitValue(h[3]))
    case (Some(a), Some(b), Some(c), Some(d)) => Some(((a * 16 + b) * 16 + c) * 16 + d)
    case _ => None
  }

  lemma Hex4RoundTrip(n: nat)
    requires n < 0x1_0000
    ensures Hex4Value(Hex4(n)) == Some(n)
  {
    var r1 := n / 16;
    var r2 := r1 / 16;
    HexDigitRoundTrip(r2 / 16);
    HexDigitRoundTrip(r2 % 16);
    HexDigitRoundTrip(r1 % 16);
    HexDigitRoundTrip(n % 16);
    assert r2 == (r2 / 16) * 16 + r2 % 16;
    assert r1 == r2 * 16 + r1 % 16;
    assert n == r1 * 16 + n % 16;
  }

  // ---------------------------------------------------------------------------
  // Python's string escaping with ensure_ascii

  /** A character `json.dumps` writes as it is: printable ASCII other than the quote
      and the backslash. */
  predicate IsPlain(c: char) {
    ' ' <= c <= '~' && c != '"' && c != '\\'
  }

  /** The two UTF-16 code units of a character above U+FFFF. */
  function HighSurrogate(c: char): nat
    requires c as int >= 0x1_0000
  {
    0xD800 + (c as int - 0x1_0000) / 0x400
  }

  function LowSurrogate(c: char): nat
    requires c as int >= 0x1_0000
  {
    0xDC00 + (c as int - 0x1_0000) % 0x400
  }

  /** How `json.dumps` writes one character of a string: the short escapes for the
      quote, the backslash and five control characters, the character itself when it
      is printable ASCII, `\uXXXX` otherwise, and a surrogate pair of `\uXXXX`
      escapes above U+FFFF. */
  function EscapeChar(c: char): (e: string)
    ensures forall i :: 0 <= i < |e| ==> ' ' <= e[i] <= '~'
    ensures |e| > 0
  {
    if c == '"' then "\\\""
    else if c == '\\' then "\\\\"
    else if c == '\n' then "\\n"
    else if c == '\r' then "\\r"
    else if c == '\t' then "\\t"
    else if c == '\U{8}' then "\\b"
    else if c == '\U{C}' then "\\f"
    else if IsPlain(c) then [c]
    else if c as int < 0x1_0000 then "\\u" + Hex4(c as int)
    else "\\u" + Hex4(HighSurrogate(c)) + "\\u" + Hex4(LowSurrogate(c))
  }

  /** The body (between the quotes) of the JSON string `json.dumps` writes for `s`. */
  function Escape(s: string): (e: string)
    ensures forall i :: 0 <= i < |e| ==> ' ' <= e[i] <= '~'
    decreases |s|
  {
    if |s| == 0 then "" else EscapeChar(s[0]) + Escape(s[1..])
  }

  // ---------------------------------------------------------------------------
  // JSON.parse of a string body

  /** A code unit in the surrogate range, which no Unicode scalar value occupies. */
  predicate IsSurrogate(n: nat) {
    0xD800 <= n < 0xE000
  }

  /** `JSON.parse` of the body of a JSON string: `None` for a raw control character, a
      bare quote, an unknown escape, bad hexadecimal digits or a surrogate escape that is
      not part of a well-formed pair (which a JavaScript string could hold but a string
      of Unicode scalar values cannot). */
  function Unescape(e: string): Option<string>
    decreases |e|
  {
    if |e| == 0 then Some("")
    else if e[0] == '"' || e[0] < ' ' then None
    else if e[0] != '\\' then Prepend(e[0], Unescape(e[1..]))
    else if |e| < 2 then None
    else
      var c := e[1];
      if c == '"' || c == '\\' || c == '/' then Prepend(c, Unescape(e[2..]))
      else if c == 'b' then Prepend('\U{8}', Unescape(e[2..]))
      else if c == 'f' then Prepend('\U{C}', Unescape(e[2..]))
      else if c == 'n' then Prepend('\n', Unescape(e[2..]))
      else if c == 'r' then Prepend('\r', Unescape(e[2..]))
      else if c == 't' then Prepend('\t', Unescape(e[2..]))
      else if c != 'u' || |e| < 6 then None
      else
        match Hex4Value(e[2..6])
        case None => None
        case Some(unit) =>
          if !IsSurrogate(unit) then Prepend(unit as char, Unescape(e[6..]))
          else if unit >= 0xDC00 || |e| < 12 || e[6] != '\\' || e[7] != 'u' then None
          else
            match Hex4Value(e[8..12])
            case None => None
            case Some(low) =>
              if 0xDC00 <= low < 0xE000 then
                Prepend((0x1_0000 + (unit - 0xD800) * 0x400 + (low - 0xDC00)) as char, Unescape(e[12..]))
              else None
  }

  function Prepend(c: char, rest: Option<string>): Option<string> {
    match rest
    case Some(r) => Some([c] + r)
    case None => None
  }

  /** Decoding one escaped character and then the rest. */
  lemma UnescapeChar(c: char, rest: string)
    ensures Unescape(EscapeChar(c) + rest) == Prepend(c, Unescape(rest))
  {
    var e := EscapeChar(c) + rest;
    if c == '"' || c == '\\' || c == '\n' || c == '\r' || c == '\t' || c == '\U{8}' || c == '\U{C}' {
      assert e[2..] == rest;
    } else if IsPlain(c) {
      assert e[1..] == rest;
    } else if c as int < 0x1_0000 {
      UnescapeUnit(c, rest);
    } else {
      UnescapePair(c, rest);
    }
  }

  lemma UnescapeUnit(c: char, rest: string)
    requires !IsPlain(c) && c as int < 0x1_0000
    requires c != '"' && c != '\\' && c != '\n' && c != '\r' && c != '\t' && c != '\U{8}' && c != '\U{C}'
    ensures Unescape(EscapeChar(c) + rest) == Prepend(c, Unescape(rest))
  {
    var e := EscapeChar(c) + rest;
    Hex4RoundTrip(c as int);
    assert e[2..6] == Hex4(c as int);
    assert e[6..] == rest;
  }

  lemma UnescapePair(c: char, rest: string)
    requires c as int >= 0x1_0000
    ensures Unescape(EscapeChar(c) + rest) == Prepend(c, Unescape(rest))
  {
    var e := EscapeChar(c) + rest;
    var hi := HighSurrogate(c);
    var lo := LowSurrogate(c);
    Hex4RoundTrip(hi);
    Hex4RoundTrip(lo);
    assert e[2..6] == Hex4(hi);
    assert e[6] == '\\' && e[7] == 'u';
    assert e[8..12] == Hex4(lo);
    assert e[12..] == rest;
    assert 0x1_0000 + (hi - 0xD800) * 0x400 + (lo - 0xDC00) == c as int;
  }

  /** `JSON.parse` gives back exactly the string `json.dumps` wrote. */
  lemma {:induction false} UnescapeEscape(s: string)
    ensures Unescape(Escape(s)) == Some(s)
    decreases |s|
  {
    if |s| > 0 {
      UnescapeEscape(s[1..]);
      UnescapeChar(s[0], Escape(s[1..]));
      assert [s[0]] + s[1..] == s;
    }
  }

  // ---------------------------------------------------------------------------
  // The frame payload

  const PayloadOpen: string := "{\"content\": \""
  const PayloadClose: string := "\"}"

  /** `json.dumps({'content': c})`. */
  function Payload(content: string): (p: string)
    ensures forall i :: 0 <= i < |p| ==> ' ' <= p[i] <= '~'
    ensures |p| > 0 && p[0] == '{' && p[|p| - 1] == '}'
  {
    PayloadOpen + Escape(content) + PayloadClose
  }

  /** `JSON.parse(payload).content` for a document of the frame's shape; `None` when the
      text is not such a document (where `JSON.parse` throws or the shape differs). */
  function ParseContent(payload: string): Option<string> {
    if |payload| >= |PayloadOpen| + |PayloadClose|
       && payload[..|PayloadOpen|] == PayloadOpen
       && payload[|payload| - |PayloadClose|..] == PayloadClose
    then Unescape(payload[|PayloadOpen|..|payload| - |PayloadClose|])
    else None
  }

  /** Reading a payload gives back the content it was written from. */
  lemma PayloadRoundTrip(content: string)
    ensures ParseContent(Payload(content)) == Some(content)
  {
    var p := Payload(content);
    assert p[..|PayloadOpen|] == PayloadOpen;
    assert p[|p| - |PayloadClose|..] == PayloadClose;
    assert p[|PayloadOpen|..|p| - |PayloadClose|] == Escape(content);
    UnescapeEscape(content);
  }

  /** Payloads of different contents differ: the encoding loses nothing. */
  lemma PayloadInjective(a: string, b: string)
    requires Payload(a) == Payload(b)
    ensures a == b
  {
    PayloadRoundTrip(a);
    PayloadRoundTrip(b);
  }
}
