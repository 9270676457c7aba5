/**
 * The `jsfiddle` attribute of build/webpack.demo.js: the object
 * `{ html, script, style }` is turned into text by `JSON.stringify` and then
 * made safe for a double-quoted HTML attribute by markdown-it's `escapeHtml`.
 *
 * Beside the writing side, this module holds the reading side that the page
 * applies to the attribute: HTML entity decoding, then reading the JSON object
 * back. The round trip between the two is proved.
 */
module Payload {
  import opened JsStrings

  /** The object passed to the demo-block component. */
  datatype Jsfiddle = Jsfiddle(html: JsString, script: JsString, style: JsString)

  predicate IsHighSurrogate(c: CodeUnit)
  {
    0xD800 <= c <= 0xDBFF
  }

  predicate IsLowSurrogate(c: CodeUnit)
  {
    0xDC00 <= c <= 0xDFFF
  }

  // ---------------------------------------------------------------------------
  // JSON.stringify of a string (section 7 of RFC 8259, as ECMAScript's
  // QuoteJSONString writes it)
  // ---------------------------------------------------------------------------

  function LowerHexDigit(d: nat): CodeUnit
    requires d < 16
  {
    if d < 10 then '0' as int + d else 'a' as int + d - 10
  }

  /** `\uXXXX` with lower-case hexadecimal digits. */
  function UnicodeEscape(c: CodeUnit): JsString
  {
    var q1 := c / 16;
    var q2 := q1 / 16;
    Lit("\\u") + [LowerHexDigit(q2 / 16), LowerHexDigit(q2 % 16), LowerHexDigit(q1 % 16), LowerHexDigit(c % 16)]
  }

  /** The JSON text of a code unit that is not the first half of a surrogate
      pair: the two-character escapes of RFC 8259, `\u` escapes for the other
      control characters and for lone surrogates, the unit itself otherwise. */
  function EscapeJsonUnit(c: CodeUnit): JsString
  {
    if c == 0x08 then Lit("\\b")
    else if c == 0x09 then Lit("\\t")
    else if c == 0x0A then Lit("\\n")
    else if c == 0x0C then Lit("\\f")
    else if c == 0x0D then Lit("\\r")
    else if c == Unit('"') then Lit("\\\"")
    else if c == Unit('\\') then Lit("\\\\")
    else if c < 0x20 || IsHighSurrogate(c) || IsLowSurrogate(c) then UnicodeEscape(c)
    else [c]
  }

  /** The body of the JSON string literal of `s`; a surrogate pair is copied. */
  function QuoteJsonChars(s: JsString): JsString
    decreases |s|
  {
    if s == [] then []
    else if |s| >= 2 && IsHighSurrogate(s[0]) && IsLowSurrogate(s[1]) then
      [s[0], s[1]] + QuoteJsonChars(s[2..])
    else EscapeJsonUnit(s[0]) + QuoteJsonChars(s[1..])
  }

  function QuoteJsonString(s: JsString): JsString
  {
    [Unit('"')] + QuoteJsonChars(s) + [Unit('"')]
  }

  const HtmlKey: JsString := Lit("{\"html\":")
  const ScriptKey: JsString := Lit(",\"script\":")
  const StyleKey: JsString := Lit(",\"style\":")
  const ObjectEnd: JsString := Lit("}")

  /** `JSON.stringify({ html, script, style })`: the keys in that order, no
      white space. */
  function Stringify(p: Jsfiddle): JsString
  {
    HtmlKey + (QuoteJsonString(p.html) + (ScriptKey + (QuoteJsonString(p.script)
    + (StyleKey + (QuoteJsonString(p.style) + ObjectEnd)))))
  }

  // ---------------------------------------------------------------------------
  // markdown-it's escapeHtml
  // ---------------------------------------------------------------------------

  const AmpEntity: JsString := Lit("&amp;")
  const LtEntity: JsString := Lit("&lt;")
  const GtEntity: JsString := Lit("&gt;")
  const QuotEntity: JsString := Lit("&quot;")

  function EscapeHtmlUnit(c: CodeUnit): JsString
  {
    if c == Unit('&') then AmpEntity
    else if c == Unit('<') then LtEntity
    else if c == Unit('>') then GtEntity
    else if c == Unit('"') then QuotEntity
    else [c]
  }

  /** `escapeHtml(s)`: `&`, `<`, `>` and `"` become entities. */
  function EscapeHtml(s: JsString): JsString
    decreases |s|
  {
    if s == [] then [] else EscapeHtmlUnit(s[0]) + EscapeHtml(s[1..])
  }

  /** The value of the `:jsfiddle` attribute. */
  function Serialize(p: Jsfiddle): JsString
  {
    EscapeHtml(Stringify(p))
  }

  // ---------------------------------------------------------------------------
  // The reading side
  // ---------------------------------------------------------------------------

  /** Decoding of the four entities `escapeHtml` writes, as an HTML parser does
      for an attribute value. */
  function UnescapeHtml(t: JsString): JsString
    decreases |t|
  {
    if t == [] then []
    else if StartsWith(t, AmpEntity) then [Unit('&')] + UnescapeHtml(t[|AmpEntity|..])
    else if StartsWith(t, LtEntity) then [Unit('<')] + UnescapeHtml(t[|LtEntity|..])
    else if StartsWith(t, GtEntity) then [Unit('>')] + UnescapeHtml(t[|GtEntity|..])
    else if StartsWith(t, QuotEntity) then [Unit('"')] + UnescapeHtml(t[|QuotEntity|..])
    else [t[0]] + UnescapeHtml(t[1..])
  }

  /** The unit a two-character JSON escape `\e` stands for. */
  function ShortEscape(e: CodeUnit): Option<CodeUnit>
  {
    if e == Unit('"') then Some(Unit('"'))
    else if e == Unit('\\') then Some(Unit('\\'))
    else if e == Unit('/') then Some(Unit('/'))
    else if e == Unit('b') then Some(0x08)
    else if e == Unit('f') then Some(0x0C)
    else if e == Unit('n') then Some(0x0A)
    else if e == Unit('r') then Some(0x0D)
    else if e == Unit('t') then Some(0x09)
    else None
  }

  function Prepend(c: CodeUnit, r: Option<(JsString, JsString)>): Option<(JsString, JsString)>
  {
    match r
    case None => None
    case Some((value, rest)) => Some(([c] + value, rest))
  }

  /** Reads the rest of a JSON string literal whose opening quote is already
      consumed: its value and the text after the closing quote. */
  function ParseJsonChars(t: JsString): Option<(JsString, JsString)>
    decreases |t|
  {
    if t == [] then None
    else if t[0] == Unit('"') then Some(([], t[1..]))
    else if t[0] == Unit('\\') then
      if |t| < 2 then None
      else if t[1] == Unit('u') then
        if |t| >= 6 && AllHex(t[2..6]) then
          assert Pow16(4) == 0x1_0000;
          Prepend(HexValue(t[2..6]), ParseJsonChars(t[6..]))
        else None
      else
        match ShortEscape(t[1])
        case None => None
        case Some(c) => Prepend(c, ParseJsonChars(t[2..]))
    else if t[0] < 0x20 then None
    else Prepend(t[0], ParseJsonChars(t[1..]))
  }

  function ParseJsonString(t: JsString): Option<(JsString, JsString)>
  {
    if t != [] && t[0] == Unit('"') then ParseJsonChars(t[1..]) else None
  }

  /** Reads `{"html":…,"script":…,"style":…}` and nothing after it. */
  function DecodeJsfiddle(t: JsString): Option<Jsfiddle>
  {
    if !StartsWith(t, HtmlKey) then None
    else match ParseJsonString(t[|HtmlKey|..])
      case None => None
      case Some((html, t1)) =>
        if !StartsWith(t1, ScriptKey) then None
        else match ParseJsonString(t1[|ScriptKey|..])
          case None => None
          case Some((script, t2)) =>
            if !StartsWith(t2, StyleKey) then None
            else match ParseJsonString(t2[|StyleKey|..])
              case None => None
              case Some((style, t3)) =>
                if t3 == ObjectEnd then Some(Jsfiddle(html, script, style)) else None
  }

  // ---------------------------------------------------------------------------
  // Round trips
  // ---------------------------------------------------------------------------

  lemma {:induction false} LowerHexDigitValue(d: nat)
    requires d < 16
    ensures IsHexDigit(LowerHexDigit(d)) && HexDigitValue(LowerHexDigit(d)) == d
  {
  }

  /** A `\u` escape reads back as the unit it encodes. */
  lemma {:induction false} UnicodeEscapeParses(c: CodeUnit, rest: JsString)
    ensures ParseJsonChars(UnicodeEscape(c) + rest) == Prepend(c, ParseJsonChars(rest))
  {
    var q1 := c / 16;
    var q2 := q1 / 16;
    var digits := [LowerHexDigit(q2 / 16), LowerHexDigit(q2 % 16), LowerHexDigit(q1 % 16), LowerHexDigit(c % 16)];
    var t := UnicodeEscape(c) + rest;
    LowerHexDigitValue(q2 / 16);
    LowerHexDigitValue(q2 % 16);
    LowerHexDigitValue(q1 % 16);
    LowerHexDigitValue(c % 16);
    assert t[2..6] == digits;
    assert t[6..] == rest;
    HexValueFour(digits);
    assert HexValue(digits) == c;
  }

  /** The JSON text of a unit reads back as that unit. */
  lemma {:induction false} EscapeJsonUnitParses(c: CodeUnit, rest: JsString)
    ensures ParseJsonChars(EscapeJsonUnit(c) + rest) == Prepend(c, ParseJsonChars(rest))
  {
    var e := EscapeJsonUnit(c);
    if e == [c] {
      assert (e + rest)[1..] == rest;
    } else if (c < 0x20 && c != 0x08 && c != 0x09 && c != 0x0A && c != 0x0C && c != 0x0D)
           || IsHighSurrogate(c) || IsLowSurrogate(c) {
      UnicodeEscapeParses(c, rest);
    } else {
      assert |e| == 2;
      assert (e + rest)[2..] == rest;
    }
  }

  /** A unit that needs no escape is read as itself. */
  lemma {:induction false} PlainUnitParses(c: CodeUnit, rest: JsString)
    requires c >= 0x20 && c != Unit('"') && c != Unit('\\')
    ensures ParseJsonChars([c] + rest) == Prepend(c, ParseJsonChars(rest))
  {
    assert ([c] + rest)[1..] == rest;
  }

  /** The body of a JSON string literal, then its closing quote, reads back as
      the original string and the text after the quote. */
  lemma {:induction false} QuoteJsonCharsParses(s: JsString, rest: JsString)
    ensures ParseJsonChars(QuoteJsonChars(s) + [Unit('"')] + rest) == Some((s, rest))
    decreases |s|
  {
    var tail := [Unit('"')] + rest;
    if s == [] {
      assert QuoteJsonChars(s) + [Unit('"')] + rest == tail;
      assert tail[1..] == rest;
    } else if |s| >= 2 && IsHighSurrogate(s[0]) && IsLowSurrogate(s[1]) {
      QuoteJsonCharsParses(s[2..], rest);
      SurrogatePairParses(s, rest);
    } else {
      QuoteJsonCharsParses(s[1..], rest);
      EscapedUnitThenParses(s, rest);
    }
  }

  lemma {:induction false} SurrogatePairParses(s: JsString, rest: JsString)
    requires |s| >= 2 && IsHighSurrogate(s[0]) && IsLowSurrogate(s[1])
    requires ParseJsonChars(QuoteJsonChars(s[2..]) + [Unit('"')] + rest) == Some((s[2..], rest))
    ensures ParseJsonChars(QuoteJsonChars(s) + [Unit('"')] + rest) == Some((s, rest))
  {
    var inner := QuoteJsonChars(s[2..]) + [Unit('"')] + rest;
    assert QuoteJsonChars(s) + [Unit('"')] + rest == [s[0]] + ([s[1]] + inner);
    PlainUnitParses(s[1], inner);
    PlainUnitParses(s[0], [s[1]] + inner);
    assert [s[0]] + ([s[1]] + s[2..]) == s;
  }

  lemma {:induction false} EscapedUnitThenParses(s: JsString, rest: JsString)
    requires s != [] && !(|s| >= 2 && IsHighSurrogate(s[0]) && IsLowSurrogate(s[1]))
    requires ParseJsonChars(QuoteJsonChars(s[1..]) + [Unit('"')] + rest) == Some((s[1..], rest))
    ensures ParseJsonChars(QuoteJsonChars(s) + [Unit('"')] + rest) == Some((s, rest))
  {
    var inner := QuoteJsonChars(s[1..]) + [Unit('"')] + rest;
    assert QuoteJsonChars(s) + [Unit('"')] + rest == EscapeJsonUnit(s[0]) + inner;
    EscapeJsonUnitParses(s[0], inner);
    assert [s[0]] + s[1..] == s;
  }

  lemma {:induction false} QuoteJsonStringParses(s: JsString, rest: JsString)
    ensures ParseJsonString(QuoteJsonString(s) + rest) == Some((s, rest))
  {
    var t := QuoteJsonString(s) + rest;
    assert t[1..] == QuoteJsonChars(s) + [Unit('"')] + rest;
    QuoteJsonCharsParses(s, rest);
  }

  /** A key followed by a JSON string literal reads back as that string. */
  lemma {:induction false} KeyStringParses(key: JsString, s: JsString, rest: JsString)
    ensures StartsWith(key + (QuoteJsonString(s) + rest), key)
    ensures ParseJsonString((key + (QuoteJsonString(s) + rest))[|key|..]) == Some((s, rest))
  {
    PrefixThen(key, QuoteJsonString(s) + rest);
    QuoteJsonStringParses(s, rest);
  }

  /** Reading the JSON text back gives the same three fields, in the order
      `html`, `script`, `style`. */
  lemma {:induction false} StringifyRoundTrip(p: Jsfiddle)
    ensures DecodeJsfiddle(Stringify(p)) == Some(p)
  {
    var t2 := StyleKey + (QuoteJsonString(p.style) + ObjectEnd);
    var t1 := ScriptKey + (QuoteJsonString(p.script) + t2);
    KeyStringParses(HtmlKey, p.html, t1);
    KeyStringParses(ScriptKey, p.script, t2);
    KeyStringParses(StyleKey, p.style, ObjectEnd);
  }

  /** One escaped unit decodes back to that unit. */
  lemma {:induction false} EscapeHtmlUnitDecodes(c: CodeUnit, rest: JsString)
    ensures UnescapeHtml(EscapeHtmlUnit(c) + rest) == [c] + UnescapeHtml(rest)
  {
    var e := EscapeHtmlUnit(c);
    var t := e + rest;
    assert t[..|e|] == e;
    assert t[|e|..] == rest;
    if c != Unit('&') && c != Unit('<') && c != Unit('>') && c != Unit('"') {
      assert t[0] == c;
      assert !StartsWith(t, AmpEntity) && !StartsWith(t, LtEntity);
      assert !StartsWith(t, GtEntity) && !StartsWith(t, QuotEntity);
    } else if c == Unit('<') {
      assert !StartsWith(t, AmpEntity) by { assert t[1] == Unit('l'); }
    } else if c == Unit('>') {
      assert !StartsWith(t, AmpEntity) by { assert t[1] == Unit('g'); }
      assert !StartsWith(t, LtEntity) by { assert t[1] == Unit('g'); }
    } else if c == Unit('"') {
      assert !StartsWith(t, AmpEntity) by { assert t[1] == Unit('q'); }
      assert !StartsWith(t, LtEntity) by { assert t[1] == Unit('q'); }
      assert !StartsWith(t, GtEntity) by { assert t[1] == Unit('q'); }
    }
  }

  /** Entity decoding undoes `escapeHtml`. */
  lemma {:induction false} UnescapeEscapeHtml(s: JsString)
    ensures UnescapeHtml(EscapeHtml(s)) == s
    decreases |s|
  {
    if s != [] {
      EscapeHtmlUnitDecodes(s[0], EscapeHtml(s[1..]));
      UnescapeEscapeHtml(s[1..]);
      assert [s[0]] + s[1..] == s;
    }
  }

  /** `escapeHtml` leaves no `"`, `<` or `>`: its output cannot end a
      double-quoted attribute or open or close a tag. */
  lemma {:induction false} EscapeHtmlIsAttributeSafe(s: JsString)
    ensures forall k :: 0 <= k < |EscapeHtml(s)| ==>
      EscapeHtml(s)[k] != Unit('"') && EscapeHtml(s)[k] != Unit('<') && EscapeHtml(s)[k] != Unit('>')
    decreases |s|
  {
    if s != [] {
      EscapeHtmlIsAttributeSafe(s[1..]);
      var e := EscapeHtmlUnit(s[0]);
      assert forall k :: 0 <= k < |e| ==> e[k] != Unit('"') && e[k] != Unit('<') && e[k] != Unit('>');
    }
  }

  /** The attribute value, entity-decoded and read as JSON, gives back exactly
      the object that was serialized. */
  lemma {:induction false} SerializeRoundTrip(p: Jsfiddle)
    ensures DecodeJsfiddle(UnescapeHtml(Serialize(p))) == Some(p)
  {
    UnescapeEscapeHtml(Stringify(p));
    StringifyRoundTrip(p);
  }
}
