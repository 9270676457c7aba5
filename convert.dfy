/**
 * `convert` of build/webpack.demo.js: undoes the numeric character references
 * (`&#x4F60;`) that an HTML sanitizer left in the demo markup.
 *
 * Each match of `/(&#x)(\w{4});/gi` is passed through
 * `encodeURIComponent`, then through the case-sensitive
 * `/(%26%23x)(\w{4})(%3B)/g` replaced by its second group, then through
 * `parseInt(_, 16)` and `String.fromCharCode`. The model follows that chain
 * step by step, so the quirks of the chain are consequences, not assumptions:
 * an upper-case `X` survives the inner replace and decodes to U+0000, and only
 * the leading hexadecimal digits of the four word characters are read.
 */
module Convert {
  import opened JsStrings

  /** The outer pattern `/(&#x)(\w{4});/gi` on a window of 8 code units. */
  predicate IsReference(m: JsString)
  {
    |m| == 8 && m[0] == Unit('&') && m[1] == Unit('#')
    && (m[2] == Unit('x') || m[2] == Unit('X'))
    && IsWordUnit(m[3]) && IsWordUnit(m[4]) && IsWordUnit(m[5]) && IsWordUnit(m[6])
    && m[7] == Unit(';')
  }

  /** The inner pattern `/(%26%23x)(\w{4})(%3B)/g` (case-sensitive) on a window
      of 14 code units. */
  predicate IsEncodedReference(e: JsString)
  {
    |e| == 14 && e[..7] == Lit("%26%23x")
    && IsWordUnit(e[7]) && IsWordUnit(e[8]) && IsWordUnit(e[9]) && IsWordUnit(e[10])
    && e[11..] == Lit("%3B")
  }

  /** The replacement `'$2'` of the inner pattern: its four word characters. */
  function SecondGroup(e: JsString): JsString
    requires IsEncodedReference(e)
  {
    e[7..11]
  }

  /** The replacement callback of the outer pattern, applied to one match. */
  function DecodeReference(m: JsString): JsString
    requires IsReference(m)
  {
    assert IsAscii(m);
    var encoded := EncodeUriComponent(m);
    var digits := ReplaceAll(encoded, 14, IsEncodedReference, SecondGroup);
    [FromCharCode(ParseIntHex(digits))]
  }

  /** `convert(str)`. */
  function Convert(s: JsString): JsString
  {
    ReplaceAll(s, 8, IsReference, DecodeReference)
  }

  /** The text of the match `&#` + `x` + the four word characters `w` + `;`. */
  function Reference(x: CodeUnit, w: JsString): JsString
  {
    Lit("&#") + [x] + w + Lit(";")
  }

  lemma EncodeAmpHash()
    ensures IsAscii(Lit("&#")) && EncodeUriComponent(Lit("&#")) == Lit("%26%23")
  {
    var t := Lit("&#");
    assert t[1..][1..] == [];
    assert EncodeUriComponent(t[1..][1..]) == [];
    assert EncodeUriComponent(t[1..]) == Lit("%23");
  }

  lemma EncodeSemicolon()
    ensures IsAscii(Lit(";")) && EncodeUriComponent(Lit(";")) == Lit("%3B")
  {
    assert Lit(";")[1..] == [];
  }

  lemma {:induction false} EncodeUnreserved(x: CodeUnit)
    requires x == Unit('x') || x == Unit('X')
    ensures IsAscii([x]) && EncodeUriComponent([x]) == [x]
  {
    assert [x][1..] == [];
  }

  /** What `encodeURIComponent` makes of a match: only `&`, `#` and `;` are
      escaped, as `%26`, `%23` and `%3B`. */
  lemma {:induction false} EncodeReference(x: CodeUnit, w: JsString)
    requires x == Unit('x') || x == Unit('X')
    requires |w| == 4 && AllWord(w)
    ensures IsReference(Reference(x, w))
    ensures EncodeUriComponent(Reference(x, w)) == Lit("%26%23") + [x] + w + Lit("%3B")
  {
    var m := Reference(x, w);
    assert IsReference(m) by {
      assert m[0] == Unit('&') && m[1] == Unit('#') && m[2] == x && m[7] == Unit(';');
      assert m[3..7] == w;
    }
    EncodeAmpHash();
    EncodeUnreserved(x);
    EncodeUriWords(w);
    EncodeSemicolon();
    EncodeUriAppend(Lit("&#"), [x]);
    EncodeUriAppend(Lit("&#") + [x], w);
    EncodeUriAppend(Lit("&#") + [x] + w, Lit(";"));
  }

  /** With a lower-case `x` the inner replace keeps the four word characters,
      so the code unit is whatever `parseInt(w, 16)` reads from them. */
  lemma {:induction false} DecodeLowercase(w: JsString)
    requires |w| == 4 && AllWord(w)
    ensures IsReference(Reference(Unit('x'), w))
    ensures DecodeReference(Reference(Unit('x'), w)) == [FromCharCode(ParseIntHex(w))]
  {
    EncodeReference(Unit('x'), w);
    var e := Lit("%26%23") + [Unit('x')] + w + Lit("%3B");
    assert e[..7] == Lit("%26%23x");
    assert e[11..] == Lit("%3B");
    assert e[..14] == e;
    assert e[14..] == [];
    assert ReplaceAll(e, 14, IsEncodedReference, SecondGroup) == w;
  }

  /** With an upper-case `X` the inner replace, which is case-sensitive, does not
      match; `parseInt` then meets `%` first and gives NaN, which
      `String.fromCharCode` turns into U+0000. */
  lemma {:induction false} DecodeUppercase(w: JsString)
    requires |w| == 4 && AllWord(w)
    ensures IsReference(Reference(Unit('X'), w))
    ensures DecodeReference(Reference(Unit('X'), w)) == [0]
  {
    EncodeReference(Unit('X'), w);
    var e := Lit("%26%23") + [Unit('X')] + w + Lit("%3B");
    assert |e| == 14 && e[0] == Unit('%');
    assert !IsEncodedReference(e) by {
      assert e[..7][6] == Unit('X');
    }
    UnmatchedWindowKept(e);
    PercentIsNaN(e);
  }

  /** A single window of 14 units that does not match passes the inner replace
      unchanged. */
  lemma {:induction false} UnmatchedWindowKept(e: JsString)
    requires |e| == 14 && !IsEncodedReference(e)
    ensures ReplaceAll(e, 14, IsEncodedReference, SecondGroup) == e
  {
    assert e[..14] == e;
    assert ReplaceAll(e[1..], 14, IsEncodedReference, SecondGroup) == e[1..];
    assert [e[0]] + e[1..] == e;
  }

  /** `parseInt` gives NaN on a text that starts with `%`. */
  lemma {:induction false} PercentIsNaN(e: JsString)
    requires e != [] && e[0] == Unit('%')
    ensures ParseIntHex(e) == NaN
  {
    assert !IsJsSpace(e[0]);
    TrimStartPlain(e);
    assert DropSign(e) == e;
    assert DropHexPrefix(e) == e;
    assert !IsHexDigit(e[0]);
    assert LeadingHexCount(e) == 0;
  }

  /** A match at the front is decoded and the scan goes on after it. */
  lemma {:induction false} ConvertPrefix(m: JsString, rest: JsString)
    requires IsReference(m)
    ensures Convert(m + rest) == DecodeReference(m) + Convert(rest)
  {
    assert (m + rest)[..8] == m;
    assert (m + rest)[8..] == rest;
  }

  /** Text too short for a reference passes through. */
  lemma {:induction false} ConvertShort(s: JsString)
    requires |s| < 8
    ensures Convert(s) == s
  {
  }

  /** A reference with `x` and four hexadecimal digits becomes the one code unit
      those digits denote. */
  lemma {:induction false} ConvertHexReference(w: JsString, rest: JsString)
    requires |w| == 4 && AllHex(w)
    ensures Convert(Reference(Unit('x'), w) + rest) == [HexValue(w) as CodeUnit] + Convert(rest)
  {
    DecodeLowercase(w);
    ParseFourHexDigits(w);
    ConvertPrefix(Reference(Unit('x'), w), rest);
  }

  /** Only the leading hexadecimal digits of the four word characters count
      (`&#x4G00;` gives U+0004); with no leading digit the result is U+0000. */
  lemma {:induction false} ConvertReadsLeadingDigits(w: JsString, rest: JsString)
    requires |w| == 4 && AllWord(w)
    requires !(w[0] == Unit('0') && (w[1] == Unit('x') || w[1] == Unit('X')))
    ensures var k := LeadingHexCount(w);
      Convert(Reference(Unit('x'), w) + rest) == [if k == 0 then 0 else HexValue(w[..k]) as CodeUnit] + Convert(rest)
  {
    var k := LeadingHexCount(w);
    assert k > 0 ==> HexValue(w[..k]) < 0x1_0000 by {
      if k > 0 {
        Pow16Monotone(k, 4);
        assert Pow16(4) == 0x1_0000;
      }
    }
    var u: CodeUnit := if k == 0 then 0 else HexValue(w[..k]);
    assert FromCharCode(ParseIntHex(w)) == u by {
      ParseWordDigits(w);
      if k > 0 { FromCharCodeInRange(HexValue(w[..k])); }
    }
    assert DecodeReference(Reference(Unit('x'), w)) == [u] by {
      DecodeLowercase(w);
    }
    ConvertPrefix(Reference(Unit('x'), w), rest);
  }

  /** `parseInt(_, 16)` skips a `0x` prefix, so `&#x0x41;` gives `A`. */
  lemma {:induction false} ConvertHexPrefixQuirk(d: JsString, rest: JsString)
    requires |d| == 2 && AllHex(d)
    ensures Convert(Reference(Unit('x'), Lit("0x") + d) + rest) == [HexValue(d) as CodeUnit] + Convert(rest)
  {
    var w := Lit("0x") + d;
    assert HexValue(d) < 256 by { assert Pow16(2) == 256; }
    var u: CodeUnit := HexValue(d);
    assert AllWord(w);
    assert FromCharCode(ParseIntHex(w)) == u by {
      assert w[2..] == d;
      assert LeadingHexCount(d) == 2;
      assert d[..2] == d;
      ParseHexPrefixed(w);
      FromCharCodeInRange(u);
    }
    assert DecodeReference(Reference(Unit('x'), w)) == [u] by {
      DecodeLowercase(w);
    }
    ConvertPrefix(Reference(Unit('x'), w), rest);
  }

  /** Example: `&#x4F60;&#x597D;` becomes the two characters 你好. */
  lemma ConvertNiHao()
    ensures Convert(Lit("&#x4F60;&#x597D;")) == [0x4F60, 0x597D]
  {
    var a, b := Lit("4F60"), Lit("597D");
    var second := Reference(Unit('x'), b) + [];
    assert Lit("&#x4F60;&#x597D;") == Reference(Unit('x'), a) + second;
    assert HexValue(a) == 0x4F60 by { HexValueFour(a); }
    assert HexValue(b) == 0x597D by { HexValueFour(b); }
    assert Convert(second) == [0x597D] by {
      ConvertHexReference(b, []);
      assert Convert([]) == [];
    }
    ConvertHexReference(a, second);
  }

  /** An upper-case `X` reference is matched (the outer pattern ignores case) but
      decodes to U+0000. */
  lemma {:induction false} ConvertUppercaseIsNul(w: JsString, rest: JsString)
    requires |w| == 4 && AllWord(w)
    ensures Convert(Reference(Unit('X'), w) + rest) == [0] + Convert(rest)
  {
    DecodeUppercase(w);
    ConvertPrefix(Reference(Unit('X'), w), rest);
  }

  /** Every match shrinks the text by 7: eight code units become one. */
  lemma {:induction false} ConvertLength(s: JsString)
    ensures |Convert(s)| == |s| - 7 * MatchCount(s, 8, IsReference)
  {
    ReplaceAllLength(s, 8, 1, IsReference, DecodeReference);
  }

  /** `convert` changes its input exactly when the input holds a match of
      `/(&#x)(\w{4});/i`. */
  lemma {:induction false} ConvertUnchangedIff(s: JsString)
    ensures Convert(s) == s <==> !HasMatch(s, 8, IsReference)
  {
    if HasMatch(s, 8, IsReference) {
      HasMatchCounted(s, 8, IsReference);
      ConvertLength(s);
    } else {
      ReplaceAllNoMatch(s, 8, IsReference, DecodeReference);
    }
  }

  /** A reference that decodes to `&` followed by `#x`, four hexadecimal digits
      and `;` decodes to a new reference. */
  lemma {:induction false} ConvertMakesReference(w1: JsString, w2: JsString)
    requires |w1| == 4 && AllHex(w1) && HexValue(w1) == Unit('&')
    requires |w2| == 4
    ensures Convert(Reference(Unit('x'), w1) + (Lit("#x") + w2 + Lit(";"))) == Reference(Unit('x'), w2)
  {
    var tail := Lit("#x") + w2 + Lit(";");
    assert [Unit('&')] + tail == Reference(Unit('x'), w2) by {
      assert Lit("&#") == [Unit('&')] + Lit("#x")[..1];
    }
    assert Convert(tail) == tail by {
      ConvertShort(tail);
    }
    ConvertHexReference(w1, tail);
  }

  lemma HexValue0026()
    ensures AllHex(Lit("0026")) && HexValue(Lit("0026")) == 0x26
  {
    HexValueFour(Lit("0026"));
  }

  lemma HexValue0041()
    ensures AllHex(Lit("0041")) && HexValue(Lit("0041")) == 0x41
  {
    HexValueFour(Lit("0041"));
  }

  /** `&#x0041;` is `A`. */
  lemma ConvertCapitalA()
    ensures Convert(Reference(Unit('x'), Lit("0041"))) == Lit("A")
  {
    HexValue0041();
    ConvertHexReference(Lit("0041"), []);
    assert Reference(Unit('x'), Lit("0041")) + [] == Reference(Unit('x'), Lit("0041"));
    assert Convert([]) == [];
  }

  /** `convert` is not idempotent: `&#x0026;#x0041;` becomes `&#x0041;`, which
      a second `convert` turns into `A`. */
  lemma ConvertNotIdempotent()
    ensures Convert(Reference(Unit('x'), Lit("0026")) + (Lit("#x") + Lit("0041") + Lit(";"))) == Reference(Unit('x'), Lit("0041"))
    ensures Convert(Reference(Unit('x'), Lit("0041"))) == Lit("A")
  {
    HexValue0026();
    ConvertMakesReference(Lit("0026"), Lit("0041"));
    ConvertCapitalA();
  }
}
