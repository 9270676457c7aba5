/**
 * The `demo` container of build/webpack.demo.js, lines 103-129: markdown-it
 * calls `validate` on the text after `:::` and `render` on the opening and the
 * closing token of each `::: demo … :::` block.
 *
 * The opening token becomes the start of a `<demo-block>` element that carries
 * the example three times: as the `:jsfiddle` attribute (the markup, script
 * and style, serialized), as live markup in the `source` slot, and through an
 * unclosed `highlight` slot into which markdown-it renders the fenced code
 * that follows. The closing token closes both.
 *
 * The tag stripper and markdown-it's own renderer are not part of this model:
 * they are the fields of `Collaborators`.
 */
module DemoContainer {
  import opened JsStrings
  import Convert
  import opened EmptyAttributes
  import opened Payload

  /** The fields of a markdown-it token that the container reads. */
  datatype Token = Token(nesting: int, info: JsString, content: JsString)

  /** `striptags.strip`, `striptags.fetch` and `md.render`. */
  datatype Collaborators = Collaborators(
    strip: (JsString, seq<JsString>) -> JsString,
    fetch: (JsString, JsString) -> JsString,
    renderMarkdown: JsString -> JsString)

  // ---------------------------------------------------------------------------
  // The description: /^demo\s*(.*)$/
  // ---------------------------------------------------------------------------

  const DemoName: JsString := Lit("demo")

  /** `t.match(/^demo\s*(.*)$/)`, reduced to its capture group: the greedy
      `\s*` takes all white space after `demo`, and `(.*)$` then needs the
      rest to hold no line terminator. */
  function MatchDemo(t: JsString): Option<JsString>
  {
    if StartsWith(t, DemoName) && NoLineTerminator(TrimStart(t[|DemoName|..])) then
      Some(TrimStart(t[|DemoName|..]))
    else None
  }

  /** The pattern matches `t` with `\s*` taking `w` and the group taking `d`. */
  predicate DemoSplit(t: JsString, w: JsString, d: JsString)
  {
    t == DemoName + w + d && AllSpace(w) && NoLineTerminator(d)
  }

  /** `validate`: the block is a demo when its trimmed parameters match. */
  predicate Validate(params: JsString)
  {
    MatchDemo(Trim(params)).Some?
  }

  /** The description of `::: demo <description>`; `''` without a match. */
  function Description(info: JsString): JsString
  {
    match MatchDemo(Trim(info))
    case Some(d) => d
    case None => []
  }

  /** An empty description is falsy: it renders to `''`, not through
      markdown. */
  function DescriptionHtml(info: JsString, env: Collaborators): JsString
  {
    var d := Description(info);
    if d == [] then [] else env.renderMarkdown(d)
  }

  // ---------------------------------------------------------------------------
  // The opening markup
  // ---------------------------------------------------------------------------

  const ScriptTag: JsString := Lit("script")
  const StyleTag: JsString := Lit("style")

  /** The live markup: tags stripped, character references decoded, empty
      attribute values dropped. */
  function DemoHtml(content: JsString, env: Collaborators): JsString
  {
    DropEmptyAttributes(Convert.Convert(env.strip(content, [ScriptTag, StyleTag])))
  }

  function DemoFiddle(content: JsString, env: Collaborators): Jsfiddle
  {
    Jsfiddle(DemoHtml(content, env), env.fetch(content, ScriptTag), env.fetch(content, StyleTag))
  }

  const Indent: JsString := Lit("                                ")
  const OpenTagStart: JsString := Lit("<demo-block class=\"demo-box\" :jsfiddle=\"")
  const SourceSlotOpen: JsString := Lit("\">\n") + Indent + Lit("<div class=\"source\" slot=\"source\">")
  const SourceSlotClose: JsString := Lit("</div>\n") + Indent
  const HighlightOpen: JsString := Lit("\n") + Indent + Lit("<div class=\"highlight\" slot=\"highlight\">")
  const CloseMarkup: JsString := Lit("</div></demo-block>\n")

  /** The template literal of the opening event. */
  function OpenMarkup(attribute: JsString, html: JsString, descriptionHtml: JsString): JsString
  {
    OpenTagStart + (attribute + (SourceSlotOpen + (html + (SourceSlotClose + (descriptionHtml + HighlightOpen)))))
  }

  /** `render(tokens, idx)`. markdown-it always follows an opening container
      token with at least its closing one. */
  function Render(tokens: seq<Token>, idx: nat, env: Collaborators): JsString
    requires idx < |tokens|
    requires tokens[idx].nesting == 1 ==> idx + 1 < |tokens|
  {
    if tokens[idx].nesting == 1 then
      var content := tokens[idx + 1].content;
      OpenMarkup(Serialize(DemoFiddle(content, env)), DemoHtml(content, env), DescriptionHtml(tokens[idx].info, env))
    else CloseMarkup
  }

  /** What the page does with the opening markup: takes the attribute value up
      to its closing quote, decodes its entities and reads it as JSON. */
  function ReadJsfiddle(markup: JsString): Option<Jsfiddle>
  {
    if !StartsWith(markup, OpenTagStart) then None
    else
      var after := markup[|OpenTagStart|..];
      var q := IndexOf(after, [Unit('"')]);
      if q < 0 then None else DecodeJsfiddle(UnescapeHtml(after[..q]))
  }

  // ---------------------------------------------------------------------------
  // The description
  // ---------------------------------------------------------------------------

  lemma {:induction false} TrimStartSpacePrefix(w: JsString, d: JsString)
    requires AllSpace(w)
    ensures TrimStart(w + d) == TrimStart(d)
    decreases |w|
  {
    if w != [] {
      assert (w + d)[1..] == w[1..] + d;
      TrimStartSpacePrefix(w[1..], d);
    } else {
      assert w + d == d;
    }
  }

  lemma {:induction false} NoLineTerminatorSuffix(d: JsString, k: int)
    requires 0 <= k <= |d| && NoLineTerminator(d)
    ensures NoLineTerminator(d[k..])
  {
    assert forall i :: 0 <= i < |d| - k ==> d[k..][i] == d[k + i];
  }

  /** A match splits the text into `demo`, white space and a group without
      line terminators, and the group does not start with white space: the
      `\s*` is greedy. */
  lemma {:induction false} MatchDemoSound(t: JsString)
    requires MatchDemo(t).Some?
    ensures |DemoName| <= |t| - |MatchDemo(t).value|
    ensures DemoSplit(t, t[|DemoName|..|t| - |MatchDemo(t).value|], MatchDemo(t).value)
    ensures MatchDemo(t).value == [] || !IsJsSpace(MatchDemo(t).value[0])
  {
    var d := MatchDemo(t).value;
    var after := t[|DemoName|..];
    assert d == after[|after| - |d|..];
    assert after[..|after| - |d|] == t[|DemoName|..|t| - |d|];
    assert t == t[..|DemoName|] + after[..|after| - |d|] + after[|after| - |d|..];
  }

  /** Every way the pattern can match gives a match, and its group is the
      given one without its leading white space. */
  lemma {:induction false} MatchDemoComplete(t: JsString, w: JsString, d: JsString)
    requires DemoSplit(t, w, d)
    ensures MatchDemo(t) == Some(TrimStart(d))
  {
    assert t[..|DemoName|] == DemoName;
    assert t[|DemoName|..] == w + d;
    TrimStartSpacePrefix(w, d);
    NoLineTerminatorSuffix(d, |d| - |TrimStart(d)|);
  }

  lemma DemoNameShape()
    ensures |DemoName| == 4 && DemoName[0] == Unit('d') && DemoName[3] == Unit('o')
    ensures !IsJsSpace(Unit('d')) && !IsJsSpace(Unit('o'))
  {
  }

  /** `::: demo <d>` describes itself as `d`. */
  lemma {:induction false} DescriptionOf(w: JsString, d: JsString)
    requires AllSpace(w) && NoLineTerminator(d)
    requires d == [] ==> w == []
    requires d != [] ==> !IsJsSpace(d[0]) && !IsJsSpace(d[|d| - 1])
    ensures Validate(DemoName + w + d) && Description(DemoName + w + d) == d
  {
    var t := DemoName + w + d;
    DemoNameShape();
    assert t[0] == Unit('d');
    assert !IsJsSpace(t[|t| - 1]) by {
      if d == [] {
        assert t == DemoName;
      } else {
        assert t[|t| - 1] == d[|d| - 1];
      }
    }
    TrimUntouched(t);
    MatchDemoComplete(t, w, d);
    TrimStartPlain(d);
  }

  /** Trimming leaves a text alone when it neither starts nor ends with white
      space. */
  lemma {:induction false} TrimUntouched(t: JsString)
    requires t != [] && !IsJsSpace(t[0]) && !IsJsSpace(t[|t| - 1])
    ensures Trim(t) == t
  {
    TrimStartPlain(t);
    assert TrimEnd(t) == t;
  }

  lemma TrimDemoName()
    ensures Trim(DemoName) == DemoName
  {
    var t := DemoName;
    assert t[0] == Unit('d') && t[3] == Unit('o');
    TrimUntouched(t);
  }

  lemma MatchDemoName()
    ensures MatchDemo(DemoName) == Some([])
  {
  }

  /** `::: demo` alone has an empty description, which renders to nothing. */
  lemma {:induction false} DescriptionOfDemoAlone(env: Collaborators)
    ensures Validate(Lit("demo")) && Description(Lit("demo")) == []
    ensures DescriptionHtml(Lit("demo"), env) == []
  {
    TrimDemoName();
    MatchDemoName();
  }

  /** The pattern does not need white space after `demo`: `demofoo` is a demo
      described as `foo`. */
  lemma {:induction false} DescriptionWithoutSpace(d: JsString)
    requires d != [] && !IsJsSpace(d[0]) && !IsJsSpace(d[|d| - 1]) && NoLineTerminator(d)
    ensures Validate(DemoName + d) && Description(DemoName + d) == d
  {
    assert DemoName + [] == DemoName;
    DescriptionOf([], d);
  }

  lemma {:induction false} FooUntrimmed(foo: JsString)
    requires foo == Lit("foo")
    ensures foo != [] && !IsJsSpace(foo[0]) && !IsJsSpace(foo[|foo| - 1]) && NoLineTerminator(foo)
  {
  }

  /** `::: demofoo` is a demo described as `foo`. */
  lemma DemoFooExample()
    ensures Validate(DemoName + Lit("foo")) && Description(DemoName + Lit("foo")) == Lit("foo")
  {
    FooUntrimmed(Lit("foo"));
    DescriptionWithoutSpace(Lit("foo"));
  }

  /** Other containers, such as `::: tip`, are not demos. */
  lemma TipIsNotDemo()
    ensures !Validate(Lit("tip"))
  {
    var t := Lit("tip");
    assert !IsJsSpace(t[0]) && !IsJsSpace(t[2]);
    TrimStartPlain(t);
    assert TrimEnd(t) == t;
    assert !StartsWith(t, DemoName);
  }

  /** When the trimmed info string does not match `^demo\s*(.*)$`, the
      description is `''` and nothing is rendered for it. */
  lemma {:induction false} DescriptionOfNonMatch(info: JsString, env: Collaborators)
    requires forall w, d :: !DemoSplit(Trim(info), w, d)
    ensures Description(info) == [] && DescriptionHtml(info, env) == []
  {
    if MatchDemo(Trim(info)).Some? {
      MatchDemoSound(Trim(info));
    }
  }

  /** When the trimmed info string matches with `\s*` taking `w` and the rest
      being `d`, the description is `d` without its leading white space; it is
      rendered through markdown exactly when it is not empty. */
  lemma {:induction false} DescriptionHtmlOfMatch(info: JsString, w: JsString, d: JsString, env: Collaborators)
    requires DemoSplit(Trim(info), w, d)
    ensures Description(info) == TrimStart(d)
    ensures TrimStart(d) != [] ==> DescriptionHtml(info, env) == env.renderMarkdown(TrimStart(d))
    ensures TrimStart(d) == [] ==> DescriptionHtml(info, env) == []
  {
    MatchDemoComplete(Trim(info), w, d);
  }

  // ---------------------------------------------------------------------------
  // Render
  // ---------------------------------------------------------------------------

  /** When the stripped markup has no character reference and no empty
      attribute value to drop, it is used as it is. */
  lemma {:induction false} DemoHtmlPassesCleanMarkup(content: JsString, env: Collaborators)
    requires !HasMatch(env.strip(content, [ScriptTag, StyleTag]), 8, Convert.IsReference)
    requires NoPatternMatch(env.strip(content, [ScriptTag, StyleTag]))
    ensures DemoHtml(content, env) == env.strip(content, [ScriptTag, StyleTag])
  {
    var stripped := env.strip(content, [ScriptTag, StyleTag]);
    Convert.ConvertUnchangedIff(stripped);
    DropEmptyAttributesUnchanged(stripped);
  }

  /** The first `"` of `attribute + tail` is the one that starts `tail`. */
  lemma {:induction false} QuoteEndsAttribute(attribute: JsString, tail: JsString)
    requires forall k :: 0 <= k < |attribute| ==> attribute[k] != Unit('"')
    requires tail != [] && tail[0] == Unit('"')
    ensures IndexOf(attribute + tail, [Unit('"')]) == |attribute|
    ensures (attribute + tail)[..|attribute|] == attribute
  {
    var s := attribute + tail;
    forall k | 0 <= k < |attribute|
      ensures !OccursAt(s, [Unit('"')], k)
    {
      assert s[k..k + 1] == [attribute[k]];
    }
    assert s[|attribute|..|attribute| + 1] == [Unit('"')];
    IndexOfIs(s, [Unit('"')], |attribute|);
  }

  /** The serialized payload cannot end the attribute early: the first `"`
      after the attribute's start is the one that closes it, and what lies
      before it reads back as the payload. */
  lemma {:induction false} ReadJsfiddleOpenMarkup(f: Jsfiddle, html: JsString, descriptionHtml: JsString)
    ensures ReadJsfiddle(OpenMarkup(Serialize(f), html, descriptionHtml)) == Some(f)
  {
    var attribute := Serialize(f);
    var tail := SourceSlotOpen + (html + (SourceSlotClose + (descriptionHtml + HighlightOpen)));
    var markup := OpenMarkup(attribute, html, descriptionHtml);
    PrefixThen(OpenTagStart, attribute + tail);
    EscapeHtmlIsAttributeSafe(Stringify(f));
    assert SourceSlotOpen[0] == Unit('"');
    assert tail[0] == Unit('"');
    QuoteEndsAttribute(attribute, tail);
    SerializeRoundTrip(f);
  }

  /** The opening event: the `:jsfiddle` attribute reads back as exactly the
      markup, script and style of the block's content. */
  lemma {:induction false} RenderOpenCarriesFiddle(tokens: seq<Token>, idx: nat, env: Collaborators)
    requires idx + 1 < |tokens| && tokens[idx].nesting == 1
    ensures ReadJsfiddle(Render(tokens, idx, env)) == Some(DemoFiddle(tokens[idx + 1].content, env))
  {
    var content := tokens[idx + 1].content;
    ReadJsfiddleOpenMarkup(DemoFiddle(content, env), DemoHtml(content, env), DescriptionHtml(tokens[idx].info, env));
  }

  lemma {:induction false} Assoc(x: JsString, y: JsString, z: JsString)
    ensures x + (y + z) == (x + y) + z
  {
  }

  lemma {:induction false} EndsWithExtend(x: JsString, y: JsString, e: JsString)
    requires EndsWith(y, e)
    ensures EndsWith(x + y, e)
  {
    assert (x + y)[|x + y| - |e|..] == y[|y| - |e|..];
  }

  lemma {:induction false} OccursInside(p: JsString, a: JsString, m: JsString, z: JsString)
    ensures OccursAt(p + (a + (m + z)), m, |p| + |a|)
  {
    assert (p + (a + (m + z)))[|p| + |a|..|p| + |a| + |m|] == m;
  }

  /** Where the parts of the opening template lie. */
  lemma {:induction false} OpenMarkupParts(p: JsString, a: JsString, s: JsString, h: JsString, c: JsString, d: JsString, e: JsString)
    ensures StartsWith(p + (a + (s + (h + (c + (d + e))))), p)
    ensures OccursAt(p + (a + (s + (h + (c + (d + e))))), s + h + c, |p| + |a|)
    ensures EndsWith(p + (a + (s + (h + (c + (d + e))))), e)
  {
    var z := d + e;
    PrefixThen(p, a + (s + (h + (c + z))));
    Assoc(h, c, z);
    Assoc(s, h + c, z);
    Assoc(s, h, c);
    assert s + (h + (c + z)) == (s + h + c) + z;
    OccursInside(p, a, s + h + c, z);
    assert EndsWith(e, e);
    EndsWithExtend(d, e, e);
    EndsWithExtend(c, z, e);
    EndsWithExtend(h, c + z, e);
    EndsWithExtend(s, h + (c + z), e);
    EndsWithExtend(a, s + (h + (c + z)), e);
    EndsWithExtend(p, a + (s + (h + (c + z))), e);
  }

  /** The opening event starts the `<demo-block>` element, puts the live
      markup verbatim into the `source` slot right after the attribute, and
      ends with the `highlight` slot left open for the code that follows. */
  lemma {:induction false} RenderOpenLayout(tokens: seq<Token>, idx: nat, env: Collaborators)
    requires idx + 1 < |tokens| && tokens[idx].nesting == 1
    ensures StartsWith(Render(tokens, idx, env), OpenTagStart)
    ensures OccursAt(Render(tokens, idx, env), SourceSlotOpen + DemoHtml(tokens[idx + 1].content, env) + SourceSlotClose,
                     |OpenTagStart| + |Serialize(DemoFiddle(tokens[idx + 1].content, env))|)
    ensures EndsWith(Render(tokens, idx, env), HighlightOpen)
  {
    var content := tokens[idx + 1].content;
    var attribute := Serialize(DemoFiddle(content, env));
    var html := DemoHtml(content, env);
    var desc := DescriptionHtml(tokens[idx].info, env);
    OpenMarkupParts(OpenTagStart, attribute, SourceSlotOpen, html, SourceSlotClose, desc, HighlightOpen);
  }

  /** Any other event closes the `highlight` slot and the element, whatever
      the tokens hold. */
  lemma {:induction false} RenderClose(tokens: seq<Token>, idx: nat, env: Collaborators)
    requires idx < |tokens| && tokens[idx].nesting != 1
    ensures Render(tokens, idx, env) == Lit("</div></demo-block>\n")
  {
  }
}
