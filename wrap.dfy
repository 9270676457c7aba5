/**
 * `wrap` of build/webpack.demo.js: the fence renderer of markdown-it is wrapped
 * so that a code block marked `v-pre` (shown raw, not compiled by Vue) still
 * gets the `hljs` class that turns on syntax highlighting.
 *
 * The wrapper calls the original renderer and post-processes its output with
 * two `String.prototype.replace` calls whose patterns are strings, so each
 * rewrites only the FIRST occurrence. The renderer itself is markdown-it's;
 * here `Wrap` is the post-processing applied to whatever it returned.
 */
module FenceWrap {
  import opened JsStrings

  /** The opening of a raw code element, up to its class value. */
  const RawCode: JsString := Lit("<code v-pre class=\"")
  /** Its replacement: the same class value, prefixed with `hljs`. */
  const HljsCode: JsString := Lit("<code class=\"hljs ")
  /** A code element with no attribute at all. */
  const BareCode: JsString := Lit("<code>")
  const HljsBareCode: JsString := Lit("<code class=\"hljs\">")

  /** The function `wrap(render)` returns, applied to what `render` produced. */
  function Wrap(rendered: JsString): JsString
  {
    ReplaceFirst(ReplaceFirst(rendered, RawCode, HljsCode), BareCode, HljsBareCode)
  }

  /** The output is left alone exactly when it holds neither a raw code element
      nor a bare `<code>`. */
  lemma {:induction false} WrapUnchangedIff(rendered: JsString)
    ensures Wrap(rendered) == rendered <==> !Contains(rendered, RawCode) && !Contains(rendered, BareCode)
  {
    var mid := ReplaceFirst(rendered, RawCode, HljsCode);
    ReplaceFirstLength(rendered, RawCode, HljsCode);
    ReplaceFirstLength(mid, BareCode, HljsBareCode);
    if !Contains(rendered, RawCode) {
      assert mid == rendered;
    }
  }

  /** `HljsCode` holds a `<` only at its start, followed by `code ` and not
      `code>`. */
  lemma HljsCodeShape()
    ensures |HljsCode| == 18 && HljsCode[0] == Unit('<') && HljsCode[5] == Unit(' ')
    ensures forall k :: 0 < k < 18 ==> HljsCode[k] != Unit('<')
  {
  }

  /** After the raw code element at `i` is rewritten, a bare `<code>` occurs
      exactly where one occurred before the element, or one unit earlier than
      one after it: the rewrite neither creates nor destroys one. */
  lemma {:induction false} RewriteBareCodeAt(o: JsString, i: nat, p: nat)
    requires OccursAt(o, RawCode, i)
    ensures OccursAt(o[..i] + HljsCode + o[i + |RawCode|..], BareCode, p)
        <==> (p + 6 <= i && OccursAt(o, BareCode, p)) || (i + 18 <= p && OccursAt(o, BareCode, p + 1))
  {
    var mid := o[..i] + HljsCode + o[i + |RawCode|..];
    HljsCodeShape();
    assert |RawCode| == 19 && |BareCode| == 6 && |mid| == |o| - 1;
    assert BareCode[0] == Unit('<') && BareCode[5] == Unit('>');
    assert forall k :: 0 < k < 6 ==> BareCode[k] != Unit('<');
    assert forall k :: 0 <= k < i ==> mid[k] == o[k];
    assert forall k :: i <= k < i + 18 ==> mid[k] == HljsCode[k - i];
    assert forall k :: i + 18 <= k < |mid| ==> mid[k] == o[k + 1];
    if p + 6 <= i {
      assert mid[p..p + 6] == o[p..p + 6];
    } else if p >= i + 18 {
      if p + 6 <= |mid| {
        assert mid[p..p + 6] == o[p + 1..p + 7];
      }
    } else if p < i {
      assert mid[i] == HljsCode[0];
      if p + 6 <= |mid| {
        assert mid[p..p + 6][i - p] == Unit('<') != BareCode[i - p];
      }
    } else if p == i {
      assert mid[i + 5] == HljsCode[5];
      assert mid[p..p + 6][5] == HljsCode[5] != BareCode[5];
    } else if p + 6 <= |mid| {
      assert mid[p..p + 6][0] == HljsCode[p - i] != BareCode[0];
    }
  }

  /** Rewriting the raw code element never creates a bare `<code>`. */
  lemma {:induction false} RewriteAddsNoBareCode(o: JsString, i: nat)
    requires OccursAt(o, RawCode, i)
    requires !Contains(o, BareCode)
    ensures !Contains(o[..i] + HljsCode + o[i + |RawCode|..], BareCode)
  {
    var mid := o[..i] + HljsCode + o[i + |RawCode|..];
    forall p | 0 <= p && p + 6 <= |mid|
      ensures !OccursAt(mid, BareCode, p)
    {
      RewriteBareCodeAt(o, i, p);
    }
  }

  /** A bare `<code>` never overlaps the raw code element. */
  lemma {:induction false} BareCodeAvoidsRaw(o: JsString, i: nat, b: nat)
    requires OccursAt(o, RawCode, i) && OccursAt(o, BareCode, b)
    ensures b + 6 <= i || i + 19 <= b
  {
    assert o[b..b + 6] == BareCode;
    assert o[i..i + 19] == RawCode;
    assert forall k :: 0 < k < 19 ==> RawCode[k] != Unit('<');
    assert forall k :: 0 < k < 6 ==> BareCode[k] != Unit('<');
    assert forall k :: i < k < i + 19 ==> o[k] == RawCode[k - i];
    assert forall k :: b < k < b + 6 ==> o[k] == BareCode[k - b];
    assert o[i] == Unit('<') && o[i + 5] == Unit(' ');
    assert o[b] == Unit('<') && o[b + 5] == Unit('>');
  }

  /** A fence output with a raw code element and no bare `<code>`: only its first
      raw code element is rewritten, to carry `hljs` in front of its classes,
      and nothing else changes. */
  lemma {:induction false} WrapRawOnly(rendered: JsString, i: nat)
    requires FirstOccurrence(rendered, RawCode, i)
    requires !Contains(rendered, BareCode)
    ensures Wrap(rendered) == rendered[..i] + HljsCode + rendered[i + |RawCode|..]
  {
    RewriteAddsNoBareCode(rendered, i);
  }

  /** A fence output with no raw code element: only its first bare `<code>` is
      rewritten to `<code class="hljs">`, and nothing else changes. */
  lemma {:induction false} WrapBareOnly(rendered: JsString, i: nat)
    requires !Contains(rendered, RawCode)
    requires FirstOccurrence(rendered, BareCode, i)
    ensures Wrap(rendered) == rendered[..i] + HljsBareCode + rendered[i + |BareCode|..]
  {
  }

  /** A fence output with both: the first raw code element is rewritten, then
      the first bare `<code>` of the original output, which now sits one unit
      earlier when it came after the raw element. */
  lemma {:induction false} WrapBoth(rendered: JsString, i: nat, b: nat)
    requires FirstOccurrence(rendered, RawCode, i)
    requires FirstOccurrence(rendered, BareCode, b)
    ensures var mid := rendered[..i] + HljsCode + rendered[i + |RawCode|..];
            var c := if b < i then b else b - 1;
            0 <= c && c + |BareCode| <= |mid|
            && Wrap(rendered) == mid[..c] + HljsBareCode + mid[c + |BareCode|..]
  {
    var mid := rendered[..i] + HljsCode + rendered[i + |RawCode|..];
    BareCodeAvoidsRaw(rendered, i, b);
    var c := if b < i then b else b - 1;
    RewriteBareCodeAt(rendered, i, c);
    forall p: nat | p < c
      ensures !OccursAt(mid, BareCode, p)
    {
      RewriteBareCodeAt(rendered, i, p);
    }
    assert FirstOccurrence(mid, BareCode, c);
  }

  /** A raw code element at the front whose remaining text has no `<`: the class
      list keeps its entries, with `hljs` first. */
  lemma {:induction false} WrapRawClass(rest: JsString)
    requires forall k :: 0 <= k < |rest| ==> rest[k] != Unit('<')
    ensures Wrap(RawCode + rest) == HljsCode + rest
  {
    var o := RawCode + rest;
    assert OccursAt(o, RawCode, 0) by { assert o[0..|RawCode|] == RawCode; }
    assert FirstOccurrence(o, RawCode, 0);
    assert !Contains(o, BareCode) by {
      assert forall k :: 0 < k < 19 ==> RawCode[k] != Unit('<');
      assert RawCode[5] == Unit(' ');
      forall p | 0 <= p && p + 6 <= |o|
        ensures !OccursAt(o, BareCode, p)
      {
        if p == 0 {
          assert o[p..p + 6][5] == Unit(' ') != BareCode[5];
        } else {
          assert o[p..p + 6][0] != Unit('<');
        }
      }
    }
    WrapRawOnly(o, 0);
    assert o[..0] == [] && o[19..] == rest;
  }

  /** Example: `<code v-pre class="foo">` becomes `<code class="hljs foo">`. */
  lemma WrapRawExample()
    ensures Wrap(Lit("<code v-pre class=\"foo\">")) == Lit("<code class=\"hljs foo\">")
  {
    var rest := Lit("foo\">");
    assert Lit("<code v-pre class=\"foo\">") == RawCode + rest;
    WrapRawClass(rest);
    assert HljsCode + rest == Lit("<code class=\"hljs foo\">");
  }

  /** Example: a bare `<code>` becomes `<code class="hljs">`. */
  lemma WrapBareExample()
    ensures Wrap(Lit("<code>")) == Lit("<code class=\"hljs\">")
  {
    var o := Lit("<code>");
    assert !Contains(o, RawCode);
    assert o[0..6] == BareCode;
    assert FirstOccurrence(o, BareCode, 0);
    WrapBareOnly(o, 0);
    assert o[..0] == [] && o[6..] == [];
  }
}
