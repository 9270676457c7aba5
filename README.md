# Demo-block pipeline of the documentation build, in Dafny

The documentation site is built from markdown files. `build/webpack.demo.js`
turns a fenced `::: demo` block into a `<demo-block>` Vue component, in four
steps:

- The block shows its example as live markup.
- The block passes that markup, together with the example's script and style,
  to the component as a `:jsfiddle` prop.
- The description after `demo` is rendered as markdown.
- Raw code fences get the `hljs` class.

This project models that pipeline as pure functions over JavaScript strings.
It proves what each step does:

- `convert` decodes `&#xHHHH;` character references.
- `wrap` post-processes the fence renderer.
- `validate` tests the info string against `^demo\s*(.*)$`, and `render` reads
  the description from the same match.
- The empty-attribute cleanup removes `=""` from tags.
- The payload is built with `JSON.stringify` and then `escapeHtml`.
- The open and close templates are emitted.

A JavaScript string is a sequence of UTF-16 code units (`JsStrings.JsString`),
not of Dafny `char`s. `String.fromCharCode` can produce a lone surrogate, and a
Dafny `char` cannot hold one.

Modules:

- `JsStrings` (`js_strings.dfy`) holds the JavaScript built-ins the pipeline
  calls, and the helpers that define them:
  - `Trim` is `trim()`.
  - `ReplaceFirst` is `replace` with a string pattern, which rewrites the first
    occurrence.
  - `ReplaceAll` is `replace` with a global regular expression of fixed width.
  - `ParseIntHex` is `parseInt(_, 16)`, and `FromCharCode` is
    `String.fromCharCode`.
  - `EncodeUriComponent` is `encodeURIComponent`, on ASCII text.
  - `IndexOf`, `LastIndexAtLeast`, `TrimStart` and `TrimEnd` are helpers. The
    source calls none of them directly; they serve `Trim` (`trim()`),
    `ReplaceFirst` and the regular-expression matches.
- `Convert` (`convert.dfy`): `Convert.Convert` is `convert`
  (build/webpack.demo.js:16-21).
- `FenceWrap` (`wrap.dfy`): `FenceWrap.Wrap` is the function that
  `wrap(render)` returns, applied to the renderer's output (:26-28).
- `EmptyAttributes` (`cleanup.dfy`): `EmptyAttributes.DropEmptyAttributes` is
  `.replace(/(<[^>]*)=""(?=.*>)/g, '$1')` (:113).
- `Payload` (`payload.dfy`): `Payload.Serialize` is
  `escapeHtml(JSON.stringify({html, script, style}))` (:116, :121). The module also
  has the reading side, which decodes the entities and parses the JSON back.
- `DemoContainer` (`demo_container.dfy`): `DemoContainer.Validate` is the
  `validate` callback (:104-106), and `DemoContainer.Render` is the `render`
  callback (:108-129) of the `demo` container. `striptags.strip`, `striptags.fetch` and
  `md.render` are fields of a `Collaborators` value. Nothing constrains them
  except that each returns a string.

Three behaviours of the code differ from what one would expect of it. The
model follows the code:

- Decoding character references is not idempotent:
  `&#x0026;#x0041;` becomes `&#x0041;`, and that becomes `A`
  (`Convert.ConvertNotIdempotent`).
- Every match of the outer pattern is decoded, even when its four word
  characters are not all hexadecimal digits or its `x` is upper-case:
  - `parseInt` reads only the leading hexadecimal digits
    (`Convert.ConvertReadsLeadingDigits`).
  - `parseInt` drops a `0x` prefix (`Convert.ConvertHexPrefixQuirk`).
  - An upper-case `X` makes the case-sensitive inner pattern miss, so the
    reference becomes U+0000 (`Convert.ConvertUppercaseIsNul`).
- `wrap` is not transparent on output without the raw marker `v-pre`. It
  still rewrites the first bare `<code>` (`FenceWrap.WrapBareOnly`).

## Model

| member | source | states |
|---|---|---|
| Convert.ConvertNiHao | build/webpack.demo.js:16-19 | `&#x4F60;&#x597D;` becomes exactly the two code units U+4F60 and U+597D |
| Convert.ConvertHexReference | build/webpack.demo.js:17-18 | a reference with lower-case `x` and four hexadecimal digits becomes the one code unit whose value the digits spell, and the scan continues after it |
| Convert.ConvertReadsLeadingDigits | build/webpack.demo.js:17-18 | for four word characters without a `0x` prefix, the result is the value of their leading hexadecimal digits, or U+0000 when there are none |
| Convert.ConvertHexPrefixQuirk | build/webpack.demo.js:18 | `parseInt(_, 16)` skips a `0x` prefix, so `&#x0x` followed by two hexadecimal digits decodes to the code of those two digits |
| Convert.ConvertUppercaseIsNul | build/webpack.demo.js:17-18 | an `&#X` reference matches the case-insensitive outer pattern, but the case-sensitive inner pattern misses, so `parseInt` sees `%26%23X…` and the reference becomes U+0000 |
| Convert.EncodeReference | build/webpack.demo.js:18 | `encodeURIComponent` of a match changes only `&`, `#` and `;`, giving `%26%23` + `x` + the four word characters + `%3B` |
| Convert.DecodeLowercase | build/webpack.demo.js:18 | with a lower-case `x`, the inner replace leaves exactly the four word characters for `parseInt` |
| Convert.DecodeUppercase | build/webpack.demo.js:18 | with an upper-case `X`, the callback returns U+0000 |
| Convert.ConvertPrefix | build/webpack.demo.js:17 | a match at the front is decoded, and the scan resumes right after it, so matches never overlap |
| Convert.ConvertShort | build/webpack.demo.js:17 | text shorter than one reference passes through |
| Convert.ConvertLength | build/webpack.demo.js:17-18 | output length = input length − 7 × (number of non-overlapping matches) |
| Convert.ConvertUnchangedIff | build/webpack.demo.js:17-18 | `convert` returns its input unchanged exactly when the input holds no `&#x`/`&#X` + four word characters + `;` |
| Convert.ConvertMakesReference | build/webpack.demo.js:17-19 | a reference that decodes to `&`, followed by `#x` + four units + `;`, produces a new reference |
| Convert.ConvertCapitalA | build/webpack.demo.js:17-19 | `&#x0041;` becomes `A` |
| Convert.ConvertNotIdempotent | build/webpack.demo.js:16-21 | `&#x0026;#x0041;` becomes `&#x0041;`, which becomes `A`, so `convert` is not idempotent |
| JsStrings.ParseWordDigits | build/webpack.demo.js:18 | for word characters without a `0x` prefix, `parseInt(_, 16)` is the value of the longest run of leading hexadecimal digits, or NaN |
| JsStrings.ParseHexPrefixed | build/webpack.demo.js:18 | for word characters with a `0x`/`0X` prefix, `parseInt(_, 16)` reads the digits after the prefix |
| JsStrings.ParseFourHexDigits | build/webpack.demo.js:18 | four hexadecimal digits are read exactly, and `String.fromCharCode` keeps the value |
| JsStrings.EncodeUriWords | build/webpack.demo.js:18 | `encodeURIComponent` leaves word characters unchanged |
| JsStrings.ReplaceAllLength | build/webpack.demo.js:17 | a global replace of a fixed-width pattern whose replacement always has length k shortens the text by (width − k) per match |
| FenceWrap.WrapUnchangedIff | build/webpack.demo.js:26-28 | the wrapped renderer returns its input unchanged exactly when it holds neither `<code v-pre class="` nor `<code>` |
| FenceWrap.RewriteAddsNoBareCode | build/webpack.demo.js:27-28 | the first rewrite never creates a `<code>` for the second one to find |
| FenceWrap.WrapRawOnly | build/webpack.demo.js:26-28 | with a raw code element and no bare `<code>`, only the first `<code v-pre class="` is replaced by `<code class="hljs `, and the rest is kept |
| FenceWrap.RewriteBareCodeAt | build/webpack.demo.js:27-28 | after the first rewrite, a `<code>` occurs exactly where one occurred before the raw element, or one unit earlier than one after it |
| FenceWrap.BareCodeAvoidsRaw | build/webpack.demo.js:27-28 | a `<code>` never overlaps a `<code v-pre class="` |
| FenceWrap.WrapBoth | build/webpack.demo.js:26-28 | with both present, the first raw code element is rewritten, and then the first `<code>` of the original output is rewritten, one unit earlier when it came after the raw element |
| FenceWrap.WrapBareOnly | build/webpack.demo.js:26-28 | without a raw code element, only the first `<code>` is replaced by `<code class="hljs">`, and the rest is kept |
| FenceWrap.WrapRawClass | build/webpack.demo.js:27 | a raw code element at the front, followed by text with no `<`, keeps its class list, with `hljs` put first (`WrapRawOnly` and `WrapBoth` cover the general case) |
| FenceWrap.WrapRawExample | build/webpack.demo.js:27 | `<code v-pre class="foo">` becomes `<code class="hljs foo">` |
| FenceWrap.WrapBareExample | build/webpack.demo.js:28 | `<code>` becomes `<code class="hljs">` |
| DemoContainer.MatchDemoSound | build/webpack.demo.js:105 | a match of `^demo\s*(.*)$` splits the text into `demo`, white space and a capture group with no line terminator; the greedy `\s*` leaves the group starting with a non-space |
| DemoContainer.MatchDemoComplete | build/webpack.demo.js:105-109 | every split into `demo`, white space and a line-terminator-free rest matches, and the capture is that rest with its leading white space removed |
| DemoContainer.DescriptionOf | build/webpack.demo.js:104-111 | `demo` + white space + a trimmed description with no line break is valid, and its description is exactly that text |
| DemoContainer.DescriptionOfDemoAlone | build/webpack.demo.js:109-119 | `demo` alone is valid, its description is `''`, and its description HTML is `''` |
| DemoContainer.DescriptionWithoutSpace | build/webpack.demo.js:105-111 | no white space is needed after `demo`: `demo` + a trimmed text with no line break is valid and describes itself as that text |
| DemoContainer.DemoFooExample | build/webpack.demo.js:105-111 | `demofoo` is a demo described as `foo` |
| DemoContainer.TipIsNotDemo | build/webpack.demo.js:104-105 | `tip` is not valid |
| DemoContainer.DescriptionOfNonMatch | build/webpack.demo.js:109-119 | when the trimmed info string does not match `^demo\s*(.*)$` in any way, the description is `''` and the description HTML is `''` |
| DemoContainer.DescriptionHtmlOfMatch | build/webpack.demo.js:109-119 | when the trimmed info string is `demo` + white space `w` + a line-terminator-free rest `d`, the description is `d` without its leading white space; the description HTML is `md.render` of it when it is non-empty, and `''` when it is empty |
| DemoContainer.DemoHtmlPassesCleanMarkup | build/webpack.demo.js:113 | stripped markup with no character reference and no removable `=""` becomes the `html` field unchanged |
| DemoContainer.ReadJsfiddleOpenMarkup | build/webpack.demo.js:121-123 | in the opening template, the attribute value ends at the first `"`, and decoding its entities and parsing its JSON gives back the payload |
| DemoContainer.RenderOpenCarriesFiddle | build/webpack.demo.js:110-123 | an open event's `:jsfiddle` attribute reads back as exactly `{html, script, style}` built from the next token's content |
| DemoContainer.RenderOpenLayout | build/webpack.demo.js:110-126 | an open event starts with `<demo-block class="demo-box" :jsfiddle="`, holds the cleaned html verbatim inside the `source` div right after the attribute, and ends with the open `<div class="highlight" slot="highlight">` |
| DemoContainer.RenderClose | build/webpack.demo.js:128 | any event other than an open one returns exactly `</div></demo-block>\n`, whatever its info string |
| EmptyAttributes.EmptyAttributeAtIsPatternMatch | build/webpack.demo.js:113 | the scan finds a match at a `<` exactly when `(<[^>]*)=""(?=.*>)` matches there, and it picks the last `=""` the greedy group allows |
| EmptyAttributes.DropEmptyAttributes | build/webpack.demo.js:113 | the cleanup never lengthens the text |
| EmptyAttributes.DropEmptyAttributesLength | build/webpack.demo.js:113 | each deletion shortens the text by exactly 3 units |
| EmptyAttributes.DropEmptyAttributesUnchanged | build/webpack.demo.js:113 | the text is unchanged exactly when the pattern matches nowhere in it |
| EmptyAttributes.DropEmptyAttributesKeepsOtherUnits | build/webpack.demo.js:113 | only `=` and `"` are removed: the output is a sub-multiset of the input, and every other unit keeps its count |
| EmptyAttributes.NoTagOpenPrefix | build/webpack.demo.js:113 | text without `<` passes through, and the scan goes on after it |
| EmptyAttributes.DropsEmptyValue | build/webpack.demo.js:113 | `<tag="">` becomes `<tag>` when the tag closes on the same line |
| EmptyAttributes.DropAtMatch | build/webpack.demo.js:113 | at a match whose `=""` is followed by `>`, the `=""` is dropped, the `>` kept, and the scan resumes after it |
| EmptyAttributes.KeepsEmptyValueBeforeLineBreak | build/webpack.demo.js:113 | a line break before the closing `>` defeats the lookahead `(?=.*>)`, so the `=""` stays |
| Payload.StringifyRoundTrip | build/webpack.demo.js:116-121 | parsing the JSON text gives back `html`, `script` and `style` exactly, with the keys in that order |
| Payload.QuoteJsonStringParses | build/webpack.demo.js:121 | a JSON string literal, with its escapes and surrogate pairs, reads back as the original string |
| Payload.UnescapeEscapeHtml | build/webpack.demo.js:121 | decoding the four entities undoes `escapeHtml` |
| Payload.EscapeHtmlIsAttributeSafe | build/webpack.demo.js:121-123 | the escaped payload holds no `"`, `<` or `>`, so it cannot end the double-quoted attribute |
| Payload.SerializeRoundTrip | build/webpack.demo.js:116-121 | entity-decoding and then parsing the attribute value gives back the payload exactly |

## Left out

- The webpack configuration object, the `process.env` flags, and the loader and plugin lists are build configuration, not logic.
- The `preprocess` hook patches markdown-it's renderer rule table and sets the constant `table_open` rule. This is global wiring. `wrap` is modelled as the post-processing of whatever the fence renderer returned.
- `striptags.strip` and `striptags.fetch` come from `./strip-tags`, which is not part of this model. `md.render` is markdown-it's. All three are functions in `DemoContainer.Collaborators`, and nothing constrains them except their types.
- `striptags.strip` and `striptags.fetch` are assumed to return strings. Their source is not part of this model. If `fetch` returned something else, `JSON.stringify` would write `null` for that key or leave the key out. `DemoContainer.RenderOpenCarriesFiddle` relies on this typing.
- markdown-it's tokenizer, `markdown-it-container` and `markdown-it-anchor` are not modelled. A token is the three fields `render` reads: `nesting`, `info` and `content`. markdown-it-container always puts at least one token after an opening token: the first token inside the block, or the closing token when the block is empty. `render` reads the `content` of whichever token that is, and so does the model.
- `slugify` from `transliteration` is a foreign library.
- The documentation app's `entry.js` and `play.js` only register Vue components and start the app.
- `parseInt` is modelled on exact integers. It only ever reads at most four hexadecimal digits here, so the 2^53 precision limit of JavaScript numbers never applies.
- `encodeURIComponent` is modelled only on ASCII input, the only input `convert` gives it. The UTF-8 encoding of other code units is not modelled.
- Replacement strings are modelled for the patterns used here (`$1`, `$2`, and the callback). Other `$` forms are not modelled.
- `JSON.stringify` is modelled for an object whose three fields are strings, which holds given the assumption about `strip` and `fetch` above. Lone surrogates are escaped as `\uXXXX` with lower-case digits, as in the well-formed `JSON.stringify` of ECMAScript 2019.
- The reading side in `Payload` is not part of the source. It stands for the HTML parser decoding the attribute and Vue parsing the JSON, and it exists to state the round trip.
