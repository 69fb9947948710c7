# Content rendering of the inland-template-basic blog builder

This project models, in Dafny, the content-rendering path of the blog
builder's `build/utils.js`: the `escapeHtml` helper, the slug derived from a
content file's name, and the assembly of the parsed document in
`parseMarkdownFile` (the `<pre>`-wrapped escaped body and the constant
`isCompiled: false`). All of it is pure string transformation, so it is
modelled as functions with lemmas; there is no mutable state to model.

- `wrappers.dfy` — module `Wrappers`: the `Result` datatype for the error the
  front-matter split can throw.
- `escape.dfy` — module `HtmlEscape`: the regular-expression class
  `[&<>"']` (`IsSpecial`), the five-entry lookup table (`Entities`), the
  escape (`EscapeHtml`), an entity decoder (`Unescape`) as its partner, and
  the lemmas about them.
- `slug.dfy` — module `Filenames`: `filename.replace(/\.(md|html)$/, '')`
  as `Slug`, with the regular-expression match stated separately
  (`ExtensionMatchAt`) and proved to agree with it.
- `content.dfy` — module `Content`: the `ParsedDocument` record, the front-
  matter value type, `RenderHtml` and `ParseMarkdownFile`.

The front-matter split `fm(content)` comes from the external `front-matter`
package. It is a parameter of `ParseMarkdownFile`: a function from the file
content to either the header attributes and the body, or the error it throws
on a malformed header, which `parseMarkdownFile` lets propagate.

## Model

| member | source | states |
|---|---|---|
| `HtmlEscape.IsSpecial` | build/utils.js:70 | the characters the regular-expression class `[&<>"']` matches |
| `HtmlEscape.Entities` | build/utils.js:62-68 | the lookup table from each matched character to its character reference |
| `HtmlEscape.EscapeChar` | build/utils.js:62-70 | the callback's replacement of one character is non-empty and at most 6 long; it starts with `&` exactly when the character is one of `& < > " '`, and then begins a character reference; any other character is copied unchanged; no replacement holds a special character after its first |
| `HtmlEscape.EscapeHtml` | build/utils.js:61-71 | the escaped text is at least as long as the input and at most six times as long, and contains no special character other than `&` |
| `HtmlEscape.Unescape` | build/utils.js:62-68 | decoding the five references never lengthens a text |
| `HtmlEscape.TableCoversClass` | build/utils.js:62-70 | a character is matched by the class `[&<>"']` exactly when it is a key of the lookup table, so the callback never yields `undefined` |
| `HtmlEscape.EntitiesPrefixFree` | build/utils.js:62-68 | for matched characters, one table entry is a prefix of (or equal to) another only when the characters are the same, and decoding an entry gives back its character |
| `HtmlEscape.EscapeAppend` | build/utils.js:70 | escaping distributes over concatenation: `EscapeHtml(a + b) == EscapeHtml(a) + EscapeHtml(b)` |
| `HtmlEscape.EscapeAround` | build/utils.js:70 | every character is replaced where it stands: around any one character, the output is the escaped text before it, its replacement, then the escaped text after it |
| `HtmlEscape.EscapeIsEscaped` | build/utils.js:62-70 | the output contains no `<`, `>`, `"` or `'`, and every `&` in it begins one of `&amp;`, `&lt;`, `&gt;`, `&quot;`, `&#039;` |
| `HtmlEscape.UnescapeEscape` | build/utils.js:62-70 | decoding the five references in the output recovers the input exactly |
| `HtmlEscape.EscapeUnescape` | build/utils.js:62-70 | every escaped-shaped text is the escaped form of its own decoding |
| `HtmlEscape.EscapedIsRange` | build/utils.js:62-70 | the texts the escape can produce are exactly the escaped-shaped ones (both directions) |
| `HtmlEscape.EscapeInjective` | build/utils.js:62-70 | two inputs escape to the same text exactly when they are equal |
| `HtmlEscape.EscapeLength` | build/utils.js:62-70 | output length is input length plus 4 per `&`, 3 per `<` or `>`, and 5 per `"` or `'` |
| `HtmlEscape.EscapeFixesPlain` | build/utils.js:70 | a text is returned unchanged exactly when none of `& < > " '` occurs in it |
| `HtmlEscape.EscapeTwiceIff` | build/utils.js:62-70 | escaping twice equals escaping once exactly when the input holds no special character, so the escape is not idempotent |
| `HtmlEscape.AmpersandEscapesTwice` | build/utils.js:63 | `&` escapes to `&amp;`, which escapes again to `&amp;amp;` |
| `Filenames.ExtensionMatchAt` | build/utils.js:51 | the pattern `\.(md\|html)$` matches at an index exactly when the rest of the name is `.md` or `.html` up to the end of input |
| `Filenames.Slug` | build/utils.js:51 | the slug is a prefix of the filename, shorter by 0, 3 or 5 characters |
| `Filenames.MatchUnique` | build/utils.js:51 | the pattern `\.(md\|html)$` matches at no more than one position of a name |
| `Filenames.SlugMatchesPattern` | build/utils.js:51 | where the pattern matches, the slug is the name up to the match; where it matches nowhere, the slug is the name |
| `Filenames.SlugStripsMd` | build/utils.js:51 | a name ending in `.md` loses exactly those three characters |
| `Filenames.SlugStripsHtml` | build/utils.js:51 | a name ending in `.html` loses exactly those five characters |
| `Filenames.SlugUnchangedIff` | build/utils.js:51 | a name is its own slug exactly when it ends in neither `.md` nor `.html` |
| `Filenames.SlugEdgeCases` | build/utils.js:51 | matching is case-sensitive and exact, and only one extension is removed: `a.MD` and `a.htm` are unchanged, `a.md.md` becomes `a.md`, `.md` becomes the empty slug |
| `Content.ParsedDocument` | build/utils.js:53-58 | the returned object: `slug`, `frontmatter`, `html`, `isCompiled` |
| `Content.PreOpen` | build/utils.js:56 | the template's opening tag `<pre style="white-space: pre-wrap; font-family: inherit;">` |
| `Content.PreClose` | build/utils.js:56 | the template's closing tag `</pre>` |
| `Content.RenderHtml` | build/utils.js:56 | the page opens with the `<pre style="white-space: pre-wrap; font-family: inherit;">` tag and closes with `</pre>`; the text between them is escaped and decodes back to the body exactly |
| `Content.ParseMarkdownFile` | build/utils.js:49-59 | a header the front-matter split rejects fails the call with that same error; otherwise the document's slug is the filename's slug, its front matter is the header's attributes, its html is the container around the escaped body and decodes back to the body, and `isCompiled` is false |
| `Content.ParseExample` | build/utils.js:49-59 | for `post.md` whose header sets `title: Hi` and whose body is `Body & <b>text</b>`, the document is slug `post`, front matter `{title: "Hi"}`, html the container around `Body &amp; &lt;b&gt;text&lt;/b&gt;`, not compiled |
| `Content.EscapeExampleBody` | build/utils.js:61-71 | the worked example's body escapes to `Body &amp; &lt;b&gt;text&lt;/b&gt;` |

## Left out

- `ensureDir` and `copyAssets` (build/utils.js:9-38): asynchronous file-system access, directory creation and copying; there is no transformation logic to model.
- `formatDate` (build/utils.js:40-47): it depends on the JavaScript `Date` parser and locale-dependent `toLocaleDateString`.
- The YAML parsing of the `front-matter` package (build/utils.js:7, 50): foreign code. Its result is a parameter of `ParseMarkdownFile`; which headers it accepts, and that a file without a header gives empty attributes and the whole content as body, is the package's behaviour and not modelled.
- Content.Value: front-matter numbers are modelled as integers; YAML floats, dates and other scalar kinds are not represented.
- The `async` wrapper of `parseMarkdownFile`: the promise adds nothing observable beyond the value or the thrown error, which the `Result` carries.
- JavaScript strings are sequences of UTF-16 code units, Dafny strings of Unicode scalar values; a lone surrogate half has no counterpart in the model. Neither the escape nor the slug looks at characters outside ASCII, so nothing else changes.
