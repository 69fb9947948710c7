/**
 * Document assembly in `parseMarkdownFile` (build/utils.js): the front-matter
 * split, the slug, the escaped body wrapped in a `<pre>` block, and the
 * constant `isCompiled: false`.
 *
 * The front-matter split is done by the external `front-matter` package,
 * whose YAML parsing is not modelled: it is a parameter of the parser that
 * returns the attributes and the body, or the error it throws on a
 * malformed header.
 */
module Content {
  import opened Wrappers
  import opened HtmlEscape
  import Filenames

  /** A front-matter attribute value: the closed set of shapes a YAML header yields. */
  datatype Value =
    | Text(text: string)
    | Number(number: int)
    | Boolean(flag: bool)
    | Null
    | List(items: seq<Value>)
    | Mapping(entries: map<string, Value>)

  /** The attribute mapping of a document header. */
  type Attributes = map<string, Value>

  /** What the front-matter split returns: the parsed header and the text after it. */
  datatype FrontMatter = FrontMatter(attributes: Attributes, body: string)

  /** The error the front-matter split throws on a malformed header. */
  datatype ParseError = MalformedFrontMatter(message: string)

  /** The object `parseMarkdownFile` resolves to. */
  datatype ParsedDocument = ParsedDocument(
    slug: string,
    frontmatter: Attributes,
    html: string,
    isCompiled: bool)

  /** The opening tag of the preformatted container. */
  const PreOpen: string := "<pre style=\"white-space: pre-wrap; font-family: inherit;\">"

  /** The closing tag of the preformatted container. */
  const PreClose: string := "</pre>"

  /** The part of a rendered page between the two tags. */
  function Inner(html: string): (inner: string)
    requires |PreOpen| + |PreClose| <= |html|
  {
    html[|PreOpen|..|html| - |PreClose|]
  }

  /**
   * The `html` field: the escaped body inside the `<pre>` container.  The
   * page opens and closes with the container's tags, what lies between them
   * is escaped text, and decoding it gives back the body exactly.
   */
  function RenderHtml(body: string): (html: string)
    ensures |PreOpen| + |PreClose| <= |html|
    ensures html[..|PreOpen|] == PreOpen
    ensures html[|html| - |PreClose|..] == PreClose
    ensures IsEscaped(Inner(html))
    ensures Unescape(Inner(html)) == body
  {
    var escaped := EscapeHtml(body);
    EscapeIsEscaped(body);
    UnescapeEscape(body);
    var html := PreOpen + escaped + PreClose;
    assert Inner(html) == escaped;
    html
  }

  /**
   * `parseMarkdownFile(content, filename)`.  A header the front-matter split
   * rejects fails the call with that error; otherwise the document carries
   * the slug of the filename, the header's attributes, the rendered body and
   * `isCompiled == false`.
   */
  function ParseMarkdownFile(
    frontMatter: string -> Result<FrontMatter, ParseError>,
    content: string,
    filename: string): (r: Result<ParsedDocument, ParseError>)
    ensures frontMatter(content).Failure? ==> r == Failure(frontMatter(content).error)
    ensures frontMatter(content).Success? ==> r.Success?
    ensures r.Success? ==>
      var parsed, doc := frontMatter(content).value, r.value;
      && doc.slug == Filenames.Slug(filename)
      && doc.frontmatter == parsed.attributes
      && doc.html == PreOpen + EscapeHtml(parsed.body) + PreClose
      && Unescape(Inner(doc.html)) == parsed.body
      && !doc.isCompiled
  {
    match frontMatter(content)
    case Failure(e) => Failure(e)
    case Success(parsed) =>
      Success(ParsedDocument(
        Filenames.Slug(filename),
        parsed.attributes,
        RenderHtml(parsed.body),
        false))
  }

  /** Escaped pieces join into the escaped whole. */
  lemma EscapeJoin(a: string, b: string, c: string, d: string, e: string,
                   ea: string, eb: string, ec: string, ed: string, ee: string)
    requires EscapeHtml(a) == ea && EscapeHtml(b) == eb && EscapeHtml(c) == ec
    requires EscapeHtml(d) == ed && EscapeHtml(e) == ee
    ensures EscapeHtml(a + b + c + d + e) == ea + eb + ec + ed + ee
  {
    EscapeAppend(a, b);
    EscapeAppend(a + b, c);
    EscapeAppend(a + b + c, d);
    EscapeAppend(a + b + c + d, e);
  }

  /** A piece of the worked example's body, escaped. */
  lemma EscapeExampleWord()
    ensures EscapeHtml("Body") == "Body"
  {
  }

  /** A piece of the worked example's body, escaped. */
  lemma EscapeExampleAmpersand()
    ensures EscapeHtml(" & ") == " &amp; "
  {
  }

  /** A piece of the worked example's body, escaped. */
  lemma EscapeExampleOpenTag()
    ensures EscapeHtml("<b>") == "&lt;b&gt;"
  {
  }

  /** A piece of the worked example's body, escaped. */
  lemma EscapeExampleText()
    ensures EscapeHtml("text") == "text"
  {
  }

  /** A piece of the worked example's body, escaped. */
  lemma EscapeExampleCloseTag()
    ensures EscapeHtml("</b>") == "&lt;/b&gt;"
  {
  }

  /** The worked example's body is the concatenation of its pieces, and so is its escaped form. */
  lemma ExamplePiecesJoin()
    ensures "Body" + " & " + "<b>" + "text" + "</b>" == "Body & <b>text</b>"
    ensures "Body" + " &amp; " + "&lt;b&gt;" + "text" + "&lt;/b&gt;" == "Body &amp; &lt;b&gt;text&lt;/b&gt;"
  {
  }

  /**
   * The worked example's body, escaped by joining its escaped pieces.  Each
   * piece has its own lemma because the verifier unfolds `EscapeHtml` on a
   * string literal one character at a time: cheap for a short piece, too
   * costly for the whole body in one proof.
   */
  lemma EscapeExampleBody()
    ensures EscapeHtml("Body & <b>text</b>") == "Body &amp; &lt;b&gt;text&lt;/b&gt;"
  {
    EscapeExampleWord();
    EscapeExampleAmpersand();
    EscapeExampleOpenTag();
    EscapeExampleText();
    EscapeExampleCloseTag();
    EscapeJoin("Body", " & ", "<b>", "text", "</b>", "Body", " &amp; ", "&lt;b&gt;", "text", "&lt;/b&gt;");
    ExamplePiecesJoin();
  }

  /**
   * The worked example: a `post.md` whose header sets `title` and whose body
   * holds an `&` and a tag.
   */
  lemma ParseExample(frontMatter: string -> Result<FrontMatter, ParseError>, content: string)
    requires content == "---\ntitle: Hi\n---\nBody & <b>text</b>"
    requires frontMatter(content) == Success(FrontMatter(map["title" := Text("Hi")], "Body & <b>text</b>"))
    ensures ParseMarkdownFile(frontMatter, content, "post.md")
      == Success(ParsedDocument(
        "post",
        map["title" := Text("Hi")],
        PreOpen + "Body &amp; &lt;b&gt;text&lt;/b&gt;" + PreClose,
        false))
  {
    Filenames.SlugStripsMd("post");
    assert "post" + ".md" == "post.md";
    RenderExampleBody();
  }

  /** The worked example's body rendered inside the container. */
  lemma RenderExampleBody()
    ensures RenderHtml("Body & <b>text</b>") == PreOpen + "Body &amp; &lt;b&gt;text&lt;/b&gt;" + PreClose
  {
    EscapeExampleBody();
  }
}
