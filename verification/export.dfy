/**
  Download as HTML: the file name derived from the resume name, and the
  stand-alone document that wraps the rendered resume markup. The style
  sheet is carried as text and never interpreted; of its rules only the
  one that differs between the builder's and the preview page's documents,
  the body font, is kept.
 */
module Export {
  import opened Common
  import opened Text
  import Binder
  import Store

  predicate NoWhitespace(s: string) {
    forall i :: 0 <= i < |s| ==> !IsWhitespace(s[i])
  }

  /** `s.replace(/\s+/g, "_")`: every maximal run of white space becomes a
      single underscore, everything else is kept. */
  function CollapseWhitespace(s: string): (r: string)
    ensures NoWhitespace(r)
    ensures r == [] <==> s == []
    ensures |r| <= |s|
    decreases |s|
  {
    if s == [] then []
    else if IsWhitespace(s[0]) then "_" + CollapseWhitespace(TrimStart(s))
    else [s[0]] + CollapseWhitespace(s[1..])
  }

  /** A string without white space is left as it is. */
  lemma {:induction false} CollapseIdentity(s: string)
    requires NoWhitespace(s)
    ensures CollapseWhitespace(s) == s
    decreases |s|
  {
    if s != [] {
      CollapseIdentity(s[1..]);
      assert s == [s[0]] + s[1..];
    }
  }

  lemma CollapseIdempotent(s: string)
    ensures CollapseWhitespace(CollapseWhitespace(s)) == CollapseWhitespace(s)
  {
    CollapseIdentity(CollapseWhitespace(s));
  }

  /** Dropping the leading white space of `a`, whose last character is not
      white space, is unaffected by what follows `a`. */
  lemma {:induction false} TrimStartAppend(a: string, t: string)
    requires a != [] && !IsWhitespace(a[|a| - 1])
    ensures TrimStart(a + t) == TrimStart(a) + t
    ensures TrimStart(a) != [] && TrimStart(a)[|TrimStart(a)| - 1] == a[|a| - 1]
    decreases |a|
  {
    if |a| > 1 && IsWhitespace(a[0]) {
      assert (a + t)[1..] == a[1..] + t;
      TrimStartAppend(a[1..], t);
    }
  }

  /** A leading white-space run becomes one underscore. */
  lemma CollapseLeadingRun(w: string, b: string)
    requires w != [] && AllWhitespace(w)
    requires b == [] || !IsWhitespace(b[0])
    ensures CollapseWhitespace(w + b) == "_" + CollapseWhitespace(b)
  {
    if b == [] {
      TrimStartAllWhitespace(w);
      assert w + b == w;
    } else {
      TrimStartDrops(w, b);
    }
  }

  lemma CollapseKeeps(c: char, s: string)
    requires !IsWhitespace(c)
    ensures CollapseWhitespace([c] + s) == [c] + CollapseWhitespace(s)
  {
    assert ([c] + s)[1..] == s;
  }

  /** Cutting after a non-space: a run of white space never straddles the
      cut, so each side collapses on its own. */
  lemma {:induction false} CollapseAppend(a: string, t: string)
    requires a == [] || !IsWhitespace(a[|a| - 1])
    ensures CollapseWhitespace(a + t) == CollapseWhitespace(a) + CollapseWhitespace(t)
    decreases |a|
  {
    if a == [] {
      assert a + t == t;
    } else if !IsWhitespace(a[0]) {
      CollapseAppend(a[1..], t);
      AppendKeptStep(a, t);
    } else {
      TrimStartAppend(a, t);
      CollapseAppend(TrimStart(a), t);
      AppendSkippedStep(a, t);
    }
  }

  lemma AppendKeptStep(a: string, t: string)
    requires a != [] && !IsWhitespace(a[0])
    requires CollapseWhitespace(a[1..] + t) == CollapseWhitespace(a[1..]) + CollapseWhitespace(t)
    ensures CollapseWhitespace(a + t) == CollapseWhitespace(a) + CollapseWhitespace(t)
  {
    var a' := a[1..];
    assert a + t == [a[0]] + (a' + t);
    assert a == [a[0]] + a';
    CollapseKeeps(a[0], a' + t);
    CollapseKeeps(a[0], a');
  }

  lemma AppendSkippedStep(a: string, t: string)
    requires a != [] && IsWhitespace(a[0]) && !IsWhitespace(a[|a| - 1])
    requires CollapseWhitespace(TrimStart(a) + t)
             == CollapseWhitespace(TrimStart(a)) + CollapseWhitespace(t)
    ensures CollapseWhitespace(a + t) == CollapseWhitespace(a) + CollapseWhitespace(t)
  {
    TrimStartAppend(a, t);
  }

  /** The run rule: a white-space run `w` between a part ending in a
      non-space and a part starting with one becomes exactly one underscore.
      With `CollapseIdentity` this fixes the result on every input. */
  lemma CollapseRun(a: string, w: string, b: string)
    requires a == [] || !IsWhitespace(a[|a| - 1])
    requires w != [] && AllWhitespace(w)
    requires b == [] || !IsWhitespace(b[0])
    ensures CollapseWhitespace(a + w + b) == CollapseWhitespace(a) + "_" + CollapseWhitespace(b)
  {
    assert a + w + b == a + (w + b);
    CollapseAppend(a, w + b);
    CollapseLeadingRun(w, b);
  }

  /** The download falls back to this name when the resume has none. */
  const FallbackStem: string := "resume"

  /** `name.replace(/\s+/g, "_") || "resume"`. */
  function FileStem(name: string): (stem: string)
    ensures stem != [] && NoWhitespace(stem)
    ensures name == [] ==> stem == FallbackStem
    ensures name != [] ==> stem == CollapseWhitespace(name) && |stem| <= |name|
  {
    var c := CollapseWhitespace(name);
    if c == [] then FallbackStem else c
  }

  /** The builder trims the name field before collapsing white space. */
  function BuilderStem(rawName: string): (stem: string)
    ensures AllWhitespace(rawName) ==> stem == FallbackStem
  {
    TrimEmptyIff(rawName);
    FileStem(Trim(rawName))
  }

  /** White space around the name never reaches the builder's file name:
      it is the collapsed trimmed core. */
  lemma BuilderStemOfCore(a: string, m: string, b: string)
    requires AllWhitespace(a) && AllWhitespace(b) && IsTrimmed(m) && m != []
    ensures BuilderStem(a + m + b) == CollapseWhitespace(m)
  {
    TrimCharacterization(a, m, b);
  }

  /** The preview page names the download after the name the builder handed
      over, which the builder trimmed, so both pages pick the same file name
      for the same form. */
  lemma PreviewStemAgrees(f: Binder.Form, template: string, html: string)
    ensures PageStem(PreviewPage, Store.MakeHandoff(f, template, html).name)
         == PageStem(BuilderPage, f.name)
  {
  }

  /** Which page the download is taken from. */
  datatype Page = BuilderPage | PreviewPage

  /** The fixed text of a download around the title and the body. */
  datatype Shell = Shell(head: string, middle: string, tail: string)

  function BodyFont(p: Page): string {
    match p
    case BuilderPage => "'Georgia', serif"
    case PreviewPage => "Arial, sans-serif"
  }

  /** The document text of each page: the doctype and meta tags up to the
      title, the style sheet between title and body, and the closing tags.
      Of the style sheet only the rule that tells the pages apart is kept. */
  function ShellOf(p: Page): Shell {
    Shell(
      "<!DOCTYPE html><html lang=\"en\"><head><meta charset=\"UTF-8\">"
      + "<meta name=\"viewport\" content=\"width=device-width, initial-scale=1.0\"><title>",
      "</title><style>body { font-family: " + BodyFont(p) + "; }</style></head><body>",
      "</body></html>")
  }

  /** Everything in front of the body. */
  function BodyStart(sh: Shell, title: string): string {
    sh.head + title + sh.middle
  }

  /** The downloaded document: the title and the resume markup are inserted
      verbatim, with no escaping. */
  function Document(sh: Shell, title: string, body: string): (doc: string)
    ensures |doc| == |BodyStart(sh, title)| + |body| + |sh.tail|
    ensures doc[..|sh.head|] == sh.head
    ensures doc[|sh.head|..|sh.head| + |title|] == title
    ensures doc[|BodyStart(sh, title)|..|doc| - |sh.tail|] == body
    ensures doc[|doc| - |sh.tail|..] == sh.tail
  {
    var doc := BodyStart(sh, title) + body + sh.tail;
    assert doc == sh.head + title + (sh.middle + body + sh.tail);
    doc
  }

  /** Reads the resume markup back out of a document with the given shell
      and title, if it is one. */
  function ExtractBody(sh: Shell, title: string, doc: string): (body: Option<string>)
    ensures body.Some? ==> Document(sh, title, body.value) == doc
  {
    var start := BodyStart(sh, title);
    if |doc| >= |start| + |sh.tail|
       && doc[..|start|] == start && doc[|doc| - |sh.tail|..] == sh.tail
    then
      var b := doc[|start|..|doc| - |sh.tail|];
      assert doc == doc[..|start|] + b + doc[|doc| - |sh.tail|..];
      Some(b)
    else None
  }

  /** The markup survives the wrapping unchanged. */
  lemma ExtractDocument(sh: Shell, title: string, body: string)
    ensures ExtractBody(sh, title, Document(sh, title, body)) == Some(body)
  {
    var doc := Document(sh, title, body);
    assert doc[..|BodyStart(sh, title)|] == BodyStart(sh, title);
  }

  /** Different markup gives different documents. */
  lemma DocumentInjective(sh: Shell, title: string, b1: string, b2: string)
    requires Document(sh, title, b1) == Document(sh, title, b2)
    ensures b1 == b2
  {
    ExtractDocument(sh, title, b1);
    ExtractDocument(sh, title, b2);
  }

  datatype Download = Download(fileName: string, content: string)

  const Extension: string := ".html"

  /** The title and file stem of each page's download: the builder trims
      its name field first; the preview page uses the handed-over name,
      which the builder trimmed, as it is. */
  function PageStem(p: Page, name: string): (stem: string)
    ensures stem != [] && NoWhitespace(stem)
  {
    match p
    case BuilderPage => BuilderStem(name)
    case PreviewPage => FileStem(name)
  }

  /** A download from page `p`: named after the stem, the document titled
      the same and holding the resume markup of that page. */
  function ExportPage(p: Page, name: string, markup: string): (d: Download)
    ensures |d.fileName| > |Extension|
    ensures d.fileName == PageStem(p, name) + Extension
    ensures ExtractBody(ShellOf(p), PageStem(p, name), d.content) == Some(markup)
  {
    var stem := PageStem(p, name);
    ExtractDocument(ShellOf(p), stem, markup);
    Download(stem + Extension, Document(ShellOf(p), stem, markup))
  }

  /** The file name is the document title plus `.html`, and the title
      holds no white space. */
  lemma DownloadNamedByTitle(p: Page, name: string, markup: string)
    ensures var d := ExportPage(p, name, markup);
      var stem := d.fileName[..|d.fileName| - |Extension|];
      && stem != [] && NoWhitespace(stem)
      && d.content[|ShellOf(p).head|..|ShellOf(p).head| + |stem|] == stem
  {
    var d := ExportPage(p, name, markup);
    var sh := ShellOf(p);
    var stem := PageStem(p, name);
    assert d.fileName[..|d.fileName| - |Extension|] == stem;
    assert Document(sh, stem, markup) == d.content;
    assert d.content[|sh.head|..|sh.head| + |stem|] == stem;
  }
}
