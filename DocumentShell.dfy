/**
 * The fixed HTML document that `pdf_to_article_html` in app.py returns: a
 * head naming the title and the stylesheet, and a body whose `<main>` holds one
 * `<article>` with a header (the title as heading and a byline) followed by
 * the article body. The title is interpolated as it is, without escaping.
 */
module DocumentShell {
  import opened Text

  function BeforeTitle(): string
  {
    "<!DOCTYPE html>\n<html lang=\"en\">\n<head>\n  <meta charset=\"utf-8\">\n  <meta name=\"viewport\" content=\"width=device-width, initial-scale=1\">\n  "
  }

  function TitleToHeading(): string
  {
    "\n  <meta name=\"description\" content=\"PDF converted to Reader Mode\U{2013}friendly HTML.\">\n  <link rel=\"stylesheet\" href=\"/static/styles.css\">\n  <!-- Minimal, semantic markup. Safari Reader looks for a main content area, esp. <article>. -->\n</head>\n<body>\n  <main>\n    <article>\n      <header>\n        "
  }

  function HeadingToBody(): string
  {
    "\n        <p class=\"byline\">Converted with PDF \U{2192} Safari Reader</p>\n      </header>\n      "
  }

  function AfterBody(): string
  {
    "\n    </article>\n  </main>\n</body>\n</html>"
  }

  function TitleElement(title: string): string
  {
    "<title>" + title + "</title>"
  }

  function HeadingElement(title: string): string
  {
    "<h1>" + title + "</h1>"
  }

  /** Everything the shell puts before the article body. */
  function ShellBeforeBody(title: string): string
  {
    BeforeTitle() + TitleElement(title) + TitleToHeading() + HeadingElement(title) + HeadingToBody()
  }

  /** The fixed document shell, with the title and the article body filled in. */
  function Shell(title: string, body: string): string
  {
    ShellBeforeBody(title) + body + AfterBody()
  }

  /** Different bodies give different documents: the shell adds the same text
      before and after every body, so the body can be read back. */
  lemma ShellDeterminesBody(title: string, b1: string, b2: string)
    requires Shell(title, b1) == Shell(title, b2)
    ensures b1 == b2
  {
    Cancel(ShellBeforeBody(title), b1, b2, AfterBody());
  }

  lemma Cancel(a: string, b1: string, b2: string, c: string)
    requires a + b1 + c == a + b2 + c
    ensures b1 == b2
  {
    var s := a + b1 + c;
    assert b1 == s[|a|..|s| - |c|];
  }

  lemma DropEmpty(a: string, c: string)
    ensures a + [] + c == a + c
  {
  }

  lemma ShellEmpty(title: string)
    ensures Shell(title, []) == ShellBeforeBody(title) + AfterBody()
  {
    DropEmpty(ShellBeforeBody(title), AfterBody());
  }

  lemma InShell(a: string, t: string, b: string, u: string, c: string, body: string, d: string)
    ensures Contains(a + t + b + u + c + body + d, t)
    ensures Contains(a + t + b + u + c + body + d, u)
  {
    var s := a + t + b + u + c + body + d;
    assert s == a + t + (b + u + c + body + d);
    ContainsMiddle(a, t, b + u + c + body + d);
    assert s == (a + t + b) + u + (c + body + d);
    ContainsMiddle(a + t + b, u, c + body + d);
  }

  lemma TitleInShell(title: string, body: string)
    ensures Contains(ShellBeforeBody(title) + body + AfterBody(), TitleElement(title))
  {
    InShell(BeforeTitle(), TitleElement(title), TitleToHeading(), HeadingElement(title), HeadingToBody(), body, AfterBody());
  }

  lemma HeadingInShell(title: string, body: string)
    ensures Contains(ShellBeforeBody(title) + body + AfterBody(), HeadingElement(title))
  {
    InShell(BeforeTitle(), TitleElement(title), TitleToHeading(), HeadingElement(title), HeadingToBody(), body, AfterBody());
  }

  lemma ShellTitle(title: string, body: string)
    ensures Contains(Shell(title, body), TitleElement(title))
    ensures Contains(Shell(title, body), HeadingElement(title))
  {
    TitleInShell(title, body);
    HeadingInShell(title, body);
  }
}
