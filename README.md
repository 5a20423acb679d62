# Reader: PDF to reader-mode HTML, modelled in Dafny

Reader is a small Flask application (`app.py`) that turns an uploaded PDF into
one HTML document shaped for a browser's reader mode. The heart of it is
`pdf_to_article_html`. It walks the pages of the PDF and builds one
`<section aria-label='Page k'>` per page, with two parts:

- the page text, stripped, HTML-escaped, split into `<p>` paragraphs;
- one `<figure>` per embedded image, as a base64 PNG data URL.

The sections are joined by newlines and placed in a fixed document shell. The
shell repeats the title in `<title>` and in the `<h1>` of the article header.
Uploads are accepted only when `allowed_file` finds a `.pdf` extension.

This project models that core and proves what it does.

- `Text.dfy` (module `Text`): the parts of Python's `str` the renderer uses.
  These are `strip()` with Python's whitespace set, `split("\n")`,
  `sep.join(...)` and `str(n)` for a page number. The module also defines
  `Contains`, a substring predicate. The renderer never calls it; the
  title lemmas use it to state their results.
- `HtmlEscape.dfy`: the three `replace` passes. They are proved equal to a
  per-character escape. They round-trip through decoding, and their output has
  no raw `<` or `>` and no bare `&`.
- `ParagraphSplit.dfy`: the paragraph comprehension and the `<p>` elements.
  - Paragraphs are non-empty and free of newlines, and they keep line order.
  - There is one paragraph per line with content.
  - Escaping before splitting gives the escapes of the paragraphs of the
    stripped raw text.
- `DocumentShell.dfy`: the fixed HTML document around the article body.
- `ArticleRender.dfy`: the rest of the converter.
  - Figures: the image loop inside its `try`, so the first failing image
    drops itself and every later image of its page.
  - Sections: the page loop, with `pdf_to_article_html` as a method proved to
    return `Document(pages, title)`.
  - The document-level properties.
- `UploadFilter.dfy`: `allowed_file`, with `rsplit(".", 1)` and lower-casing.

PyMuPDF is not modelled. What it delivers is the input. Each page is a
`PageRecord`: the text `get_text("text")` returned, plus one `ImageOutcome` per
image, in the order `get_images` lists them. An outcome is either
`Encoded(base64)`, the payload the image turned into, or `Failed`, meaning that
opening, converting or encoding the image raised.

`pdf_to_article_html` is split into four methods. Each is proved equal to a
specification function, and the lemmas state what those functions mean.

| method | what it models | proved equal to |
|---|---|---|
| `CollectFigures` | the image loop inside the `try` | `PageFigures` |
| `RenderPage` | one pass of the page loop | `SectionHtml` |
| `RenderSections` | the page loop | `Sections` |
| `PdfToArticleHtml` | assembling the document | `Document` |

The code gives `title` a default of `"Converted PDF"`, modelled as
`DefaultTitle()`.

## Model

| member | source | states |
|---|---|---|
| Text.StripSpec | app.py:30 | `strip()` leaves a string that neither starts nor ends with whitespace, and that is empty exactly when the text is all whitespace |
| Text.StripIsSlice | app.py:30 | `strip()` leaves a contiguous slice of the text whose surroundings on both sides are all whitespace |
| Text.SplitLines | app.py:54 | `split("\n")` always yields at least one piece |
| Text.SplitLinesNoNewline | app.py:54 | no piece of `split("\n")` contains a newline |
| Text.SplitThenJoin | app.py:54 | joining the pieces of `split("\n")` with newlines gives back the text |
| Text.JoinThenSplit | app.py:59 | splitting the newline-join of one or more newline-free parts gives back exactly those parts |
| Text.NatToString | app.py:56 | `str(n)` is a non-empty string of decimal digits without a leading zero |
| Text.DecimalRoundTrip | app.py:56 | reading back the decimal form of a page number gives the number |
| Text.NatToStringInjective | app.py:56 | distinct page numbers have distinct decimal forms |
| HtmlEscape.ReplaceChar | app.py:50-52 | `replace(c, r)` leaves a text without `c` unchanged, and removes every `c` when `r` does not contain `c` |
| HtmlEscape.EscapeIsPerCharacter | app.py:49-52 | the three passes, `&` first, escape each character independently, so no entity is escaped twice |
| HtmlEscape.UnescapeEscape | app.py:49-52 | decoding `&lt;`, `&gt;` and `&amp;` in the escaped text gives back the original text |
| HtmlEscape.EscapeWellEscaped | app.py:49-52 | the escaped text has no raw `<` or `>`, and each of its `&` begins `&amp;`, `&lt;` or `&gt;` |
| HtmlEscape.EscapeUnescape | app.py:49-52 | every well-escaped string is the escape of its decoding, so the escaped texts are exactly the well-escaped strings |
| ParagraphSplit.ParagraphsShape | app.py:54 | every paragraph is non-empty, neither starts nor ends with whitespace, and holds no newline |
| ParagraphSplit.StrippedNonEmptyAppend | app.py:54 | filtering the stripped pieces distributes over concatenation, so paragraphs keep the order of their lines |
| ParagraphSplit.ParagraphPosition | app.py:54 | a whitespace-only line contributes nothing; a line with content becomes, stripped, the paragraph whose index is the number of content lines before it |
| ParagraphSplit.ParagraphCount | app.py:54 | there are exactly as many paragraphs as lines with content |
| ParagraphSplit.EscapeAllDecodes | app.py:49-54 | each escaped paragraph is well escaped and decodes back to its stripped line |
| ParagraphSplit.ParagraphsEscape | app.py:49-54 | splitting the escaped text gives the escapes of the paragraphs of the unescaped text |
| ParagraphSplit.ParagraphsStrip | app.py:30-54 | stripping the whole page text before splitting changes no paragraph |
| ParagraphSplit.PageParagraphs | app.py:30-54 | a page's paragraphs are its raw lines with content, stripped and escaped, in line order |
| ParagraphSplit.PageParagraphCount | app.py:30-54 | a page has one paragraph per raw line with content |
| ParagraphSplit.ParagraphsHtmlNoNewline | app.py:55 | the concatenated `<p>` elements of newline-free paragraphs contain no newline |
| DocumentShell.ShellDeterminesBody | app.py:60-81 | two documents with the same title are equal only if their article bodies are, so the body can be read back |
| DocumentShell.ShellEmpty | app.py:60-81 | with an empty article body the document is the fixed text before the body followed directly by the text after it |
| DocumentShell.ShellTitle | app.py:65-74 | the title appears verbatim, unescaped, inside `<title>` and inside `<h1>` |
| ArticleRender.FigureAttributes | app.py:42 | a figure embeds its payload verbatim right after the PNG data URL prefix and carries `alt="Page k image"` |
| ArticleRender.KeptCount | app.py:34-46 | the number of figures a page gets is the length of its leading run of encoded images, stopping at the first failure |
| ArticleRender.CollectFigures | app.py:33-46 | the image loop inside the `try` yields the figures of the images before the first failure, in image order |
| ArticleRender.FiguresAllEncoded | app.py:35-42 | when every image encodes, there is one figure per image, in image order, each naming its page |
| ArticleRender.FiguresStopAtFailure | app.py:34-46 | a failing image drops itself and every later image, and keeps the figures already collected |
| ArticleRender.SectionContents | app.py:49-56 | a section is its label, then the escaped paragraphs of the raw text, then the figures, then `</section>`, and each paragraph decodes to its stripped line |
| ArticleRender.SectionWithoutFigures | app.py:33-56 | a page with no images, or whose first image fails, gets its label, its paragraphs and `</section>` only |
| ArticleRender.SectionLabelsDistinct | app.py:56 | distinct page numbers give distinct section labels |
| ArticleRender.SectionDelimited | app.py:56 | every section starts with `<section aria-label='Page k'>` and ends with `</section>` |
| ArticleRender.SectionNoNewline | app.py:56 | with base64 payloads a section is a single line |
| ArticleRender.ArticleBodyLines | app.py:57-59 | for a document with pages, splitting the article body on newlines gives back the sections, one per page in page order |
| ArticleRender.RenderPage | app.py:30-56 | one pass of the page loop produces the section specified for that page |
| ArticleRender.RenderSections | app.py:26-57 | the page loop produces one section per page, in page order, numbered from 1 |
| ArticleRender.PdfToArticleHtml | app.py:22-82 | the converter returns the shell around the newline-joined sections |
| ArticleRender.EmptyDocument | app.py:59-81 | a PDF without pages gives an empty article body inside the complete shell |
| ArticleRender.TitleVerbatim | app.py:65-74 | the converted document contains `<title>` + title + `</title>` and `<h1>` + title + `</h1>`, the title unescaped |
| UploadFilter.LastIndexOf | app.py:20 | the last position of a character, or -1 exactly when it does not occur |
| UploadFilter.RSplitOnce | app.py:20 | `rsplit(".", 1)` gives two parts when there is a dot and one otherwise; the parts joined by the dot give the name back; the last part holds no dot |
| UploadFilter.AllowedFileIff | app.py:19-20 | a name is accepted exactly when it ends with a dot and three characters that lower-case to `pdf` |
| UploadFilter.AllowedFileCaseInsensitive | app.py:20 | lower-casing the name does not change the verdict |

## Left out

- The Flask routes (`index`, `convert`), the upload form, saving the upload and sending the response are not part of this model.
- `UPLOAD_FOLDER`, `MAX_CONTENT_LENGTH`, and deriving the title from the file name belong to that glue and are not modelled.
- PyMuPDF is not modelled. Opening the document, `get_text`, `get_images`, `Pixmap`, the conversion of CMYK and other images with five or more components to RGB, and PNG encoding all arrive through the `PageRecord` and `ImageOutcome` inputs. The model cannot fail to open a document.
- An exception raised by `get_images` itself has the same effect as a first image that fails: the page gets no figures. Such a page is modelled with one `Failed` outcome.
- `base64.b64encode` is not modelled; the payload is an opaque string.
- ArticleRender.SectionNoNewline and ArticleRender.ArticleBodyLines assume that every payload is in the base64 alphabet, as the output of `b64encode` is. Without that hypothesis a payload could contain a newline and split a section across lines.
- Releasing the pixmap (`pix = None`) has no observable effect on the output and is left out.
- UploadFilter.AllowedFile: only ASCII letters are lower-cased, where Python's `lower()` maps all of Unicode. The verdict is the same, because no character outside ASCII lower-cases to `p`, `d` or `f`.
- Strings are sequences of Unicode scalar values. A Python `str` may also hold lone surrogates, which the model cannot represent. The encoding of the HTTP response is not modelled.
