/**
 * Paragraph splitting in app.py: the escaped page text is split on newlines,
 * each piece is stripped, pieces left empty are dropped, and each survivor is
 * wrapped in a `<p>` element; the elements are concatenated with no separator.
 */
module ParagraphSplit {
  import opened Text
  import opened HtmlEscape

  /** What one piece contributes: its stripped form, unless that is empty. */
  function Kept(piece: string): seq<string>
  {
    if Strip(piece) == [] then [] else [Strip(piece)]
  }

  /** `[p.strip() for p in pieces if p.strip()]`. */
  function StrippedNonEmpty(pieces: seq<string>): seq<string>
  {
    if pieces == [] then [] else Kept(pieces[0]) + StrippedNonEmpty(pieces[1..])
  }

  /** What `strip()` leaves of a line with content: non-empty, and neither
      starting nor ending with whitespace. */
  predicate IsParagraphText(p: string)
  {
    p != [] && !IsWhitespace(p[0]) && !IsWhitespace(p[|p| - 1])
  }

  lemma SliceKeepsAbsent(x: string, k: nat, j: nat, c: char)
    requires k <= j <= |x| && c !in x
    ensures c !in x[k..j]
  {
    forall i | 0 <= i < j - k
      ensures x[k..j][i] != c
    {
      assert x[k..j][i] == x[k + i];
    }
  }

  /** Stripping never introduces a character. */
  lemma StripKeepsAbsent(x: string, c: char)
    requires c !in x
    ensures c !in Strip(x)
  {
    var t := TrimStart(x);
    TrimStartSpec(x);
    TrimEndSpec(t);
    SliceKeepsAbsent(x, |x| - |t|, |x|, c);
    var r := TrimEnd(t);
    SliceKeepsAbsent(t, 0, |r|, c);
  }

  lemma KeptParagraphText(x: string)
    ensures AllParagraphText(Kept(x))
  {
    StripSpec(x);
    if Strip(x) != [] {
      assert Kept(x) == [Strip(x)];
    }
  }

  lemma KeptNoNewline(x: string)
    requires '\n' !in x
    ensures NoNewlines(Kept(x))
  {
    if Strip(x) != [] {
      StripKeepsAbsent(x, '\n');
      assert Kept(x) == [Strip(x)];
    }
  }

  predicate AllParagraphText(ps: seq<string>)
  {
    forall i :: 0 <= i < |ps| ==> IsParagraphText(ps[i])
  }

  lemma AllParagraphTextAppend(h: seq<string>, t: seq<string>)
    requires AllParagraphText(h) && AllParagraphText(t)
    ensures AllParagraphText(h + t)
  {
    var ps := h + t;
    forall i | 0 <= i < |ps|
      ensures IsParagraphText(ps[i])
    {
      if i < |h| {
        assert ps[i] == h[i];
      } else {
        assert ps[i] == t[i - |h|];
      }
    }
  }

  /** Every paragraph is non-empty and neither starts nor ends with whitespace. */
  lemma {:induction false} StrippedNonEmptyParagraphText(pieces: seq<string>)
    ensures AllParagraphText(StrippedNonEmpty(pieces))
  {
    if pieces != [] {
      StrippedNonEmptyParagraphText(pieces[1..]);
      KeptParagraphText(pieces[0]);
      AllParagraphTextAppend(Kept(pieces[0]), StrippedNonEmpty(pieces[1..]));
    }
  }

  predicate NoNewlines(ps: seq<string>)
  {
    forall i :: 0 <= i < |ps| ==> '\n' !in ps[i]
  }

  lemma NoNewlinesAppend(h: seq<string>, t: seq<string>)
    requires NoNewlines(h) && NoNewlines(t)
    ensures NoNewlines(h + t)
  {
    var ps := h + t;
    forall i | 0 <= i < |ps|
      ensures '\n' !in ps[i]
    {
      if i < |h| {
        assert ps[i] == h[i];
      } else {
        assert ps[i] == t[i - |h|];
      }
    }
  }

  /** Pieces without newlines give paragraphs without newlines. */
  lemma {:induction false} StrippedNonEmptyNoNewline(pieces: seq<string>)
    requires NoNewlines(pieces)
    ensures NoNewlines(StrippedNonEmpty(pieces))
  {
    if pieces != [] {
      StrippedNonEmptyNoNewline(pieces[1..]);
      KeptNoNewline(pieces[0]);
      NoNewlinesAppend(Kept(pieces[0]), StrippedNonEmpty(pieces[1..]));
    }
  }

  /** The paragraphs of a (escaped) page text, in the order of its lines. */
  function Paragraphs(text: string): seq<string>
  {
    StrippedNonEmpty(SplitLines(text))
  }

  /** Paragraphs are non-empty and hold no newline. */
  lemma ParagraphsShape(text: string)
    ensures AllParagraphText(Paragraphs(text)) && NoNewlines(Paragraphs(text))
  {
    SplitLinesNoNewline(text);
    assert NoNewlines(SplitLines(text));
    StrippedNonEmptyParagraphText(SplitLines(text));
    StrippedNonEmptyNoNewline(SplitLines(text));
  }

  function ParagraphElement(p: string): string
  {
    "<p>" + p + "</p>"
  }

  /** `"".join(f"<p>{p}</p>" for p in paragraphs)`. */
  function ParagraphsHtml(paras: seq<string>): string
  {
    Join("", seq(|paras|, i requires 0 <= i < |paras| => ParagraphElement(paras[i])))
  }

  /** The escape of every line, in order. */
  function EscapeAll(lines: seq<string>): seq<string>
  {
    seq(|lines|, i requires 0 <= i < |lines| => Escape(lines[i]))
  }

  /** Each escaped line is well escaped and decodes back to its line. */
  lemma EscapeAllDecodes(lines: seq<string>)
    ensures |EscapeAll(lines)| == |lines|
    ensures forall i :: 0 <= i < |lines| ==>
              Unescape(EscapeAll(lines)[i]) == lines[i] && WellEscaped(EscapeAll(lines)[i])
  {
    forall i | 0 <= i < |lines|
      ensures Unescape(EscapeAll(lines)[i]) == lines[i] && WellEscaped(EscapeAll(lines)[i])
    {
      UnescapeEscape(lines[i]);
      EscapeWellEscaped(lines[i]);
    }
  }

  /** Filtering distributes over concatenation: paragraphs keep the order of the
      lines they come from. */
  lemma {:induction false} StrippedNonEmptyAppend(a: seq<string>, b: seq<string>)
    ensures StrippedNonEmpty(a + b) == StrippedNonEmpty(a) + StrippedNonEmpty(b)
  {
    if a != [] {
      var h := Kept(a[0]);
      assert (a + b)[0] == a[0];
      assert (a + b)[1..] == a[1..] + b;
      assert StrippedNonEmpty(a + b) == h + StrippedNonEmpty(a[1..] + b);
      StrippedNonEmptyAppend(a[1..], b);
      assert StrippedNonEmpty(a) == h + StrippedNonEmpty(a[1..]);
    } else {
      assert a + b == b;
    }
  }

  lemma StrippedNonEmptyAround(a: seq<string>, x: string, b: seq<string>)
    ensures StrippedNonEmpty(a + ([x] + b)) == StrippedNonEmpty(a) + (Kept(x) + StrippedNonEmpty(b))
  {
    StrippedNonEmptyAppend(a, [x] + b);
    assert ([x] + b)[0] == x && ([x] + b)[1..] == b;
  }

  /** A line with non-whitespace content becomes the paragraph whose position is
      the number of such lines before it; a whitespace-only line contributes nothing. */
  lemma ParagraphPosition(lines: seq<string>, i: nat)
    requires i < |lines|
    ensures AllWhitespace(lines[i]) ==>
              StrippedNonEmpty(lines) == StrippedNonEmpty(lines[..i]) + StrippedNonEmpty(lines[i + 1..])
    ensures !AllWhitespace(lines[i]) ==>
              var k := |StrippedNonEmpty(lines[..i])|;
              k < |StrippedNonEmpty(lines)| && StrippedNonEmpty(lines)[k] == Strip(lines[i])
  {
    var a, x, b := lines[..i], lines[i], lines[i + 1..];
    assert lines == a + ([x] + b);
    StrippedNonEmptyAround(a, x, b);
    StripSpec(x);
    assert StrippedNonEmpty(lines) == StrippedNonEmpty(a + ([x] + b));
    if AllWhitespace(x) {
      assert Kept(x) == [];
      assert Kept(x) + StrippedNonEmpty(b) == StrippedNonEmpty(b);
    } else {
      assert Kept(x) == [Strip(x)];
    }
  }

  // Escaping commutes with stripping.

  lemma {:induction false} TrimStartEscape(x: string)
    ensures TrimStart(EscapeEach(x)) == EscapeEach(TrimStart(x))
  {
    if x != [] {
      if IsWhitespace(x[0]) {
        var e := EscapeEach(x);
        assert e == [x[0]] + EscapeEach(x[1..]);
        assert e[1..] == EscapeEach(x[1..]);
        TrimStartEscape(x[1..]);
      } else {
        assert EscapeEach(x)[0] == EscapeChar(x[0])[0];
      }
    }
  }

  lemma EscapeEachLast(y: string, c: char)
    ensures EscapeEach(y + [c]) == EscapeEach(y) + EscapeChar(c)
  {
    EscapeEachAppend(y, [c]);
    assert [c][1..] == [];
  }

  lemma {:induction false} TrimEndEscape(x: string)
    ensures TrimEnd(EscapeEach(x)) == EscapeEach(TrimEnd(x))
    decreases |x|
  {
    if x != [] {
      var y, c := x[..|x| - 1], x[|x| - 1];
      assert x == y + [c];
      EscapeEachLast(y, c);
      var e := EscapeEach(x);
      if IsWhitespace(c) {
        assert e == EscapeEach(y) + [c];
        assert e[..|e| - 1] == EscapeEach(y);
        TrimEndEscape(y);
      } else {
        assert e[|e| - 1] == EscapeChar(c)[|EscapeChar(c)| - 1];
      }
    }
  }

  lemma StripEscape(x: string)
    ensures Strip(Escape(x)) == Escape(Strip(x))
  {
    EscapeIsPerCharacter(x);
    EscapeIsPerCharacter(Strip(x));
    TrimStartEscape(x);
    TrimEndEscape(TrimStart(x));
  }

  lemma {:induction false} EscapeEachEmpty(x: string)
    ensures EscapeEach(x) == [] <==> x == []
  {
  }

  lemma EscapeEmpty(x: string)
    ensures Escape(x) == [] <==> x == []
  {
    EscapeIsPerCharacter(x);
    EscapeEachEmpty(x);
  }

  // Escaping commutes with splitting into lines.

  lemma EscapeAllCons(x: string, rest: seq<string>)
    ensures EscapeAll([x] + rest) == [Escape(x)] + EscapeAll(rest)
  {
  }

  lemma EscapeAllTail(lines: seq<string>)
    requires lines != []
    ensures EscapeAll(lines) == [Escape(lines[0])] + EscapeAll(lines[1..])
  {
    assert lines == [lines[0]] + lines[1..];
    EscapeAllCons(lines[0], lines[1..]);
  }

  lemma EscapeCons(c: char, rest: string)
    ensures Escape([c] + rest) == EscapeChar(c) + Escape(rest)
  {
    EscapeAppend([c], rest);
    EscapeSingle(c);
  }

  lemma SplitLinesEscapeNewlineHead(rest: string)
    requires SplitLines(Escape(rest)) == EscapeAll(SplitLines(rest))
    ensures SplitLines(Escape("\n" + rest)) == EscapeAll(SplitLines("\n" + rest))
  {
    var s := SplitLines(rest);
    EscapeCons('\n', rest);
    assert EscapeChar('\n') == "\n";
    SplitLinesNewline(Escape(rest));
    SplitLinesNewline(rest);
    EscapeEmpty([]);
    EscapeAllCons([], s);
  }

  lemma SplitLinesEscapeOtherHead(c: char, rest: string)
    requires c != '\n'
    requires SplitLines(Escape(rest)) == EscapeAll(SplitLines(rest))
    ensures SplitLines(Escape([c] + rest)) == EscapeAll(SplitLines([c] + rest))
  {
    var s := SplitLines(rest);
    var first := [c] + s[0];
    calc {
      SplitLines(Escape([c] + rest));
      { EscapeCons(c, rest); }
      SplitLines(EscapeChar(c) + Escape(rest));
      { SplitLinesPrefix(EscapeChar(c), Escape(rest)); EscapeAllTail(s); }
      [EscapeChar(c) + Escape(s[0])] + EscapeAll(s[1..]);
      { EscapeCons(c, s[0]); }
      [Escape(first)] + EscapeAll(s[1..]);
      { EscapeAllCons(first, s[1..]); }
      EscapeAll([first] + s[1..]);
      { SplitLinesPrefix([c], rest); }
      EscapeAll(SplitLines([c] + rest));
    }
  }

  lemma {:induction false} SplitLinesEscape(t: string)
    ensures SplitLines(Escape(t)) == EscapeAll(SplitLines(t))
  {
    if t == [] {
      EscapeEmpty(t);
    } else {
      var c, rest := t[0], t[1..];
      assert t == [c] + rest;
      SplitLinesEscape(rest);
      if c == '\n' {
        SplitLinesEscapeNewlineHead(rest);
      } else {
        SplitLinesEscapeOtherHead(c, rest);
      }
    }
  }

  lemma StrippedNonEmptyCons(x: string, rest: seq<string>)
    ensures StrippedNonEmpty([x] + rest) == Kept(x) + StrippedNonEmpty(rest)
  {
    assert ([x] + rest)[0] == x && ([x] + rest)[1..] == rest;
  }

  lemma EscapeAllAppend(a: seq<string>, b: seq<string>)
    ensures EscapeAll(a + b) == EscapeAll(a) + EscapeAll(b)
  {
  }

  lemma KeptEscape(x: string)
    ensures Kept(Escape(x)) == EscapeAll(Kept(x))
  {
    StripEscape(x);
    EscapeEmpty(Strip(x));
    if Strip(x) != [] {
      EscapeAllCons(Strip(x), []);
    }
  }

  lemma {:induction false} StrippedNonEmptyEscape(lines: seq<string>)
    ensures StrippedNonEmpty(EscapeAll(lines)) == EscapeAll(StrippedNonEmpty(lines))
  {
    if lines != [] {
      var x, rest := lines[0], lines[1..];
      assert lines == [x] + rest;
      calc {
        StrippedNonEmpty(EscapeAll(lines));
        { EscapeAllTail(lines); }
        StrippedNonEmpty([Escape(x)] + EscapeAll(rest));
        { StrippedNonEmptyCons(Escape(x), EscapeAll(rest)); }
        Kept(Escape(x)) + StrippedNonEmpty(EscapeAll(rest));
        { KeptEscape(x); StrippedNonEmptyEscape(rest); }
        EscapeAll(Kept(x)) + EscapeAll(StrippedNonEmpty(rest));
        { EscapeAllAppend(Kept(x), StrippedNonEmpty(rest)); }
        EscapeAll(Kept(x) + StrippedNonEmpty(rest));
        { StrippedNonEmptyCons(x, rest); }
        EscapeAll(StrippedNonEmpty(lines));
      }
    }
  }

  /** The paragraphs of escaped text are the escapes of the paragraphs of the text. */
  lemma ParagraphsEscape(t: string)
    ensures Paragraphs(Escape(t)) == EscapeAll(Paragraphs(t))
  {
    SplitLinesEscape(t);
    StrippedNonEmptyEscape(SplitLines(t));
  }

  // Stripping the whole text first does not change the paragraphs.

  lemma KeptEmpty()
    ensures Kept([]) == []
  {
    assert AllWhitespace([]);
  }

  lemma StripWhitespaceCons(c: char, x: string)
    requires IsWhitespace(c)
    ensures Strip([c] + x) == Strip(x)
  {
    assert ([c] + x)[0] == c && ([c] + x)[1..] == x;
    assert TrimStart([c] + x) == TrimStart(x);
  }

  lemma ParagraphsNewlineCons(rest: string)
    ensures Paragraphs("\n" + rest) == Paragraphs(rest)
  {
    var s := SplitLines(rest);
    SplitLinesNewline(rest);
    StrippedNonEmptyCons([], s);
    KeptEmpty();
    assert [] + StrippedNonEmpty(s) == StrippedNonEmpty(s);
  }

  lemma KeptWhitespaceCons(c: char, x: string)
    requires IsWhitespace(c)
    ensures Kept([c] + x) == Kept(x)
  {
    StripWhitespaceCons(c, x);
  }

  lemma ParagraphsSpaceCons(c: char, rest: string)
    requires IsWhitespace(c) && c != '\n'
    ensures Paragraphs([c] + rest) == Paragraphs(rest)
  {
    var s := SplitLines(rest);
    var first := [c] + s[0];
    calc {
      Paragraphs([c] + rest);
      { SplitLinesPrefix([c], rest); }
      StrippedNonEmpty([first] + s[1..]);
      { StrippedNonEmptyCons(first, s[1..]); }
      Kept(first) + StrippedNonEmpty(s[1..]);
      { KeptWhitespaceCons(c, s[0]); }
      Kept(s[0]) + StrippedNonEmpty(s[1..]);
      { StrippedNonEmptyCons(s[0], s[1..]); assert s == [s[0]] + s[1..]; }
      StrippedNonEmpty(s);
    }
  }

  lemma {:induction false} ParagraphsTrimStart(t: string)
    ensures Paragraphs(TrimStart(t)) == Paragraphs(t)
  {
    if t != [] && IsWhitespace(t[0]) {
      var c, rest := t[0], t[1..];
      assert t == [c] + rest;
      ParagraphsTrimStart(rest);
      if c == '\n' {
        ParagraphsNewlineCons(rest);
      } else {
        ParagraphsSpaceCons(c, rest);
      }
    }
  }

  /** The pieces of `s + [c]` when `c` is not a newline: `c` joins the last piece. */
  function AppendToLast(pieces: seq<string>, c: char): seq<string>
    requires pieces != []
  {
    pieces[..|pieces| - 1] + [pieces[|pieces| - 1] + [c]]
  }

  lemma ConsAppendToLast(p: seq<string>, c: char)
    requires p != []
    ensures [[]] + AppendToLast(p, c) == AppendToLast([[]] + p, c)
  {
    var m := |p|;
    assert ([[]] + p)[..m] == [[]] + p[..m - 1];
  }

  lemma SplitLinesAppendNewlineHead(v: string, c: char)
    requires SplitLines(v + [c]) == if c == '\n' then SplitLines(v) + [[]] else AppendToLast(SplitLines(v), c)
    ensures SplitLines("\n" + v + [c]) == if c == '\n' then SplitLines("\n" + v) + [[]] else AppendToLast(SplitLines("\n" + v), c)
  {
    var sv := SplitLines(v);
    assert "\n" + v + [c] == "\n" + (v + [c]);
    SplitLinesNewline(v);
    SplitLinesNewline(v + [c]);
    if c != '\n' {
      ConsAppendToLast(sv, c);
    } else {
      assert [[]] + (sv + [[]]) == ([[]] + sv) + [[]];
    }
  }

  lemma PrependAppendEmpty(w: string, p: seq<string>)
    requires p != []
    ensures var q := p + [[]]; [w + q[0]] + q[1..] == ([w + p[0]] + p[1..]) + [[]]
  {
    var q := p + [[]];
    assert q[0] == p[0] && q[1..] == p[1..] + [[]];
  }

  lemma PrependAppendToLast(w: string, p: seq<string>, c: char)
    requires p != []
    ensures var q := AppendToLast(p, c); [w + q[0]] + q[1..] == AppendToLast([w + p[0]] + p[1..], c)
  {
    var q := AppendToLast(p, c);
    var m := |p|;
    var pp := [w + p[0]] + p[1..];
    if m == 1 {
      assert q == [p[0] + [c]];
      assert pp == [w + p[0]];
      assert (w + p[0]) + [c] == w + (p[0] + [c]);
    } else {
      assert q[0] == p[0] && q[1..] == p[1..m - 1] + [p[m - 1] + [c]];
      assert pp[..m - 1] == [w + p[0]] + p[1..m - 1];
      assert pp[m - 1] == p[m - 1];
    }
  }

  lemma SplitLinesAppendOtherHead(x: char, v: string, c: char)
    requires x != '\n'
    requires SplitLines(v + [c]) == if c == '\n' then SplitLines(v) + [[]] else AppendToLast(SplitLines(v), c)
    ensures SplitLines([x] + v + [c]) == if c == '\n' then SplitLines([x] + v) + [[]] else AppendToLast(SplitLines([x] + v), c)
  {
    assert [x] + v + [c] == [x] + (v + [c]);
    SplitLinesPrefix([x], v);
    SplitLinesPrefix([x], v + [c]);
    if c == '\n' {
      PrependAppendEmpty([x], SplitLines(v));
    } else {
      PrependAppendToLast([x], SplitLines(v), c);
    }
  }

  /** Appending one character to a text: a newline starts a new empty piece;
      any other character joins the last piece. */
  lemma {:induction false} SplitLinesAppendChar(u: string, c: char)
    ensures SplitLines(u + [c]) == if c == '\n' then SplitLines(u) + [[]] else AppendToLast(SplitLines(u), c)
  {
    if u == [] {
      assert u + [c] == [c];
      assert SplitLines([]) == [[]];
      if c == '\n' {
        SplitLinesNewline([]);
        assert "\n" + [] == [c];
      } else {
        SplitLinesPrefix([c], []);
        assert [c] + [] == [c];
        assert [] + [c] == [c];
      }
    } else {
      var x, v := u[0], u[1..];
      assert u == [x] + v;
      SplitLinesAppendChar(v, c);
      if x == '\n' {
        SplitLinesAppendNewlineHead(v, c);
      } else {
        SplitLinesAppendOtherHead(x, v, c);
      }
    }
  }

  lemma AllWhitespaceCons(l: string)
    requires l != []
    ensures AllWhitespace(l) <==> IsWhitespace(l[0]) && AllWhitespace(l[1..])
  {
    if IsWhitespace(l[0]) && AllWhitespace(l[1..]) {
      forall i | 0 <= i < |l|
        ensures IsWhitespace(l[i])
      {
        if i > 0 {
          assert l[i] == l[1..][i - 1];
        }
      }
    }
  }

  lemma {:induction false} TrimStartAppendWhitespace(l: string, c: char)
    requires IsWhitespace(c)
    ensures TrimStart(l + [c]) == if AllWhitespace(l) then [] else TrimStart(l) + [c]
  {
    if l == [] {
      assert [c][1..] == [];
      assert l + [c] == [c];
    } else {
      AllWhitespaceCons(l);
      assert (l + [c])[0] == l[0];
      if IsWhitespace(l[0]) {
        assert (l + [c])[1..] == l[1..] + [c];
        assert TrimStart(l + [c]) == TrimStart(l[1..] + [c]);
        TrimStartAppendWhitespace(l[1..], c);
      } else {
        assert TrimStart(l + [c]) == l + [c];
      }
    }
  }

  lemma StripAppendWhitespace(l: string, c: char)
    requires IsWhitespace(c)
    ensures Strip(l + [c]) == Strip(l)
  {
    TrimStartAppendWhitespace(l, c);
    if !AllWhitespace(l) {
      var t := TrimStart(l) + [c];
      assert t[..|t| - 1] == TrimStart(l);
    } else {
      TrimStartSpec(l);
      assert TrimStart(l) == [];
    }
  }

  lemma ParagraphsNewlineSnoc(u: string)
    ensures Paragraphs(u + "\n") == Paragraphs(u)
  {
    var s := SplitLines(u);
    SplitLinesAppendChar(u, '\n');
    StrippedNonEmptyAppend(s, [[]]);
    StrippedNonEmptyCons([], []);
    KeptEmpty();
    assert StrippedNonEmpty([]) == [];
    assert StrippedNonEmpty(s) + ([] + []) == StrippedNonEmpty(s);
  }

  lemma StrippedNonEmptyLastPiece(init: seq<string>, a: string, b: string)
    requires Kept(a) == Kept(b)
    ensures StrippedNonEmpty(init + [a]) == StrippedNonEmpty(init + [b])
  {
    StrippedNonEmptyAppend(init, [a]);
    StrippedNonEmptyAppend(init, [b]);
    StrippedNonEmptyCons(a, []);
    StrippedNonEmptyCons(b, []);
  }

  lemma ParagraphsSpaceSnoc(u: string, c: char)
    requires IsWhitespace(c) && c != '\n'
    ensures Paragraphs(u + [c]) == Paragraphs(u)
  {
    var s := SplitLines(u);
    SplitLinesAppendChar(u, c);
    var m := |s|;
    var init, last := s[..m - 1], s[m - 1];
    assert s == init + [last];
    assert SplitLines(u + [c]) == init + [last + [c]];
    StripAppendWhitespace(last, c);
    StrippedNonEmptyLastPiece(init, last + [c], last);
  }

  lemma {:induction false} ParagraphsTrimEnd(t: string)
    ensures Paragraphs(TrimEnd(t)) == Paragraphs(t)
    decreases |t|
  {
    if t != [] && IsWhitespace(t[|t| - 1]) {
      var u, c := t[..|t| - 1], t[|t| - 1];
      assert t == u + [c];
      assert TrimEnd(t) == TrimEnd(u);
      ParagraphsTrimEnd(u);
      if c == '\n' {
        ParagraphsNewlineSnoc(u);
      } else {
        ParagraphsSpaceSnoc(u, c);
      }
    }
  }

  /** Stripping the whole text before splitting changes no paragraph. */
  lemma ParagraphsStrip(t: string)
    ensures Paragraphs(Strip(t)) == Paragraphs(t)
  {
    ParagraphsTrimStart(t);
    ParagraphsTrimEnd(TrimStart(t));
  }

  /** What a page's paragraphs are: the raw text's lines that have non-whitespace
      content, stripped and escaped, in order. Each is well escaped and decodes
      back to its stripped line. */
  lemma PageParagraphs(raw: string)
    ensures Paragraphs(Escape(Strip(raw))) == EscapeAll(Paragraphs(raw))
  {
    ParagraphsEscape(Strip(raw));
    ParagraphsStrip(raw);
  }

  /** The number of lines holding a character other than whitespace. */
  function ContentLineCount(lines: seq<string>): nat
  {
    if lines == [] then 0 else (if AllWhitespace(lines[0]) then 0 else 1) + ContentLineCount(lines[1..])
  }

  /** There is one paragraph per line with content. */
  lemma {:induction false} ParagraphCount(lines: seq<string>)
    ensures |StrippedNonEmpty(lines)| == ContentLineCount(lines)
  {
    if lines != [] {
      StripSpec(lines[0]);
      ParagraphCount(lines[1..]);
    }
  }

  /** A page has as many paragraphs as its raw text has lines with content. */
  lemma PageParagraphCount(raw: string)
    ensures |Paragraphs(Escape(Strip(raw)))| == ContentLineCount(SplitLines(raw))
  {
    PageParagraphs(raw);
    ParagraphCount(SplitLines(raw));
  }

  /** The concatenated paragraph elements contain no newline. */
  lemma ParagraphsHtmlNoNewline(paras: seq<string>)
    requires NoNewlines(paras)
    ensures '\n' !in ParagraphsHtml(paras)
  {
    JoinExcludes("", seq(|paras|, i requires 0 <= i < |paras| => ParagraphElement(paras[i])), '\n');
  }
}
