/**
 * The escaping chain app.py applies to a page's text before it is split into
 * paragraphs: `&` becomes `&amp;`, then `<` becomes `&lt;`, then `>` becomes
 * `&gt;`, each as a separate `str.replace` pass over the whole text.
 */
module HtmlEscape {

  /** `s.replace(c, r)` for a one-character pattern `c`: every occurrence of `c`,
      left to right, is replaced by `r`. If `c` is absent nothing changes, and if
      `r` does not contain `c` no `c` is left. */
  function ReplaceChar(s: string, c: char, r: string): (t: string)
    ensures c !in s ==> t == s
    ensures c !in r ==> c !in t
  {
    if s == [] then [] else (if s[0] == c then r else [s[0]]) + ReplaceChar(s[1..], c, r)
  }

  /** The three replace passes, in the order the source runs them. */
  function Escape(text: string): string
  {
    ReplaceChar(ReplaceChar(ReplaceChar(text, '&', "&amp;"), '<', "&lt;"), '>', "&gt;")
  }

  /** The escape of a single character. */
  function EscapeChar(c: char): (e: string)
    ensures |e| >= 1
    ensures c != '&' && c != '<' && c != '>' ==> e == [c]
  {
    if c == '&' then "&amp;" else if c == '<' then "&lt;" else if c == '>' then "&gt;" else [c]
  }

  /** Reference definition: escape every character independently, in one pass. */
  function EscapeEach(s: string): string
  {
    if s == [] then [] else EscapeChar(s[0]) + EscapeEach(s[1..])
  }

  /** The reverse mapping, read left to right: `&lt;`, `&gt;` and `&amp;` become
      `<`, `>` and `&`; every other character stands for itself. */
  function Unescape(s: string): string
  {
    if s == [] then []
    else if |s| >= 4 && s[..4] == "&lt;" then "<" + Unescape(s[4..])
    else if |s| >= 4 && s[..4] == "&gt;" then ">" + Unescape(s[4..])
    else if |s| >= 5 && s[..5] == "&amp;" then "&" + Unescape(s[5..])
    else [s[0]] + Unescape(s[1..])
  }

  /** One of the three entities the escaping introduces starts at index `i`. */
  predicate EntityAt(s: string, i: nat)
    requires i <= |s|
  {
    var rest := s[i..];
    (|rest| >= 5 && rest[..5] == "&amp;") || (|rest| >= 4 && rest[..4] == "&lt;")
    || (|rest| >= 4 && rest[..4] == "&gt;")
  }

  /** No raw angle bracket, and every ampersand begins an entity. */
  predicate WellEscaped(s: string)
  {
    forall i :: 0 <= i < |s| ==> s[i] != '<' && s[i] != '>' && (s[i] == '&' ==> EntityAt(s, i))
  }

  lemma {:induction false} ReplaceCharAppend(a: string, b: string, c: char, r: string)
    ensures ReplaceChar(a + b, c, r) == ReplaceChar(a, c, r) + ReplaceChar(b, c, r)
  {
    if a != [] {
      var h := if a[0] == c then r else [a[0]];
      assert (a + b)[0] == a[0];
      assert (a + b)[1..] == a[1..] + b;
      assert ReplaceChar(a + b, c, r) == h + ReplaceChar(a[1..] + b, c, r);
      ReplaceCharAppend(a[1..], b, c, r);
      assert ReplaceChar(a, c, r) == h + ReplaceChar(a[1..], c, r);
    } else {
      assert a + b == b;
    }
  }

  lemma {:induction false} EscapeEachAppend(a: string, b: string)
    ensures EscapeEach(a + b) == EscapeEach(a) + EscapeEach(b)
  {
    if a != [] {
      assert (a + b)[0] == a[0];
      assert (a + b)[1..] == a[1..] + b;
      EscapeEachAppend(a[1..], b);
    } else {
      assert a + b == b;
    }
  }

  lemma {:induction false} EscapeAppend(a: string, b: string)
    ensures Escape(a + b) == Escape(a) + Escape(b)
  {
    var a1, b1 := ReplaceChar(a, '&', "&amp;"), ReplaceChar(b, '&', "&amp;");
    ReplaceCharAppend(a, b, '&', "&amp;");
    var a2, b2 := ReplaceChar(a1, '<', "&lt;"), ReplaceChar(b1, '<', "&lt;");
    ReplaceCharAppend(a1, b1, '<', "&lt;");
    ReplaceCharAppend(a2, b2, '>', "&gt;");
  }

  lemma ReplaceCharSingle(x: char, c: char, r: string)
    ensures ReplaceChar([x], c, r) == if x == c then r else [x]
  {
    assert [x][1..] == [];
  }

  lemma EscapeSingle(x: char)
    ensures Escape([x]) == EscapeChar(x)
  {
    ReplaceCharSingle(x, '&', "&amp;");
    if x == '&' {
      assert '<' !in "&amp;" && '>' !in "&amp;";
    } else {
      ReplaceCharSingle(x, '<', "&lt;");
      if x == '<' {
        assert '>' !in "&lt;";
      } else {
        ReplaceCharSingle(x, '>', "&gt;");
      }
    }
  }

  /** The three passes of the source escape each character independently. This
      holds because `&` is replaced first: the `&` that the later passes introduce
      is never escaped again. */
  lemma {:induction false} EscapeIsPerCharacter(text: string)
    ensures Escape(text) == EscapeEach(text)
  {
    if text != [] {
      assert text == [text[0]] + text[1..];
      EscapeAppend([text[0]], text[1..]);
      EscapeSingle(text[0]);
      EscapeIsPerCharacter(text[1..]);
    }
  }

  lemma UnescapeEntity(e: string, c: char, rest: string)
    requires (e == "&lt;" && c == '<') || (e == "&gt;" && c == '>') || (e == "&amp;" && c == '&')
    ensures Unescape(e + rest) == [c] + Unescape(rest)
  {
    var s := e + rest;
    assert s[..|e|] == e && s[|e|..] == rest;
    assert s[1] == e[1];
  }

  lemma UnescapeEscapedChar(c: char, rest: string)
    ensures Unescape(EscapeChar(c) + rest) == [c] + Unescape(rest)
  {
    if c == '<' || c == '>' || c == '&' {
      UnescapeEntity(EscapeChar(c), c, rest);
    } else {
      var s := [c] + rest;
      assert s[0] == c && s[1..] == rest;
    }
  }

  lemma {:induction false} UnescapeEscapeEach(text: string)
    ensures Unescape(EscapeEach(text)) == text
  {
    if text != [] {
      UnescapeEscapedChar(text[0], EscapeEach(text[1..]));
      UnescapeEscapeEach(text[1..]);
      assert text == [text[0]] + text[1..];
    }
  }

  /** Round trip: decoding the escaped text gives back the original text. */
  lemma UnescapeEscape(text: string)
    ensures Unescape(Escape(text)) == text
  {
    EscapeIsPerCharacter(text);
    UnescapeEscapeEach(text);
  }

  lemma WellEscapedAppend(a: string, b: string)
    requires WellEscaped(a) && WellEscaped(b)
    ensures WellEscaped(a + b)
  {
    var s := a + b;
    forall i | 0 <= i < |s| && s[i] == '&'
      ensures EntityAt(s, i)
    {
      if i < |a| {
        assert EntityAt(a, i);
        assert s[i..] == a[i..] + b;
      } else {
        assert b[i - |a|] == '&';
        assert EntityAt(b, i - |a|);
        assert s[i..] == b[i - |a|..];
      }
    }
  }

  lemma EscapedCharWellEscaped(c: char)
    ensures WellEscaped(EscapeChar(c))
  {
    if c == '&' {
      assert EntityAt("&amp;", 0);
    } else if c == '<' {
      assert EntityAt("&lt;", 0);
    } else if c == '>' {
      assert EntityAt("&gt;", 0);
    }
  }

  lemma {:induction false} EscapeEachWellEscaped(text: string)
    ensures WellEscaped(EscapeEach(text))
  {
    if text != [] {
      EscapedCharWellEscaped(text[0]);
      EscapeEachWellEscaped(text[1..]);
      WellEscapedAppend(EscapeChar(text[0]), EscapeEach(text[1..]));
    }
  }

  /** Escaped text holds no raw `<` or `>`, and each of its `&` begins one of
      `&amp;`, `&lt;` or `&gt;`. */
  lemma EscapeWellEscaped(text: string)
    ensures WellEscaped(Escape(text))
  {
    EscapeIsPerCharacter(text);
    EscapeEachWellEscaped(text);
  }

  lemma WellEscapedSuffix(s: string, k: nat)
    requires WellEscaped(s) && k <= |s|
    ensures WellEscaped(s[k..])
  {
    var t := s[k..];
    forall i | 0 <= i < |t| && t[i] == '&'
      ensures EntityAt(t, i)
    {
      assert s[k + i] == '&';
      assert EntityAt(s, k + i);
      assert t[i..] == s[k + i..];
    }
  }

  /** The length of the escape sequence a well-escaped string begins with. */
  function HeadLength(s: string): (n: nat)
    requires s != []
    ensures 1 <= n <= |s|
  {
    if |s| >= 4 && s[..4] == "&lt;" then 4
    else if |s| >= 4 && s[..4] == "&gt;" then 4
    else if |s| >= 5 && s[..5] == "&amp;" then 5
    else 1
  }

  lemma EscapeEachCons(c: char, rest: string)
    ensures EscapeEach([c] + rest) == EscapeChar(c) + EscapeEach(rest)
  {
    assert ([c] + rest)[0] == c && ([c] + rest)[1..] == rest;
  }

  lemma UnescapeHead(s: string)
    requires s != [] && WellEscaped(s)
    ensures var n := HeadLength(s);
            Unescape(s) == [Unescape(s)[0]] + Unescape(s[n..]) && EscapeChar(Unescape(s)[0]) == s[..n]
  {
    assert s[0..] == s;
    assert s[0] == '&' ==> EntityAt(s, 0);
  }

  lemma {:induction false} EscapeEachUnescape(s: string)
    requires WellEscaped(s)
    ensures EscapeEach(Unescape(s)) == s
    decreases |s|
  {
    if s != [] {
      var n := HeadLength(s);
      var c := Unescape(s)[0];
      calc {
        EscapeEach(Unescape(s));
        { UnescapeHead(s); }
        EscapeEach([c] + Unescape(s[n..]));
        { EscapeEachCons(c, Unescape(s[n..])); }
        EscapeChar(c) + EscapeEach(Unescape(s[n..]));
        { UnescapeHead(s); WellEscapedSuffix(s, n); EscapeEachUnescape(s[n..]); }
        s[..n] + s[n..];
      }
      assert s == s[..n] + s[n..];
    }
  }

  /** The converse of the round trip: every well-escaped string is the escape of
      its decoding, so the well-escaped strings are exactly the escaped texts. */
  lemma EscapeUnescape(s: string)
    requires WellEscaped(s)
    ensures Escape(Unescape(s)) == s
  {
    EscapeIsPerCharacter(Unescape(s));
    EscapeEachUnescape(s);
  }
}
