/** Python's `html.escape(s)` (with its default `quote=True`): `&`, `<`,
    `>`, `"` and `'` become `&amp;`, `&lt;`, `&gt;`, `&quot;` and `&#x27;`. */
module HtmlEscape {
  import opened PyStr

  predicate IsSpecial(c: char)
  {
    c == '&' || c == '<' || c == '>' || c == '"' || c == '\''
  }

  function EscapeChar(c: char): string
  {
    if c == '&' then "&amp;"
    else if c == '<' then "&lt;"
    else if c == '>' then "&gt;"
    else if c == '"' then "&quot;"
    else if c == '\'' then "&#x27;"
    else [c]
  }

  /** `html.escape(s)`: each character is replaced by its escape. The result
      holds none of `<`, `>`, `"` and `'`, so it cannot end a tag, an
      attribute value or a quoted script argument. */
  function Escape(s: string): (r: string)
    ensures forall i :: 0 <= i < |r| ==> r[i] != '<' && r[i] != '>' && r[i] != '"' && r[i] != '\''
  {
    if s == [] then [] else EscapeChar(s[0]) + Escape(s[1..])
  }

  /** The five replacements CPython's `html.escape` performs, in its order. */
  function ReplaceChain(s: string): string
  {
    var s1 := ReplaceAll(s, "&", "&amp;");
    var s2 := ReplaceAll(s1, "<", "&lt;");
    var s3 := ReplaceAll(s2, ">", "&gt;");
    var s4 := ReplaceAll(s3, "\"", "&quot;");
    ReplaceAll(s4, "'", "&#x27;")
  }

  lemma ReplaceChainConcat(a: string, b: string)
    ensures ReplaceChain(a + b) == ReplaceChain(a) + ReplaceChain(b)
  {
    var a1, b1 := ReplaceAll(a, "&", "&amp;"), ReplaceAll(b, "&", "&amp;");
    ReplaceCharConcat(a, b, '&', "&amp;");
    var a2, b2 := ReplaceAll(a1, "<", "&lt;"), ReplaceAll(b1, "<", "&lt;");
    ReplaceCharConcat(a1, b1, '<', "&lt;");
    var a3, b3 := ReplaceAll(a2, ">", "&gt;"), ReplaceAll(b2, ">", "&gt;");
    ReplaceCharConcat(a2, b2, '>', "&gt;");
    var a4, b4 := ReplaceAll(a3, "\"", "&quot;"), ReplaceAll(b3, "\"", "&quot;");
    ReplaceCharConcat(a3, b3, '"', "&quot;");
    ReplaceCharConcat(a4, b4, '\'', "&#x27;");
  }

  /** A character that is not the target is kept. */
  lemma ReplaceOtherChar(c: char, d: char, replacement: string)
    requires c != d
    ensures ReplaceAll([c], [d], replacement) == [c]
  {
    assert [c][..1] == [c];
  }

  /** An escape produced by an earlier step holds none of the later targets. */
  lemma ReplaceNoTarget(s: string, d: char, replacement: string)
    requires d !in s
    ensures ReplaceAll(s, [d], replacement) == s
  {
    forall i | 0 <= i < |s|
      ensures !OccursAt(s, [d], i)
    {
      assert s[i..i + 1] == [s[i]];
    }
    ReplaceAbsent(s, [d], replacement);
  }

  lemma ReplaceChainChar(c: char)
    ensures ReplaceChain([c]) == EscapeChar(c)
  {
    var e := EscapeChar(c);
    if IsSpecial(c) {
      var t := [c];
      assert ReplaceAll(t, t, e) == e by {
        assert t[..1] == t && t[1..] == [];
      }
      if c == '&' {
        ReplaceNoTarget(e, '<', "&lt;");
        ReplaceNoTarget(e, '>', "&gt;");
        ReplaceNoTarget(e, '"', "&quot;");
        ReplaceNoTarget(e, '\'', "&#x27;");
      } else if c == '<' {
        ReplaceOtherChar(c, '&', "&amp;");
        ReplaceNoTarget(e, '>', "&gt;");
        ReplaceNoTarget(e, '"', "&quot;");
        ReplaceNoTarget(e, '\'', "&#x27;");
      } else if c == '>' {
        ReplaceOtherChar(c, '&', "&amp;");
        ReplaceOtherChar(c, '<', "&lt;");
        ReplaceNoTarget(e, '"', "&quot;");
        ReplaceNoTarget(e, '\'', "&#x27;");
      } else if c == '"' {
        ReplaceOtherChar(c, '&', "&amp;");
        ReplaceOtherChar(c, '<', "&lt;");
        ReplaceOtherChar(c, '>', "&gt;");
        ReplaceNoTarget(e, '\'', "&#x27;");
      } else {
        ReplaceOtherChar(c, '&', "&amp;");
        ReplaceOtherChar(c, '<', "&lt;");
        ReplaceOtherChar(c, '>', "&gt;");
        ReplaceOtherChar(c, '"', "&quot;");
      }
    } else {
      ReplaceOtherChar(c, '&', "&amp;");
      ReplaceOtherChar(c, '<', "&lt;");
      ReplaceOtherChar(c, '>', "&gt;");
      ReplaceOtherChar(c, '"', "&quot;");
      ReplaceOtherChar(c, '\'', "&#x27;");
    }
  }

  /** The per-character escape is exactly CPython's chain of replacements;
      replacing `&` first is what keeps the later escapes from being
      escaped again. */
  lemma {:induction false} EscapeIsReplaceChain(s: string)
    ensures Escape(s) == ReplaceChain(s)
  {
    if s != [] {
      EscapeIsReplaceChain(s[1..]);
      ReplaceChainConcat([s[0]], s[1..]);
      ReplaceChainChar(s[0]);
      assert s == [s[0]] + s[1..];
    }
  }

  /** Decoding of the five escapes (the inverse used to state what the
      escaped text means). */
  function Unescape(s: string): string
    decreases |s|
  {
    if s == [] then []
    else if StartsWith(s, "&amp;") then "&" + Unescape(s[5..])
    else if StartsWith(s, "&lt;") then "<" + Unescape(s[4..])
    else if StartsWith(s, "&gt;") then ">" + Unescape(s[4..])
    else if StartsWith(s, "&quot;") then "\"" + Unescape(s[6..])
    else if StartsWith(s, "&#x27;") then "'" + Unescape(s[6..])
    else [s[0]] + Unescape(s[1..])
  }

  /** A text that differs from `p` at some position does not start with `p`. */
  lemma DiffersAt(s: string, p: string, k: nat)
    requires k < |p| && (k >= |s| || s[k] != p[k])
    ensures !StartsWith(s, p)
  {
    if |p| <= |s| {
      assert s[..|p|][k] == s[k];
    }
  }

  lemma UnescapeChar(c: char, rest: string)
    ensures Unescape(EscapeChar(c) + rest) == [c] + Unescape(rest)
  {
    var e := EscapeChar(c);
    var s := e + rest;
    assert s[..|e|] == e && s[|e|..] == rest;
    assert StartsWith(s, e);
    if c == '&' {
    } else if c == '<' {
      DiffersAt(s, "&amp;", 1);
    } else if c == '>' {
      DiffersAt(s, "&amp;", 1);
      DiffersAt(s, "&lt;", 1);
    } else if c == '"' {
      DiffersAt(s, "&amp;", 1);
      DiffersAt(s, "&lt;", 1);
      DiffersAt(s, "&gt;", 1);
    } else if c == '\'' {
      DiffersAt(s, "&amp;", 1);
      DiffersAt(s, "&lt;", 1);
      DiffersAt(s, "&gt;", 1);
      DiffersAt(s, "&quot;", 1);
    } else {
      DiffersAt(s, "&amp;", 0);
      DiffersAt(s, "&lt;", 0);
      DiffersAt(s, "&gt;", 0);
      DiffersAt(s, "&quot;", 0);
      DiffersAt(s, "&#x27;", 0);
    }
  }

  /** Escaping loses nothing: the text is recovered from its escape. */
  lemma {:induction false} UnescapeEscape(s: string)
    ensures Unescape(Escape(s)) == s
  {
    if s != [] {
      UnescapeEscape(s[1..]);
      UnescapeChar(s[0], Escape(s[1..]));
      assert s == [s[0]] + s[1..];
    }
  }

  /** Escaping twice escapes the ampersands of the first escape. */
  lemma EscapeTwice()
    ensures Escape(Escape("&")) == "&amp;amp;"
  {
    assert Escape("&") == "&amp;";
    var e := "&amp;";
    assert Escape(e) == "&amp;" + Escape("amp;");
    assert Escape("amp;") == "amp;";
  }
}
