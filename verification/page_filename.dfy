/** The file names derived from a video title: the title (already in
    Unicode NFKD form) loses its non-ASCII characters, each run of
    whitespace becomes one `_`, the result is lower-cased, and `.htm` or
    `-transcript.txt` is appended. */
module PageFilename {
  import opened PyStr

  predicate IsAscii(c: char) { c as int < 128 }

  /** The ASCII characters the regular expression `\s` matches: tab, line
      feed, vertical tab, form feed, carriage return, the four separators
      0x1C-0x1F, and space. */
  predicate IsSpace(c: char)
  {
    ('\t' <= c <= '\r') || (0x1C <= c as int <= 0x1F) || c == ' '
  }

  predicate IsUpper(c: char) { 'A' <= c <= 'Z' }

  predicate AllAscii(s: string) { forall i :: 0 <= i < |s| ==> IsAscii(s[i]) }
  predicate NoSpace(s: string) { forall i :: 0 <= i < |s| ==> !IsSpace(s[i]) }
  predicate NoUpper(s: string) { forall i :: 0 <= i < |s| ==> !IsUpper(s[i]) }

  /** `s.encode('ASCII', 'ignore').decode('ASCII')`: the ASCII characters
      of `s`, in order. */
  function AsciiOnly(s: string): (r: string)
    ensures AllAscii(r)
    ensures |r| <= |s|
  {
    if s == [] then []
    else if IsAscii(s[0]) then [s[0]] + AsciiOnly(s[1..])
    else AsciiOnly(s[1..])
  }

  /** `re.sub(r'\s+', '_', s)`: a whitespace character is dropped when the
      next one is whitespace too and becomes `_` when it ends its run, so
      each maximal run gives exactly one `_`. */
  function CollapseWhitespace(s: string): string
  {
    if s == [] then []
    else if IsSpace(s[0]) then
      if |s| > 1 && IsSpace(s[1]) then CollapseWhitespace(s[1..])
      else "_" + CollapseWhitespace(s[1..])
    else [s[0]] + CollapseWhitespace(s[1..])
  }

  /** The collapsed text has no whitespace left, and stays ASCII and free
      of capitals when the input is. */
  lemma {:induction false} CollapseWhitespaceClean(s: string)
    ensures NoSpace(CollapseWhitespace(s))
    ensures AllAscii(s) ==> AllAscii(CollapseWhitespace(s))
    ensures NoUpper(s) ==> NoUpper(CollapseWhitespace(s))
  {
    if s != [] {
      CollapseWhitespaceClean(s[1..]);
    }
  }

  /** `str.lower()` on ASCII text: a capital becomes its small letter,
      every other character is kept. */
  function LowerChar(c: char): (d: char)
    ensures IsUpper(c) ==> 'a' <= d <= 'z' && d as int - 'a' as int == c as int - 'A' as int
    ensures !IsUpper(c) ==> d == c
  {
    if IsUpper(c) then (c as int + 32) as char else c
  }

  function Lower(s: string): (r: string)
    ensures |r| == |s|
    ensures NoUpper(r)
    ensures AllAscii(s) ==> AllAscii(r)
    ensures NoSpace(s) ==> NoSpace(r)
    ensures forall i :: 0 <= i < |s| ==> r[i] == LowerChar(s[i])
  {
    if s == [] then [] else [LowerChar(s[0])] + Lower(s[1..])
  }

  /** `ascii_title`: the normalised stem shared by both file names. */
  function Stem(nfkdTitle: string): string
  {
    Lower(CollapseWhitespace(AsciiOnly(nfkdTitle)))
  }

  /** `video.html_filename`. */
  function HtmlFilename(nfkdTitle: string): string
  {
    Stem(nfkdTitle) + ".htm"
  }

  /** `enhanced_file_name`. */
  function TranscriptFilename(nfkdTitle: string): string
  {
    Stem(nfkdTitle) + "-transcript.txt"
  }

  /** The stem is pure ASCII, has no whitespace and no upper-case letter;
      the page name ends in `.htm` and the transcript name is the same stem
      followed by `-transcript.txt`. */
  lemma FilenamesWellFormed(nfkdTitle: string)
    ensures var stem := Stem(nfkdTitle);
      && AllAscii(stem) && NoSpace(stem) && NoUpper(stem)
      && HtmlFilename(nfkdTitle) == stem + ".htm"
      && EndsWith(HtmlFilename(nfkdTitle), ".htm")
      && TranscriptFilename(nfkdTitle) == HtmlFilename(nfkdTitle)[..|stem|] + "-transcript.txt"
  {
    var stem := Stem(nfkdTitle);
    CollapseWhitespaceClean(AsciiOnly(nfkdTitle));
    EndsWithConcat(stem, ".htm");
    assert (stem + ".htm")[..|stem|] == stem;
  }

  /** Text without whitespace is left as it is. */
  lemma {:induction false} CollapseNoSpace(s: string)
    requires NoSpace(s)
    ensures CollapseWhitespace(s) == s
  {
    if s != [] {
      CollapseNoSpace(s[1..]);
    }
  }

  predicate AllSpace(s: string) { forall i :: 0 <= i < |s| ==> IsSpace(s[i]) }

  /** A run of whitespace alone becomes a single `_`. */
  lemma {:induction false} CollapseRunAlone(w: string)
    requires w != [] && AllSpace(w)
    ensures CollapseWhitespace(w) == "_"
  {
    if |w| > 1 {
      CollapseRunAlone(w[1..]);
    }
  }

  /** A character that is not whitespace is kept. */
  lemma CollapseKeep(c: char, t: string)
    requires !IsSpace(c)
    ensures CollapseWhitespace([c] + t) == [c] + CollapseWhitespace(t)
  {
    var s := [c] + t;
    assert s[0] == c && s[1..] == t;
  }

  /** A whitespace character followed by more whitespace is dropped. */
  lemma CollapseMerge(c: char, t: string)
    requires IsSpace(c) && t != [] && IsSpace(t[0])
    ensures CollapseWhitespace([c] + t) == CollapseWhitespace(t)
  {
    var s := [c] + t;
    assert s[0] == c && s[1..] == t && s[1] == t[0];
  }

  /** The last whitespace character of a run becomes `_`. */
  lemma CollapseEndRun(c: char, t: string)
    requires IsSpace(c) && (t == [] || !IsSpace(t[0]))
    ensures CollapseWhitespace([c] + t) == "_" + CollapseWhitespace(t)
  {
    var s := [c] + t;
    assert s[0] == c && s[1..] == t;
    assert |s| > 1 ==> s[1] == t[0];
  }

  /** A single character in front of text that does not continue its run. */
  lemma CollapseSingle(c: char, y: string)
    requires y != [] && (!IsSpace(c) || !IsSpace(y[0]))
    ensures CollapseWhitespace([c] + y) == CollapseWhitespace([c]) + CollapseWhitespace(y)
  {
    var one := [c];
    assert one[1..] == [];
    if IsSpace(c) {
      CollapseEndRun(c, y);
      assert CollapseWhitespace(one) == "_";
    } else {
      CollapseKeep(c, y);
      assert CollapseWhitespace(one) == one;
    }
  }

  /** Prepending a character that is kept. */
  lemma PrependKept(c: char, t: string, y: string)
    requires !IsSpace(c)
    requires CollapseWhitespace(t + y) == CollapseWhitespace(t) + CollapseWhitespace(y)
    ensures CollapseWhitespace([c] + (t + y)) == CollapseWhitespace([c] + t) + CollapseWhitespace(y)
  {
    var head, tail := CollapseWhitespace(t), CollapseWhitespace(y);
    calc {
      CollapseWhitespace([c] + (t + y));
    == { CollapseKeep(c, t + y); }
      [c] + (head + tail);
    ==
      ([c] + head) + tail;
    == { CollapseKeep(c, t); }
      CollapseWhitespace([c] + t) + tail;
    }
  }

  /** Prepending whitespace in front of more whitespace. */
  lemma PrependMerged(c: char, t: string, y: string)
    requires IsSpace(c) && t != [] && IsSpace(t[0])
    requires CollapseWhitespace(t + y) == CollapseWhitespace(t) + CollapseWhitespace(y)
    ensures CollapseWhitespace([c] + (t + y)) == CollapseWhitespace([c] + t) + CollapseWhitespace(y)
  {
    assert (t + y)[0] == t[0];
    CollapseMerge(c, t + y);
    CollapseMerge(c, t);
  }

  /** Prepending whitespace that ends its run. */
  lemma PrependEndsRun(c: char, t: string, y: string)
    requires IsSpace(c) && t != [] && !IsSpace(t[0])
    requires CollapseWhitespace(t + y) == CollapseWhitespace(t) + CollapseWhitespace(y)
    ensures CollapseWhitespace([c] + (t + y)) == CollapseWhitespace([c] + t) + CollapseWhitespace(y)
  {
    var head, tail := CollapseWhitespace(t), CollapseWhitespace(y);
    assert (t + y)[0] == t[0];
    calc {
      CollapseWhitespace([c] + (t + y));
    == { CollapseEndRun(c, t + y); }
      "_" + (head + tail);
    ==
      ("_" + head) + tail;
    == { CollapseEndRun(c, t); }
      CollapseWhitespace([c] + t) + tail;
    }
  }

  /** Collapsing works piecewise when the seam is not inside a run. */
  lemma {:induction false} CollapseConcat(x: string, y: string)
    requires x == [] || y == [] || !IsSpace(x[|x| - 1]) || !IsSpace(y[0])
    ensures CollapseWhitespace(x + y) == CollapseWhitespace(x) + CollapseWhitespace(y)
  {
    if x == [] {
      assert x + y == y;
    } else if y == [] {
      assert x + y == x;
    } else {
      var c, t := x[0], x[1..];
      assert x == [c] + t && x + y == [c] + (t + y);
      if t == [] {
        CollapseSingle(c, y);
      } else {
        assert t[|t| - 1] == x[|x| - 1];
        CollapseConcat(t, y);
        if !IsSpace(c) {
          PrependKept(c, t, y);
        } else if IsSpace(t[0]) {
          PrependMerged(c, t, y);
        } else {
          PrependEndsRun(c, t, y);
        }
      }
    }
  }

  /** Each maximal run of whitespace is replaced by exactly one `_`, and
      nothing else changes. */
  lemma CollapseRun(a: string, w: string, b: string)
    requires a == [] || !IsSpace(a[|a| - 1])
    requires w != [] && AllSpace(w)
    requires b == [] || !IsSpace(b[0])
    ensures CollapseWhitespace(a + w + b) == CollapseWhitespace(a) + "_" + CollapseWhitespace(b)
  {
    var aw := a + w;
    assert aw[|aw| - 1] == w[|w| - 1];
    CollapseConcat(aw, b);
    CollapseConcat(a, w);
    CollapseRunAlone(w);
  }

  /** ASCII text is kept as it is. */
  lemma {:induction false} AsciiOnlyOfAscii(s: string)
    requires AllAscii(s)
    ensures AsciiOnly(s) == s
  {
    if s != [] {
      AsciiOnlyOfAscii(s[1..]);
    }
  }

  /** A character is kept exactly when it is ASCII. */
  lemma AsciiOnlyChar(c: char)
    ensures AsciiOnly([c]) == if IsAscii(c) then [c] else []
  {
    assert [c][1..] == [];
  }

  /** Dropping non-ASCII characters works piece by piece, so the ASCII
      characters of the input are kept, in order. */
  lemma {:induction false} AsciiOnlyConcat(a: string, b: string)
    ensures AsciiOnly(a + b) == AsciiOnly(a) + AsciiOnly(b)
  {
    if a != [] {
      assert (a + b)[0] == a[0] && (a + b)[1..] == a[1..] + b;
      AsciiOnlyConcat(a[1..], b);
    } else {
      assert a + b == b;
    }
  }

  /** A non-ASCII character (such as the combining accent NFKD splits off
      `é`) leaves no trace in the name: the name is that of the title
      without it, so the base letter stays. */
  lemma StemDropsNonAscii(a: string, c: char, b: string)
    requires !IsAscii(c)
    ensures Stem(a + [c] + b) == Stem(a + b)
  {
    AsciiOnlyConcat(a + [c], b);
    AsciiOnlyConcat(a, [c]);
    AsciiOnlyChar(c);
    AsciiOnlyConcat(a, b);
    assert AsciiOnly(a) + [] == AsciiOnly(a);
    assert AsciiOnly(a + [c] + b) == AsciiOnly(a + b);
  }

  /** A title with no ASCII character at all gives an empty stem. */
  lemma {:induction false} AsciiOnlyOfNonAscii(s: string)
    requires forall i :: 0 <= i < |s| ==> !IsAscii(s[i])
    ensures AsciiOnly(s) == []
  {
    if s != [] {
      AsciiOnlyOfNonAscii(s[1..]);
    }
  }

  /** An ASCII character of the text survives the ASCII filter. */
  lemma {:induction false} AsciiOnlyKeeps(s: string, c: char)
    requires IsAscii(c) && c in s
    ensures c in AsciiOnly(s)
  {
    if s[0] != c {
      assert c in s[1..];
      AsciiOnlyKeeps(s[1..], c);
    }
  }

  /** A character that is not whitespace survives the collapse. */
  lemma {:induction false} CollapseKeeps(s: string, c: char)
    requires !IsSpace(c) && c in s
    ensures c in CollapseWhitespace(s)
  {
    if s[0] == c {
      CollapseKeep(c, s[1..]);
      assert s == [c] + s[1..];
    } else {
      assert c in s[1..];
      CollapseKeeps(s[1..], c);
      var tail := CollapseWhitespace(s[1..]);
      var j :| 0 <= j < |tail| && tail[j] == c;
      var r := CollapseWhitespace(s);
      assert r[|r| - |tail| + j] == c;
    }
  }

  /** A `/` in the title is kept in both file names: the title alone can
      put the page and the saved transcript in a subdirectory. */
  lemma SlashKeptInNames(nfkdTitle: string)
    requires '/' in nfkdTitle
    ensures '/' in HtmlFilename(nfkdTitle) && '/' in TranscriptFilename(nfkdTitle)
  {
    AsciiOnlyKeeps(nfkdTitle, '/');
    var collapsed := CollapseWhitespace(AsciiOnly(nfkdTitle));
    CollapseKeeps(AsciiOnly(nfkdTitle), '/');
    var i :| 0 <= i < |collapsed| && collapsed[i] == '/';
    var stem := Stem(nfkdTitle);
    assert stem[i] == '/';
    assert (stem + ".htm")[i] == '/';
    assert (stem + "-transcript.txt")[i] == '/';
  }

  /** Text without capitals is kept as it is. */
  lemma {:induction false} LowerOfLower(s: string)
    requires NoUpper(s)
    ensures Lower(s) == s
  {
    if s != [] {
      LowerOfLower(s[1..]);
    }
  }

  /** Normalising is idempotent: a stem normalises to itself, so the page
      of a title whose NFKD form is already a stem keeps that name. */
  lemma StemIdempotent(nfkdTitle: string)
    ensures Stem(Stem(nfkdTitle)) == Stem(nfkdTitle)
  {
    var stem := Stem(nfkdTitle);
    CollapseWhitespaceClean(AsciiOnly(nfkdTitle));
    AsciiOnlyOfAscii(stem);
    CollapseNoSpace(stem);
    LowerOfLower(stem);
  }
}
