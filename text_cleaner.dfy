/**
  The cleaner the relay applies to Tesseract's raw output
  (node/telegramClient.js:163-167):

    1. every character outside the kept class is deleted: the kept class is
       JavaScript's `\w` (ASCII letters, digits, `_`), JavaScript's `\s`, the
       punctuation `. , ? !`, the em dash U+2014 and the Cyrillic block
       U+0400..U+04FF;
    2. every maximal run of `\s` characters becomes one ordinary space;
    3. `trim()` removes leading and trailing white space.

  Characters are Unicode scalar values. The source's regular expression has no
  `u` flag and so works on UTF-16 code units; a character outside the Basic
  Multilingual Plane is two surrogate code units, neither of which is kept, so
  deleting the whole character gives the same string.
 */
module TextCleaner {
  import opened Common


  /** JavaScript's `\s` class, which is also the set `String.prototype.trim` removes. */
  predicate IsJsSpace(c: char) {
    || '\t' <= c <= '\r'            // tab, line feed, vertical tab, form feed, carriage return
    || c == ' '
    || c == '\U{00A0}' || c == '\U{1680}'
    || '\U{2000}' <= c <= '\U{200A}'
    || c == '\U{2028}' || c == '\U{2029}' || c == '\U{202F}' || c == '\U{205F}'
    || c == '\U{3000}' || c == '\U{FEFF}'
  }

  /** JavaScript's `\w` class (without the `u` and `i` flags). */
  predicate IsWordChar(c: char) {
    'A' <= c <= 'Z' || 'a' <= c <= 'z' || '0' <= c <= '9' || c == '_'
  }

  predicate IsCyrillic(c: char) {
    '\U{0400}' <= c <= '\U{04FF}'
  }

  /** The class `[\w\s.,?!—Ѐ-ӿ]` that the first replacement keeps. */
  predicate IsKept(c: char) {
    IsWordChar(c) || IsJsSpace(c) || c == '.' || c == ',' || c == '?' || c == '!'
    || c == '\U{2014}' || IsCyrillic(c)
  }

  /** A character the cleaned text may contain: a kept character that is not
      white space, or the single ordinary space. */
  predicate IsOutputChar(c: char) {
    (IsKept(c) && !IsJsSpace(c)) || c == ' '
  }

  /** Step 1: `replace(/[^\w\s.,?!—Ѐ-ӿ]/g, '')`. */
  function StripDisallowed(s: string): (r: string)
    ensures forall i :: 0 <= i < |r| ==> IsKept(r[i])
    ensures |r| <= |s|
    ensures |s| == 1 ==> r == (if IsKept(s[0]) then s else [])
    decreases |s|
  {
    if s == [] then []
    else (if IsKept(s[0]) then [s[0]] else []) + StripDisallowed(s[1..])
  }

  /** The replace works character by character: on a concatenation it is the
      concatenation of its results, so with the one-character case above it
      deletes exactly the characters outside the class and keeps the rest in
      place. */
  lemma {:induction false} StripAppend(a: string, b: string)
    ensures StripDisallowed(a + b) == StripDisallowed(a) + StripDisallowed(b)
    decreases |a|
  {
    if a == [] {
      assert a + b == b;
    } else {
      assert (a + b)[0] == a[0] && (a + b)[1..] == a[1..] + b;
      StripAppend(a[1..], b);
      var h := if IsKept(a[0]) then [a[0]] else [];
      ConcatAssoc(h, StripDisallowed(a[1..]), StripDisallowed(b));
    }
  }

  /** A disallowed character is deleted, not replaced: `a@b` becomes `ab`,
      and so one word. */
  lemma DisallowedDeleted()
    ensures StripDisallowed("a@b") == "ab"
  {
    assert IsKept('a') && !IsKept('@') && IsKept('b');
    assert "a@b" == "a@" + "b" && "a@" == "a" + "@";
    StripAppend("a@", "b");
    StripAppend("a", "@");
    assert StripDisallowed("@") == [];
  }

  /** The white space at the start of `s` removed; this is also `trimStart()`. */
  function SkipSpaces(s: string): (r: string)
    ensures |r| <= |s| && r == s[|s| - |r|..]
    ensures forall i :: 0 <= i < |s| - |r| ==> IsJsSpace(s[i])
    ensures r != [] ==> !IsJsSpace(r[0])
    decreases |s|
  {
    if s != [] && IsJsSpace(s[0]) then SkipSpaces(s[1..]) else s
  }

  /** Step 2: `replace(/\s+/g, ' ')`: never longer than its input, empty
      only for an empty input, and starting with the input's first character,
      or with a plain space where the input starts with white space. */
  function Collapse(s: string): (r: string)
    ensures |r| <= |s|
    ensures r == [] <==> s == []
    ensures s != [] && !IsJsSpace(s[0]) ==> r[0] == s[0]
    ensures s != [] && IsJsSpace(s[0]) ==> r[0] == ' '
    decreases |s|
  {
    if s == [] then []
    else if IsJsSpace(s[0]) then [' '] + Collapse(SkipSpaces(s[1..]))
    else [s[0]] + Collapse(s[1..])
  }

  /** The white space at the end of `s` removed: `trimEnd()`. */
  function TrimEnd(s: string): (r: string)
    ensures |r| <= |s| && r == s[..|r|]
    ensures forall i :: |r| <= i < |s| ==> IsJsSpace(s[i])
    ensures r != [] ==> !IsJsSpace(r[|r| - 1])
    decreases |s|
  {
    if s != [] && IsJsSpace(s[|s| - 1]) then TrimEnd(s[..|s| - 1]) else s
  }

  /** Step 3: `trim()`: no white space at either end, and every
      non-white-space character kept, in order. */
  function Trim(s: string): (r: string)
    ensures |r| <= |s|
    ensures r != [] ==> !IsJsSpace(r[0]) && !IsJsSpace(r[|r| - 1])
    ensures Glyphs(r) == Glyphs(s)
    ensures exists i :: TrimSlice(s, r, i)
  {
    var a := SkipSpaces(s);
    SkipSpacesGlyphs(s);
    TrimEndGlyphs(a);
    var r := TrimEnd(a);
    assert r != [] ==> r[0] == a[0];
    TrimSliceOf(s, a, r);
    r
  }

  /** `r` is `s[i..i + |r|]`, and everything of `s` around it is white space. */
  predicate TrimSlice(s: string, r: string, i: int) {
    && 0 <= i <= |s| - |r| && r == s[i..i + |r|]
    && (forall k :: 0 <= k < i ==> IsJsSpace(s[k]))
    && (forall k :: i + |r| <= k < |s| ==> IsJsSpace(s[k]))
  }

  /** White space dropped from the front of `s`, then from the back of what
      is left, leaves a slice of `s` with only white space around it. */
  lemma TrimSliceOf(s: string, a: string, r: string)
    requires |a| <= |s| && a == s[|s| - |a|..] && forall k :: 0 <= k < |s| - |a| ==> IsJsSpace(s[k])
    requires |r| <= |a| && r == a[..|r|] && forall k :: |r| <= k < |a| ==> IsJsSpace(a[k])
    ensures TrimSlice(s, r, |s| - |a|)
  {
    var i := |s| - |a|;
    forall k | i + |r| <= k < |s| ensures IsJsSpace(s[k]) {
      assert s[k] == a[k - i];
    }
  }

  /** The whole cleaner, steps 1 to 3 in the source's order: the words of the
      text left by step 1, joined by single plain spaces. */
  function Clean(raw: string): (r: string)
    ensures r == Join(Words(StripDisallowed(raw)), " ")
  {
    CleanJoinsWords(StripDisallowed(raw));
    Trim(Collapse(StripDisallowed(raw)))
  }

  // ---------------------------------------------------------------------------
  // The cleaner as a join of words

  /** A word: a non-empty run of characters none of which is white space. */
  predicate IsWord(w: string) {
    w != [] && forall i :: 0 <= i < |w| ==> !IsJsSpace(w[i])
  }

  /** The longest prefix of `s` with no white space. */
  function WordPrefix(s: string): (w: string)
    ensures |w| <= |s| && w == s[..|w|]
    ensures forall i :: 0 <= i < |w| ==> !IsJsSpace(w[i])
    ensures |w| < |s| ==> IsJsSpace(s[|w|])
    ensures s != [] && !IsJsSpace(s[0]) ==> w != []
    decreases |s|
  {
    if s == [] || IsJsSpace(s[0]) then [] else [s[0]] + WordPrefix(s[1..])
  }

  /** The words of `s`: its maximal runs of non-white-space characters, in order. */
  function Words(s: string): (ws: seq<string>)
    ensures forall k :: 0 <= k < |ws| ==> IsWord(ws[k])
    decreases |s|
  {
    var t := SkipSpaces(s);
    if t == [] then []
    else
      var w := WordPrefix(t);
      var ws := Words(t[|w|..]);
      ConsWords(w, ws);
      [w] + ws
  }

  lemma ConsWords(w: string, ws: seq<string>)
    requires IsWord(w) && forall k :: 0 <= k < |ws| ==> IsWord(ws[k])
    ensures forall k :: 0 <= k < |ws| + 1 ==> IsWord(([w] + ws)[k])
  {
    forall k | 0 <= k < |ws| + 1 ensures IsWord(([w] + ws)[k]) {
      if k > 0 {
        assert ([w] + ws)[k] == ws[k - 1];
      }
    }
  }

  /** Collapsing passes a word through unchanged. */
  lemma {:induction false} CollapseWord(w: string, rest: string)
    requires forall i :: 0 <= i < |w| ==> !IsJsSpace(w[i])
    ensures Collapse(w + rest) == w + Collapse(rest)
    decreases |w|
  {
    if w == [] {
      assert w + rest == rest;
    } else {
      assert (w + rest)[0] == w[0] && (w + rest)[1..] == w[1..] + rest;
      assert Collapse(w + rest) == [w[0]] + Collapse(w[1..] + rest);
      CollapseWord(w[1..], rest);
      ConcatAssoc([w[0]], w[1..], Collapse(rest));
      assert [w[0]] + w[1..] == w;
    }
  }

  /** Trimming the end of `a + b` only touches `b` when `b` has a non-space character. */
  lemma {:induction false} TrimEndAppend(a: string, b: string)
    requires TrimEnd(b) != []
    ensures TrimEnd(a + b) == a + TrimEnd(b)
    decreases |b|
  {
    var s := a + b;
    assert s[|s| - 1] == b[|b| - 1];
    if IsJsSpace(b[|b| - 1]) {
      assert s[..|s| - 1] == a + b[..|b| - 1];
      TrimEndAppend(a, b[..|b| - 1]);
    }
  }

  /** A word followed by at most one space trims to the word. */
  lemma TrimEndWord(w: string, tail: string)
    requires IsWord(w) && (tail == [] || tail == " ")
    ensures TrimEnd(w + tail) == w
  {
    var s := w + tail;
    if tail == " " {
      assert s[..|s| - 1] == w;
    } else {
      assert s == w;
    }
    assert !IsJsSpace(w[|w| - 1]);
  }

  /** Joining a word in front of a non-empty list of words. */
  lemma JoinCons(w: string, ws: seq<string>)
    requires ws != []
    ensures Join([w] + ws, " ") == w + " " + Join(ws, " ")
  {
    assert ([w] + ws)[1..] == ws;
  }

  /** For a text starting with a word, collapsing and trimming the end joins
      its words with single spaces. */
  lemma {:induction false} CollapseJoinsWords(t: string)
    requires t == [] || !IsJsSpace(t[0])
    ensures TrimEnd(Collapse(t)) == Join(Words(t), " ")
    decreases |t|
  {
    if t != [] {
      var w := WordPrefix(t);
      var rest := t[|w|..];
      assert t == w + rest;
      CollapseWord(w, rest);
      assert SkipSpaces(t) == t;
      assert Words(t) == [w] + Words(rest);
      if rest == [] {
        assert Collapse(t) == w + [];
        TrimEndWord(w, []);
      } else {
        var u := SkipSpaces(rest);
        assert SkipSpaces(rest[1..]) == u;
        assert Collapse(rest) == " " + Collapse(u);
        assert Words(rest) == Words(u) by {
          assert SkipSpaces(u) == u;
        }
        ConcatAssoc(w, " ", Collapse(u));
        if u == [] {
          assert " " + Collapse(u) == " ";
          TrimEndWord(w, " ");
        } else {
          CollapseJoinsWords(u);
          assert SkipSpaces(u) == u;
          assert Words(u) != [];
          var c := Collapse(u);
          assert TrimEnd(c) != [] by {
            assert c[0] == u[0];
          }
          TrimEndAppend(w + " ", c);
          JoinCons(w, Words(u));
        }
      }
    }
  }

  /** White space at the start disappears in the same way before or after collapsing. */
  lemma SkipSpacesCollapse(s: string)
    ensures SkipSpaces(Collapse(s)) == Collapse(SkipSpaces(s))
  {
    if s != [] && IsJsSpace(s[0]) {
      var u := SkipSpaces(s[1..]);
      assert SkipSpaces(s) == u;
      var c := Collapse(u);
      assert Collapse(s) == [' '] + c;
      SkipLeadingSpace(c);
    }
  }

  lemma SkipLeadingSpace(c: string)
    requires c == [] || !IsJsSpace(c[0])
    ensures SkipSpaces([' '] + c) == c
  {
    assert ([' '] + c)[1..] == c;
  }

  /** Leading white space does not change the words. */
  lemma WordsSkipSpaces(s: string)
    ensures Words(SkipSpaces(s)) == Words(s)
  {
    var u := SkipSpaces(s);
    assert SkipSpaces(u) == u;
  }

  /** Collapsing then trimming joins the words of the text with single spaces. */
  lemma CleanJoinsWords(s: string)
    ensures Trim(Collapse(s)) == Join(Words(s), " ")
  {
    SkipSpacesCollapse(s);
    WordsSkipSpaces(s);
    CollapseJoinsWords(SkipSpaces(s));
  }

  /** No white space next to white space. */
  predicate NoDoubleSpace(t: string) {
    forall i :: 0 <= i < |t| - 1 && IsJsSpace(t[i]) ==> !IsJsSpace(t[i + 1])
  }

  /** The shape of a cleaned text: only output characters, no space at either
      end, no two spaces in a row. */
  predicate IsClean(t: string) {
    && (forall i :: 0 <= i < |t| ==> IsOutputChar(t[i]))
    && (t != [] ==> !IsJsSpace(t[0]) && !IsJsSpace(t[|t| - 1]))
    && NoDoubleSpace(t)
  }

  /** The non-white-space characters of a string, in order. */
  function Glyphs(s: string): (r: string)
    decreases |s|
  {
    if s == [] then [] else (if IsJsSpace(s[0]) then [] else [s[0]]) + Glyphs(s[1..])
  }

  /** The characters of `raw` that survive cleaning: kept and not white space. */
  function KeptGlyphs(raw: string): string
    decreases |raw|
  {
    if raw == [] then []
    else (if IsKept(raw[0]) && !IsJsSpace(raw[0]) then [raw[0]] else []) + KeptGlyphs(raw[1..])
  }

  // ---------------------------------------------------------------------------
  // The shape of the output

  /** Collapsing a string of kept characters leaves only output characters. */
  lemma {:induction false} CollapseChars(s: string)
    requires forall i :: 0 <= i < |s| ==> IsKept(s[i])
    ensures forall i :: 0 <= i < |Collapse(s)| ==> IsOutputChar(Collapse(s)[i])
    decreases |s|
  {
    if s != [] {
      var tail := if IsJsSpace(s[0]) then SkipSpaces(s[1..]) else s[1..];
      assert forall i :: 0 <= i < |tail| ==> tail[i] == s[|s| - |tail| + i];
      CollapseChars(tail);
      var c := Collapse(tail);
      var head := if IsJsSpace(s[0]) then ' ' else s[0];
      assert Collapse(s) == [head] + c;
      forall i | 0 <= i < |Collapse(s)| ensures IsOutputChar(Collapse(s)[i]) {
        if i > 0 {
          assert Collapse(s)[i] == c[i - 1];
        }
      }
    }
  }

  /** Collapsing never leaves two spaces in a row. */
  lemma {:induction false} CollapseSingleSpaced(s: string)
    ensures NoDoubleSpace(Collapse(s))
    decreases |s|
  {
    if s != [] {
      var r := Collapse(s);
      var tail := if IsJsSpace(s[0]) then SkipSpaces(s[1..]) else s[1..];
      CollapseSingleSpaced(tail);
      var c := Collapse(tail);
      assert r == [r[0]] + c;
      if IsJsSpace(s[0]) && c != [] {
        assert tail != [] && !IsJsSpace(tail[0]);
        assert c[0] == tail[0];
      }
      forall i | 0 <= i < |r| - 1 && IsJsSpace(r[i]) ensures !IsJsSpace(r[i + 1]) {
        if i > 0 {
          assert r[i] == c[i - 1] && r[i + 1] == c[i];
        }
      }
    }
  }

  /** A slice of a string keeps its output characters and its single spacing. */
  lemma SliceKeepsShape(t: string, i: nat, j: nat)
    requires i <= j <= |t|
    requires forall k :: 0 <= k < |t| ==> IsOutputChar(t[k])
    requires NoDoubleSpace(t)
    ensures forall k :: 0 <= k < j - i ==> IsOutputChar(t[i..j][k])
    ensures NoDoubleSpace(t[i..j])
  {
    var u := t[i..j];
    forall k | 0 <= k < |u| ensures IsOutputChar(u[k]) {
      assert u[k] == t[i + k];
    }
    forall k | 0 <= k < |u| - 1 && IsJsSpace(u[k]) ensures !IsJsSpace(u[k + 1]) {
      assert u[k] == t[i + k] && u[k + 1] == t[i + k + 1];
    }
  }

  /** Trimming a single-spaced string of output characters gives a clean text. */
  lemma TrimShape(s: string)
    requires forall k :: 0 <= k < |s| ==> IsOutputChar(s[k])
    requires NoDoubleSpace(s)
    ensures IsClean(Trim(s))
  {
    var a := SkipSpaces(s);
    var r := TrimEnd(a);
    SliceKeepsShape(s, |s| - |a|, |s|);
    TrimmedEnds(a, r);
  }

  /** The part of `a` that `TrimEnd` keeps, when `a` starts with no space. */
  lemma TrimmedEnds(a: string, r: string)
    requires forall k :: 0 <= k < |a| ==> IsOutputChar(a[k])
    requires NoDoubleSpace(a)
    requires a != [] ==> !IsJsSpace(a[0])
    requires r == TrimEnd(a)
    ensures IsClean(r)
  {
    SliceKeepsShape(a, 0, |r|);
    assert r != [] ==> r[0] == a[0];
  }

  /** Every cleaned text has the shape `IsClean`: only output characters,
      trimmed, single-spaced. */
  lemma CleanIsClean(raw: string)
    ensures IsClean(Clean(raw))
  {
    var s1 := StripDisallowed(raw);
    CollapseChars(s1);
    CollapseSingleSpaced(s1);
    TrimShape(Collapse(s1));
  }

  // ---------------------------------------------------------------------------
  // A clean text is a fixed point, so the cleaner is idempotent

  lemma {:induction false} StripKeepsKept(t: string)
    requires forall i :: 0 <= i < |t| ==> IsKept(t[i])
    ensures StripDisallowed(t) == t
    decreases |t|
  {
    if t != [] {
      StripKeepsKept(t[1..]);
    }
  }

  lemma SliceKeepsSpacing(t: string, i: nat)
    requires i <= |t|
    requires NoDoubleSpace(t)
    ensures NoDoubleSpace(t[i..])
  {
    var u := t[i..];
    forall k | 0 <= k < |u| - 1 && IsJsSpace(u[k]) ensures !IsJsSpace(u[k + 1]) {
      assert u[k] == t[i + k] && u[k + 1] == t[i + k + 1];
    }
  }

  /** A string whose white space is single ordinary spaces is left alone by
      the collapse step. */
  lemma {:induction false} CollapseKeepsSingleSpaced(t: string)
    requires forall i :: 0 <= i < |t| ==> IsJsSpace(t[i]) ==> t[i] == ' '
    requires NoDoubleSpace(t)
    ensures Collapse(t) == t
    decreases |t|
  {
    if t != [] {
      var tail := t[1..];
      SliceKeepsSpacing(t, 1);
      assert forall i :: 0 <= i < |tail| ==> tail[i] == t[i + 1];
      CollapseKeepsSingleSpaced(tail);
      CollapseHead(t);
    }
  }

  /** Collapsing a text whose first character is a plain space not followed
      by white space, or is not white space, keeps that character. */
  lemma CollapseHead(t: string)
    requires t != [] && (IsJsSpace(t[0]) ==> t[0] == ' ')
    requires |t| > 1 && IsJsSpace(t[0]) ==> !IsJsSpace(t[1])
    ensures Collapse(t) == [t[0]] + Collapse(t[1..])
  {
    if IsJsSpace(t[0]) {
      assert SkipSpaces(t[1..]) == t[1..];
    }
  }

  /** A clean text is a fixed point of the cleaner. */
  lemma CleanKeepsClean(t: string)
    requires IsClean(t)
    ensures Clean(t) == t
  {
    StripKeepsKept(t);
    CollapseKeepsSingleSpaced(t);
    assert SkipSpaces(t) == t;
    assert TrimEnd(t) == t;
  }

  /** Cleaning twice is cleaning once. */
  lemma CleanIdempotent(raw: string)
    ensures Clean(Clean(raw)) == Clean(raw)
  {
    CleanIsClean(raw);
    CleanKeepsClean(Clean(raw));
  }

  // ---------------------------------------------------------------------------
  // What the cleaner keeps: exactly the kept non-space characters, in order

  lemma {:induction false} GlyphsAppend(a: string, b: string)
    ensures Glyphs(a + b) == Glyphs(a) + Glyphs(b)
    decreases |a|
  {
    if a == [] {
      assert a + b == b;
    } else {
      assert (a + b)[1..] == a[1..] + b;
      GlyphsAppend(a[1..], b);
    }
  }

  lemma {:induction false} GlyphsOfSpaces(s: string)
    requires forall i :: 0 <= i < |s| ==> IsJsSpace(s[i])
    ensures Glyphs(s) == []
    decreases |s|
  {
    if s != [] {
      GlyphsOfSpaces(s[1..]);
    }
  }

  lemma {:induction false} StripGlyphs(s: string)
    ensures Glyphs(StripDisallowed(s)) == KeptGlyphs(s)
    decreases |s|
  {
    if s != [] {
      var head := if IsKept(s[0]) then [s[0]] else [];
      GlyphsAppend(head, StripDisallowed(s[1..]));
      StripGlyphs(s[1..]);
    }
  }

  lemma {:induction false} CollapseGlyphs(s: string)
    ensures Glyphs(Collapse(s)) == Glyphs(s)
    decreases |s|
  {
    if s != [] {
      if IsJsSpace(s[0]) {
        var rest := SkipSpaces(s[1..]);
        var skipped := s[1..][..|s| - 1 - |rest|];
        assert s[1..] == skipped + rest;
        GlyphsOfSpaces(skipped);
        GlyphsAppend(skipped, rest);
        GlyphsAppend([' '], Collapse(rest));
        CollapseGlyphs(rest);
        assert Glyphs(s) == Glyphs(s[1..]);
      } else {
        GlyphsAppend([s[0]], Collapse(s[1..]));
        CollapseGlyphs(s[1..]);
      }
    }
  }

  lemma SkipSpacesGlyphs(s: string)
    ensures Glyphs(SkipSpaces(s)) == Glyphs(s)
  {
    var a := SkipSpaces(s);
    var lead := s[..|s| - |a|];
    assert s == lead + a;
    GlyphsOfSpaces(lead);
    GlyphsAppend(lead, a);
  }

  lemma TrimEndGlyphs(s: string)
    ensures Glyphs(TrimEnd(s)) == Glyphs(s)
  {
    var b := TrimEnd(s);
    var tail := s[|b|..];
    assert s == b + tail;
    GlyphsOfSpaces(tail);
    GlyphsAppend(b, tail);
  }

  /** Cleaning keeps every kept non-space character of the input, in order,
      and nothing else besides single spaces between them. */
  lemma CleanKeepsGlyphs(raw: string)
    ensures Glyphs(Clean(raw)) == KeptGlyphs(raw)
  {
    StripGlyphs(raw);
    CollapseGlyphs(StripDisallowed(raw));
    SkipSpacesGlyphs(Collapse(StripDisallowed(raw)));
    TrimEndGlyphs(SkipSpaces(Collapse(StripDisallowed(raw))));
  }

  /** The cleaned text is empty exactly when the raw text has no kept
      non-space character: the case in which the relay sends its
      "text not recognised" notice. */
  lemma CleanEmptyIff(raw: string)
    ensures Clean(raw) == [] <==> KeptGlyphs(raw) == []
  {
    CleanKeepsGlyphs(raw);
    CleanIsClean(raw);
    var t := Clean(raw);
    if t != [] {
      assert !IsJsSpace(t[0]);
      assert Glyphs(t) == [t[0]] + Glyphs(t[1..]);
    }
  }

  /** Digits, `_` and `!` belong to the kept class, so they survive cleaning. */
  lemma DigitsAndBangSurvive()
    ensures Clean("inv0ic3!!") == "inv0ic3!!"
  {
    CleanKeepsClean("inv0ic3!!");
  }
}
