/**
  `_safe_stem` of the OCR service (python/test_ocr.py:306-309, the same code
  as python/WK.py:26-29): the stem of an uploaded file name, made safe for the
  name of the PNG the service saves. It takes the base name of the upload's
  name, or "upload" for an empty name; drops the base name's last extension;
  replaces every maximal run of characters outside A-Za-z0-9._- by one `_`;
  and falls back to "upload" when nothing is left.

  The base name is the POSIX one: the part after the last "/". The extension
  follows pathlib up to Python 3.13: "" and "." have the empty name, and the last "." of a name
  starts its extension unless it is the first or the last character of the
  name.
 */
module SafeStem {
  import opened Common

  const Fallback: string := "upload"

  predicate IsSafeChar(c: char) {
    'A' <= c <= 'Z' || 'a' <= c <= 'z' || '0' <= c <= '9' || c == '.' || c == '_' || c == '-'
  }

  /** The index of the last occurrence of `c` in `s`, or -1 (`str.rfind`). */
  function LastIndexOf(s: string, c: char): (i: int)
    ensures -1 <= i < |s|
    ensures i >= 0 ==> s[i] == c
    ensures forall k :: i < k < |s| ==> s[k] != c
  {
    LastIndexBelow(s, c, |s|)
  }

  /** The index of the last `c` among the first `n` characters of `s`, or -1. */
  function LastIndexBelow(s: string, c: char, n: nat): (i: int)
    requires n <= |s|
    ensures -1 <= i < n
    ensures i >= 0 ==> s[i] == c
    ensures forall k :: i < k < n ==> s[k] != c
    decreases n
  {
    if n == 0 then -1
    else if s[n - 1] == c then n - 1
    else LastIndexBelow(s, c, n - 1)
  }

  /** `os.path.basename`: the part of the path after its last "/". */
  function Basename(path: string): (r: string)
    ensures forall k :: 0 <= k < |r| ==> r[k] != '/'
    ensures |r| <= |path| && r == path[|path| - |r|..]
    ensures |r| < |path| ==> path[|path| - |r| - 1] == '/'
  {
    path[LastIndexOf(path, '/') + 1..]
  }

  /** `Path(base).stem` for a base with no "/": the base without its last
      extension, which is dropped only when its "." is neither the first nor
      the last character. */
  function Stem(base: string): (r: string)
    ensures base == "." ==> r == []
    ensures base != "." ==> |r| <= |base| && r == base[..|r|]
    ensures base != "." && |r| < |base| ==>
      && 0 < |r| < |base| - 1 && base[|r|] == '.'
      && forall k :: |r| < k < |base| ==> base[k] != '.'
    ensures base != "." && |r| == |base| ==> !(0 < LastIndexOf(base, '.') < |base| - 1)
  {
    var name := if base == "." then "" else base;
    var i := LastIndexOf(name, '.');
    if 0 < i < |name| - 1 then name[..i] else name
  }

  /** The unsafe characters at the start of `s` removed. */
  function SkipUnsafe(s: string): (r: string)
    ensures |r| <= |s| && r == s[|s| - |r|..]
    ensures forall k :: 0 <= k < |s| - |r| ==> !IsSafeChar(s[k])
    ensures r != [] ==> IsSafeChar(r[0])
    decreases |s|
  {
    if s != [] && !IsSafeChar(s[0]) then SkipUnsafe(s[1..]) else s
  }

  /** `re.sub(r'[^A-Za-z0-9._-]+', '_', s)`. */
  function Sanitize(s: string): (r: string)
    ensures forall k :: 0 <= k < |r| ==> IsSafeChar(r[k])
    ensures |r| <= |s|
    ensures r == [] <==> s == []
    decreases |s|
  {
    if s == [] then []
    else if IsSafeChar(s[0]) then [s[0]] + Sanitize(s[1..])
    else "_" + Sanitize(SkipUnsafe(s[1..]))
  }

  /** `_safe_stem(name)`. */
  function SafeStemOf(name: string): (r: string)
    ensures |r| >= 1
    ensures forall k :: 0 <= k < |r| ==> IsSafeChar(r[k])
    ensures name == [] ==> r == Fallback
  {
    var base := if name != [] then Basename(name) else Fallback;
    FallbackIsItsOwnStem();
    var s := Sanitize(Stem(base));
    if s != [] then s else Fallback
  }

  /** "upload" has no extension and nothing to sanitise. */
  lemma FallbackIsItsOwnStem()
    ensures Sanitize(Stem(Fallback)) == Fallback
  {
    assert forall k :: 0 <= k < |Fallback| ==> Fallback[k] != '.' && IsSafeChar(Fallback[k]);
    assert Stem(Fallback) == Fallback;
    SanitizeKeepsSafe(Fallback);
  }

  /** A missing name and the name "upload" give the same stem. */
  lemma FallbackIsSafe()
    ensures SafeStemOf(Fallback) == Fallback == SafeStemOf([])
  {
    assert forall k :: 0 <= k < |Fallback| ==> Fallback[k] != '/';
    FallbackIsItsOwnStem();
    PlainSafeStem(Fallback);
  }

  /** A name with no "/" whose stem sanitises to itself is its own safe stem. */
  lemma PlainSafeStem(name: string)
    requires name != [] && '/' !in name && Sanitize(Stem(name)) == name
    ensures SafeStemOf(name) == name
  {
    BasenameOfPlain(name);
  }

  // ---------------------------------------------------------------------------

  /** A string of safe characters is left as it is... */
  lemma {:induction false} SanitizeKeepsSafe(s: string)
    requires forall k :: 0 <= k < |s| ==> IsSafeChar(s[k])
    ensures Sanitize(s) == s
    decreases |s|
  {
    if s != [] {
      SanitizeKeepsSafe(s[1..]);
    }
  }

  /** ... so sanitising twice is sanitising once. */
  lemma SanitizeIdempotent(s: string)
    ensures Sanitize(Sanitize(s)) == Sanitize(s)
  {
    SanitizeKeepsSafe(Sanitize(s));
  }

  /** The safe characters of `s` other than "_", in order. */
  function Marks(s: string): string
    decreases |s|
  {
    if s == [] then [] else (if IsSafeChar(s[0]) && s[0] != '_' then [s[0]] else []) + Marks(s[1..])
  }

  lemma {:induction false} MarksOfUnsafe(s: string)
    requires forall k :: 0 <= k < |s| ==> !IsSafeChar(s[k])
    ensures Marks(s) == []
    decreases |s|
  {
    if s != [] {
      MarksOfUnsafe(s[1..]);
    }
  }

  lemma {:induction false} MarksAppend(a: string, b: string)
    ensures Marks(a + b) == Marks(a) + Marks(b)
    decreases |a|
  {
    if a == [] {
      assert a + b == b;
    } else {
      assert (a + b)[1..] == a[1..] + b;
      MarksAppend(a[1..], b);
    }
  }

  /** Sanitising replaces only unsafe characters: every safe character other
      than "_" survives, in order, and only "_" is added. */
  lemma {:induction false} SanitizeKeepsMarks(s: string)
    ensures Marks(Sanitize(s)) == Marks(s)
    decreases |s|
  {
    if s != [] {
      if IsSafeChar(s[0]) {
        MarksAppend([s[0]], Sanitize(s[1..]));
        SanitizeKeepsMarks(s[1..]);
      } else {
        var rest := SkipUnsafe(s[1..]);
        var skipped := s[1..][..|s| - 1 - |rest|];
        assert s[1..] == skipped + rest;
        MarksOfUnsafe(skipped);
        MarksAppend(skipped, rest);
        MarksAppend("_", Sanitize(rest));
        SanitizeKeepsMarks(rest);
      }
    }
  }

  /** A run of unsafe characters, however long, becomes one "_". */
  lemma UnsafeRunIsOneUnderscore(run: string, rest: string)
    requires run != [] && forall k :: 0 <= k < |run| ==> !IsSafeChar(run[k])
    requires rest == [] || IsSafeChar(rest[0])
    ensures Sanitize(run + rest) == "_" + Sanitize(rest)
  {
    var s := run + rest;
    assert s[1..] == run[1..] + rest;
    SkipUnsafeRun(run[1..], rest);
  }

  lemma {:induction false} SkipUnsafeRun(run: string, rest: string)
    requires forall k :: 0 <= k < |run| ==> !IsSafeChar(run[k])
    requires rest == [] || IsSafeChar(rest[0])
    ensures SkipUnsafe(run + rest) == rest
    decreases |run|
  {
    if run == [] {
      assert run + rest == rest;
    } else {
      assert (run + rest)[1..] == run[1..] + rest;
      SkipUnsafeRun(run[1..], rest);
    }
  }

  /** Sanitising works run by run: a text cut after a safe character is
      sanitised as its two parts, so an unsafe run anywhere becomes one "_"
      and the safe characters around it are kept. */
  lemma {:induction false} SanitizeAppend(a: string, t: string)
    requires a != [] && IsSafeChar(a[|a| - 1])
    ensures Sanitize(a + t) == Sanitize(a) + Sanitize(t)
    decreases |a|
  {
    if IsSafeChar(a[0]) {
      SanitizeSafeHead(a, t);
      if |a| > 1 {
        SanitizeAppend(a[1..], t);
        ConcatAssoc([a[0]], Sanitize(a[1..]), Sanitize(t));
      } else {
        assert [a[0]] + Sanitize(a[1..]) == [a[0]];
      }
    } else {
      var y := SkipUnsafe(a[1..]);
      SanitizeUnsafeHead(a, t);
      assert y != [] && IsSafeChar(y[|y| - 1]) && |y| < |a|;
      SanitizeAppend(y, t);
      ConcatAssoc("_", Sanitize(y), Sanitize(t));
    }
  }

  /** A run of unsafe characters between safe ones, anywhere in the text,
      becomes one "_". */
  lemma UnsafeRunAnywhere(a: string, run: string, b: string)
    requires a != [] && IsSafeChar(a[|a| - 1])
    requires run != [] && forall k :: 0 <= k < |run| ==> !IsSafeChar(run[k])
    requires b == [] || IsSafeChar(b[0])
    ensures Sanitize(a + run + b) == Sanitize(a) + "_" + Sanitize(b)
  {
    assert a + run + b == a + (run + b);
    SanitizeAppend(a, run + b);
    UnsafeRunIsOneUnderscore(run, b);
    ConcatAssoc(Sanitize(a), "_", Sanitize(b));
  }

  lemma SanitizeSafeHead(a: string, t: string)
    requires a != [] && IsSafeChar(a[0])
    ensures Sanitize(a + t) == [a[0]] + Sanitize(a[1..] + t)
    ensures Sanitize(a) == [a[0]] + Sanitize(a[1..])
    ensures |a| == 1 ==> a[1..] + t == t && Sanitize(a[1..]) == []
  {
    assert (a + t)[0] == a[0] && (a + t)[1..] == a[1..] + t;
  }

  lemma SanitizeUnsafeHead(a: string, t: string)
    requires a != [] && !IsSafeChar(a[0]) && IsSafeChar(a[|a| - 1])
    ensures var y := SkipUnsafe(a[1..]);
      && y != [] && IsSafeChar(y[|y| - 1]) && |y| < |a|
      && Sanitize(a + t) == "_" + Sanitize(y + t)
      && Sanitize(a) == "_" + Sanitize(y)
  {
    assert (a + t)[0] == a[0] && (a + t)[1..] == a[1..] + t;
    var x := a[1..];
    assert x != [] && x[|x| - 1] == a[|a| - 1];
    SkipUnsafeAppend(x, t);
  }

  /** Skipping unsafe characters stops inside a text that ends in a safe one. */
  lemma {:induction false} SkipUnsafeAppend(x: string, t: string)
    requires x != [] && IsSafeChar(x[|x| - 1])
    ensures SkipUnsafe(x + t) == SkipUnsafe(x) + t
    decreases |x|
  {
    if !IsSafeChar(x[0]) {
      assert (x + t)[1..] == x[1..] + t;
      SkipUnsafeAppend(x[1..], t);
    }
  }

  /** The directory part of the name is dropped. */
  lemma DirectoryDropped(dir: string, file: string)
    requires '/' !in file
    ensures SafeStemOf(dir + "/" + file) == SafeStemOf(file)
  {
    BasenameAfterSlash(dir, file);
    if file != [] {
      LastSlashAbsent(file);
      assert Basename(file) == file;
    }
  }

  lemma BasenameAfterSlash(dir: string, file: string)
    requires '/' !in file
    ensures Basename(dir + "/" + file) == file
  {
    var path := dir + "/" + file;
    assert path == dir + ['/'] + file;
    LastSeparator(dir, '/', file);
    assert path[|dir| + 1..] == file;
  }

  lemma LastSlashAbsent(s: string)
    requires '/' !in s
    ensures LastIndexOf(s, '/') == -1
  {
  }

  /** The last extension is dropped: `report.final.pdf` gives `report.final`. */
  lemma LastExtensionDropped(stem: string, ext: string)
    requires stem != [] && ext != []
    requires '/' !in stem && '/' !in ext && '.' !in ext
    ensures SafeStemOf(stem + "." + ext) == Sanitize(stem)
  {
    var name := stem + "." + ext;
    NoSlashInDotted(stem, ext);
    BasenameOfPlain(name);
    StemOfDotted(stem, ext);
  }

  lemma NoSlashInDotted(stem: string, ext: string)
    requires '/' !in stem && '/' !in ext
    ensures '/' !in stem + "." + ext
  {
  }

  lemma BasenameOfPlain(name: string)
    requires '/' !in name
    ensures Basename(name) == name
  {
    LastSlashAbsent(name);
  }

  lemma StemOfDotted(stem: string, ext: string)
    requires stem != [] && ext != [] && '.' !in ext
    ensures Stem(stem + "." + ext) == stem
  {
    var name := stem + "." + ext;
    LastSeparator(stem, '.', ext);
    assert name[..|stem|] == stem;
  }

  /** In `a + [sep] + b` with no `sep` in `b`, the last `sep` is the one between. */
  lemma LastSeparator(a: string, sep: char, b: string)
    requires sep !in b
    ensures LastIndexOf(a + [sep] + b, sep) == |a|
  {
    var s := a + [sep] + b;
    assert s[|a|] == sep;
  }

  /** A name with nothing safe in its stem, such as "???.png", becomes "_",
      not "upload": only an empty stem falls back. */
  lemma UnsafeStemBecomesUnderscore(stem: string, ext: string)
    requires stem != [] && '/' !in stem && forall k :: 0 <= k < |stem| ==> !IsSafeChar(stem[k])
    requires ext != [] && '/' !in ext && '.' !in ext
    ensures SafeStemOf(stem + "." + ext) == "_"
  {
    LastExtensionDropped(stem, ext);
    UnsafeRunIsOneUnderscore(stem, "");
    assert stem + "" == stem;
  }
}
