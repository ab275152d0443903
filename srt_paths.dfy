/** The names and paths handled by `srt2ass.py`: the test for an input that
    is already an ASS script, the name of the output, the HDR test, the
    escaping of the returned path and `parse_file_name`. The directory of
    an absolute path is a parameter, as it depends on the process's working
    directory. */
module SrtPaths {
  import opened Text
  import CropDetect

  // ---------------------------------------------------------------------
  // The output name: ".".join(input_file.split(".")[:-1]) + ".ass"

  /** The output name always ends in `.ass`. */
  function OutputName(p: string): (n: string)
    ensures |n| >= 4 && n[|n| - 4..] == ".ass"
  {
    var parts := Split(p, '.');
    Join(parts[..|parts| - 1], '.') + ".ass"
  }

  /** The last dot and everything after it are replaced by `.ass`, even
      when that dot belongs to a directory name. */
  lemma OutputNameLastDot(p: string, k: nat)
    requires k < |p| && p[k] == '.' && '.' !in p[k + 1..]
    ensures OutputName(p) == p[..k] + ".ass"
  {
    SplitAtLast(p, '.', k);
    var parts := Split(p, '.');
    assert parts[..|parts| - 1] == Split(p[..k], '.');
    JoinSplit(p[..k], '.');
  }

  /** A name without a dot gives `.ass` alone. */
  lemma OutputNameNoDot(p: string)
    requires '.' !in p
    ensures OutputName(p) == ".ass"
  {
    SplitFree(p, '.');
  }

  // ---------------------------------------------------------------------
  // The HDR test:
  // re.search(r"(HDR|DV|DolbyVision|Dolby\.Vision|Dolby Vision)", input_file)

  /** The test is case-sensitive: a path without a capital `H` or `D` is
      not HDR, so `movie.hdr.srt` and `dolby vision` are not. */
  predicate IsHdr(p: string): (b: bool)
    ensures b ==> 'H' in p || 'D' in p
  {
    assert 'H' !in p && 'D' !in p ==>
      && !Contains(p, "HDR") && !Contains(p, "DV") && !Contains(p, "DolbyVision")
      && !Contains(p, "Dolby.Vision") && !Contains(p, "Dolby Vision") by {
      if 'H' !in p && 'D' !in p {
        ContainsFirst(p, "HDR");
        ContainsFirst(p, "DV");
        ContainsFirst(p, "DolbyVision");
        ContainsFirst(p, "Dolby.Vision");
        ContainsFirst(p, "Dolby Vision");
      }
    }
    || Contains(p, "HDR") || Contains(p, "DV") || Contains(p, "DolbyVision")
    || Contains(p, "Dolby.Vision") || Contains(p, "Dolby Vision")
  }

  /** A keyword anywhere in the path, in a directory name as well as in the
      file name, makes it HDR. */
  lemma HdrAnywhere(a: string, p: string, b: string)
    requires IsHdr(p)
    ensures IsHdr(a + p + b)
  {
    if Contains(p, "HDR") {
      ContainsWithin(a, p, b, "HDR");
    } else if Contains(p, "DV") {
      ContainsWithin(a, p, b, "DV");
    } else if Contains(p, "DolbyVision") {
      ContainsWithin(a, p, b, "DolbyVision");
    } else if Contains(p, "Dolby.Vision") {
      ContainsWithin(a, p, b, "Dolby.Vision");
    } else {
      ContainsWithin(a, p, b, "Dolby Vision");
    }
  }

  // ---------------------------------------------------------------------
  // The returned path: output_file.replace("\\", "\\\\").replace("/", "//")

  /** A path without backslashes and slashes is returned as it is. */
  function Escape(p: string): (e: string)
    ensures '\\' !in p && '/' !in p ==> e == p
  {
    ContainsChar(p, '\\');
    ContainsChar(p, '/');
    assert "\\" == ['\\'] && "/" == ['/'];
    ReplaceAll(ReplaceAll(p, "\\", "\\\\"), "/", "//")
  }

  /** Every backslash and every slash written twice, the other characters
      once. */
  function Doubled(p: string): (d: string)
    ensures |d| >= |p|
  {
    if p == [] then []
    else (if p[0] == '\\' || p[0] == '/' then [p[0], p[0]] else [p[0]]) + Doubled(p[1..])
  }

  /** Reads a doubled backslash or slash as one. */
  function Undoubled(e: string): string
    decreases |e|
  {
    if e == [] then []
    else if |e| >= 2 && (e[0] == '\\' || e[0] == '/') && e[1] == e[0] then [e[0]] + Undoubled(e[2..])
    else [e[0]] + Undoubled(e[1..])
  }

  /** The two replacements double the backslashes and the slashes, in place. */
  lemma {:induction false} EscapeDoubles(p: string)
    ensures Escape(p) == Doubled(p)
  {
    if p != [] {
      var c, rest := p[0], p[1..];
      assert p == [c] + rest;
      ReplaceCharAppend([c], rest, '\\', "\\\\");
      var once := if c == '\\' then "\\\\" else [c];
      assert ReplaceAll([c], "\\", "\\\\") == once;
      ReplaceCharAppend(once, ReplaceAll(rest, "\\", "\\\\"), '/', "//");
      if c == '\\' {
        assert ReplaceAll(once, "/", "//") == once;
      } else {
        assert ReplaceAll(once, "/", "//") == if c == '/' then "//" else [c];
      }
      EscapeDoubles(rest);
    }
  }

  /** Undoubling gives back the path. */
  lemma {:induction false} UndoubledDoubled(p: string)
    ensures Undoubled(Doubled(p)) == p
  {
    if p != [] {
      var c, rest := p[0], p[1..];
      UndoubledDoubled(rest);
      if c == '\\' || c == '/' {
        assert Doubled(p) == [c, c] + Doubled(rest);
        assert Doubled(p)[2..] == Doubled(rest);
      } else {
        assert Doubled(p) == [c] + Doubled(rest);
        assert Doubled(p)[1..] == Doubled(rest);
      }
      assert p == [c] + rest;
    }
  }

  /** So the escaped path determines the path. */
  lemma EscapeRoundTrip(p: string)
    ensures Undoubled(Escape(p)) == p
  {
    EscapeDoubles(p);
    UndoubledDoubled(p);
  }

  // ---------------------------------------------------------------------
  // parse_file_name

  /** `(\.[a-z]{2,3}\.srt|\.srt)$` matches from position `i`: a dot, two or
      three lower-case letters and `.srt` end the text, or `.srt` alone
      does. */
  predicate SuffixAt(f: string, i: nat) {
    && i + 4 <= |f|
    && f[|f| - 4..] == ".srt"
    && (i + 4 == |f|
        || (&& (i + 7 == |f| || i + 8 == |f|)
            && f[i] == '.'
            && forall j :: i < j < |f| - 4 ==> IsLower(f[j])))
  }

  /** `re.search` for that pattern: the leftmost position from `i` on at
      which it matches. */
  function SearchSuffix(f: string, i: nat): (r: Option<nat>)
    requires i <= |f|
    ensures r.Some? ==> i <= r.value <= |f| && SuffixAt(f, r.value)
    decreases |f| - i
  {
    if SuffixAt(f, i) then Some(i)
    else if i == |f| then None
    else SearchSuffix(f, i + 1)
  }

  /** Positions before a match that do not match are passed over. */
  lemma {:induction false} SearchSuffixFirst(f: string, i: nat, k: nat)
    requires i <= k <= |f| && SuffixAt(f, k)
    requires forall j :: i <= j < k ==> !SuffixAt(f, j)
    ensures SearchSuffix(f, i) == Some(k)
    decreases k - i
  {
    if i < k {
      SearchSuffixFirst(f, i + 1, k);
    }
  }

  /** Without a match anywhere the search finds nothing. */
  lemma {:induction false} SearchSuffixNone(f: string, i: nat)
    requires i <= |f|
    requires forall j :: i <= j <= |f| ==> !SuffixAt(f, j)
    ensures SearchSuffix(f, i) == None
    decreases |f| - i
  {
    if i < |f| {
      SearchSuffixNone(f, i + 1);
    }
  }

  /** A matching position from `i` on means the search finds one. */
  lemma {:induction false} SearchSuffixSome(f: string, i: nat, k: nat)
    requires i <= k <= |f| && SuffixAt(f, k)
    ensures SearchSuffix(f, i).Some?
    decreases k - i
  {
    if !SuffixAt(f, i) {
      SearchSuffixSome(f, i + 1, k);
    }
  }

  /** `s.removesuffix(suffix)` */
  function RemoveSuffix(s: string, suffix: string): (r: string)
    ensures |suffix| <= |s| && s[|s| - |suffix|..] == suffix ==> r + suffix == s
    ensures !(|suffix| <= |s| && s[|s| - |suffix|..] == suffix) ==> r == s
  {
    if |suffix| <= |s| && s[|s| - |suffix|..] == suffix then s[..|s| - |suffix|] else s
  }

  /** A suffix that is there is cut off. */
  lemma RemoveSuffixFound(s: string, suffix: string)
    requires |suffix| <= |s| && s[|s| - |suffix|..] == suffix
    ensures RemoveSuffix(s, suffix) == s[..|s| - |suffix|]
  {
  }

  /** The base name of `file` without the suffix found at `i`. */
  function Stem(file: string, i: nat): string
    requires i <= |file|
  {
    RemoveSuffix(CropDetect.Basename(file), file[i..])
  }

  /** A name put together from a directory, a stem and `.mkv` starts with
      the directory and a slash and ends in `.mkv`. */
  lemma MkvName(dir: string, stem: string, name: string)
    requires name == dir + "/" + stem + ".mkv"
    ensures |name| >= |dir| + 5 && name[..|dir| + 1] == dir + "/"
    ensures name[|name| - 4..] == ".mkv"
  {
    assert name == (dir + "/") + (stem + ".mkv");
    assert name == (dir + "/" + stem) + ".mkv";
  }

  /** `parse_file_name(file)`, with `absDir` for
      `os.path.dirname(os.path.abspath(file))`: the file's base name
      without the suffix found, `.mkv` appended, in that directory. Where
      the pattern is not found, `suffix_re.group()` raises AttributeError. */
  function ParseFileName(file: string, absDir: string): (r: Result<string, Exception>)
    ensures r.Ok? ==> && |r.value| >= |absDir| + 5
                      && r.value[..|absDir| + 1] == absDir + "/"
                      && r.value[|r.value| - 4..] == ".mkv"
    ensures r.Err? ==> r.error == AttributeError
  {
    match SearchSuffix(file, 0)
    case None => Err(AttributeError)
    case Some(i) =>
      var name := absDir + "/" + Stem(file, i) + ".mkv";
      MkvName(absDir, Stem(file, i), name);
      Ok(name)
  }

  /** A dot, `n` lower-case letters and `.srt` ending the text are where
      the search stops. */
  lemma SearchLanguage(f: string, n: nat)
    requires (n == 2 || n == 3) && n + 5 <= |f|
    requires f[|f| - n - 5] == '.' && f[|f| - 4..] == ".srt"
    requires forall j :: |f| - n - 4 <= j < |f| - 4 ==> IsLower(f[j])
    ensures SearchSuffix(f, 0) == Some(|f| - n - 5)
  {
    var k := |f| - n - 5;
    forall j | 0 <= j < k ensures !SuffixAt(f, j) {
      if n == 2 && j == k - 1 {
        assert !IsLower(f[k]);
      }
    }
    SearchSuffixFirst(f, 0, k);
  }

  /** The last `n` characters of a path are those of its last component. */
  lemma TailOfBase(f: string, prefix: string, base: string, n: nat)
    requires f == prefix + base && n <= |base|
    ensures f[|f| - n..] == base[|base| - n..]
  {
  }

  /** Where the suffix lies inside the last component of the path, it is
      removed from it. The path may have a directory in front, or none. */
  lemma StemOf(f: string, prefix: string, base: string, n: nat)
    requires f == prefix + base && '/' !in base && n <= |base|
    requires prefix == [] || prefix[|prefix| - 1] == '/'
    ensures Stem(f, |f| - n) == base[..|base| - n]
  {
    CropDetect.BasenameAfter(prefix, base);
    TailOfBase(f, prefix, base, n);
    RemoveSuffixFound(base, f[|f| - n..]);
  }

  /** A dot, a language code and `.srt` after `pre` are where the search
      stops. */
  lemma SearchLanguageAfter(f: string, pre: string, lang: string)
    requires (|lang| == 2 || |lang| == 3) && f == pre + ("." + lang + ".srt")
    requires forall j :: 0 <= j < |lang| ==> IsLower(lang[j])
    ensures SearchSuffix(f, 0) == Some(|pre|)
  {
    var k := |pre|;
    var suffix := "." + lang + ".srt";
    assert f[k] == suffix[0] == '.';
    assert f[|f| - 4..] == suffix[|suffix| - 4..] == ".srt";
    forall j | k + 1 <= j < |f| - 4 ensures IsLower(f[j]) {
      assert f[j] == suffix[j - k] == lang[j - k - 1];
    }
    SearchLanguage(f, |lang|);
  }

  /** A language code of two or three lower-case letters goes with the
      `.srt` suffix. `prefix` is the directory part of the path, ending in a
      slash, or empty for a bare file name. */
  lemma ParseFileNameLanguage(prefix: string, name: string, lang: string, absDir: string)
    requires prefix == [] || prefix[|prefix| - 1] == '/'
    requires '/' !in name && (|lang| == 2 || |lang| == 3)
    requires forall j :: 0 <= j < |lang| ==> IsLower(lang[j])
    ensures ParseFileName(prefix + name + "." + lang + ".srt", absDir) == Ok(absDir + "/" + name + ".mkv")
  {
    var suffix := "." + lang + ".srt";
    var base := name + suffix;
    var f := prefix + base;
    assert prefix + name + "." + lang + ".srt" == f;
    assert f == (prefix + name) + suffix;
    SearchLanguageAfter(f, prefix + name, lang);
    StemOf(f, prefix, base, |suffix|);
    assert base[..|base| - |suffix|] == name;
  }

  /** A name that does not end in a dot and two or three lower-case letters
      loses only `.srt`, with a directory in front or none. */
  lemma ParseFileNamePlain(prefix: string, name: string, absDir: string)
    requires prefix == [] || prefix[|prefix| - 1] == '/'
    requires '/' !in name
    requires forall j :: 0 <= j < |name| && |name| - 4 <= j <= |name| - 3 ==>
               !(name[j] == '.' && forall m :: j < m < |name| ==> IsLower(name[m]))
    ensures ParseFileName(prefix + name + ".srt", absDir) == Ok(absDir + "/" + name + ".mkv")
  {
    var base := name + ".srt";
    var f := prefix + base;
    assert prefix + name + ".srt" == f;
    var pre := prefix + name;
    assert f == pre + ".srt";
    var k := |f| - 4;
    var d := |prefix|;
    assert f[k..] == ".srt";
    forall j | 0 <= j < k ensures !SuffixAt(f, j) {
      if j + 8 == |f| || j + 7 == |f| {
        if j >= d {
          assert f[j] == pre[j] == name[j - d];
          if f[j] == '.' {
            var m :| j - d < m < |name| && !IsLower(name[m]);
            assert f[m + d] == pre[m + d] == name[m];
          }
        } else {
          assert f[d - 1] == pre[d - 1] == '/';
        }
      }
    }
    SearchSuffixFirst(f, 0, k);
    StemOf(f, prefix, base, 4);
    assert base[..|base| - 4] == name;
  }

  /** A path that does not end in `.srt` has no suffix to remove. */
  lemma ParseFileNameNotSrt(file: string, absDir: string)
    requires |file| < 4 || file[|file| - 4..] != ".srt"
    ensures ParseFileName(file, absDir) == Err(AttributeError)
  {
    SearchSuffixNone(file, 0);
  }

  /** A path that ends in `.srt` always has a suffix to remove, so the
      result is a path and not an error. */
  lemma ParseFileNameSrt(file: string, absDir: string)
    requires |file| >= 4 && file[|file| - 4..] == ".srt"
    ensures ParseFileName(file, absDir).Ok?
  {
    SearchSuffixSome(file, 0, |file| - 4);
  }
}
