/** Python string primitives the two scripts rely on: character classes,
    `str.replace`, `str.split`/`str.join` on one separator, `str.strip`,
    substring search, and the decimal conversions `int(...)` and `f"{n}"`. */
module Text {

  datatype Option<+T> = None | Some(value: T)

  datatype Result<+T, +E> = Ok(value: T) | Err(error: E)

  /** The Python exceptions that escape the modelled code uncaught. */
  datatype Exception = IndexError | ValueError | AttributeError

  /** `str.isspace`: general category Zs or bidirectional class WS, B or S. */
  predicate IsSpace(c: char) {
    c == ' ' || ('\t' <= c <= '\r') || ('\U{1C}' <= c <= '\U{1F}')
    || c == '\U{85}' || c == '\U{A0}' || c == '\U{1680}'
    || ('\U{2000}' <= c <= '\U{200A}') || c == '\U{2028}' || c == '\U{2029}'
    || c == '\U{202F}' || c == '\U{205F}' || c == '\U{3000}'
  }

  /** An ASCII decimal digit (`\d`, `str.isdigit`). */
  predicate IsDigit(c: char) {
    '0' <= c <= '9'
  }

  /** `[a-z]` */
  predicate IsLower(c: char) {
    'a' <= c <= 'z'
  }

  /** An ASCII word character (`\w`). */
  predicate IsWordChar(c: char) {
    IsDigit(c) || IsLower(c) || ('A' <= c <= 'Z') || c == '_'
  }

  /** `s.isdigit()`: non-empty and digits only. */
  predicate IsDigits(s: string) {
    |s| > 0 && forall i :: 0 <= i < |s| ==> IsDigit(s[i])
  }

  predicate AllDigits(s: string) {
    forall i :: 0 <= i < |s| ==> IsDigit(s[i])
  }

  predicate OccursAt(s: string, t: string, i: int) {
    0 <= i && i + |t| <= |s| && s[i..i + |t|] == t
  }

  /** `t in s` for strings. */
  function Contains(s: string, t: string): (r: bool)
    ensures r <==> exists i :: OccursAt(s, t, i)
    decreases |s|
  {
    if |s| < |t| then false
    else if s[..|t|] == t then
      assert OccursAt(s, t, 0);
      true
    else
      var r := Contains(s[1..], t);
      assert r ==> exists i :: OccursAt(s, t, i) by {
        if r {
          var i :| OccursAt(s[1..], t, i);
          assert s[1..][i..i + |t|] == s[i + 1..i + 1 + |t|];
          assert OccursAt(s, t, i + 1);
        }
      }
      assert (exists i :: OccursAt(s, t, i)) ==> r by {
        if exists i :: OccursAt(s, t, i) {
          var i :| OccursAt(s, t, i);
          assert s[0..|t|] == s[..|t|];
          assert i != 0;
          assert s[1..][i - 1..i - 1 + |t|] == s[i..i + |t|];
          assert OccursAt(s[1..], t, i - 1);
        }
      }
      r
  }

  lemma Associate5<T>(a: seq<T>, b: seq<T>, c: seq<T>, d: seq<T>, e: seq<T>)
    ensures a + b + c + d + e == a + (b + (c + (d + e)))
  {
  }

  lemma ConcatAssociates<T>(a: seq<T>, b: seq<T>, c: seq<T>)
    ensures (a + b) + c == a + (b + c)
  {
  }

  /** Dropping the first element of a concatenation drops it from the
      first part. */
  lemma DropFirstAppend<T>(x: seq<T>, y: seq<T>)
    requires x != []
    ensures (x + y)[1..] == x[1..] + y && (x + y)[0] == x[0]
  {
  }

  /** Appending keeps the last element of a non-empty tail. */
  lemma LastOfAppend<T>(x: seq<T>, y: seq<T>)
    requires y != []
    ensures x + y != [] && (x + y)[|x + y| - 1] == y[|y| - 1]
  {
  }

  /** A slice is its first element followed by the rest. */
  lemma SliceCons<T>(s: seq<T>, i: nat, j: nat)
    requires i < j <= |s|
    ensures s[i..j] == [s[i]] + s[i + 1..j]
  {
  }

  /** `s.replace(pat, rep)`: every leftmost non-overlapping occurrence of
      `pat`, scanning from the left, is replaced by `rep`. */
  function ReplaceAll(s: string, pat: string, rep: string): (r: string)
    requires pat != []
    ensures !Contains(s, pat) ==> r == s
    ensures forall c :: c in r ==> c in s || c in rep
    decreases |s|
  {
    if |s| < |pat| then s
    else if s[..|pat|] == pat then rep + ReplaceAll(s[|pat|..], pat, rep)
    else [s[0]] + ReplaceAll(s[1..], pat, rep)
  }

  /** A first character that cannot start the pattern is copied. */
  lemma ReplaceSkip(c: char, rest: string, pat: string, rep: string)
    requires pat != [] && c != pat[0]
    ensures ReplaceAll([c] + rest, pat, rep) == [c] + ReplaceAll(rest, pat, rep)
  {
    var s := [c] + rest;
    if |s| >= |pat| {
      assert s[..|pat|][0] != pat[0];
      assert s[1..] == rest;
    } else {
      assert !Contains(rest, pat);
    }
  }

  /** An occurrence at the front is replaced. */
  lemma ReplaceFront(pat: string, b: string, rep: string)
    requires pat != []
    ensures ReplaceAll(pat + b, pat, rep) == rep + ReplaceAll(b, pat, rep)
  {
    var s := pat + b;
    assert s[..|pat|] == pat && s[|pat|..] == b;
  }

  /** A text in which the pattern cannot start is copied up to the rest. */
  lemma {:induction false} ReplaceFreePrefix(t: string, rest: string, pat: string, rep: string)
    requires pat != [] && pat[0] !in t
    ensures ReplaceAll(t + rest, pat, rep) == t + ReplaceAll(rest, pat, rep)
    decreases |t|
  {
    if t != [] {
      var c, u := t[0], t[1..];
      assert t + rest == [c] + (u + rest);
      ReplaceSkip(c, u + rest, pat, rep);
      assert pat[0] !in u by {
        assert forall x :: x in u ==> x in t;
      }
      ReplaceFreePrefix(u, rest, pat, rep);
      ConcatAssociates([c], u, ReplaceAll(rest, pat, rep));
      assert t == [c] + u;
    } else {
      assert t + rest == rest;
    }
  }

  /** Deleting a pattern: the text before its first occurrence is kept
      when the pattern cannot start in it, the occurrence goes. */
  lemma DeleteAfterFree(t: string, b: string, pat: string)
    requires pat != [] && pat[0] !in t
    ensures ReplaceAll(t + (pat + b), pat, "") == t + ReplaceAll(b, pat, "")
  {
    ReplaceFreePrefix(t, pat + b, pat, "");
    ReplaceFront(pat, b, "");
    assert "" + ReplaceAll(b, pat, "") == ReplaceAll(b, pat, "");
  }

  /** Replacing one character by a text commutes with concatenation. */
  lemma {:induction false} ReplaceCharAppend(a: string, b: string, c: char, rep: string)
    ensures ReplaceAll(a + b, [c], rep) == ReplaceAll(a, [c], rep) + ReplaceAll(b, [c], rep)
  {
    if a == [] {
      assert a + b == b;
    } else {
      assert (a + b)[1..] == a[1..] + b;
      assert (a + b)[..1] == a[..1];
      ReplaceCharAppend(a[1..], b, c, rep);
    }
  }

  /** A one-character text occurs exactly where its character does. */
  lemma ContainsChar(s: string, c: char)
    ensures Contains(s, [c]) <==> c in s
  {
    if c in s {
      var i :| 0 <= i < |s| && s[i] == c;
      assert s[i..i + 1] == [c];
      assert OccursAt(s, [c], i);
    }
    forall i | OccursAt(s, [c], i) ensures s[i] == c {
      assert s[i..i + 1][0] == s[i];
    }
  }

  /** A text without the first character of `t` does not contain `t`. */
  lemma ContainsFirst(s: string, t: string)
    requires t != [] && t[0] !in s
    ensures !Contains(s, t)
  {
  }

  /** An occurrence stays one when text is put around it. */
  lemma ContainsWithin(a: string, s: string, b: string, t: string)
    requires Contains(s, t)
    ensures Contains(a + s + b, t)
  {
    var i :| OccursAt(s, t, i);
    assert (a + s + b)[|a| + i..|a| + i + |t|] == s[i..i + |t|];
    assert OccursAt(a + s + b, t, |a| + i);
  }

  /** Replacing a character by a text without it leaves none behind. */
  lemma {:induction false} ReplaceCharGone(s: string, c: char, rep: string)
    requires c !in rep
    ensures c !in ReplaceAll(s, [c], rep)
    decreases |s|
  {
    if |s| >= 1 {
      if s[..1] == [c] {
        ReplaceCharGone(s[1..], c, rep);
      } else {
        ReplaceCharGone(s[1..], c, rep);
        assert s[0] != c by { assert s[..1][0] == s[0]; }
      }
    }
  }

  /** An occurrence inside the first part of a concatenation is one of that
      part. */
  lemma OccursLeft(x: string, y: string, t: string, i: nat)
    requires i + |t| <= |x| && !OccursAt(x, t, i)
    ensures !OccursAt(x + y, t, i)
  {
    assert (x + y)[i..i + |t|] == x[i..i + |t|];
  }

  /** An occurrence inside the second part of a concatenation is one of
      that part. */
  lemma OccursRight(x: string, y: string, t: string, i: nat)
    requires |x| <= i && !OccursAt(y, t, i - |x|)
    ensures !OccursAt(x + y, t, i)
  {
    if i + |t| <= |x + y| {
      assert (x + y)[i..i + |t|] == y[i - |x|..i - |x| + |t|];
    }
  }

  /** An occurrence of a text without `sep` in `a + [sep] + b` lies wholly
      inside `a` or wholly inside `b`. */
  lemma ContainsAcross(a: string, b: string, sep: char, t: string)
    requires sep !in t && !Contains(a, t) && !Contains(b, t)
    ensures !Contains(a + [sep] + b, t)
  {
    var w := a + [sep] + b;
    forall i | 0 <= i && i + |t| <= |w| ensures !OccursAt(w, t, i) {
      if i + |t| <= |a| {
        assert !OccursAt(a, t, i);
        OccursLeft(a, [sep], t, i);
        OccursLeft(a + [sep], b, t, i);
      } else if i > |a| {
        assert !OccursAt(b, t, i - |a| - 1);
        OccursRight(a + [sep], b, t, i);
      } else {
        assert w[i..i + |t|][|a| - i] == w[|a|] == sep;
      }
    }
  }

  /** An occurrence inside a slice is an occurrence in the whole text. */
  lemma OccursInSlice(s: string, i: nat, j: nat, t: string, k: int)
    requires i <= j <= |s| && !OccursAt(s, t, i + k)
    ensures !OccursAt(s[i..j], t, k)
  {
    if 0 <= k && k + |t| <= j - i {
      var inner, outer := s[i..j][k..k + |t|], s[i + k..i + k + |t|];
      forall m | 0 <= m < |t| ensures inner[m] == outer[m] {
        assert s[i..j][k + m] == s[i + k + m];
      }
      assert inner == outer;
    }
  }

  /** A slice of a text avoids whatever the text avoids. */
  lemma ContainsSlice(s: string, i: nat, j: nat, t: string)
    requires i <= j <= |s| && !Contains(s, t)
    ensures !Contains(s[i..j], t)
  {
    forall k: int ensures !OccursAt(s[i..j], t, k) {
      OccursInSlice(s, i, j, t, k);
    }
  }

  /** With a replacement that does not start with `c`, a result starting
      with `c` copied that character from the front of the text. */
  lemma TripleHead(t: string, c: char, rep: string)
    requires rep != [] && rep[0] != c
    ensures var r := ReplaceAll(t, [c, c, c], rep);
            r != [] && r[0] == c ==> t != [] && t[0] == c && r == [c] + ReplaceAll(t[1..], [c, c, c], rep)
  {
  }

  /** A character `c` that does not start a run of three is not followed,
      in the result for the rest, by two more. */
  lemma NoTripleAcross(t: string, c: char, rep: string)
    requires rep != [] && rep[0] != c
    requires |t| >= 3 && t[..3] != [c, c, c] && t[0] == c
    ensures var r := ReplaceAll(t[1..], [c, c, c], rep);
            !(|r| >= 2 && r[0] == c && r[1] == c)
  {
    var u := t[1..];
    var r := ReplaceAll(u, [c, c, c], rep);
    if |r| >= 2 && r[0] == c && r[1] == c {
      TripleHead(u, c, rep);
      TripleHead(u[1..], c, rep);
      assert false;
    }
  }

  /** No run of three `c` starts inside a text without `c` in front of a
      text without such a run. */
  lemma TripleAfterFree(x: string, rest: string, c: char)
    requires c !in x && !Contains(rest, [c, c, c])
    ensures !Contains(x + rest, [c, c, c])
  {
    var w := x + rest;
    forall i: nat ensures !OccursAt(w, [c, c, c], i) {
      if i < |x| {
        assert w[i] == x[i];
      } else {
        OccursRight(x, rest, [c, c, c], i);
      }
    }
  }

  /** No run of three `c` starts at a character in front of a text without
      such a run unless that character and the next two are `c`. */
  lemma TripleAfterChar(x: char, rest: string, c: char)
    requires !Contains(rest, [c, c, c])
    requires !(x == c && |rest| >= 2 && rest[0] == c && rest[1] == c)
    ensures !Contains([x] + rest, [c, c, c])
  {
    var w := [x] + rest;
    forall i: nat ensures !OccursAt(w, [c, c, c], i) {
      if i > 0 {
        OccursRight([x], rest, [c, c, c], i);
      } else if |w| >= 3 {
        assert w[..3] == [x, rest[0], rest[1]];
      }
    }
  }

  /** Replacing every run of three `c` by a text without `c` leaves no
      such run behind: a run cannot form across a replacement. */
  lemma {:induction false} TripleGone(t: string, c: char, rep: string)
    requires rep != [] && c !in rep
    ensures !Contains(ReplaceAll(t, [c, c, c], rep), [c, c, c])
    decreases |t|
  {
    var pat := [c, c, c];
    if |t| < 3 {
      assert !OccursAt(t, pat, 0);
    } else if t[..3] == pat {
      TripleGone(t[3..], c, rep);
      TripleAfterFree(rep, ReplaceAll(t[3..], pat, rep), c);
    } else {
      TripleGone(t[1..], c, rep);
      if t[0] == c {
        NoTripleAcross(t, c, rep);
      }
      TripleAfterChar(t[0], ReplaceAll(t[1..], pat, rep), c);
    }
  }

  /** The result of a replacement starts and ends with a character of the
      text or of the replacement at that end. */
  lemma {:induction false} ReplaceEnds(s: string, pat: string, rep: string)
    requires pat != [] && rep != [] && s != []
    ensures var r := ReplaceAll(s, pat, rep);
            && r != []
            && (r[0] == s[0] || r[0] == rep[0])
            && (r[|r| - 1] == s[|s| - 1] || r[|r| - 1] == rep[|rep| - 1])
    decreases |s|
  {
    if |s| >= |pat| {
      var rest := if s[..|pat|] == pat then s[|pat|..] else s[1..];
      if rest != [] {
        ReplaceEnds(rest, pat, rep);
        assert s[|s| - 1] == rest[|rest| - 1];
      }
    }
  }

  /** Where the pattern does not start the text, its first character is
      copied. */
  lemma ReplaceCopyHead(s: string, pat: string, rep: string)
    requires pat != [] && s != [] && !(|s| >= |pat| && s[..|pat|] == pat)
    ensures ReplaceAll(s, pat, rep) == [s[0]] + ReplaceAll(s[1..], pat, rep)
  {
    if |s| < |pat| {
      assert s == [s[0]] + s[1..];
    }
  }

  /** A pattern without `sep` does not start in front of a `sep` closer
      than its length. */
  lemma NoPatternBeforeSep(a: string, b: string, sep: char, pat: string)
    requires pat != [] && sep !in pat && |a| < |pat|
    ensures var s := a + ([sep] + b); !(|s| >= |pat| && s[..|pat|] == pat)
  {
    var s := a + ([sep] + b);
    if |s| >= |pat| {
      assert s[..|pat|][|a|] == sep;
    }
  }

  /** The step of `ReplaceAcross` for a text that starts with the pattern. */
  lemma AcrossFrontStep(a: string, b: string, sep: char, pat: string, rep: string)
    requires pat != []
    requires ReplaceAll(a + ([sep] + b), pat, rep) == ReplaceAll(a, pat, rep) + ([sep] + ReplaceAll(b, pat, rep))
    ensures ReplaceAll((pat + a) + ([sep] + b), pat, rep) == ReplaceAll(pat + a, pat, rep) + ([sep] + ReplaceAll(b, pat, rep))
  {
    var tail := [sep] + b;
    assert (pat + a) + tail == pat + (a + tail);
    ReplaceFront(pat, a + tail, rep);
    ReplaceFront(pat, a, rep);
    ConcatAssociates(rep, ReplaceAll(a, pat, rep), [sep] + ReplaceAll(b, pat, rep));
  }

  /** The step of `ReplaceAcross` for a text whose first character is
      copied. */
  lemma AcrossCopyStep(x: string, b: string, sep: char, pat: string, rep: string)
    requires pat != [] && sep !in pat && x != []
    requires !(|x| >= |pat| && x[..|pat|] == pat)
    requires ReplaceAll(x[1..] + ([sep] + b), pat, rep) == ReplaceAll(x[1..], pat, rep) + ([sep] + ReplaceAll(b, pat, rep))
    ensures ReplaceAll(x + ([sep] + b), pat, rep) == ReplaceAll(x, pat, rep) + ([sep] + ReplaceAll(b, pat, rep))
  {
    var tail := [sep] + b;
    var s := x + tail;
    DropFirstAppend(x, tail);
    if |x| < |pat| {
      NoPatternBeforeSep(x, b, sep, pat);
    } else {
      assert forall k :: 0 <= k < |pat| ==> s[k] == x[k];
      assert s[..|pat|] != pat by {
        var k :| 0 <= k < |pat| && x[k] != pat[k];
        assert s[..|pat|][k] != pat[k];
      }
    }
    ReplaceCopyHead(s, pat, rep);
    ReplaceCopyHead(x, pat, rep);
    ConcatAssociates([x[0]], ReplaceAll(x[1..], pat, rep), [sep] + ReplaceAll(b, pat, rep));
  }

  /** Replacing a pattern without `sep` works on either side of a `sep`
      separately. */
  lemma {:induction false} ReplaceAcross(a: string, b: string, sep: char, pat: string, rep: string)
    requires pat != [] && sep !in pat
    ensures ReplaceAll(a + ([sep] + b), pat, rep) == ReplaceAll(a, pat, rep) + ([sep] + ReplaceAll(b, pat, rep))
    decreases |a|
  {
    if a == [] {
      assert a + ([sep] + b) == [sep] + b;
      ReplaceSkip(sep, b, pat, rep);
    } else if |a| >= |pat| && a[..|pat|] == pat {
      var a' := a[|pat|..];
      assert a == pat + a';
      ReplaceAcross(a', b, sep, pat, rep);
      AcrossFrontStep(a', b, sep, pat, rep);
    } else {
      ReplaceAcross(a[1..], b, sep, pat, rep);
      AcrossCopyStep(a, b, sep, pat, rep);
    }
  }

  // ---------------------------------------------------------------------
  // str.split(sep) and sep.join(parts) for a one-character separator

  function Split(s: string, sep: char): (parts: seq<string>)
    ensures |parts| >= 1
    ensures forall i :: 0 <= i < |parts| ==> sep !in parts[i]
    decreases |s|
  {
    if s == [] then [[]]
    else
      var rest := Split(s[1..], sep);
      if s[0] == sep then [[]] + rest
      else [[s[0]] + rest[0]] + rest[1..]
  }

  /** The pieces only hold characters of the text. */
  lemma {:induction false} SplitChars(s: string, sep: char, i: int, c: char)
    requires 0 <= i < |Split(s, sep)| && c in Split(s, sep)[i]
    ensures c in s
    decreases |s|
  {
    if s != [] {
      var rest := Split(s[1..], sep);
      if s[0] == sep {
        SplitChars(s[1..], sep, i - 1, c);
      } else if i == 0 {
        if c != s[0] {
          SplitChars(s[1..], sep, 0, c);
        }
      } else {
        SplitChars(s[1..], sep, i, c);
      }
    }
  }

  function Join(parts: seq<string>, sep: char): string
  {
    if parts == [] then ""
    else if |parts| == 1 then parts[0]
    else parts[0] + [sep] + Join(parts[1..], sep)
  }

  /** Joining the pieces of a split gives back the text. */
  lemma {:induction false} JoinSplit(s: string, sep: char)
    ensures Join(Split(s, sep), sep) == s
  {
    if s != [] {
      var rest := Split(s[1..], sep);
      JoinSplit(s[1..], sep);
      if s[0] == sep {
        assert Split(s, sep) == [[]] + rest;
        assert ([[]] + rest)[1..] == rest;
        assert s == [] + [sep] + s[1..];
      } else {
        var parts := Split(s, sep);
        assert parts == [[s[0]] + rest[0]] + rest[1..];
        if |rest| == 1 {
          assert Join(rest, sep) == rest[0];
          assert s == [s[0]] + s[1..];
        } else {
          assert parts[1..] == rest[1..];
          assert Join(rest, sep) == rest[0] + [sep] + Join(rest[1..], sep);
          assert s == [s[0]] + s[1..];
        }
      }
    }
  }

  /** Every character of a joined text is the separator or comes from a
      piece. */
  lemma {:induction false} JoinChars(parts: seq<string>, sep: char, c: char)
    requires c in Join(parts, sep)
    ensures c == sep || exists i :: 0 <= i < |parts| && c in parts[i]
  {
    if |parts| > 1 {
      if c !in parts[0] && c != sep {
        JoinChars(parts[1..], sep, c);
        var i :| 0 <= i < |parts[1..]| && c in parts[1..][i];
        assert c in parts[i + 1];
      }
    }
  }

  /** A text that spans no separator and occurs in no piece does not occur
      in their join. */
  lemma {:induction false} ContainsJoin(parts: seq<string>, sep: char, t: string)
    requires sep !in t && t != []
    requires forall i :: 0 <= i < |parts| ==> !Contains(parts[i], t)
    ensures !Contains(Join(parts, sep), t)
  {
    if parts == [] {
      assert !OccursAt("", t, 0);
    } else if |parts| > 1 {
      ContainsJoin(parts[1..], sep, t);
      ContainsAcross(parts[0], Join(parts[1..], sep), sep, t);
    }
  }

  /** Every piece with the pattern replaced. */
  function ReplaceEach(parts: seq<string>, pat: string, rep: string): (r: seq<string>)
    requires pat != []
    ensures |r| == |parts|
    ensures forall i :: 0 <= i < |parts| ==> r[i] == ReplaceAll(parts[i], pat, rep)
  {
    if parts == [] then [] else [ReplaceAll(parts[0], pat, rep)] + ReplaceEach(parts[1..], pat, rep)
  }

  /** Replacing a pattern without the separator in a join replaces it in
      every piece. */
  lemma {:induction false} ReplaceJoin(parts: seq<string>, sep: char, pat: string, rep: string)
    requires pat != [] && sep !in pat
    ensures ReplaceAll(Join(parts, sep), pat, rep) == Join(ReplaceEach(parts, pat, rep), sep)
  {
    if |parts| > 1 {
      var tail := Join(parts[1..], sep);
      assert Join(parts, sep) == parts[0] + ([sep] + tail);
      ReplaceAcross(parts[0], tail, sep, pat, rep);
      ReplaceJoin(parts[1..], sep, pat, rep);
      var each := ReplaceEach(parts, pat, rep);
      assert each[1..] == ReplaceEach(parts[1..], pat, rep);
    }
  }

  /** A piece avoids whatever its join avoids. */
  lemma {:induction false} JoinAvoids(parts: seq<string>, sep: char, t: string)
    requires !Contains(Join(parts, sep), t)
    ensures forall i :: 0 <= i < |parts| ==> !Contains(parts[i], t)
  {
    if |parts| > 1 {
      var s := Join(parts, sep);
      var a := parts[0];
      var b := Join(parts[1..], sep);
      assert s == a + [sep] + b;
      assert s[0..|a|] == a && s[|a| + 1..|s|] == b;
      ContainsSlice(s, 0, |a|, t);
      ContainsSlice(s, |a| + 1, |s|, t);
      JoinAvoids(parts[1..], sep, t);
      assert forall i :: 1 <= i < |parts| ==> parts[i] == parts[1..][i - 1];
    }
  }

  /** Splitting a joined list of separator-free pieces gives the pieces back. */
  lemma {:induction false} SplitJoin(parts: seq<string>, sep: char)
    requires |parts| >= 1
    requires forall i :: 0 <= i < |parts| ==> sep !in parts[i]
    ensures Split(Join(parts, sep), sep) == parts
  {
    if |parts| == 1 {
      SplitFree(parts[0], sep);
    } else {
      SplitJoin(parts[1..], sep);
      SplitAppend(parts[0], Join(parts[1..], sep), sep);
      SplitFree(parts[0], sep);
      assert parts == [parts[0]] + parts[1..];
    }
  }

  /** A separator-free text is a single piece. */
  lemma {:induction false} SplitFree(s: string, sep: char)
    requires sep !in s
    ensures Split(s, sep) == [s]
  {
    if s != [] {
      assert sep !in s[1..] by {
        forall i | 0 <= i < |s[1..]| ensures s[1..][i] != sep {
          assert s[1..][i] == s[i + 1];
        }
      }
      SplitFree(s[1..], sep);
      assert s == [s[0]] + s[1..];
    }
  }

  /** A separator between `a` and `b` splits exactly there. */
  lemma {:induction false} SplitAppend(a: string, b: string, sep: char)
    ensures Split(a + [sep] + b, sep) == Split(a, sep) + Split(b, sep)
  {
    if a == [] {
      assert a + [sep] + b == [sep] + b;
      assert ([sep] + b)[1..] == b;
    } else {
      var s := a + [sep] + b;
      assert s[0] == a[0];
      assert s[1..] == a[1..] + [sep] + b;
      SplitAppend(a[1..], b, sep);
    }
  }

  /** The pieces are the text after the last separator and the split of
      what precedes it. */
  lemma SplitAtLast(s: string, sep: char, k: int)
    requires 0 <= k < |s| && s[k] == sep && sep !in s[k + 1..]
    ensures Split(s, sep) == Split(s[..k], sep) + [s[k + 1..]]
  {
    assert s == s[..k] + [sep] + s[k + 1..];
    SplitAppend(s[..k], s[k + 1..], sep);
    SplitFree(s[k + 1..], sep);
  }

  // ---------------------------------------------------------------------
  // str.strip()

  predicate InfixAt(r: string, s: string, k: int) {
    0 <= k && k + |r| <= |s| && r == s[k..k + |r|]
  }
  predicate AllSpace(s: string, lo: int, hi: int)
    requires 0 <= lo <= hi <= |s|
  {
    forall i :: lo <= i < hi ==> IsSpace(s[i])
  }
  /** The first position from `i` on that does not hold whitespace. */
  function SkipSpaces(s: string, i: nat): (e: nat)
    requires i <= |s|
    ensures i <= e <= |s| && AllSpace(s, i, e)
    ensures e < |s| ==> !IsSpace(s[e])
    decreases |s| - i
  {
    if i < |s| && IsSpace(s[i]) then SkipSpaces(s, i + 1) else i
  }
  /** The end of the text up to `hi` without its trailing whitespace, not
      going below `lo`. */
  function SkipSpacesBack(s: string, lo: nat, hi: nat): (e: nat)
    requires lo <= hi <= |s|
    ensures lo <= e <= hi && AllSpace(s, e, hi)
    ensures e > lo ==> !IsSpace(s[e - 1])
    decreases hi
  {
    if lo < hi && IsSpace(s[hi - 1]) then SkipSpacesBack(s, lo, hi - 1) else hi
  }
  /** The characters of a slice occur in the text. */
  lemma SliceChars(s: string, k: nat, e: nat)
    requires k <= e <= |s|
    ensures forall c :: c in s[k..e] ==> c in s
  {
    forall c | c in s[k..e] ensures c in s {
      var j :| 0 <= j < e - k && s[k..e][j] == c;
      assert s[k + j] == c;
    }
  }

  /** `s.strip()`: the text without its leading and trailing whitespace. */
  function Strip(s: string): (r: string)
    ensures exists k :: InfixAt(r, s, k) && AllSpace(s, 0, k) && AllSpace(s, k + |r|, |s|)
    ensures r != [] ==> !IsSpace(r[0]) && !IsSpace(r[|r| - 1])
    ensures forall c :: c in r ==> c in s
  {
    var k := SkipSpaces(s, 0);
    var e := SkipSpacesBack(s, k, |s|);
    SliceChars(s, k, e);
    var r := s[k..e];
    assert InfixAt(r, s, k) && k + |r| == e;
    assert r != [] ==> r[0] == s[k] && r[|r| - 1] == s[e - 1];
    r
  }

  /** Stripping keeps a text free of whatever it was free of. */
  lemma StripAvoids(s: string, t: string)
    requires !Contains(s, t)
    ensures !Contains(Strip(s), t)
  {
    var k := SkipSpaces(s, 0);
    var e := SkipSpacesBack(s, k, |s|);
    assert Strip(s) == s[k..e];
    ContainsSlice(s, k, e, t);
  }

  /** A text without whitespace at either end strips to itself. */
  lemma StripStripped(s: string)
    requires s != [] ==> !IsSpace(s[0]) && !IsSpace(s[|s| - 1])
    ensures Strip(s) == s
  {
    var r := Strip(s);
    var k :| InfixAt(r, s, k) && AllSpace(s, 0, k) && AllSpace(s, k + |r|, |s|);
    if s != [] {
      assert !AllSpace(s, 0, 1);
      assert !AllSpace(s, |s| - 1, |s|);
    }
  }

  // ---------------------------------------------------------------------
  // Decimal numbers: int(digits) and f"{n}"

  function DigitChar(d: nat): (c: char)
    requires d < 10
    ensures IsDigit(c)
  {
    ('0' as int + d) as char
  }

  /** Value of a run of ASCII digits, leading zeros allowed (as `int`). */
  function DecimalValue(s: string): nat
    requires AllDigits(s)
  {
    if s == [] then 0
    else DecimalValue(s[..|s| - 1]) * 10 + (s[|s| - 1] as int - '0' as int)
  }

  /** `f"{n}"` for a natural number: its shortest decimal spelling. */
  function DecimalString(n: nat): (s: string)
    ensures IsDigits(s)
  {
    if n < 10 then [DigitChar(n)] else DecimalString(n / 10) + [DigitChar(n % 10)]
  }

  /** Reading back a printed number gives the number. */
  lemma {:induction false} DecimalRoundTrip(n: nat)
    ensures DecimalValue(DecimalString(n)) == n
  {
    if n >= 10 {
      DecimalRoundTrip(n / 10);
      var s := DecimalString(n);
      assert s[..|s| - 1] == DecimalString(n / 10);
    }
  }

  /** `f"{n}"` for any integer. */
  function IntString(n: int): string
  {
    if n < 0 then "-" + DecimalString(-n) else DecimalString(n)
  }

  predicate DigitsOrUnderscores(t: string) {
    forall i :: 0 <= i < |t| ==> IsDigit(t[i]) || t[i] == '_'
  }

  /** Digits with single underscores between them, as `int` accepts. */
  predicate IsDigitGroups(t: string) {
    && |t| > 0 && DigitsOrUnderscores(t) && IsDigit(t[0]) && IsDigit(t[|t| - 1])
    && forall i :: 0 <= i < |t| - 1 && t[i] == '_' ==> IsDigit(t[i + 1])
  }

  function DropUnderscores(t: string): (r: string)
    requires DigitsOrUnderscores(t)
    ensures AllDigits(r)
    ensures AllDigits(t) ==> r == t
  {
    if t == [] then []
    else (if t[0] == '_' then [] else [t[0]]) + DropUnderscores(t[1..])
  }

  /** `int(s)` in base 10: surrounding whitespace, an optional sign and
      digit groups; `None` where Python raises ValueError. */
  function ParseInt(s: string): (r: Option<int>)
  {
    var t := Strip(s);
    if |t| > 0 && (t[0] == '+' || t[0] == '-') then
      var u := t[1..];
      if IsDigitGroups(u) then
        var v: int := DecimalValue(DropUnderscores(u));
        Some(if t[0] == '-' then -v else v)
      else None
    else if IsDigitGroups(t) then Some(DecimalValue(DropUnderscores(t)))
    else None
  }

  lemma DigitsAreGroups(u: string)
    requires IsDigits(u)
    ensures IsDigitGroups(u) && DropUnderscores(u) == u
  {
  }

  /** `int` of plain digits is their value. */
  lemma ParseIntDigits(s: string)
    requires IsDigits(s)
    ensures ParseInt(s) == Some(DecimalValue(s))
  {
    StripStripped(s);
    DigitsAreGroups(s);
  }

  /** `int(f"{n}") == n`. */
  lemma ParseIntString(n: int)
    ensures ParseInt(IntString(n)) == Some(n)
  {
    var s := IntString(n);
    var m := if n < 0 then -n else n;
    var u := DecimalString(m);
    DecimalRoundTrip(m);
    DigitsAreGroups(u);
    StripStripped(s);
    if n < 0 {
      assert s == "-" + u && s[1..] == u;
    } else {
      assert s == u;
    }
  }
}
