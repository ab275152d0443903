/** The regular-expression rewrites that `srt2ass.py` applies, one after the
    other, to the whole converted text (srt2ass.py:143-153), each as a
    `Rewrite.Matcher`: where its pattern matches at a position, the
    replacement and the end of the match. Digits and word characters are
    the ASCII ones, whitespace that of `str.isspace`. */
module SrtPasses {
  import opened Text
  import opened Rewrite

  /** `t` is spelled out in `s` from position `i`. */
  predicate Spells(s: string, i: nat, t: string) {
    i + |t| <= |s| && forall k :: 0 <= k < |t| ==> s[i + k] == t[k]
  }

  // ---------------------------------------------------------------------
  // \d(\d:\d{2}:\d{2}),(\d{2})\d  ->  \1.\2   (srt2ass.py:143)

  /** A match of `\d(\d:\d{2}:\d{2}),(\d{2})\d` at position `i`: an SRT
      time `HH:MM:SS,mmm`. */
  predicate SrtTimeAt(s: string, i: nat) {
    && i + 12 <= |s|
    && IsDigit(s[i]) && IsDigit(s[i + 1]) && s[i + 2] == ':'
    && IsDigit(s[i + 3]) && IsDigit(s[i + 4]) && s[i + 5] == ':'
    && IsDigit(s[i + 6]) && IsDigit(s[i + 7]) && s[i + 8] == ','
    && IsDigit(s[i + 9]) && IsDigit(s[i + 10]) && IsDigit(s[i + 11])
  }

  /** The replacement `\1.\2`: the time without its first hour digit and
      its last millisecond digit, with a dot for the comma. */
  function AssTime(s: string, i: nat): string
    requires SrtTimeAt(s, i)
  {
    [s[i + 1], s[i + 2], s[i + 3], s[i + 4], s[i + 5], s[i + 6], s[i + 7], '.', s[i + 9], s[i + 10]]
  }

  function TimeMatch(s: string, i: nat): Option<(string, nat)> {
    if SrtTimeAt(s, i) then Some((AssTime(s, i), i + 12)) else None
  }

  /** `re.sub(...)` with the time pattern. A text without a comma, or
      without a colon, holds no time and comes through unchanged. */
  function TruncateTimes(s: string): (r: string)
    ensures ',' !in s || ':' !in s ==> r == s
  {
    NoTimeWithout(s);
    Sub(TimeMatch, s)
  }

  /** The time pattern looks only at the text from the match on. */
  lemma TimesLocal(a: string, b: string)
    ensures Local(TimeMatch, a, b)
  {
    forall j | 0 <= j < |b| ensures LocalAt(TimeMatch, a, b, j) {
      if j + 12 <= |b| {
        assert forall m :: j <= m < j + 12 ==> (a + b)[|a| + m] == b[m];
      }
    }
  }

  /** A time at the front of a text. */
  lemma TimeAtFront(t: string, b: string)
    requires |t| == 12 && SrtTimeAt(t, 0)
    ensures TimeMatch(t + b, 0) == Some((AssTime(t, 0), 12))
  {
    assert forall m :: 0 <= m < 12 ==> (t + b)[m] == t[m];
  }

  /** A text without a comma, or without a colon, holds no time. */
  lemma NoTimeWithout(s: string)
    ensures ',' !in s || ':' !in s ==> NoMatch(TimeMatch, s, 0, |s|)
  {
    if ',' !in s || ':' !in s {
      forall p | 0 <= p < |s| ensures TimeMatch(s, p).None? {
        if p + 12 <= |s| {
          assert s[p + 2] in s && s[p + 8] in s;
        }
      }
    }
  }

  // ---------------------------------------------------------------------
  // \s+-->\s+  ->  ,   (srt2ass.py:144)

  /** The length of the run of whitespace at position `i`. */
  function SpaceRun(s: string, i: nat): (n: nat)
    requires i <= |s|
    ensures i + n <= |s|
    decreases |s| - i
  {
    if i < |s| && IsSpace(s[i]) then 1 + SpaceRun(s, i + 1) else 0
  }

  /** A match of `\s+-->\s+` at position `i`: a run of whitespace, the
      arrow and at least one more whitespace character. Backtracking into
      the first run cannot help, as the arrow must follow whitespace that
      is not followed by more. */
  predicate ArrowAt(s: string, i: nat) {
    && i < |s| && IsSpace(s[i])
    && var j := i + SpaceRun(s, i);
    && j + 4 <= |s| && s[j] == '-' && s[j + 1] == '-' && s[j + 2] == '>' && IsSpace(s[j + 3])
  }

  /** Where that match ends: both runs are taken whole. */
  function ArrowEnd(s: string, i: nat): (e: nat)
    requires ArrowAt(s, i)
    ensures i < e <= |s|
  {
    var j := i + SpaceRun(s, i);
    j + 3 + SpaceRun(s, j + 3)
  }

  function ArrowMatch(s: string, i: nat): Option<(string, nat)> {
    if ArrowAt(s, i) then Some((",", ArrowEnd(s, i))) else None
  }

  /** `re.sub(...)` with the arrow pattern. A text without `>` holds no
      arrow and comes through unchanged. */
  function ArrowsToCommas(s: string): (r: string)
    ensures '>' !in s ==> r == s
  {
    NoArrowWithout(s);
    Sub(ArrowMatch, s)
  }

  lemma {:induction false} SpaceRunShift(a: string, b: string, k: nat)
    requires k <= |b|
    ensures SpaceRun(a + b, |a| + k) == SpaceRun(b, k)
    decreases |b| - k
  {
    if k < |b| && IsSpace(b[k]) {
      SpaceRunShift(a, b, k + 1);
    }
  }

  lemma ArrowAtShift(a: string, b: string, k: nat)
    requires k < |b|
    ensures LocalAt(ArrowMatch, a, b, k)
  {
    SpaceRunShift(a, b, k);
    var j := k + SpaceRun(b, k);
    if j + 3 <= |b| {
      SpaceRunShift(a, b, j + 3);
    }
  }

  /** The arrow pattern looks only at the text from the match on. */
  lemma ArrowsLocal(a: string, b: string)
    ensures Local(ArrowMatch, a, b)
  {
    forall j | 0 <= j < |b| ensures LocalAt(ArrowMatch, a, b, j) {
      ArrowAtShift(a, b, j);
    }
  }

  /** ` --> ` before a character that is not whitespace. */
  lemma ArrowAtFront(b: string)
    requires b != [] && !IsSpace(b[0])
    ensures ArrowMatch(" --> " + b, 0) == Some((",", 5))
  {
    var s := " --> " + b;
    assert s[1] == '-' && s[4] == ' ' && s[5] == b[0];
    assert SpaceRun(s, 1) == 0 && SpaceRun(s, 5) == 0;
    assert SpaceRun(s, 4) == 1;
  }

  /** A text without `>` holds no arrow. */
  lemma NoArrowWithout(s: string)
    ensures '>' !in s ==> NoMatch(ArrowMatch, s, 0, |s|)
  {
    if '>' !in s {
      forall p | 0 <= p < |s| ensures ArrowMatch(s, p).None? {
      }
    }
  }

  // ---------------------------------------------------------------------
  // <([ubi])>  ->  {\\\\\g<1>1}   and   </([ubi])>  ->  {\\\\\g<1>0}
  // (srt2ass.py:146-147)

  predicate IsStyleLetter(c: char) {
    c == 'b' || c == 'i' || c == 'u'
  }

  /** `<b>`, `<i>` or `<u>` at position `i`, or, when `closing`, `</b>`,
      `</i>` or `</u>`. */
  predicate TagAt(s: string, i: nat, closing: bool) {
    var n := if closing then 2 else 1;
    && i + n + 2 <= |s| && s[i] == '<' && (closing ==> s[i + 1] == '/')
    && IsStyleLetter(s[i + n]) && s[i + n + 1] == '>'
  }

  /** The tag `<x>`, or `</x>` when `closing`. */
  function TagSource(letter: char, closing: bool): string {
    if closing then "</" + [letter] + ">" else "<" + [letter] + ">"
  }

  /** The replacement template is a raw string in which `\\` stands for one
      backslash, so the text emitted holds two of them: `{\\b1}`, `{\\b0}`. */
  function TagText(letter: char, closing: bool): string {
    "{\\\\" + [letter] + (if closing then "0}" else "1}")
  }

  function TagMatch(s: string, i: nat, closing: bool): Option<(string, nat)> {
    var n := if closing then 2 else 1;
    if TagAt(s, i, closing) then Some((TagText(s[i + n], closing), i + n + 2)) else None
  }

  function OpeningTag(s: string, i: nat): Option<(string, nat)> {
    TagMatch(s, i, false)
  }

  function ClosingTag(s: string, i: nat): Option<(string, nat)> {
    TagMatch(s, i, true)
  }

  /** `re.sub(...)` with the opening or the closing tag pattern. A text
      without `<` holds no tag and comes through unchanged. */
  function StyleTags(s: string, closing: bool): (r: string)
    ensures '<' !in s ==> r == s
  {
    NoTagWithout(s);
    if closing then Sub(ClosingTag, s) else Sub(OpeningTag, s)
  }

  /** The tag patterns look only at the text from the match on. */
  lemma TagsLocal(a: string, b: string)
    ensures Local(OpeningTag, a, b) && Local(ClosingTag, a, b)
  {
    forall j | 0 <= j < |b|
      ensures LocalAt(OpeningTag, a, b, j) && LocalAt(ClosingTag, a, b, j)
    {
      if j + 3 <= |b| {
        assert forall m :: j <= m < j + 3 ==> (a + b)[|a| + m] == b[m];
      }
      if j + 4 <= |b| {
        assert (a + b)[|a| + j + 3] == b[j + 3];
      }
    }
  }

  /** A tag at the front of a text. */
  lemma TagAtFront(letter: char, closing: bool, b: string)
    requires IsStyleLetter(letter)
    ensures TagMatch(TagSource(letter, closing) + b, 0, closing)
         == Some((TagText(letter, closing), |TagSource(letter, closing)|))
  {
    var a := TagSource(letter, closing);
    assert forall m :: 0 <= m < |a| ==> (a + b)[m] == a[m];
  }

  /** A text without `<` holds no tag. */
  lemma NoTagWithout(s: string)
    ensures '<' !in s ==> NoMatch(OpeningTag, s, 0, |s|) && NoMatch(ClosingTag, s, 0, |s|)
  {
    if '<' !in s {
      forall p | 0 <= p < |s| ensures OpeningTag(s, p).None? && ClosingTag(s, p).None? {
        assert s[p] in s;
      }
    }
  }

  /** The opening pass turns the opening tag into its override and leaves
      the text and the closing tag as they are. */
  lemma StyleTagsOpening(letter: char, t: string)
    requires IsStyleLetter(letter) && '<' !in t
    ensures StyleTags(TagSource(letter, false) + t + TagSource(letter, true), false)
         == TagText(letter, false) + t + TagSource(letter, true)
  {
    var open, close := TagSource(letter, false), TagSource(letter, true);
    var openText := TagText(letter, false);
    ConcatAssociates(open, t, close);
    TagAtFront(letter, false, t + close);
    TagsLocal(open, t + close);
    SubMatch(OpeningTag, open, t + close, openText);
    forall p | 0 <= p < |t| ensures OpeningTag(t + close, p).None? {
      assert (t + close)[p] == t[p];
    }
    TagsLocal(t, close);
    SubPrefix(OpeningTag, t, close);
    assert close[1] == '/';
    assert NoMatch(OpeningTag, close, 0, |close|);
    ConcatAssociates(openText, t, close);
  }

  /** The closing pass leaves the override and the text as they are and
      turns the closing tag into its override. */
  lemma StyleTagsClosing(letter: char, t: string)
    requires IsStyleLetter(letter) && '<' !in t
    ensures StyleTags(TagText(letter, false) + t + TagSource(letter, true), true)
         == TagText(letter, false) + t + TagText(letter, true)
  {
    var close := TagSource(letter, true);
    var openText := TagText(letter, false);
    forall p | 0 <= p < |openText + t| ensures ClosingTag((openText + t) + close, p).None? {
      if p < |openText| {
        assert ((openText + t) + close)[p] == openText[p];
      } else {
        assert ((openText + t) + close)[p] == t[p - |openText|];
      }
    }
    TagsLocal(openText + t, close);
    SubPrefix(ClosingTag, openText + t, close);
    TagAtFront(letter, true, []);
    TagsLocal(close, []);
    assert close + [] == close;
    SubMatch(ClosingTag, close, [], TagText(letter, true));
  }

  /** A text between an opening and a closing tag of one style comes out
      of the two passes between the two replacements, unchanged. */
  lemma StyleTagsWrap(letter: char, t: string)
    requires IsStyleLetter(letter) && '<' !in t
    ensures StyleTags(StyleTags(TagSource(letter, false) + t + TagSource(letter, true), false), true)
         == TagText(letter, false) + t + TagText(letter, true)
  {
    StyleTagsOpening(letter, t);
    StyleTagsClosing(letter, t);
  }

  // ---------------------------------------------------------------------
  // <font\s+color="?#(\w{2})(\w{2})(\w{2})"?>  ->  {\\\\c&H\\3\\2\\1&}
  // (srt2ass.py:148-152)

  /** The replacement template is a raw string in which every `\\` stands
      for one backslash, so `\\3`, `\\2` and `\\1` are a backslash and a
      digit, not group references: the same text is emitted whatever the
      colour. */
  const FontText: string := "{\\\\c&H\\3\\2\\1&}"

  predicate AllWord(s: string, lo: nat, hi: nat)
    requires lo <= hi <= |s|
  {
    forall k :: lo <= k < hi ==> IsWordChar(s[k])
  }

  /** Where a match of `<font\s+color="?#(\w{2})(\w{2})(\w{2})"?>` at
      position `i` ends, if there is one. An optional quote is taken
      whenever it is there, since leaving it out cannot let the rest
      match. */
  function FontTagEnd(s: string, i: nat): (e: Option<nat>)
    ensures e.Some? ==> i < e.value <= |s|
  {
    if !Spells(s, i, "<font") || i + 5 >= |s| || !IsSpace(s[i + 5]) then None
    else
      var j := i + 5 + SpaceRun(s, i + 5);
      if !Spells(s, j, "color=") || j + 6 >= |s| then None
      else
        var k := j + 6 + (if s[j + 6] == '"' then 1 else 0);
        if k + 8 > |s| || s[k] != '#' || !AllWord(s, k + 1, k + 7) then None
        else
          var m := k + 7 + (if s[k + 7] == '"' then 1 else 0);
          if m < |s| && s[m] == '>' then Some(m + 1) else None
  }

  function FontMatch(s: string, i: nat): Option<(string, nat)> {
    match FontTagEnd(s, i)
    case Some(e) => Some((FontText, e))
    case None => None
  }

  /** `re.sub(...)` with the font-colour pattern. A text without `<`
      holds no font tag and comes through unchanged. */
  function FontColours(s: string): (r: string)
    ensures '<' !in s ==> r == s
  {
    NoFontWithout(s);
    Sub(FontMatch, s)
  }

  /** A text without `<` holds no font tag. */
  lemma NoFontWithout(s: string)
    ensures '<' !in s ==> NoMatch(FontMatch, s, 0, |s|)
  {
    if '<' !in s {
      forall p | 0 <= p < |s| ensures FontMatch(s, p).None? {
        assert s[p] in s && s[p] != "<font"[0];
      }
    }
  }

  /** A colour tag becomes the same constant text whatever colour it
      names. */
  lemma FontTagIgnoresColour(hex: string)
    requires |hex| == 6 && forall k :: 0 <= k < 6 ==> IsWordChar(hex[k])
    ensures FontColours("<font color=\"#" + hex + "\">") == FontText
  {
    var s := "<font color=\"#" + hex + "\">";
    assert |s| == 22;
    assert Spells(s, 0, "<font");
    assert s[5] == ' ' && s[6] == 'c';
    assert SpaceRun(s, 5) == 1;
    assert Spells(s, 6, "color=");
    assert s[12] == '"' && s[13] == '#';
    assert AllWord(s, 14, 20) by {
      forall k | 14 <= k < 20 ensures IsWordChar(s[k]) {
        assert s[k] == hex[k - 14];
      }
    }
    assert s[20] == '"' && s[21] == '>';
    assert FontTagEnd(s, 0) == Some(22);
    assert MatchAt(FontMatch, s, 0) == Some((FontText, 22));
    assert SubFrom(FontMatch, s, 0) == FontText + SubFrom(FontMatch, s, 22);
  }

  /** The last pass deletes a closing font tag and leaves the text before
      it, which holds no tag, as it is. */
  lemma FontCloseDropped(t: string, b: string)
    requires '<' !in t
    ensures ReplaceAll(t + ("</font>" + b), "</font>", "") == t + ReplaceAll(b, "</font>", "")
  {
    DeleteAfterFree(t, b, "</font>");
  }

  // ---------------------------------------------------------------------
  // The passes in the order of srt2ass.py:143-153, `</font>` removed last

  function Restyle(s: string): (r: string)
    ensures '<' !in s && '>' !in s && ',' !in s ==> r == s
  {
    var s1 := TruncateTimes(s);
    var s2 := ArrowsToCommas(s1);
    var s3 := StyleTags(s2, false);
    var s4 := StyleTags(s3, true);
    var s5 := FontColours(s4);
    assert '<' !in s5 ==> !Contains(s5, "</font>") by {
      if '<' !in s5 {
        ContainsFirst(s5, "</font>");
      }
    }
    ReplaceAll(s5, "</font>", "")
  }

  lemma DialoguePrefixNoTime(r: string)
    ensures NoMatch(TimeMatch, "Dialogue: 0," + r, 0, 12)
  {
    var pre := "Dialogue: 0,";
    forall p | 0 <= p < 12 ensures TimeMatch(pre + r, p).None? {
      assert (pre + r)[p] == pre[p];
      if p < 11 {
        assert (pre + r)[p + 1] == pre[p + 1];
      }
    }
  }

  lemma ArrowNoTime(r: string)
    ensures NoMatch(TimeMatch, " --> " + r, 0, 5)
  {
    forall p | 0 <= p < 5 ensures TimeMatch(" --> " + r, p).None? {
      assert (" --> " + r)[p] == " --> "[p];
    }
  }

  /** The timing line of a cue, `HH:MM:SS,mmm --> HH:MM:SS,mmm` inside its
      dialogue prefix, gets both times truncated by the first pass. */
  lemma TimingTimes(t1: string, t2: string)
    requires |t1| == 12 && SrtTimeAt(t1, 0) && |t2| == 12 && SrtTimeAt(t2, 0)
    ensures TruncateTimes("Dialogue: 0," + t1 + " --> " + t2 + ",Default,,0,0,0,,")
         == "Dialogue: 0," + AssTime(t1, 0) + " --> " + AssTime(t2, 0) + ",Default,,0,0,0,,"
  {
    var pre, arrow, post := "Dialogue: 0,", " --> ", ",Default,,0,0,0,,";
    var r2 := arrow + (t2 + post);
    var r1 := t1 + r2;
    DialoguePrefixNoTime(r1);
    TimesLocal(pre, r1);
    SubPrefix(TimeMatch, pre, r1);
    TimeAtFront(t1, r2);
    TimesLocal(t1, r2);
    SubMatch(TimeMatch, t1, r2, AssTime(t1, 0));
    ArrowNoTime(t2 + post);
    TimesLocal(arrow, t2 + post);
    SubPrefix(TimeMatch, arrow, t2 + post);
    TimeAtFront(t2, post);
    TimesLocal(t2, post);
    SubMatch(TimeMatch, t2, post, AssTime(t2, 0));
    NoTimeWithout(post);
    Associate5(pre, t1, arrow, t2, post);
    Associate5(pre, AssTime(t1, 0), arrow, AssTime(t2, 0), post);
  }

  lemma DialoguePrefixNoArrow(r: string)
    ensures NoMatch(ArrowMatch, "Dialogue: 0," + r, 0, 12)
  {
    var pre := "Dialogue: 0,";
    forall p | 0 <= p < 12 ensures ArrowMatch(pre + r, p).None? {
      assert (pre + r)[p] == pre[p];
      if p == 9 {
        assert (pre + r)[10] == '0';
        assert SpaceRun(pre + r, 10) == 0;
      }
    }
  }

  /** No arrow starts inside a text without whitespace. */
  lemma SpacelessNoArrow(x: string, r: string)
    requires forall k :: 0 <= k < |x| ==> !IsSpace(x[k])
    ensures NoMatch(ArrowMatch, x + r, 0, |x|)
  {
    forall p | 0 <= p < |x| ensures ArrowMatch(x + r, p).None? {
      assert (x + r)[p] == x[p];
    }
  }

  /** The arrow of a timing line becomes a comma, and the rest of the line
      comes through. */
  lemma ArrowTail(a2: string)
    requires |a2| == 10 && forall k :: 0 <= k < 10 ==> !IsSpace(a2[k])
    ensures ArrowsToCommas(" --> " + (a2 + ",Default,,0,0,0,,")) == "," + (a2 + ",Default,,0,0,0,,")
  {
    var post := ",Default,,0,0,0,,";
    assert (a2 + post)[0] == a2[0];
    ArrowAtFront(a2 + post);
    ArrowsLocal(" --> ", a2 + post);
    SubMatch(ArrowMatch, " --> ", a2 + post, ",");
    SpacelessNoArrow(a2, post);
    ArrowsLocal(a2, post);
    SubPrefix(ArrowMatch, a2, post);
    NoArrowWithout(post);
  }

  /** The dialogue prefix and the first time come through. */
  lemma ArrowHead(a1: string, r: string)
    requires |a1| == 10 && forall k :: 0 <= k < 10 ==> !IsSpace(a1[k])
    ensures ArrowsToCommas("Dialogue: 0," + (a1 + r)) == "Dialogue: 0," + (a1 + ArrowsToCommas(r))
  {
    var pre := "Dialogue: 0,";
    DialoguePrefixNoArrow(a1 + r);
    ArrowsLocal(pre, a1 + r);
    SubPrefix(ArrowMatch, pre, a1 + r);
    SpacelessNoArrow(a1, r);
    ArrowsLocal(a1, r);
    SubPrefix(ArrowMatch, a1, r);
  }

  /** ... and then its arrow made a comma by the second. */
  lemma TimingArrow(a1: string, a2: string)
    requires |a1| == 10 && |a2| == 10
    requires forall k :: 0 <= k < 10 ==> !IsSpace(a1[k]) && !IsSpace(a2[k])
    ensures ArrowsToCommas("Dialogue: 0," + a1 + " --> " + a2 + ",Default,,0,0,0,,")
         == "Dialogue: 0," + a1 + "," + a2 + ",Default,,0,0,0,,"
  {
    var pre, arrow, post := "Dialogue: 0,", " --> ", ",Default,,0,0,0,,";
    ArrowHead(a1, arrow + (a2 + post));
    ArrowTail(a2);
    Associate5(pre, a1, arrow, a2, post);
    Associate5(pre, a1, ",", a2, post);
  }

  lemma AssTimeNoSpace(t: string)
    requires SrtTimeAt(t, 0)
    ensures forall k :: 0 <= k < |AssTime(t, 0)| ==> !IsSpace(AssTime(t, 0)[k])
  {
  }

  /** Together: `HH:MM:SS,mmm --> HH:MM:SS,mmm` comes out as
      `H:MM:SS.cc,H:MM:SS.cc`, the first hour digit and the last
      millisecond digit cut off (not rounded). */
  lemma TimingLine(t1: string, t2: string)
    requires |t1| == 12 && SrtTimeAt(t1, 0) && |t2| == 12 && SrtTimeAt(t2, 0)
    ensures ArrowsToCommas(TruncateTimes("Dialogue: 0," + t1 + " --> " + t2 + ",Default,,0,0,0,,"))
         == "Dialogue: 0," + AssTime(t1, 0) + "," + AssTime(t2, 0) + ",Default,,0,0,0,,"
  {
    TimingTimes(t1, t2);
    AssTimeNoSpace(t1);
    AssTimeNoSpace(t2);
    TimingArrow(AssTime(t1, 0), AssTime(t2, 0));
  }
}
