/** `srt2ass.py`: conversion of a SubRip subtitle file into an Advanced
    SubStation Alpha script. Reading and writing files, decoding and
    encoding bytes and probing the video are not modelled: the decoder, the
    existence of the input file and the tools' output are parameters. */
module Srt2Ass {
  import opened Text
  import opened CropDetect
  import SrtPaths
  import SrtPasses
  import SrtHeader

  // ---------------------------------------------------------------------
  // file_open: the first encoding of a fixed list that decodes the file

  const Encodings: seq<string> := ["utf-32", "utf-16", "utf-8", "cp1252", "gb2312", "gbk", "big5"]

  /** What the encoding loop leaves behind when it tries the encodings from
      `i` on: the text and name of the first one that decodes, or the empty
      text and the last name when none does. `decode(enc)` is `None` where
      reading the file with `enc` raises UnicodeError. */
  function Decoding(decode: string -> Option<string>, i: nat): (r: (string, string))
    requires i < |Encodings|
    ensures r.1 in Encodings[i..]
    ensures decode(r.1).Some? ==> r.0 == decode(r.1).value
    ensures decode(r.1).None? ==>
              r == ("", "big5") && forall j :: i <= j < |Encodings| ==> decode(Encodings[j]).None?
    decreases |Encodings| - i
  {
    match decode(Encodings[i])
    case Some(text) => (text, Encodings[i])
    case None => if i + 1 == |Encodings| then ("", Encodings[i]) else Decoding(decode, i + 1)
  }

  /** The first encoding that decodes is the one used. */
  lemma {:induction false} DecodingFirst(decode: string -> Option<string>, i: nat, k: nat)
    requires i <= k < |Encodings| && decode(Encodings[k]).Some?
    requires forall j :: i <= j < k ==> decode(Encodings[j]).None?
    ensures Decoding(decode, i) == (decode(Encodings[k]).value, Encodings[k])
    decreases k - i
  {
    if i < k {
      DecodingFirst(decode, i + 1, k);
    }
  }

  /** When nothing decodes, the text is empty and the encoding is `big5`. */
  lemma {:induction false} DecodingNone(decode: string -> Option<string>, i: nat)
    requires i < |Encodings|
    requires forall j :: i <= j < |Encodings| ==> decode(Encodings[j]).None?
    ensures Decoding(decode, i) == ("", "big5")
    decreases |Encodings| - i
  {
    if i + 1 < |Encodings| {
      DecodingNone(decode, i + 1);
    }
  }

  /** `file_open(input_file)`: the loop over the encodings that stops at
      the first one that decodes. */
  method FileOpen(decode: string -> Option<string>) returns (text: string, enc: string)
    ensures (text, enc) == Decoding(decode, 0)
  {
    text := "";
    enc := Encodings[0];
    var i := 0;
    while i < |Encodings|
      invariant 0 <= i <= |Encodings|
      invariant text == ""
      invariant 0 < i ==> enc == Encodings[i - 1]
      invariant forall j :: 0 <= j < i ==> decode(Encodings[j]).None?
    {
      enc := Encodings[i];
      var read := decode(enc);
      if read.Some? {
        text := read.value;
        DecodingFirst(decode, 0, i);
        return;
      }
      i := i + 1;
    }
    DecodingNone(decode, 0);
  }

  // ---------------------------------------------------------------------
  // Normalisation of the decoded text (srt2ass.py:109-114)

  /** A line as the scan receives it: not blank, stripped, and free of line
      breaks and byte-order marks. */
  predicate CleanLine(l: string) {
    l != [] && !IsSpace(l[0]) && !IsSpace(l[|l| - 1]) && Unbroken(l)
  }

  /** No line break, carriage return or byte-order mark. */
  predicate Unbroken(l: string) {
    '\n' !in l && '\r' !in l && '\U{FEFF}' !in l
  }

  /** `[x.strip() for x in parts if x.strip()]` */
  function NonBlankStripped(parts: seq<string>): (lines: seq<string>)
    requires forall i :: 0 <= i < |parts| ==> Unbroken(parts[i])
    ensures |lines| <= |parts|
    ensures forall i :: 0 <= i < |lines| ==> CleanLine(lines[i])
  {
    if parts == [] then []
    else
      var x := Strip(parts[0]);
      assert Unbroken(x) by {
        assert Unbroken(parts[0]);
      }
      (if x != [] then [x] else []) + NonBlankStripped(parts[1..])
  }

  /** The comprehension works piece by piece: it distributes over
      concatenation ... */
  lemma {:induction false} NonBlankStrippedAppend(a: seq<string>, b: seq<string>)
    requires forall i :: 0 <= i < |a| ==> Unbroken(a[i])
    requires forall i :: 0 <= i < |b| ==> Unbroken(b[i])
    ensures forall i :: 0 <= i < |a + b| ==> Unbroken((a + b)[i])
    ensures NonBlankStripped(a + b) == NonBlankStripped(a) + NonBlankStripped(b)
  {
    if a == [] {
      assert a + b == b;
    } else {
      var ab := a + b;
      assert ab[0] == a[0] && ab[1..] == a[1..] + b;
      NonBlankStrippedAppend(a[1..], b);
      var head := if Strip(a[0]) != [] then [Strip(a[0])] else [];
      var x, y := NonBlankStripped(a[1..]), NonBlankStripped(b);
      assert NonBlankStripped(ab) == head + (x + y);
      assert NonBlankStripped(a) == head + x;
      ConcatAssociates(head, x, y);
    }
  }

  /** ... and keeps a single piece, stripped, exactly when stripping leaves
      something. */
  lemma NonBlankStrippedOne(x: string)
    requires Unbroken(x)
    ensures NonBlankStripped([x]) == if Strip(x) == [] then [] else [Strip(x)]
  {
    assert [x][1..] == [];
  }

  /** The stripped lines avoid whatever the pieces avoid. */
  lemma {:induction false} NonBlankStrippedAvoids(parts: seq<string>, t: string)
    requires forall i :: 0 <= i < |parts| ==> Unbroken(parts[i])
    requires forall i :: 0 <= i < |parts| ==> !Contains(parts[i], t)
    ensures forall i :: 0 <= i < |NonBlankStripped(parts)| ==> !Contains(NonBlankStripped(parts)[i], t)
  {
    if parts != [] {
      StripAvoids(parts[0], t);
      NonBlankStrippedAvoids(parts[1..], t);
    }
  }

  /** The byte-order mark to put back in front of the output, and the lines
      of the text: every U+FEFF and every `\r` removed, every `...` turned
      into `…`, blank lines dropped and the others stripped. */
  function Normalise(text: string): (n: (string, seq<string>))
    ensures n.0 == (if '\U{FEFF}' in text then "\U{FEFF}" else "")
    ensures forall i :: 0 <= i < |n.1| ==> CleanLine(n.1[i])
    ensures forall i :: 0 <= i < |n.1| ==> !Contains(n.1[i], "...")
  {
    var withoutBom := if '\U{FEFF}' in text then ReplaceAll(text, "\U{FEFF}", "") else text;
    ReplaceCharGone(text, '\U{FEFF}', "");
    var withoutCr := ReplaceAll(withoutBom, "\r", "");
    ReplaceCharGone(withoutBom, '\r', "");
    var ellipsed := ReplaceAll(withoutCr, "...", "…");
    var parts := Split(ellipsed, '\n');
    assert forall i, c :: 0 <= i < |parts| && c in parts[i] ==> c in ellipsed by {
      forall i, c | 0 <= i < |parts| && c in parts[i] ensures c in ellipsed {
        SplitChars(ellipsed, '\n', i, c);
      }
    }
    TripleGone(withoutCr, '.', "…");
    JoinSplit(ellipsed, '\n');
    JoinAvoids(parts, '\n', "...");
    NonBlankStrippedAvoids(parts, "...");
    (if '\U{FEFF}' in text then "\U{FEFF}" else "", NonBlankStripped(parts))
  }

  /** Lines that are already clean come back unchanged from
      `NonBlankStripped`. */
  lemma {:induction false} NonBlankStrippedClean(lines: seq<string>)
    requires forall i :: 0 <= i < |lines| ==> CleanLine(lines[i])
    ensures (forall i :: 0 <= i < |lines| ==> Unbroken(lines[i])) && NonBlankStripped(lines) == lines
  {
    if lines != [] {
      StripStripped(lines[0]);
      NonBlankStrippedClean(lines[1..]);
    }
  }

  /** Clean lines without `...`, joined by line breaks, normalise back to
      themselves and need no byte-order mark. */
  lemma NormaliseJoin(lines: seq<string>)
    requires forall i :: 0 <= i < |lines| ==> CleanLine(lines[i]) && !Contains(lines[i], "...")
    ensures Normalise(Join(lines, '\n')) == ("", lines)
  {
    var text := Join(lines, '\n');
    forall c | c in text ensures c != '\U{FEFF}' && c != '\r' {
      JoinChars(lines, '\n', c);
    }
    ContainsChar(text, '\r');
    ContainsJoin(lines, '\n', "...");
    if lines == [] {
      assert Split(text, '\n') == [""];
    } else {
      SplitJoin(lines, '\n');
      NonBlankStrippedClean(lines);
    }
  }

  /** Turning the `...` of a clean line into `…` leaves it clean. */
  lemma EllipsisClean(l: string)
    requires CleanLine(l)
    ensures CleanLine(ReplaceAll(l, "...", "…"))
  {
    ReplaceEnds(l, "...", "…");
  }

  /** Any clean lines joined by line breaks normalise to themselves with
      every `...` turned into `…`, and need no byte-order mark. */
  lemma NormaliseLines(lines: seq<string>)
    requires forall i :: 0 <= i < |lines| ==> CleanLine(lines[i])
    ensures Normalise(Join(lines, '\n')) == ("", ReplaceEach(lines, "...", "…"))
  {
    var text := Join(lines, '\n');
    forall c | c in text ensures c != '\U{FEFF}' && c != '\r' {
      JoinChars(lines, '\n', c);
    }
    ContainsChar(text, '\r');
    ReplaceJoin(lines, '\n', "...", "…");
    var each := ReplaceEach(lines, "...", "…");
    forall i | 0 <= i < |each| ensures CleanLine(each[i]) {
      EllipsisClean(lines[i]);
    }
    if lines == [] {
      assert Split(text, '\n') == [""];
    } else {
      SplitJoin(each, '\n');
      NonBlankStrippedClean(each);
    }
  }

  /** What ends a line before its `\n`: `\r` in a file with CRLF line
      ends, nothing otherwise. */
  function LineEnd(crlf: bool): string {
    if crlf then "\r" else ""
  }

  /** Each line followed by the line end. */
  function Ended(lines: seq<string>, crlf: bool): (r: seq<string>)
    ensures |r| == |lines|
    ensures forall i :: 0 <= i < |lines| ==> r[i] == lines[i] + LineEnd(crlf)
  {
    if lines == [] then [] else [lines[0] + LineEnd(crlf)] + Ended(lines[1..], crlf)
  }

  /** A line of a file that is either empty or clean, and holds no `...`. */
  predicate BlankOrClean(l: string) {
    (l == [] || CleanLine(l)) && !Contains(l, "...")
  }

  /** Every line is clean and holds no `...`. */
  predicate CleanLines(lines: seq<string>) {
    forall i :: 0 <= i < |lines| ==> CleanLine(lines[i]) && !Contains(lines[i], "...")
  }

  /** Every line is blank or clean and holds no `...`. */
  predicate AllBlankOrClean(lines: seq<string>) {
    forall i :: 0 <= i < |lines| ==> BlankOrClean(lines[i])
  }

  lemma CleanLinesAppend(a: seq<string>, b: seq<string>)
    requires CleanLines(a + b)
    ensures CleanLines(a) && CleanLines(b)
  {
    assert forall i :: 0 <= i < |a| ==> (a + b)[i] == a[i];
    assert forall i :: 0 <= i < |b| ==> (a + b)[|a| + i] == b[i];
  }

  lemma BlankOrCleanAppend(a: seq<string>, b: seq<string>)
    requires AllBlankOrClean(a) && AllBlankOrClean(b)
    ensures AllBlankOrClean(a + b)
  {
    forall i | 0 <= i < |a + b| ensures BlankOrClean((a + b)[i]) {
      if i >= |a| {
        assert (a + b)[i] == b[i - |a|];
      }
    }
  }

  lemma CleanIsBlankOrClean(lines: seq<string>)
    requires CleanLines(lines)
    ensures AllBlankOrClean(lines)
  {
  }

  lemma BlankIsBlankOrClean()
    ensures AllBlankOrClean([""])
  {
    assert !OccursAt("", "...", 0);
  }

  lemma BlankOrCleanUnbroken(lines: seq<string>)
    requires AllBlankOrClean(lines)
    ensures forall i :: 0 <= i < |lines| ==> Unbroken(lines[i])
  {
    forall i | 0 <= i < |lines| ensures Unbroken(lines[i]) {
      assert BlankOrClean(lines[i]);
    }
  }

  /** Removing the carriage returns takes the line end off again. */
  lemma DropCr(l: string, crlf: bool)
    requires '\r' !in l
    ensures ReplaceAll(l + LineEnd(crlf), "\r", "") == l
  {
    ContainsChar(l, '\r');
    assert "\r" == ['\r'];
    if crlf {
      ReplaceCharAppend(l, "\r", '\r', "");
    } else {
      assert l + "" == l;
    }
  }

  /** The empty part that a line break after the last line leaves at the
      end of the text, when there is one. */
  function FinalBreak(final: bool): (r: seq<string>)
    ensures final <==> r != []
    ensures forall i :: 0 <= i < |r| ==> r[i] == ""
  {
    if final then [""] else []
  }

  /** The empty part after a final line break adds no line. */
  lemma FinalBreakDropped(parts: seq<string>, final: bool)
    requires forall i :: 0 <= i < |parts| ==> Unbroken(parts[i])
    ensures forall i :: 0 <= i < |parts + FinalBreak(final)| ==> Unbroken((parts + FinalBreak(final))[i])
    ensures NonBlankStripped(parts + FinalBreak(final)) == NonBlankStripped(parts)
  {
    if final {
      NonBlankStrippedOne("");
      NonBlankStrippedAppend(parts, [""]);
    } else {
      assert parts + [] == parts;
    }
  }

  /** Lines that are each blank or clean, each ended by `\r` or not and
      joined by line breaks, with or without a line break after the last,
      come back from the clean-up as the lines that are not blank, in
      order, and need no byte-order mark. */
  lemma NormaliseBlankOrClean(parts: seq<string>, crlf: bool, final: bool)
    requires parts != [] && AllBlankOrClean(parts)
    ensures forall i :: 0 <= i < |parts| ==> Unbroken(parts[i])
    ensures Normalise(Join(Ended(parts, crlf) + FinalBreak(final), '\n')) == ("", NonBlankStripped(parts))
  {
    var ended := Ended(parts, crlf) + FinalBreak(final);
    var all := parts + FinalBreak(final);
    EndedNoBom(parts, crlf, final);
    EndedDropCr(parts, crlf, final);
    ReplaceJoin(ended, '\n', "\r", "");
    BlankIsBlankOrClean();
    BlankOrCleanAppend(parts, FinalBreak(final));
    ContainsJoin(all, '\n', "...");
    SplitJoin(all, '\n');
    BlankOrCleanUnbroken(parts);
    FinalBreakDropped(parts, final);
  }

  /** The ended lines carry no byte-order mark. */
  lemma EndedNoBom(parts: seq<string>, crlf: bool, final: bool)
    requires AllBlankOrClean(parts)
    ensures '\U{FEFF}' !in Join(Ended(parts, crlf) + FinalBreak(final), '\n')
  {
    var ended := Ended(parts, crlf) + FinalBreak(final);
    forall c | c in Join(ended, '\n') ensures c != '\U{FEFF}' {
      JoinChars(ended, '\n', c);
    }
  }

  /** Removing the carriage returns gives back the lines, and the empty
      part after a final line break. */
  lemma EndedDropCr(parts: seq<string>, crlf: bool, final: bool)
    requires AllBlankOrClean(parts)
    ensures ReplaceEach(Ended(parts, crlf) + FinalBreak(final), "\r", "") == parts + FinalBreak(final)
  {
    var ended := Ended(parts, crlf) + FinalBreak(final);
    var all := parts + FinalBreak(final);
    var each := ReplaceEach(ended, "\r", "");
    forall i | 0 <= i < |all| ensures each[i] == all[i] {
      if i < |parts| {
        assert BlankOrClean(parts[i]);
        DropCr(parts[i], crlf);
      } else {
        DropCr("", false);
      }
    }
  }

  // ---------------------------------------------------------------------
  // The entry scan (srt2ass.py:115-141)

  /** `\d\d:\d\d:\d\d` at position `i`. */
  predicate ClockAt(s: string, i: nat) {
    && i + 8 <= |s|
    && IsDigit(s[i]) && IsDigit(s[i + 1]) && s[i + 2] == ':'
    && IsDigit(s[i + 3]) && IsDigit(s[i + 4]) && s[i + 5] == ':'
    && IsDigit(s[i + 6]) && IsDigit(s[i + 7])
  }

  /** `re.match(r"-?\d\d:\d\d:\d\d", line)`: the line starts with a clock
      time, possibly after a minus sign. */
  predicate IsTimestampStart(line: string) {
    ClockAt(line, 0) || (line != [] && line[0] == '-' && ClockAt(line, 1))
  }

  /** A timestamp line is never taken for an index line. */
  lemma TimestampNotDigits(line: string)
    requires IsTimestampStart(line)
    ensures !IsDigits(line)
  {
    if ClockAt(line, 0) {
      assert !IsDigit(line[2]);
    } else {
      assert !IsDigit(line[0]);
    }
  }

  /** Line `i` opens a new entry: it is all digits and the next line starts
      with a timestamp. */
  predicate IsBoundary(lines: seq<string>, i: nat) {
    i + 1 < |lines| && IsDigits(lines[i]) && IsTimestampStart(lines[i + 1])
  }

  /** The first boundary at or after `i`, or `|lines|` when there is none. */
  function FirstBoundary(lines: seq<string>, i: nat): (b: nat)
    requires i <= |lines|
    ensures i <= b <= |lines|
    decreases |lines| - i
  {
    if i == |lines| || IsBoundary(lines, i) then i else FirstBoundary(lines, i + 1)
  }

  /** The position found is a boundary, unless it is the end. */
  lemma {:induction false} FirstBoundaryFound(lines: seq<string>, i: nat)
    requires i <= |lines|
    ensures FirstBoundary(lines, i) < |lines| ==> IsBoundary(lines, FirstBoundary(lines, i))
    decreases |lines| - i
  {
    if i < |lines| && !IsBoundary(lines, i) {
      FirstBoundaryFound(lines, i + 1);
    }
  }

  /** No boundary comes before the position found. */
  lemma {:induction false} FirstBoundaryIsFirst(lines: seq<string>, i: nat, k: nat)
    requires i <= |lines| && i <= k < FirstBoundary(lines, i)
    ensures !IsBoundary(lines, k)
    decreases |lines| - i
  {
    if k > i {
      FirstBoundaryIsFirst(lines, i + 1, k);
    }
  }

  /** A position that is not a boundary is passed over. */
  lemma BoundaryNotYet(lines: seq<string>, i: nat, k: nat)
    requires i <= k < |lines| && FirstBoundary(lines, i) >= k && !IsBoundary(lines, k)
    ensures FirstBoundary(lines, i) > k
  {
    FirstBoundaryFound(lines, i);
  }

  /** A boundary not passed over is the one found. */
  lemma BoundaryReached(lines: seq<string>, i: nat, k: nat)
    requires i <= k < |lines| && FirstBoundary(lines, i) >= k && IsBoundary(lines, k)
    ensures FirstBoundary(lines, i) == k
  {
    if FirstBoundary(lines, i) > k {
      FirstBoundaryIsFirst(lines, i, k);
    }
  }

  /** So a position with those two properties is the first boundary. */
  lemma FirstBoundaryIs(lines: seq<string>, i: nat, b: nat)
    requires i <= b <= |lines| && (b < |lines| ==> IsBoundary(lines, b))
    requires forall k :: i <= k < b ==> !IsBoundary(lines, k)
    ensures FirstBoundary(lines, i) == b
  {
    FirstBoundaryFound(lines, i);
    if FirstBoundary(lines, i) > b {
      FirstBoundaryIsFirst(lines, i, b);
    }
  }

  /** A timestamp line with every `-0` turned into `0`, between the fixed
      fields of an ASS event. */
  function DialoguePrefix(line: string): string
  {
    "Dialogue: 0," + ReplaceAll(line, "-0", "0") + ",Default,,0,0,0,,"
  }

  /** What line number `j` of an entry (counted from 0, the timestamp line
      included) adds to the entry's text. */
  function Piece(line: string, j: nat): string
  {
    if IsTimestampStart(line) then DialoguePrefix(line)
    else if j < 2 then line
    else "\\N" + line
  }

  /** The accumulated text of the entry made of lines `s` to `e - 1`. */
  function RenderEntry(lines: seq<string>, s: nat, e: nat): string
    requires s <= e <= |lines|
    decreases e
  {
    if e == s then ""
    else RenderEntry(lines, s, e - 1) + Piece(lines[e - 1], e - 1 - s)
  }

  /** What a boundary adds to the output: the entry and a line break, or
      nothing for an empty entry. */
  function Flush(acc: string): string
  {
    if acc == "" then "" else acc + "\n"
  }

  /** The output for the lines from `s` on, where an entry opens at `s`:
      each entry is flushed at the next boundary, and the last one always,
      followed by a line break. */
  function ScanFrom(lines: seq<string>, s: nat): (out: string)
    requires s <= |lines|
    decreases |lines| - s, 1
  {
    ScanEntry(lines, s, FirstBoundary(lines, s))
  }

  /** The same, for the entry at `s` that ends at `b`. */
  function ScanEntry(lines: seq<string>, s: nat, b: nat): (out: string)
    requires s <= b <= |lines|
    decreases |lines| - s, 0
  {
    if b == |lines| then RenderEntry(lines, s, |lines|) + "\n"
    else Flush(RenderEntry(lines, s, b)) + ScanFrom(lines, b + 1)
  }

  /** The output of the loop always ends with a line break, since the
      last entry is flushed even when it is empty. */
  function Scan(lines: seq<string>): (out: string)
    ensures out != [] && out[|out| - 1] == '\n'
  {
    ScanFromEnds(lines, 0);
    ScanFrom(lines, 0)
  }

  /** Every entry, the last one included, ends in a line break. */
  lemma {:induction false} ScanFromEnds(lines: seq<string>, s: nat)
    requires s <= |lines|
    ensures ScanFrom(lines, s) != [] && ScanFrom(lines, s)[|ScanFrom(lines, s)| - 1] == '\n'
    decreases |lines| - s, 1
  {
    var b := FirstBoundary(lines, s);
    assert ScanFrom(lines, s) == ScanEntry(lines, s, b);
    ScanEntryEnds(lines, s, b);
  }

  lemma {:induction false} ScanEntryEnds(lines: seq<string>, s: nat, b: nat)
    requires s <= b <= |lines|
    ensures ScanEntry(lines, s, b) != [] && ScanEntry(lines, s, b)[|ScanEntry(lines, s, b)| - 1] == '\n'
    decreases |lines| - s, 0
  {
    if b == |lines| {
      LastOfAppend(RenderEntry(lines, s, |lines|), "\n");
    } else {
      ScanFromEnds(lines, b + 1);
      LastOfAppend(Flush(RenderEntry(lines, s, b)), ScanFrom(lines, b + 1));
    }
  }

  /** An entry that ends at a boundary is flushed before the rest. */
  lemma ScanFromFlushes(lines: seq<string>, s: nat, b: nat)
    requires s <= b < |lines| && FirstBoundary(lines, s) == b
    ensures ScanFrom(lines, s) == Flush(RenderEntry(lines, s, b)) + ScanFrom(lines, b + 1)
  {
    assert ScanFrom(lines, s) == ScanEntry(lines, s, b);
  }

  /** The state of the loop after the lines before `ln`: an entry opened at
      `start`, `tmpLines` holds its text and `lineCount` its number of lines,
      and `subLines` followed by the output still due from `start` on is the
      whole output. */
  predicate ScanInvariant(lines: seq<string>, start: nat, ln: nat, lineCount: int, tmpLines: string, subLines: string)
  {
    && start <= ln <= |lines|
    && lineCount == ln - start
    && FirstBoundary(lines, start) >= ln
    && tmpLines == RenderEntry(lines, start, ln)
    && subLines + ScanFrom(lines, start) == Scan(lines)
  }

  lemma ScanBegins(lines: seq<string>)
    ensures ScanInvariant(lines, 0, 0, 0, "", "")
  {
  }

  /** At a boundary the open entry is flushed and a new one opens after it. */
  lemma ScanAtBoundary(lines: seq<string>, start: nat, ln: nat, lineCount: int, tmpLines: string, subLines: string)
    requires ScanInvariant(lines, start, ln, lineCount, tmpLines, subLines)
    requires ln < |lines| && IsBoundary(lines, ln)
    ensures ScanInvariant(lines, ln + 1, ln + 1, 0, "", subLines + Flush(tmpLines))
  {
    BoundaryReached(lines, start, ln);
    ScanFromFlushes(lines, start, ln);
    ConcatAssociates(subLines, Flush(tmpLines), ScanFrom(lines, ln + 1));
  }

  /** Any other line extends the open entry. */
  lemma ScanInside(lines: seq<string>, start: nat, ln: nat, lineCount: int, tmpLines: string, subLines: string)
    requires ScanInvariant(lines, start, ln, lineCount, tmpLines, subLines)
    requires ln < |lines| && !IsBoundary(lines, ln)
    ensures ScanInvariant(lines, start, ln + 1, lineCount + 1, tmpLines + Piece(lines[ln], lineCount), subLines)
  {
    BoundaryNotYet(lines, start, ln);
  }

  /** After the last line the open entry ends the output. */
  lemma ScanAtEnd(lines: seq<string>, start: nat, lineCount: int, tmpLines: string, subLines: string)
    requires ScanInvariant(lines, start, |lines|, lineCount, tmpLines, subLines)
    ensures subLines + (tmpLines + "\n") == Scan(lines)
  {
    assert ScanFrom(lines, start) == ScanEntry(lines, start, |lines|);
  }

  /** The loop over the lines. Looking at the line after a final all-digit
      line raises IndexError; otherwise the result is `Scan(lines)`. The
      source's `ln += 1` at the end of the body rebinds the loop variable for
      nothing and is not modelled. */
  method ScanEntries(lines: seq<string>) returns (r: Result<string, Exception>)
    ensures r == if lines != [] && IsDigits(lines[|lines| - 1]) then Err(IndexError) else Ok(Scan(lines))
  {
    var subLines := "";
    var tmpLines := "";
    var lineCount := 0;
    ghost var start := 0;
    ScanBegins(lines);
    for ln := 0 to |lines|
      invariant ScanInvariant(lines, start, ln, lineCount, tmpLines, subLines)
      invariant ln == |lines| && ln > 0 ==> !IsDigits(lines[ln - 1])
    {
      var line := lines[ln];
      if IsDigits(line) && ln + 1 == |lines| {
        assert lines[|lines| - 1] == line;
        return Err(IndexError);
      }
      if IsDigits(line) && IsTimestampStart(lines[ln + 1]) {
        ScanAtBoundary(lines, start, ln, lineCount, tmpLines, subLines);
        ghost var flushed := subLines + Flush(tmpLines);
        if tmpLines != "" {
          subLines := subLines + (tmpLines + "\n");
        }
        assert subLines == flushed;
        tmpLines := "";
        lineCount := 0;
        start := ln + 1;
      } else {
        ScanInside(lines, start, ln, lineCount, tmpLines, subLines);
        tmpLines := tmpLines + Piece(line, lineCount);
        lineCount := lineCount + 1;
      }
    }
    ScanAtEnd(lines, start, lineCount, tmpLines, subLines);
    subLines := subLines + (tmpLines + "\n");
    return Ok(subLines);
  }

  // ---------------------------------------------------------------------
  // What the scan makes of a file of well-formed SubRip cues

  /** Lines `a` to `e - 1` joined by `\N`, the ASS line break. */
  function Marked(lines: seq<string>, a: nat, e: nat): string
    requires a <= e <= |lines|
    decreases e
  {
    if e == a then ""
    else if e == a + 1 then lines[a]
    else Marked(lines, a, e - 1) + ("\\N" + lines[e - 1])
  }

  /** The lines of a cue's text joined by `\N`. */
  function JoinMarked(texts: seq<string>): string {
    Marked(texts, 0, |texts|)
  }

  /** What a line that is not a timestamp adds to an entry. */
  lemma PieceText(x: string, j: nat)
    requires !IsTimestampStart(x)
    ensures Piece(x, j) == if j < 2 then x else "\\N" + x
  {
  }

  /** One more line of an entry adds its piece. */
  lemma RenderStep(lines: seq<string>, s: nat, e: nat)
    requires s < e <= |lines|
    ensures RenderEntry(lines, s, e) == RenderEntry(lines, s, e - 1) + Piece(lines[e - 1], e - 1 - s)
  {
  }

  /** One more line after the first adds a `\N` and the line. */
  lemma MarkedStep(lines: seq<string>, a: nat, e: nat)
    requires a + 1 < e <= |lines|
    ensures Marked(lines, a, e) == Marked(lines, a, e - 1) + ("\\N" + lines[e - 1])
  {
  }

  /** None of lines `a` to `e - 1` starts with a timestamp (stated line by
      line from the end, so that the verifier looks at one at a time). */
  predicate NoTimestamps(lines: seq<string>, a: nat, e: nat)
    requires a <= e <= |lines|
    decreases e
  {
    e == a || (!IsTimestampStart(lines[e - 1]) && NoTimestamps(lines, a, e - 1))
  }

  /** After its first line, an entry of lines that are not timestamps
      grows by the lines joined by `\N`. */
  lemma {:induction false} EntryTail(lines: seq<string>, s: nat, e: nat)
    requires s < e <= |lines| && NoTimestamps(lines, s + 1, e)
    ensures RenderEntry(lines, s, e) == RenderEntry(lines, s, s + 1) + Marked(lines, s + 1, e)
    decreases e
  {
    if e == s + 1 {
      assert Marked(lines, s + 1, e) == "";
    } else {
      EntryTail(lines, s, e - 1);
      var x := lines[e - 1];
      PieceText(x, e - 1 - s);
      RenderStep(lines, s, e);
      if e == s + 2 {
        assert Marked(lines, s + 1, e - 1) == "" && Marked(lines, s + 1, e) == x;
      } else {
        MarkedStep(lines, s + 1, e);
        ConcatAssociates(RenderEntry(lines, s, s + 1), Marked(lines, s + 1, e - 1), "\\N" + x);
      }
    }
  }

  /** The first line of an entry that opens with a timestamp is its
      dialogue prefix. */
  lemma FirstPiece(lines: seq<string>, s: nat)
    requires s < |lines| && IsTimestampStart(lines[s])
    ensures RenderEntry(lines, s, s + 1) == DialoguePrefix(lines[s])
  {
    assert RenderEntry(lines, s, s + 1) == "" + Piece(lines[s], 0);
  }

  /** An entry made of a timestamp line and text lines that are not, renders
      as one dialogue event whose text is the text lines joined by `\N`. */
  lemma EntryText(lines: seq<string>, s: nat, e: nat)
    requires s < e <= |lines| && IsTimestampStart(lines[s]) && NoTimestamps(lines, s + 1, e)
    ensures RenderEntry(lines, s, e) == DialoguePrefix(lines[s]) + Marked(lines, s + 1, e)
  {
    FirstPiece(lines, s);
    EntryTail(lines, s, e);
  }

  /** Lines after those joined do not change the join. */
  lemma {:induction false} MarkedPrefix(a: seq<string>, b: seq<string>, x: nat, e: nat)
    requires x <= e <= |a|
    ensures Marked(a + b, x, e) == Marked(a, x, e)
    decreases e
  {
    if e > x {
      assert (a + b)[e - 1] == a[e - 1];
      if e > x + 1 {
        MarkedPrefix(a, b, x, e - 1);
      }
    }
  }

  /** Nor do lines before them. */
  lemma {:induction false} MarkedShift(a: seq<string>, b: seq<string>, x: nat, e: nat)
    requires x <= e <= |b|
    ensures Marked(a + b, |a| + x, |a| + e) == Marked(b, x, e)
    decreases e
  {
    if e > x {
      assert (a + b)[|a| + e - 1] == b[e - 1];
      if e > x + 1 {
        MarkedShift(a, b, x, e - 1);
      }
    }
  }

  lemma {:induction false} NoTimestampsPrefix(a: seq<string>, b: seq<string>, x: nat, e: nat)
    requires x <= e <= |a| && NoTimestamps(a, x, e)
    ensures NoTimestamps(a + b, x, e)
    decreases e
  {
    if e > x {
      assert (a + b)[e - 1] == a[e - 1];
      NoTimestampsPrefix(a, b, x, e - 1);
    }
  }

  lemma {:induction false} NoTimestampsShift(a: seq<string>, b: seq<string>, x: nat, e: nat)
    requires x <= e <= |b| && NoTimestamps(b, x, e)
    ensures NoTimestamps(a + b, |a| + x, |a| + e)
    decreases e
  {
    if e > x {
      assert (a + b)[|a| + e - 1] == b[e - 1];
      NoTimestampsShift(a, b, x, e - 1);
    }
  }

  /** Lines before an entry do not change it. */
  lemma {:induction false} RenderEntryShift(a: seq<string>, b: seq<string>, s: nat, e: nat)
    requires s <= e <= |b|
    ensures RenderEntry(a + b, |a| + s, |a| + e) == RenderEntry(b, s, e)
    decreases e
  {
    if e > s {
      RenderEntryShift(a, b, s, e - 1);
      assert (a + b)[|a| + e - 1] == b[e - 1];
    }
  }

  /** Whether a line opens an entry depends on it and the next line only. */
  lemma BoundaryShift(a: seq<string>, b: seq<string>, i: nat)
    requires i < |b|
    ensures IsBoundary(a + b, |a| + i) == IsBoundary(b, i)
  {
    assert (a + b)[|a| + i] == b[i];
    if i + 1 < |b| {
      assert (a + b)[|a| + i + 1] == b[i + 1];
    }
  }

  lemma {:induction false} FirstBoundaryShift(a: seq<string>, b: seq<string>, i: nat)
    requires i <= |b|
    ensures FirstBoundary(a + b, |a| + i) == |a| + FirstBoundary(b, i)
    decreases |b| - i
  {
    if i < |b| {
      BoundaryShift(a, b, i);
      if !IsBoundary(b, i) {
        FirstBoundaryShift(a, b, i + 1);
      }
    }
  }

  /** The output for the lines from an entry on does not depend on the
      lines before it. */
  lemma {:induction false} ScanShift(a: seq<string>, b: seq<string>, s: nat)
    requires s <= |b|
    ensures ScanFrom(a + b, |a| + s) == ScanFrom(b, s)
    decreases |b| - s, 1
  {
    var e := FirstBoundary(b, s);
    FirstBoundaryShift(a, b, s);
    assert ScanFrom(a + b, |a| + s) == ScanEntry(a + b, |a| + s, |a| + e);
    ScanEntryShift(a, b, s, e);
  }

  lemma {:induction false} ScanEntryShift(a: seq<string>, b: seq<string>, s: nat, e: nat)
    requires s <= e <= |b|
    ensures ScanEntry(a + b, |a| + s, |a| + e) == ScanEntry(b, s, e)
    decreases |b| - s, 0
  {
    RenderEntryShift(a, b, s, e);
    if e < |b| {
      ScanShift(a, b, e + 1);
    }
  }

  /** A SubRip cue: its number, its timing line and its lines of text. */
  datatype Cue = Cue(index: string, time: string, text: seq<string>)

  /** The number is digits, the timing line starts with a clock time and no
      line of text does. */
  predicate WellFormedCue(c: Cue) {
    && IsDigits(c.index)
    && IsTimestampStart(c.time)
    && NoTimestamps(c.text, 0, |c.text|)
  }

  function CueLines(c: Cue): seq<string> {
    [c.index, c.time] + c.text
  }

  /** The lines of a file made of the cues, one after the other. */
  function FileLines(cues: seq<Cue>): seq<string>
  {
    if cues == [] then [] else CueLines(cues[0]) + FileLines(cues[1..])
  }

  /** The lines of a SubRip file made of the cues, each cue followed by a
      blank line when `blank`. */
  function SrtLines(cues: seq<Cue>, blank: bool): seq<string>
  {
    if cues == [] then []
    else CueLines(cues[0]) + (if blank then [""] else []) + SrtLines(cues[1..], blank)
  }

  /** The text of that file, with CRLF line ends when `crlf`, and with a
      line end after the last line when `final`. */
  function SrtText(cues: seq<Cue>, crlf: bool, blank: bool, final: bool): string {
    Join(Ended(SrtLines(cues, blank), crlf) + FinalBreak(final), '\n')
  }

  /** Without blank lines and carriage returns the text is the lines of
      the cues joined by line breaks. */
  lemma {:induction false} SrtTextPlain(cues: seq<Cue>)
    ensures SrtText(cues, false, false, false) == Join(FileLines(cues), '\n')
  {
    SrtLinesPlain(cues);
    var lines := FileLines(cues);
    assert Ended(lines, false) + [] == Ended(lines, false);
    assert Ended(lines, false) == lines by {
      forall i | 0 <= i < |lines| ensures Ended(lines, false)[i] == lines[i] {
        assert lines[i] + "" == lines[i];
      }
    }
  }

  lemma {:induction false} SrtLinesPlain(cues: seq<Cue>)
    ensures SrtLines(cues, false) == FileLines(cues)
  {
    if cues != [] {
      SrtLinesPlain(cues[1..]);
      assert CueLines(cues[0]) + [] == CueLines(cues[0]);
    }
  }

  /** The blank lines between the cues are dropped by the clean-up, and the
      lines of the cues are kept as they are. */
  lemma {:induction false} SrtLinesKept(cues: seq<Cue>, blank: bool)
    requires CleanLines(FileLines(cues))
    ensures AllBlankOrClean(SrtLines(cues, blank))
    ensures forall i :: 0 <= i < |SrtLines(cues, blank)| ==> Unbroken(SrtLines(cues, blank)[i])
    ensures NonBlankStripped(SrtLines(cues, blank)) == FileLines(cues)
  {
    if cues == [] {
    } else {
      var head, rest := CueLines(cues[0]), FileLines(cues[1..]);
      var sep: seq<string> := if blank then [""] else [];
      assert FileLines(cues) == head + rest;
      CleanLinesAppend(head, rest);
      SrtLinesKept(cues[1..], blank);
      assert SrtLines(cues, blank) == head + sep + SrtLines(cues[1..], blank);
      KeptStep(head, sep, SrtLines(cues[1..], blank), rest);
    }
  }

  /** One cue's lines followed by a blank line or none: the blank line is
      dropped and the cue's lines are kept. */
  lemma KeptFront(head: seq<string>, sep: seq<string>)
    requires CleanLines(head) && (sep == [] || sep == [""])
    ensures AllBlankOrClean(head + sep)
    ensures forall i :: 0 <= i < |head + sep| ==> Unbroken((head + sep)[i])
    ensures NonBlankStripped(head + sep) == head
  {
    CleanIsBlankOrClean(head);
    BlankIsBlankOrClean();
    BlankOrCleanAppend(head, sep);
    BlankOrCleanUnbroken(head);
    BlankOrCleanUnbroken(sep);
    BlankOrCleanUnbroken(head + sep);
    NonBlankStrippedClean(head);
    NonBlankStrippedAppend(head, sep);
    if sep == [""] {
      NonBlankStrippedOne("");
    } else {
      assert head + [] == head;
    }
  }

  /** The same in front of lines that are blank or clean. */
  lemma KeptStep(head: seq<string>, sep: seq<string>, tail: seq<string>, rest: seq<string>)
    requires CleanLines(head) && (sep == [] || sep == [""])
    requires AllBlankOrClean(tail)
    requires forall i :: 0 <= i < |tail| ==> Unbroken(tail[i])
    requires NonBlankStripped(tail) == rest
    ensures AllBlankOrClean(head + sep + tail)
    ensures forall i :: 0 <= i < |head + sep + tail| ==> Unbroken((head + sep + tail)[i])
    ensures NonBlankStripped(head + sep + tail) == head + rest
  {
    KeptFront(head, sep);
    var front := head + sep;
    BlankOrCleanAppend(front, tail);
    BlankOrCleanUnbroken(front + tail);
    NonBlankStrippedAppend(front, tail);
  }

  /** The event line of a cue. */
  function CueEvent(c: Cue): string {
    DialoguePrefix(c.time) + JoinMarked(c.text)
  }

  /** One event line per cue, each ended by a line break. */
  function Events(cues: seq<Cue>): string
  {
    if cues == [] then "" else CueEvent(cues[0]) + "\n" + Events(cues[1..])
  }

  /** A file of cues starts with the first cue's number and timing line. */
  lemma FileLinesStart(cues: seq<Cue>)
    requires cues != []
    ensures |FileLines(cues)| >= 2
    ensures FileLines(cues)[0] == cues[0].index && FileLines(cues)[1] == cues[0].time
  {
    assert FileLines(cues) == CueLines(cues[0]) + FileLines(cues[1..]);
  }

  /** Lines followed by lines that are not timestamps open no entry. */
  lemma {:induction false} WalkNoBoundary(lines: seq<string>, a: nat, e: nat)
    requires a <= e < |lines| && NoTimestamps(lines, a + 1, e + 1)
    ensures FirstBoundary(lines, a) == FirstBoundary(lines, e)
    decreases e
  {
    if e > a {
      WalkNoBoundary(lines, a, e - 1);
      assert !IsBoundary(lines, e - 1);
    }
  }

  /** A number is not a timestamp. */
  lemma DigitsNotTimestamp(x: string)
    requires IsDigits(x)
    ensures !IsTimestampStart(x)
  {
    if IsTimestampStart(x) {
      TimestampNotDigits(x);
    }
  }

  /** An entry whose text lines are followed by a number and a timestamp
      ends at that number. */
  lemma EntryEndsAtNumber(lines: seq<string>, m: nat)
    requires 2 <= m && m + 1 < |lines| && NoTimestamps(lines, 2, m)
    requires IsDigits(lines[m]) && IsTimestampStart(lines[m + 1])
    ensures FirstBoundary(lines, 1) == m
  {
    DigitsNotTimestamp(lines[m]);
    assert NoTimestamps(lines, 2, m + 1);
    WalkNoBoundary(lines, 1, m);
  }

  /** An entry whose text lines end the file ends with it. */
  lemma EntryEndsFile(lines: seq<string>)
    requires 2 <= |lines| && NoTimestamps(lines, 2, |lines|)
    ensures FirstBoundary(lines, 1) == |lines|
  {
    WalkNoBoundary(lines, 1, |lines| - 1);
  }

  /** Within the file, no text line of a cue is a timestamp. */
  lemma CueTextLines(c: Cue, rest: seq<string>, lines: seq<string>)
    requires WellFormedCue(c) && lines == CueLines(c) + rest
    ensures |lines| >= |CueLines(c)| >= 2 && NoTimestamps(lines, 2, |CueLines(c)|)
  {
    var head, text := [c.index, c.time], c.text;
    NoTimestampsShift(head, text, 0, |text|);
    NoTimestampsPrefix(head + text, rest, |head|, |head| + |text|);
  }

  /** Within the file, the text lines of a cue join as they do alone. */
  lemma CueTextJoined(c: Cue, rest: seq<string>, lines: seq<string>)
    requires lines == CueLines(c) + rest
    ensures |lines| >= |CueLines(c)| >= 2 && Marked(lines, 2, |CueLines(c)|) == JoinMarked(c.text)
  {
    var head, text := [c.index, c.time], c.text;
    MarkedShift(head, text, 0, |text|);
    MarkedPrefix(head + text, rest, |head|, |head| + |text|);
  }

  /** The cue's own lines render as its event. */
  lemma CueEntry(c: Cue, rest: seq<string>, lines: seq<string>)
    requires WellFormedCue(c) && lines == CueLines(c) + rest
    ensures RenderEntry(lines, 1, |CueLines(c)|) == CueEvent(c)
  {
    CueTextLines(c, rest, lines);
    assert lines[1] == c.time;
    EntryText(lines, 1, |CueLines(c)|);
    CueTextJoined(c, rest, lines);
  }

  /** The entry opened by a cue's timing line ends where the next cue's
      number is, or at the end of the file. */
  lemma CueBoundary(c: Cue, rest: seq<string>, lines: seq<string>)
    requires WellFormedCue(c) && lines == CueLines(c) + rest
    requires rest == [] || (|rest| >= 2 && IsDigits(rest[0]) && IsTimestampStart(rest[1]))
    ensures FirstBoundary(lines, 1) == |CueLines(c)|
  {
    var m := |CueLines(c)|;
    CueTextLines(c, rest, lines);
    if rest != [] {
      assert lines[m] == rest[0] && lines[m + 1] == rest[1];
      EntryEndsAtNumber(lines, m);
    } else {
      assert |lines| == m;
      EntryEndsFile(lines);
    }
  }

  /** From the first cue's timing line on, the scan emits one event per
      cue. */
  lemma {:induction false} ScanCuesFrom(cues: seq<Cue>)
    requires cues != [] && forall i :: 0 <= i < |cues| ==> WellFormedCue(cues[i])
    ensures ScanFrom(FileLines(cues), 1) == Events(cues)
    decreases |cues|
  {
    var c := cues[0];
    var a := CueLines(c);
    var rest := FileLines(cues[1..]);
    var lines := a + rest;
    assert FileLines(cues) == lines;
    if cues[1..] != [] {
      FileLinesStart(cues[1..]);
    }
    CueBoundary(c, rest, lines);
    CueEntry(c, rest, lines);
    if cues[1..] == [] {
      assert ScanFrom(lines, 1) == ScanEntry(lines, 1, |a|);
    } else {
      ScanFromFlushes(lines, 1, |a|);
      ScanShift(a, rest, 1);
      ScanCuesFrom(cues[1..]);
    }
  }

  /** A file of well-formed cues becomes one dialogue event per cue, in
      order: the timing line (with `-0` turned into `0`) between the fixed
      fields, then the text lines joined by `\N`. */
  lemma ScanCues(cues: seq<Cue>)
    requires cues != [] && forall i :: 0 <= i < |cues| ==> WellFormedCue(cues[i])
    ensures Scan(FileLines(cues)) == Events(cues)
  {
    var lines := FileLines(cues);
    FileLinesStart(cues);
    FirstBoundaryIs(lines, 0, 0);
    ScanFromFlushes(lines, 0, 0);
    ScanCuesFrom(cues);
  }

  // ---------------------------------------------------------------------
  // srt2ass(input_file, sub_offset, sub_size, ffmpeg_detect)

  /** How a call of `srt2ass` ends: the input is returned as it is, the
      input file is missing (the function prints a message and returns
      `None`), an exception escapes, or the script is written. A written
      script is described by the name of the file, the byte-order mark put
      in front, the style the header carries, the event lines after it, the
      encoding the text is written in and the path that is returned. */
  datatype Conversion =
    | AlreadyAss(path: string)
    | Missing
    | Failed(error: Exception)
    | Written(outputFile: string, bom: string, header: SrtHeader.Style, events: string,
              encoding: string, returned: string)

  /** The outcome of `srt2ass` for an input that exists where `isFile` says,
      that decodes to `decoded` (the text and encoding `file_open` returns)
      and a video on which the two tools print the given texts. */
  function Converted(inputFile: string, isFile: bool, decoded: (string, string),
                     offset: Option<int>, size: Option<int>,
                     ffmpegOutput: string, ffprobeOutput: string): (r: Conversion)
    ensures r.AlreadyAss? <==> Contains(inputFile, ".ass")
    ensures r.Missing? <==> !Contains(inputFile, ".ass") && !isFile
  {
    var subOffset := if offset.None? then 24 else offset.value;
    var subSize := if size.None? then 16 else size.value;
    if Contains(inputFile, ".ass") then AlreadyAss(inputFile)
    else if !isFile then Missing
    else
      var (bom, lines) := Normalise(decoded.0);
      if lines != [] && IsDigits(lines[|lines| - 1]) then Failed(IndexError)
      else
        var events := SrtPasses.Restyle(Scan(lines));
        var hdr := SrtPaths.IsHdr(inputFile);
        match SrtHeader.HeaderFrom(LastCrop(ffmpegOutput), ParseInt(Strip(ffprobeOutput)), subOffset, subSize, hdr)
        case Err(e) => Failed(e)
        case Ok(st) =>
          var outputFile := SrtPaths.OutputName(inputFile);
          Written(outputFile, bom, st, events, decoded.1, SrtPaths.Escape(outputFile))
  }

  /** `srt2ass`, step by step: the defaults, the two early returns, the
      decoding, the clean-up of the text, the name of the output, the entry
      scan, the six substitutions, the HDR test and `get_header` on the
      probe object. Writing the encoded text to the file is not modelled. */
  method Convert(inputFile: string, isFile: bool, decode: string -> Option<string>,
                 offset: Option<int>, size: Option<int>,
                 media: MediaInformation, ffmpegOutput: string, ffprobeOutput: string)
    returns (r: Conversion)
    modifies media`barSize, media`resX, media`resY
    ensures r == Converted(inputFile, isFile, Decoding(decode, 0), offset, size, ffmpegOutput, ffprobeOutput)
    ensures r.Written? ==>
              && LastCrop(ffmpegOutput).Some?
              && media.barSize == Some(LastCrop(ffmpegOutput).value.1)
              && media.resX == ParseInt(Strip(ffprobeOutput))
              && media.resY == Some(FullHeight(LastCrop(ffmpegOutput).value))
    ensures !r.Written? ==>
              media.barSize == old(media.barSize) && media.resX == old(media.resX) && media.resY == old(media.resY)
  {
    var subOffset := 24;
    if offset.Some? {
      subOffset := offset.value;
    }
    var subSize := 16;
    if size.Some? {
      subSize := size.value;
    }
    if Contains(inputFile, ".ass") {
      return AlreadyAss(inputFile);
    }
    if !isFile {
      return Missing;
    }
    var tmp, encoding := FileOpen(decode);
    var normalised := Normalise(tmp);
    var utf8Bom, lines := normalised.0, normalised.1;
    var outputFile := SrtPaths.OutputName(inputFile);
    var scanned := ScanEntries(lines);
    if scanned.Err? {
      return Failed(scanned.error);
    }
    var subLines := scanned.value;
    subLines := SrtPasses.TruncateTimes(subLines);
    subLines := SrtPasses.ArrowsToCommas(subLines);
    subLines := SrtPasses.StyleTags(subLines, false);
    subLines := SrtPasses.StyleTags(subLines, true);
    subLines := SrtPasses.FontColours(subLines);
    subLines := ReplaceAll(subLines, "</font>", "");
    var isHdr := SrtPaths.IsHdr(inputFile);
    var header := SrtHeader.GetHeader(media, ffmpegOutput, ffprobeOutput, subOffset, subSize, isHdr);
    if header.Err? {
      return Failed(header.error);
    }
    return Written(outputFile, utf8Bom, header.value, subLines, encoding, SrtPaths.Escape(outputFile));
  }

  /** A SubRip file of well-formed cues with clean lines, whose last line is
      not a number, becomes a script of one restyled event per cue, without
      a byte-order mark, written under the output name, once the header can
      be built. This holds with or without a blank line after each cue,
      with or without CRLF line ends, and with or without a line end after
      the last line. */
  lemma ConvertedCues(inputFile: string, cues: seq<Cue>, crlf: bool, blank: bool, final: bool, encoding: string,
                      offset: Option<int>, size: Option<int>,
                      ffmpegOutput: string, ffprobeOutput: string, st: SrtHeader.Style)
    requires !Contains(inputFile, ".ass")
    requires cues != [] && forall i :: 0 <= i < |cues| ==> WellFormedCue(cues[i])
    requires CleanLines(FileLines(cues))
    requires var lines := FileLines(cues); |lines| > 0 && !IsDigits(lines[|lines| - 1])
    requires SrtHeader.HeaderFrom(LastCrop(ffmpegOutput), ParseInt(Strip(ffprobeOutput)),
                                  if offset.None? then 24 else offset.value,
                                  if size.None? then 16 else size.value,
                                  SrtPaths.IsHdr(inputFile)) == Ok(st)
    ensures var outputFile := SrtPaths.OutputName(inputFile);
            Converted(inputFile, true, (SrtText(cues, crlf, blank, final), encoding), offset, size, ffmpegOutput, ffprobeOutput)
            == Written(outputFile, "", st, SrtPasses.Restyle(Events(cues)), encoding, SrtPaths.Escape(outputFile))
  {
    SrtLinesKept(cues, blank);
    NormaliseBlankOrClean(SrtLines(cues, blank), crlf, final);
    ScanCues(cues);
  }

  /** A written script carries the byte-order mark exactly when the text
      had one, and the encoding it was decoded with. It goes under the
      output name, which the returned path reads back as through the
      undoubling of backslashes and slashes. A failure is the IndexError
      of a trailing number line or of a missing crop line, or the
      ValueError of a width that is not an integer. */
  lemma ConvertedOutcome(inputFile: string, isFile: bool, decoded: (string, string),
                         offset: Option<int>, size: Option<int>,
                         ffmpegOutput: string, ffprobeOutput: string, r: Conversion)
    requires r == Converted(inputFile, isFile, decoded, offset, size, ffmpegOutput, ffprobeOutput)
    ensures r.Failed? ==> r.error == IndexError || r.error == ValueError
    ensures r.Written? ==>
              && r.outputFile == SrtPaths.OutputName(inputFile)
              && SrtPaths.Undoubled(r.returned) == r.outputFile
              && r.bom == (if '\U{FEFF}' in decoded.0 then "\U{FEFF}" else "")
              && r.encoding == decoded.1
  {
    SrtPaths.EscapeRoundTrip(SrtPaths.OutputName(inputFile));
  }
}
