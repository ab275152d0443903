/** `ffmpeg_crop_detect.py`: the `GetMediaInformation` object, which keeps
    the path of a video and the geometry recovered from `ffmpeg cropdetect`
    and `ffprobe`. Running the two tools is not modelled: their textual
    output is passed in. */
module CropDetect {
  import opened Text

  // ---------------------------------------------------------------------
  // The pattern r"^.*crop=\d+:(\d+):.*:(\d+)$" under re.MULTILINE, one line
  // at a time. Its leading `^.*` and trailing `$` keep each match inside
  // one line, so `findall` yields at most one pair of groups per line.

  /** Length of the run of digits that starts at `i`. */
  function DigitRun(s: string, i: nat): (n: nat)
    requires i <= |s|
    ensures i + n <= |s|
    ensures forall j :: i <= j < i + n ==> IsDigit(s[j])
    ensures i + n < |s| ==> !IsDigit(s[i + n])
    decreases |s| - i
  {
    if i < |s| && IsDigit(s[i]) then 1 + DigitRun(s, i + 1) else 0
  }

  /** Length of the run of digits that ends the line. */
  function TrailingDigits(s: string): (n: nat)
    ensures n <= |s|
    ensures forall j :: |s| - n <= j < |s| ==> IsDigit(s[j])
    ensures n < |s| ==> !IsDigit(s[|s| - n - 1])
    decreases |s|
  {
    if s != [] && IsDigit(s[|s| - 1]) then
      var m := TrailingDigits(s[..|s| - 1]);
      assert forall j :: |s| - 1 - m <= j < |s| - 1 ==> s[j] == s[..|s| - 1][j];
      1 + m
    else 0
  }

  /** A digit run is determined by where its digits stop. */
  lemma DigitRunIs(s: string, i: nat, n: nat)
    requires i + n <= |s|
    requires forall j :: i <= j < i + n ==> IsDigit(s[j])
    requires i + n < |s| ==> !IsDigit(s[i + n])
    ensures DigitRun(s, i) == n
  {
  }

  /** So is the run that ends the line. */
  lemma TrailingDigitsIs(s: string, n: nat)
    requires n <= |s|
    requires forall j :: |s| - n <= j < |s| ==> IsDigit(s[j])
    requires n < |s| ==> !IsDigit(s[|s| - n - 1])
    ensures TrailingDigits(s) == n
  {
  }

  /** Start of the height group for a `crop=` at `p`: `crop=`, a digit run
      `W`, then `:`. */
  function HeightStart(line: string, p: nat): nat
    requires p + 5 <= |line|
  {
    p + 5 + DigitRun(line, p + 5) + 1
  }

  /** The whole line matches with the `crop=` of the pattern at `p`:
      `crop=W:H:`, then anything, then `:` and a digit run ending the line. */
  predicate CropAt(line: string, p: nat) {
    && p + 5 <= |line|
    && line[p..p + 5] == "crop="
    && var w := DigitRun(line, p + 5);
    && w > 0 && p + 5 + w < |line| && line[p + 5 + w] == ':'
    && var h0 := HeightStart(line, p);
    && var h := DigitRun(line, h0);
    && h > 0 && h0 + h < |line| && line[h0 + h] == ':'
    && var y := TrailingDigits(line);
    && y > 0 && h0 + h + 1 <= |line| - y - 1 && line[|line| - y - 1] == ':'
  }

  /** Groups 1 and 2 of the match at `p`: the height, and the digits after
      the line's last colon. */
  function CropGroups(line: string, p: nat): (g: (string, string))
    requires CropAt(line, p)
    ensures IsDigits(g.0) && IsDigits(g.1)
  {
    var h0 := HeightStart(line, p);
    (line[h0..h0 + DigitRun(line, h0)], line[|line| - TrailingDigits(line)..])
  }

  /** The largest position below `n` where the pattern's `crop=` can sit. */
  function LastCropAt(line: string, n: nat): (r: Option<nat>)
    ensures r.Some? ==> r.value < n && CropAt(line, r.value)
    ensures forall q :: (if r.Some? then r.value else 0) <= q < n && (r.Some? ==> q != r.value) ==> !CropAt(line, q)
    decreases n
  {
    if n == 0 then None
    else if CropAt(line, n - 1) then Some(n - 1)
    else LastCropAt(line, n - 1)
  }

  /** The groups of the pattern on one line. The greedy leading `.*` makes
      the engine settle on the LAST `crop=` from which the rest matches. */
  function CropMatch(line: string): (r: Option<(string, string)>)
    ensures r.Some? ==> IsDigits(r.value.0) && IsDigits(r.value.1)
  {
    match LastCropAt(line, |line|)
    case None => None
    case Some(p) => Some(CropGroups(line, p))
  }

  /** A line yields groups exactly when the pattern matches it somewhere,
      and then they are those of the last position that matches. */
  lemma CropMatchIsLast(line: string)
    ensures CropMatch(line).None? <==> forall p :: !CropAt(line, p)
    ensures CropMatch(line).Some? ==>
              exists p :: CropAt(line, p) && CropMatch(line).value == CropGroups(line, p)
                          && forall q :: p < q ==> !CropAt(line, q)
  {
    var r := LastCropAt(line, |line|);
    assert forall q :: |line| <= q ==> !CropAt(line, q);
    if r.Some? {
      assert CropAt(line, r.value) && CropMatch(line).value == CropGroups(line, r.value);
    }
  }

  /** `pattern.findall(output)`: the groups of every matching line, in order. */
  function FindAll(lines: seq<string>): (found: seq<(string, string)>)
    ensures |found| <= |lines|
    ensures forall i :: 0 <= i < |found| ==> IsDigits(found[i].0) && IsDigits(found[i].1)
    ensures found == [] <==> forall i :: 0 <= i < |lines| ==> CropMatch(lines[i]).None?
  {
    if lines == [] then []
    else
      var last := lines[|lines| - 1];
      var init := lines[..|lines| - 1];
      assert forall i :: 0 <= i < |init| ==> init[i] == lines[i];
      FindAll(init) + (match CropMatch(last) case Some(g) => [g] case None => [])
  }

  /** The last pair found is that of the last matching line. */
  lemma {:induction false} FindAllLast(lines: seq<string>, k: nat)
    requires k < |lines| && CropMatch(lines[k]).Some?
    requires forall j :: k < j < |lines| ==> CropMatch(lines[j]).None?
    ensures FindAll(lines) != [] && FindAll(lines)[|FindAll(lines)| - 1] == CropMatch(lines[k]).value
  {
    if k < |lines| - 1 {
      var init := lines[..|lines| - 1];
      assert init[k] == lines[k];
      FindAllLast(init, k);
    }
  }

  /** `findall(...)[-1]`, or `None` where that indexing raises IndexError. */
  function LastCrop(output: string): (r: Option<(string, string)>)
    ensures r.Some? ==> IsDigits(r.value.0) && IsDigits(r.value.1)
  {
    var found := FindAll(Split(output, '\n'));
    if found == [] then None else Some(found[|found| - 1])
  }

  /** There is nothing to index exactly when no line of the output matches. */
  lemma LastCropNone(output: string, lines: seq<string>)
    requires lines == Split(output, '\n')
    ensures LastCrop(output).None? <==> forall i :: 0 <= i < |lines| ==> CropMatch(lines[i]).None?
  {
    assert LastCrop(output).None? <==> FindAll(lines) == [];
  }

  /** The pair used is that of the last line of the output that matches. */
  lemma LastCropLastLine(output: string, k: nat)
    requires var lines := Split(output, '\n');
             k < |lines| && CropMatch(lines[k]).Some?
             && forall j :: k < j < |lines| ==> CropMatch(lines[j]).None?
    ensures LastCrop(output) == CropMatch(Split(output, '\n')[k])
  {
    FindAllLast(Split(output, '\n'), k);
  }

  /** When some line matches, the pair used is that of a matching line
      after which no line matches. */
  lemma {:induction false} LastCropSome(output: string, lines: seq<string>, i: nat)
    requires lines == Split(output, '\n')
    requires i < |lines| && CropMatch(lines[i]).Some?
    ensures exists k :: i <= k < |lines| && LastCrop(output) == CropMatch(lines[k])
                        && forall j :: k < j < |lines| ==> CropMatch(lines[j]).None?
    decreases |lines| - i
  {
    if forall j :: i < j < |lines| ==> CropMatch(lines[j]).None? {
      LastCropLastLine(output, i);
    } else {
      var j :| i < j < |lines| && CropMatch(lines[j]).Some?;
      LastCropSome(output, lines, j);
    }
  }

  /** The pair used is that of the last matching line: any line appended
      after the output replaces what came before when it matches, and is
      ignored when it does not. */
  lemma LastLineWins(output: string, line: string)
    requires '\n' !in line
    ensures CropMatch(line).Some? ==> LastCrop(output + "\n" + line) == CropMatch(line)
    ensures CropMatch(line).None? ==> LastCrop(output + "\n" + line) == LastCrop(output)
  {
    SplitAppend(output, line, '\n');
    SplitFree(line, '\n');
    var lines := Split(output, '\n') + [line];
    assert lines[..|lines| - 1] == Split(output, '\n');
  }

  /** A typical line of a cropdetect report. */
  const SampleLine := "[Parsed_cropdetect_0] x1:0 crop=1920:800:0:140"

  lemma SampleSlices()
    ensures SampleLine[27..32] == "crop="
    ensures SampleLine[37..40] == "800" && SampleLine[43..] == "140"
  {
  }

  lemma SampleWidthRun()
    ensures DigitRun(SampleLine, 32) == 4
  {
    DigitRunIs(SampleLine, 32, 4);
  }

  lemma SampleHeightRun()
    ensures DigitRun(SampleLine, 37) == 3
  {
    DigitRunIs(SampleLine, 37, 3);
  }

  lemma SampleOffsetRun()
    ensures TrailingDigits(SampleLine) == 3
  {
    TrailingDigitsIs(SampleLine, 3);
  }

  lemma SampleMatchesAt()
    ensures CropAt(SampleLine, 27) && CropGroups(SampleLine, 27) == ("800", "140")
  {
    SampleSlices();
    SampleWidthRun();
    SampleHeightRun();
    SampleOffsetRun();
    assert HeightStart(SampleLine, 27) == 37;
  }

  lemma SampleNoLaterMatch()
    ensures forall q :: 27 < q ==> !CropAt(SampleLine, q)
  {
    var line := SampleLine;
    assert forall q :: 27 < q < |line| ==> line[q] != 'c';
    forall q | 27 < q ensures !CropAt(line, q) {
      if q + 5 <= |line| {
        assert line[q..q + 5][0] == line[q];
      }
    }
  }

  /** The report line yields its height and its y offset. */
  lemma CropdetectLine()
    ensures CropMatch(SampleLine) == Some(("800", "140"))
  {
    SampleMatchesAt();
    SampleNoLaterMatch();
    CropMatchIsLast(SampleLine);
  }

  /** What `crop_info` reports back to its caller: `None`, or an exception
      that escapes it. Its `except AttributeError` returns a message, but
      nothing inside that `try` can raise AttributeError, so that outcome
      does not occur. */
  datatype CropOutcome =
    | Done
    | Raised(error: Exception)

  /** Position of the last `c` before `n`, or -1. */
  function LastIndexBefore(f: string, c: char, n: nat): (k: int)
    requires n <= |f|
    ensures -1 <= k < n
    ensures k >= 0 ==> f[k] == c
    ensures forall j :: k < j < n ==> f[j] != c
  {
    if n == 0 then -1 else if f[n - 1] == c then n - 1 else LastIndexBefore(f, c, n - 1)
  }

  /** `os.path.basename`: the text after the last `/`. */
  function Basename(f: string): (b: string)
    ensures '/' !in b
    ensures |b| <= |f| && b == f[|f| - |b|..]
    ensures |b| < |f| ==> f[|f| - |b| - 1] == '/'
  {
    var k := LastIndexBefore(f, '/', |f|);
    var b := f[k + 1..];
    assert forall j :: 0 <= j < |b| ==> b[j] == f[k + 1 + j];
    b
  }

  /** The base name of a path whose last component is `name`. */
  lemma BasenameOf(dir: string, name: string)
    ensures '/' !in name ==> Basename(dir + "/" + name) == name
  {
    if '/' !in name {
      var f := dir + "/" + name;
      assert f[|f| - |name|..] == name;
      assert f[|f| - |name| - 1] == '/';
    }
  }

  /** The same after any prefix that is empty or ends in a slash: a path
      without a directory is its own base name. */
  lemma BasenameAfter(prefix: string, name: string)
    requires prefix == [] || prefix[|prefix| - 1] == '/'
    requires '/' !in name
    ensures Basename(prefix + name) == name
  {
    var f := prefix + name;
    assert f[|f| - |name|..] == name;
    if prefix != [] {
      assert f[|f| - |name| - 1] == '/';
    }
  }

  /** The file name, which holds no slash once set, is the base name of
      the joined path, so ffmpeg and ffprobe are given the file that was
      set. */
  lemma FilePathEndsInFile(media: MediaInformation)
    requires '/' !in Show(media.file)
    ensures Basename(media.GetFilePath()) == Show(media.file)
  {
    BasenameOf(Show(media.path), Show(media.file));
  }

  /** `str(int(h) + 2 * int(y))`: the picture height below the crop plus
      the two bars of height `y`, spelled in decimal. */
  function FullHeight(g: (string, string)): (s: string)
    requires AllDigits(g.0) && AllDigits(g.1)
    ensures IsDigits(s)
  {
    DecimalString(DecimalValue(g.0) + 2 * DecimalValue(g.1))
  }

  /** How an f-string shows an optional text: `None` as the word None. */
  function Show(o: Option<string>): string
  {
    match o
    case None => "None"
    case Some(s) => s
  }

  class MediaInformation {
    var file: Option<string>
    var path: Option<string>
    var barSize: Option<string>
    var resX: Option<int>
    var resY: Option<string>

    /** A fresh object knows nothing yet. */
    constructor ()
      ensures file == None && path == None
      ensures barSize == None && resX == None && resY == None
    {
      file := None;
      path := None;
      barSize := None;
      resX := None;
      resY := None;
    }

    /** `set_file_path(f)`; `absDir` stands for
        `os.path.dirname(os.path.abspath(f))`, which depends on the
        process's working directory. */
    method SetFilePath(f: string, absDir: string)
      modifies this
      ensures path == Some(absDir) && file == Some(Basename(f))
      ensures GetFilePath() == absDir + "/" + Basename(f)
      ensures barSize == old(barSize) && resX == old(resX) && resY == old(resY)
    {
      path := Some(absDir);
      file := Some(Basename(f));
    }

    /** `get_file_path()`: the directory and the file name joined by a
        slash, each shown as `None` while unset. */
    function GetFilePath(): (r: string)
      reads this
      ensures |r| == |Show(path)| + 1 + |Show(file)|
      ensures r[..|Show(path)|] == Show(path) && r[|Show(path)|] == '/'
      ensures r[|Show(path)| + 1..] == Show(file)
    {
      Show(path) + "/" + Show(file)
    }

    /** The getters read the fields and change nothing. */
    function GetFile(): (r: Option<string>)
      reads this
      ensures r == file
    {
      file
    }

    function GetPath(): (r: Option<string>)
      reads this
      ensures r == path
    {
      path
    }

    function GetBarSize(): (r: Option<string>)
      reads this
      ensures r == barSize
    {
      barSize
    }

    function GetResX(): (r: Option<int>)
      reads this
      ensures r == resX
    {
      resX
    }

    function GetResY(): (r: Option<string>)
      reads this
      ensures r == resY
    {
      resY
    }

    /** `crop_info()` given the text ffmpeg printed and the text ffprobe
        printed. The last matching line's groups `(h, y)` give the vertical
        resolution `h + 2*y` (as text) and the bar size `y` (the captured
        digits); the stripped ffprobe text, read by `int`, gives the
        horizontal resolution. Indexing an empty match list raises
        IndexError and a non-numeric ffprobe text raises ValueError, in
        both cases before any field is written and past the `except
        AttributeError`, which nothing in its `try` can raise. The file and
        the path are outside the frame, so they are kept. */
    method CropInfo(ffmpegOutput: string, ffprobeOutput: string) returns (r: CropOutcome)
      modifies this`barSize, this`resX, this`resY
      ensures LastCrop(ffmpegOutput).None? ==>
                r == Raised(IndexError)
                && barSize == old(barSize) && resX == old(resX) && resY == old(resY)
      ensures LastCrop(ffmpegOutput).Some? && ParseInt(Strip(ffprobeOutput)).None? ==>
                r == Raised(ValueError)
                && barSize == old(barSize) && resX == old(resX) && resY == old(resY)
      ensures LastCrop(ffmpegOutput).Some? && ParseInt(Strip(ffprobeOutput)).Some? ==>
                var g := LastCrop(ffmpegOutput).value;
                && r == Done
                && resX == ParseInt(Strip(ffprobeOutput))
                && resY == Some(FullHeight(g))
                && barSize == Some(g.1)
    {
      // `re.findall(...)[-1]`
      var lastCropInfo := LastCrop(ffmpegOutput);
      if lastCropInfo.None? {
        return Raised(IndexError);
      }
      var resultCropInfo := lastCropInfo.value;
      var x := ParseInt(Strip(ffprobeOutput));
      if x.None? {
        return Raised(ValueError);
      }
      resX := x;
      resY := Some(FullHeight(resultCropInfo));
      barSize := Some(resultCropInfo.1);
      return Done;
    }
  }

  /** The stored vertical resolution reads back as `h + 2*y`. */
  lemma FullHeightValue(g: (string, string))
    requires AllDigits(g.0) && AllDigits(g.1)
    ensures DecimalValue(FullHeight(g)) == DecimalValue(g.0) + 2 * DecimalValue(g.1)
  {
    DecimalRoundTrip(DecimalValue(g.0) + 2 * DecimalValue(g.1));
  }
}
