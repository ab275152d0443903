# srt2ass in Dafny

A model of `srt2ass.py`, a converter from SubRip (`.srt`) subtitles to
Advanced SubStation Alpha (`.ass`) scripts, and of the `GetMediaInformation`
class of `ffmpeg_crop_detect.py`, which reads the crop and resolution of the
video from the output of `ffmpeg -vf cropdetect` and `ffprobe`.

The conversion, as the model states it:

1. `file_open` tries a fixed list of encodings and keeps the first that
   decodes the file.
2. The text loses its byte-order marks and carriage returns. `...` becomes
   `…`, and blank lines are dropped.
3. A loop over the lines ends an entry at every number line followed by a
   clock time. It turns the timing line into a `Dialogue:` event and joins
   the text lines of the entry with `\N`.
4. Six regular-expression substitutions run over the whole text. They
   truncate the times, turn the arrow into a comma, and rewrite the style
   and font tags.
5. `get_header` asks the probe object for the crop of the video. It chooses
   one of three styles by the vertical resolution, and the colour by
   whether the path marks HDR.
6. The script is written, and the output path is returned with its
   backslashes and slashes doubled.

Modules, one per concern:

| file | module | models |
|---|---|---|
| text.dfy | `Text` | the Python string primitives used: character classes, `str.replace`, `split`, `join`, `strip`, `int(...)`, `f"{n}"` |
| rewrite.dfy | `Rewrite` | `re.sub`: leftmost, non-overlapping replacement, given a matcher |
| crop_detect.dfy | `CropDetect` | `ffmpeg_crop_detect.py`: the `crop=` pattern, `findall(...)[-1]`, `os.path.basename`, class `MediaInformation` |
| srt_paths.dfy | `SrtPaths` | output name, HDR test, escaping of the returned path, `parse_file_name` |
| srt_passes.dfy | `SrtPasses` | the six substitutions that follow the scan |
| srt_header.dfy | `SrtHeader` | `get_header`: the tiers and the colour |
| srt2ass.dfy | `Srt2Ass` | `file_open`, the clean-up, the entry scan and the whole `srt2ass` function |

The model follows the code where a reader might expect something else:

- The timing line counts towards `line_count`. So the first text line of an
  entry is appended directly, and each later one gets a `\N`. An entry with
  k text lines therefore carries k-1 markers.
- Style tags become `{`, two backslashes, the letter and `1}` (or `0}`).
- The font-colour tag becomes the constant text `{\\c&H\3\2\1&}`, whatever
  colour was written.
- The HDR test is case-sensitive and looks at the whole path, directories
  included.

## Model

| member | source | states |
|---|---|---|
| Srt2Ass.Decoding | srt2ass.py:21-32 | the encoding named is one of those from position i on; when it decodes, the text is what it decodes to; when it does not, the result is `("", "big5")` and no encoding from i on decodes |
| Srt2Ass.FileOpen | srt2ass.py:21-32 | the text and name returned are those of the first encoding in the list that decodes; when none does, the text is empty and the name is the last encoding tried, `big5` |
| Srt2Ass.DecodingFirst | srt2ass.py:24-31 | when encoding k is the first that decodes, the loop returns its text and name |
| Srt2Ass.DecodingNone | srt2ass.py:23-32 | when no encoding decodes, the result is `("", "big5")` |
| Srt2Ass.Normalise | srt2ass.py:106-114 | the byte-order mark put back is one U+FEFF exactly when the text held one; every line kept is non-empty, stripped and free of line breaks, U+FEFF and `\r`, and holds no `...` any more |
| Srt2Ass.NonBlankStripped | srt2ass.py:114 | no more lines are kept than there were parts, and each is non-empty, stripped and unbroken |
| Srt2Ass.NonBlankStrippedAppend | srt2ass.py:114 | the comprehension works part by part: the lines of two runs of parts are the lines of the first followed by those of the second |
| Srt2Ass.NonBlankStrippedAvoids | srt2ass.py:114 | a text that no part contains is contained in no line kept |
| Srt2Ass.NonBlankStrippedClean | srt2ass.py:114 | stripping and dropping blank lines leaves already clean lines as they are |
| Srt2Ass.EllipsisClean | srt2ass.py:113 | turning `...` into `…` keeps a clean line clean |
| Srt2Ass.NormaliseLines | srt2ass.py:106-114 | clean lines joined by line breaks come back from the clean-up as the same lines, each with every `...` turned into `…`, and with no byte-order mark |
| Srt2Ass.NormaliseJoin | srt2ass.py:106-114 | clean lines without `...`, joined by line breaks, come back from the clean-up as exactly those lines, with no byte-order mark |
| Srt2Ass.NormaliseBlankOrClean | srt2ass.py:109-114 | lines that are each blank or clean and free of `...`, each ended by `\r` or not, joined by line breaks and with or without a line break after the last, come back from the clean-up as exactly the lines that are not blank, in order, with no byte-order mark |
| Srt2Ass.TimestampNotDigits | srt2ass.py:123-130 | a line that starts with a clock time is never a number line |
| Srt2Ass.FirstBoundaryFound | srt2ass.py:121-128 | the boundary found is a number line followed by a clock-time line, or the end |
| Srt2Ass.FirstBoundaryIsFirst | srt2ass.py:121-128 | no line before the boundary found is a boundary |
| Srt2Ass.FirstBoundaryIs | srt2ass.py:121-128 | the first boundary is determined by the first line that is one |
| Srt2Ass.Scan | srt2ass.py:115-141 | the output of the loop is never empty and always ends in a line break, because the last entry is flushed even when it is empty |
| Srt2Ass.ScanFromEnds | srt2ass.py:121-141 | the output from any entry on ends in a line break, whether that entry is flushed at a boundary or is the last one |
| Srt2Ass.ScanEntries | srt2ass.py:115-141 | the loop raises IndexError exactly when the last line is all digits, and otherwise emits `Scan(lines)`, the entries between boundaries with the last one always flushed |
| Srt2Ass.ScanAtBoundary | srt2ass.py:121-128 | a boundary step of the loop flushes a non-empty entry and resets the entry and the counter |
| Srt2Ass.ScanInside | srt2ass.py:129-139 | a step inside an entry appends the dialogue prefix of a timing line, the first text line as it is, or a later text line after `\N` |
| Srt2Ass.ScanAtEnd | srt2ass.py:141 | after the last line the pending entry is emitted with a line break, even when it is empty |
| Srt2Ass.EntryText | srt2ass.py:129-139 | an entry made of a timing line and text lines renders as the dialogue prefix followed by the text lines joined by `\N` |
| Srt2Ass.EntryEndsAtNumber | srt2ass.py:123 | an entry ends at the first number line that is followed by a clock time |
| Srt2Ass.EntryEndsFile | srt2ass.py:121-141 | an entry without a later boundary runs to the end of the file |
| Srt2Ass.CueEntry | srt2ass.py:129-139 | the lines of a well-formed cue render as that cue's event |
| Srt2Ass.CueBoundary | srt2ass.py:121-128 | the entry of a cue ends where the next cue's number starts, or at the end of the file |
| Srt2Ass.SrtLinesKept | srt2ass.py:114 | in the lines of a SubRip file of cues with clean lines, a blank line after each cue or none, dropping the blank lines leaves the lines of the cues, in order |
| Srt2Ass.ScanCues | srt2ass.py:115-141 | a file of well-formed cues scans to one event line per cue, in order: the dialogue prefix of its timing line, then its text lines joined by `\N` |
| Srt2Ass.Converted | srt2ass.py:87-101 | a path containing `.ass` is returned as it is, and exactly the other paths that do not exist give no result |
| Srt2Ass.ConvertedOutcome | srt2ass.py:87-172 | a conversion fails only with IndexError or ValueError; a written script goes under the output name of the input, carries the byte-order mark exactly when the text held one and the decoding's encoding, and the path returned un-doubles to the output name |
| Srt2Ass.Convert | srt2ass.py:87-172 | `srt2ass` step by step gives the conversion of the decoded file. The defaults are offset 24 and size 16. When a script is written, the probe object holds the bar of the last crop line, the parsed `ffprobe` width and `h + 2*y` as text; when none is written, those three fields are unchanged |
| Srt2Ass.ConvertedCues | srt2ass.py:87-172 | a SubRip file of well-formed cues with clean lines, with or without a blank line after each cue, with LF or CRLF line ends, and with or without a line end after the last line (so also a file ending in `\r\n` or `\r\n\r\n`), converts to a script without a byte-order mark, made of the restyled events of its cues in order, under the output name |
| SrtPaths.OutputName | srt2ass.py:118-119 | the output name always ends in `.ass` |
| SrtPaths.OutputNameLastDot | srt2ass.py:118-119 | the output name is the input up to its last dot, followed by `.ass`, even when that dot is in a directory name |
| SrtPaths.OutputNameNoDot | srt2ass.py:118-119 | an input without a dot gives `.ass` alone |
| SrtPaths.IsHdr | srt2ass.py:156-160 | a path marked HDR contains `H` or `D`, because the test is case-sensitive |
| SrtPaths.HdrAnywhere | srt2ass.py:156-160 | a path that contains an HDR keyword is HDR whatever surrounds it |
| SrtPaths.Escape | srt2ass.py:170-171 | a path without backslashes and slashes is returned as it is |
| SrtPaths.EscapeDoubles | srt2ass.py:170-171 | the two replacements double every backslash and every slash, in place, and leave the other characters alone |
| SrtPaths.UndoubledDoubled | srt2ass.py:170-171 | undoubling a doubled path gives the path back |
| SrtPaths.EscapeRoundTrip | srt2ass.py:170-171 | the escaped path determines the path: undoubling it gives the path back |
| SrtPaths.SearchSuffix | srt2ass.py:180 | the search returns a position where the suffix pattern matches: a dot, two or three lower-case letters and `.srt` at the end, or `.srt` alone |
| SrtPaths.SearchSuffixFirst | srt2ass.py:180 | the search returns the leftmost matching position |
| SrtPaths.SearchSuffixSome | srt2ass.py:180 | where some position matches, the search finds one |
| SrtPaths.SearchSuffixNone | srt2ass.py:180 | without any matching position the search finds nothing |
| SrtPaths.RemoveSuffix | srt2ass.py:182 | `str.removesuffix` cuts the suffix when the text ends with it, and otherwise leaves the text as it is |
| SrtPaths.SearchLanguage | srt2ass.py:180 | a name ending in `.xx.srt` or `.xxx.srt`, in lower-case letters, matches at the dot before the language code |
| SrtPaths.StemOf | srt2ass.py:181-183 | cutting the matched suffix from the basename leaves the name before it |
| SrtPaths.ParseFileName | srt2ass.py:175-184 | a found suffix gives a path in the given directory, after a slash, that ends in `.mkv`; no suffix raises AttributeError |
| SrtPaths.ParseFileNameLanguage | srt2ass.py:175-184 | `name.xx.srt` (or `.xxx.srt`), with a directory in front or none, maps to `absDir/name.mkv` |
| SrtPaths.ParseFileNamePlain | srt2ass.py:175-184 | `name.srt`, with a directory in front or none, maps to `absDir/name.mkv` when the name does not itself end in a language code |
| SrtPaths.ParseFileNameNotSrt | srt2ass.py:180-182 | a file that does not end in `.srt` raises AttributeError, since `search` returns `None` |
| SrtPaths.ParseFileNameSrt | srt2ass.py:180-184 | a file that ends in `.srt` always gives a path, never AttributeError |
| SrtPasses.TruncateTimes | srt2ass.py:143 | a text without a comma or without a colon is left alone |
| SrtPasses.ArrowsToCommas | srt2ass.py:144 | a text without `>` is left alone |
| SrtPasses.ArrowAtFront | srt2ass.py:144 | ` --> ` followed by a non-space becomes `,` |
| SrtPasses.TimingTimes | srt2ass.py:143 | both times of an event line are truncated and nothing else in it changes |
| SrtPasses.TimingArrow | srt2ass.py:144 | the arrow between the two times of an event line becomes a comma |
| SrtPasses.TimingLine | srt2ass.py:143-144 | an event line `Dialogue: 0,t1 --> t2,Default,,0,0,0,,` becomes `Dialogue: 0,` + the two truncated times separated by a comma + `,Default,,0,0,0,,` |
| SrtPasses.StyleTags | srt2ass.py:146-147 | a text without `<` is left alone by either tag pass |
| SrtPasses.TagAtFront | srt2ass.py:146-147 | `<b>`, `<i>`, `<u>` and their closing tags become `{`, two backslashes, the letter and `1}` or `0}` |
| SrtPasses.StyleTagsOpening | srt2ass.py:146 | the opening pass replaces the opening tag and leaves the text and the closing tag |
| SrtPasses.StyleTagsClosing | srt2ass.py:147 | the closing pass leaves the opening override and the text and replaces the closing tag |
| SrtPasses.StyleTagsWrap | srt2ass.py:146-147 | a text wrapped in a style tag pair comes out wrapped in the two ASS overrides |
| SrtPasses.FontColours | srt2ass.py:148-152 | a text without `<` is left alone by the font pass |
| SrtPasses.FontTagIgnoresColour | srt2ass.py:148-152 | every `<font color="#xxyyzz">` becomes the same constant text, whatever its six word characters |
| SrtPasses.FontCloseDropped | srt2ass.py:153 | the last pass deletes `</font>` and keeps the text before it, when that text holds no tag |
| SrtPasses.Restyle | srt2ass.py:143-153 | a text without `<`, `>` or `,` comes through all six passes unchanged |
| SrtHeader.Tier | srt2ass.py:41-62 | the shadow equals the outline; the outline is 1.6 below 1080 lines, 3.2 below 2160 and 6.4 from there; the margin is the offset below 1080 lines and the offset plus the bar from there |
| SrtHeader.ChooseStyle | srt2ass.py:41-62 | the reassignments of `get_header` produce the tier table: below 1080 lines the offset, 1.6 and the size. From 1080 lines the PlayRes lines, the offset plus the bar, 3.2 and 3.75 times the size. From 2160 lines 6.4 and 7.5 times the size. The shadow equals the outline, and the colour follows `is_hdr` |
| SrtHeader.TierGrows | srt2ass.py:44-57 | a taller video never gets a thinner outline or a smaller font, and the shadow always equals the outline |
| SrtHeader.TierPlayRes | srt2ass.py:41-50 | the PlayRes lines are empty exactly below 1080 lines, and from there they carry both resolutions, which read back through `int` |
| SrtHeader.TierColour | srt2ass.py:59-62 | the colour depends on `is_hdr` alone, and the two colours differ |
| SrtHeader.HeightReadsBack | srt2ass.py:40 | the stored vertical resolution reads back through `int` as `h + 2*y` |
| SrtHeader.HeaderFrom | srt2ass.py:35-62 | no crop line gives IndexError, a width that is not an integer gives ValueError, and otherwise a style whose margin adds the bar to the offset exactly when the outline is not the smallest one |
| SrtHeader.GetHeader | srt2ass.py:35-62 | `get_header` on the probe object gives IndexError without a crop line, ValueError for a width that is not an integer, and otherwise the tier style for a height of `h + 2*y` and a bar of `y`. On success the object holds the bar of the last crop line, the parsed width and `h + 2*y` as text; on an error those fields are unchanged |
| CropDetect.DigitRun | ffmpeg_crop_detect.py:81 | the run of `\d+` from a position: digits, and no digit right after it |
| CropDetect.TrailingDigits | ffmpeg_crop_detect.py:81 | the run of `(\d+)$` at the end of a line: digits, and no digit right before it |
| CropDetect.CropGroups | ffmpeg_crop_detect.py:81 | the two captured groups of a match are non-empty digit strings |
| CropDetect.CropMatch | ffmpeg_crop_detect.py:81 | a line that matches yields two digit strings |
| CropDetect.LastCropAt | ffmpeg_crop_detect.py:81 | the greedy `^.*` takes the last `crop=` position at which the rest of the pattern matches |
| CropDetect.CropMatchIsLast | ffmpeg_crop_detect.py:81 | a line matches exactly when some `crop=` position fits, and the groups are those of the last such position |
| CropDetect.FindAll | ffmpeg_crop_detect.py:81-82 | `findall` with a multi-line pattern gives at most one pair of digit groups per line, and nothing exactly when no line matches |
| CropDetect.FindAllLast | ffmpeg_crop_detect.py:81-83 | when line k matches and no later line does, the last pair found is the groups of line k |
| CropDetect.LastCrop | ffmpeg_crop_detect.py:81-83 | `list_crop_info[-1]` is a pair of digit strings when any line matches |
| CropDetect.LastCropNone | ffmpeg_crop_detect.py:81-83 | `[-1]` raises IndexError exactly when no line of the output matches |
| CropDetect.LastCropLastLine | ffmpeg_crop_detect.py:81-83 | the pair taken is the groups of the last matching line of the output |
| CropDetect.LastCropSome | ffmpeg_crop_detect.py:81-83 | when some line matches, the pair taken is the groups of a matching line after which no line matches |
| CropDetect.LastLineWins | ffmpeg_crop_detect.py:81-83 | a later matching line replaces every earlier one, and a later non-matching line changes nothing |
| CropDetect.CropdetectLine | ffmpeg_crop_detect.py:81 | a typical cropdetect line gives the height and the offset, `800` and `140` |
| CropDetect.Basename | ffmpeg_crop_detect.py:21 | `os.path.basename` is the slash-free tail after the last slash |
| CropDetect.BasenameOf | ffmpeg_crop_detect.py:21 | the basename of `dir/name` is `name` when `name` has no slash |
| CropDetect.BasenameAfter | ffmpeg_crop_detect.py:21 | a slash-free name after an empty prefix or one ending in a slash is the basename, so a bare file name is its own basename |
| CropDetect.FullHeight | ffmpeg_crop_detect.py:114-116 | the stored vertical resolution is a decimal digit string |
| CropDetect.FullHeightValue | ffmpeg_crop_detect.py:114-116 | the stored vertical resolution has the value `h + 2*y` |
| CropDetect.FilePathEndsInFile | ffmpeg_crop_detect.py:23-25 | the basename of `get_file_path` is the stored file name, when that name has no slash |
| CropDetect.MediaInformation.constructor | ffmpeg_crop_detect.py:11-16 | a new object has all five fields `None` |
| CropDetect.MediaInformation.SetFilePath | ffmpeg_crop_detect.py:18-25 | the directory and the basename are stored, `get_file_path` is the two joined by a slash, and the crop fields are unchanged |
| CropDetect.MediaInformation.GetFilePath | ffmpeg_crop_detect.py:23-25 | the result is the directory, a slash, then the file name, each of the two shown as `None` while unset |
| CropDetect.MediaInformation.GetFile | ffmpeg_crop_detect.py:27-29 | returns the stored basename |
| CropDetect.MediaInformation.GetPath | ffmpeg_crop_detect.py:31-33 | returns the stored directory |
| CropDetect.MediaInformation.GetBarSize | ffmpeg_crop_detect.py:35-37 | returns the stored bar size |
| CropDetect.MediaInformation.GetResX | ffmpeg_crop_detect.py:39-41 | returns the stored horizontal resolution |
| CropDetect.MediaInformation.GetResY | ffmpeg_crop_detect.py:43-45 | returns the stored vertical resolution |
| CropDetect.MediaInformation.CropInfo | ffmpeg_crop_detect.py:81-120 | without a crop line it raises IndexError, and with a width that is not an integer it raises ValueError; in both cases no field changes. Otherwise it stores the width, `h + 2*y` as text and `y`, and returns `None`. Only the crop fields may change |
| Text.ParseIntString | ffmpeg_crop_detect.py:113-115 | `int(f"{n}")` is `n` |
| Text.ParseIntDigits | srt2ass.py:38 | `int` of a digit string is its decimal value |
| Text.DecimalRoundTrip | ffmpeg_crop_detect.py:115 | the decimal text of a value reads back as that value |
| Text.SplitJoin | srt2ass.py:114 | splitting a join of lines without the separator gives the lines back |
| Text.JoinSplit | srt2ass.py:118 | joining the parts of a split gives the text back |
| Text.Strip | ffmpeg_crop_detect.py:110 | `str.strip` removes the leading and trailing white space and nothing else |
| Text.StripAvoids | srt2ass.py:114 | stripping brings in no text that was not there |
| Text.ReplaceAll | srt2ass.py:109-113 | `str.replace` leaves a text without the pattern alone, and brings in no character that is neither in the text nor in the replacement |
| Text.TripleGone | srt2ass.py:113 | after replacing `...` by a text without dots, no `...` is left, even where the dots came in runs longer than three |
| Text.ReplaceJoin | srt2ass.py:112-114 | replacing a pattern without line breaks in a joined text is the same as replacing it in each line |
| Text.JoinAvoids | srt2ass.py:113-114 | a text that the joined lines do not contain is contained in no line |
| Rewrite.SubFrom | srt2ass.py:143-153 | substitution from a position where no match starts up to the end copies the rest of the text |
| Rewrite.Sub | srt2ass.py:143-153 | `re.sub` without any match returns the text unchanged |
| Rewrite.SubCopy | srt2ass.py:143-153 | `re.sub` copies the text where no match starts |
| Rewrite.SubShift | srt2ass.py:143-153 | for a pattern whose matches in the suffix do not depend on the prefix, substitution from a position in the suffix gives the same text with or without the prefix |
| Rewrite.SubPrefix | srt2ass.py:143-153 | a prefix in which no match starts is copied, and the rest is substituted on its own |
| Rewrite.SubMatch | srt2ass.py:143-153 | a match at the start is replaced, and the substitution goes on after it |

## Left out

- Reading and writing files, and `codecs` decoding and encoding. These are
  I/O and foreign library calls. The decoder is a parameter that gives
  `None` where Python raises UnicodeError. The existence of the input is a
  parameter too. The final `output_str.encode(encoding)`, its possible
  UnicodeEncodeError, and the write itself are not modelled.
- Running `ffmpeg` and `ffprobe` (ffmpeg_crop_detect.py:52-79, 86-109).
  This is external tools and I/O; their output is passed in as text.
- `os.path.abspath` and `os.path.dirname`, because they depend on the
  working directory. The directory is a parameter of
  `MediaInformation.SetFilePath` and `SrtPaths.ParseFileName`.
- The text of the header (srt2ass.py:64-79). It embeds Python's `repr` of
  floats. The model returns the values put into it as an `SrtHeader.Style`,
  with `real` numbers in place of floats.
- SrtHeader.TierGrows: holds only for a size that is not negative; a
  negative size shrinks when scaled.
- SrtHeader.GetHeader: the error-text branch (srt2ass.py:81-84), which
  prints and exits, is not modelled, because it cannot be reached.
  `crop_info` returns an error text only for an AttributeError, and
  nothing in its `try` raises one.
- `main` and the command line (srt2ass.py:187-230). `--offset` and `--size`
  arrive there as strings. At 1080 lines and above, adding a string to an
  `int` raises TypeError. The model takes integers with the defaults of
  srt2ass.py:89-94.
- Unicode digits: `\d` and `str.isdigit` are modelled on ASCII digits only.
  `str.strip` and `\s` use Python's white-space set as listed in `Text.IsSpace`.
- The `$` of a Python pattern also matches before a final line break. The
  suffix search of `parse_file_name` does not model that case, a file name
  that ends in a line break.
- Srt2Ass.ScanEntries: the `ln += 1` at the end of the loop body only
  rebinds the loop variable and has no effect, so it is not modelled.
- `\w` in the font pattern (srt2ass.py:149) matches any Unicode word
  character in Python. `Text.IsWordChar` accepts ASCII letters, digits and
  `_` only, so a colour written in other word characters is not rewritten
  by `SrtPasses.FontColours`.
- Srt2Ass.ConvertedCues: states the script only for files whose lines hold
  no `...`, and whose blank lines are single empty lines after the cues.
  Lines of white space only, and blank lines before the first cue, are not
  covered by it. How the clean-up rewrites `...` is stated separately, by
  `Srt2Ass.NormaliseLines`, and how it drops blank lines by
  `Srt2Ass.NormaliseBlankOrClean`.
