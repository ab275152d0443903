/** `get_header` in `srt2ass.py`: the style of the subtitles, chosen by the
    vertical resolution of the video in three tiers, and the colour chosen
    by whether the video is HDR. The text of the `[Script Info]` and
    `[V4+ Styles]` sections is not modelled; the values put into it are. */
module SrtHeader {
  import opened Text
  import opened CropDetect

  /** `SCALING_FACTOR` */
  const ScalingFactor: real := 3.75

  /** Primary colour of the text over HDR video, and over the rest. */
  const HdrColour: string := "&H00646464"
  const SdrColour: string := "&H33DCF0FA"

  /** A font size as Python holds it: the `int` it was given in the lowest
      tier, a `float` after scaling. */
  datatype FontSize = Whole(n: int) | Scaled(x: real)

  function SizeValue(f: FontSize): real {
    match f
    case Whole(n) => n as real
    case Scaled(x) => x
  }

  /** The values `get_header` puts into the header: the two `PlayRes` lines
      (empty below 1080 lines), the bottom margin, the outline and shadow
      widths, the font size and the primary colour. */
  datatype Style = Style(
    playResX: string,
    playResY: string,
    margin: int,
    outline: real,
    shadow: real,
    fontSize: FontSize,
    colour: string)

  /** The three tiers as a table: below 1080 lines the given offset, a
      1.6 outline and the given size; from 1080 lines the margin grows by
      the bar height, the outline doubles and the size is scaled by 3.75;
      from 2160 lines the outline doubles again and the size is scaled by
      7.5. */
  function Tier(resX: int, resY: int, barSize: int, offset: int, size: int, hdr: bool): (st: Style)
    ensures st.shadow == st.outline
    ensures st.outline == (if resY < 1080 then 1.6 else if resY < 2160 then 3.2 else 6.4)
    ensures st.margin == (if resY < 1080 then offset else offset + barSize)
  {
    var colour := if hdr then HdrColour else SdrColour;
    if resY < 1080 then
      Style("", "", offset, 1.6, 1.6, Whole(size), colour)
    else
      var playX := "PlayResX: " + IntString(resX);
      var playY := "PlayResY: " + IntString(resY);
      if resY < 2160 then
        Style(playX, playY, offset + barSize, 3.2, 3.2, Scaled(3.75 * size as real), colour)
      else
        Style(playX, playY, offset + barSize, 6.4, 6.4, Scaled(7.5 * size as real), colour)
  }

  /** The body of `get_header` that follows a successful `crop_info()`:
      defaults first, then overwritten tier by tier. */
  method ChooseStyle(resX: int, resY: int, barSize: int, offset: int, size: int, hdr: bool)
    returns (st: Style)
    ensures st == Tier(resX, resY, barSize, offset, size, hdr)
  {
    var playResX := "";
    var playResY := "";
    var margin := offset;
    var outline: real := 1.6;
    var scaled := Whole(size);
    if resY >= 1080 {
      playResX := "PlayResX: " + IntString(resX);
      playResY := "PlayResY: " + IntString(resY);
      margin := margin + barSize;
      outline := outline * 2.0;
      scaled := Scaled(size as real * ScalingFactor);
      if resY >= 2160 {
        outline := outline * 2.0;
        scaled := Scaled((size * 2) as real * ScalingFactor);
      }
    }
    var shadow := outline;
    var colour: string;
    if hdr {
      colour := HdrColour;
    } else {
      colour := SdrColour;
    }
    st := Style(playResX, playResY, margin, outline, shadow, scaled, colour);
  }

  /** A taller video never gets a thinner outline or, for a non-negative
      size, a smaller font, and the shadow always equals the outline. */
  lemma TierGrows(resX: int, low: int, high: int, barSize: int, offset: int, size: int, hdr: bool)
    requires low <= high && size >= 0
    ensures var a, b := Tier(resX, low, barSize, offset, size, hdr), Tier(resX, high, barSize, offset, size, hdr);
            && a.outline <= b.outline
            && SizeValue(a.fontSize) <= SizeValue(b.fontSize)
            && a.shadow == a.outline && b.shadow == b.outline
  {
  }

  /** The `PlayRes` lines are written exactly from 1080 lines up, and then
      carry the resolution, which reads back from them. */
  lemma TierPlayRes(resX: int, resY: int, barSize: int, offset: int, size: int, hdr: bool)
    ensures var st := Tier(resX, resY, barSize, offset, size, hdr);
            && (st.playResX == "" <==> resY < 1080)
            && (st.playResY == "" <==> resY < 1080)
            && (resY >= 1080 ==>
                  && ParseInt(st.playResY[|"PlayResY: "|..]) == Some(resY)
                  && ParseInt(st.playResX[|"PlayResX: "|..]) == Some(resX))
  {
    if resY >= 1080 {
      var st := Tier(resX, resY, barSize, offset, size, hdr);
      assert st.playResY[|"PlayResY: "|..] == IntString(resY);
      assert st.playResX[|"PlayResX: "|..] == IntString(resX);
      ParseIntString(resY);
      ParseIntString(resX);
    }
  }

  /** The colour depends on the HDR flag alone, and the two colours differ. */
  lemma TierColour(resX: int, resY: int, resX': int, resY': int, barSize: int, offset: int, size: int, hdr: bool)
    ensures Tier(resX, resY, barSize, offset, size, hdr).colour == Tier(resX', resY', barSize, offset, size, hdr).colour
    ensures Tier(resX, resY, barSize, offset, size, true).colour != Tier(resX, resY, barSize, offset, size, false).colour
  {
    assert HdrColour[3] != SdrColour[3];
  }

  /** The vertical resolution `crop_info()` stores reads back through
      `int` as `h + 2*y`. */
  lemma HeightReadsBack(g: (string, string))
    requires AllDigits(g.0) && AllDigits(g.1)
    ensures ParseInt(FullHeight(g)) == Some(DecimalValue(g.0) + 2 * DecimalValue(g.1))
  {
    var v := DecimalValue(g.0) + 2 * DecimalValue(g.1);
    assert FullHeight(g) == IntString(v);
    ParseIntString(v);
  }

  /** What `get_header` gives for the groups of the last `crop=` line and
      the width read from ffprobe, each absent where reading it raises:
      the exception, or the style of the tier table for a vertical
      resolution of `h + 2*y` and a bar of height `y`. */
  function HeaderFrom(crop: Option<(string, string)>, width: Option<int>, offset: int, size: int, hdr: bool)
    : (r: Result<Style, Exception>)
    requires crop.Some? ==> AllDigits(crop.value.0) && AllDigits(crop.value.1)
    ensures crop.None? ==> r == Err(IndexError)
    ensures crop.Some? && width.None? ==> r == Err(ValueError)
    ensures crop.Some? && width.Some? ==>
              r.Ok? && r.value.margin == offset + (if r.value.outline == 1.6 then 0 else DecimalValue(crop.value.1))
  {
    match crop
    case None => Err(IndexError)
    case Some(g) =>
      match width
      case None => Err(ValueError)
      case Some(x) =>
        var y := DecimalValue(g.1);
        Ok(Tier(x, DecimalValue(g.0) + 2 * y, y, offset, size, hdr))
  }

  /** `get_header(ffmpeg_detect, sub_offset, sub_size, is_hdr)` given the
      text the two tools print: `crop_info()` stores the geometry, the bar
      size and the two resolutions are read back through `int`, and the
      style follows the tier table. The exceptions `crop_info()` raises
      pass through. Its other outcome, an error text that makes
      `get_header` exit, cannot occur: nothing in the `try` of
      `crop_info()` raises the AttributeError it catches. */
  method GetHeader(media: MediaInformation, ffmpegOutput: string, ffprobeOutput: string,
                   offset: int, size: int, hdr: bool)
    returns (r: Result<Style, Exception>)
    modifies media`barSize, media`resX, media`resY
    ensures r == HeaderFrom(LastCrop(ffmpegOutput), ParseInt(Strip(ffprobeOutput)), offset, size, hdr)
    ensures r.Ok? ==>
              && LastCrop(ffmpegOutput).Some?
              && media.barSize == Some(LastCrop(ffmpegOutput).value.1)
              && media.resX == ParseInt(Strip(ffprobeOutput))
              && media.resY == Some(FullHeight(LastCrop(ffmpegOutput).value))
    ensures r.Err? ==>
              media.barSize == old(media.barSize) && media.resX == old(media.resX) && media.resY == old(media.resY)
  {
    ghost var crop, width := LastCrop(ffmpegOutput), ParseInt(Strip(ffprobeOutput));
    var outcome := media.CropInfo(ffmpegOutput, ffprobeOutput);
    if outcome.Raised? {
      return Err(outcome.error);
    }
    ghost var g := crop.value;
    var barText, resYText := media.barSize.value, media.resY.value;
    assert barText == g.1 && resYText == FullHeight(g);
    ParseIntDigits(g.1);
    HeightReadsBack(g);
    // int(get_bar_size()), int(get_res_x()), int(get_res_y())
    var barSize := ParseInt(barText).value;
    var resX := media.resX.value;
    var resY := ParseInt(resYText).value;
    var st := ChooseStyle(resX, resY, barSize, offset, size, hdr);
    return Ok(st);
  }
}
