/** FFMPEG::VideoStream: the fields read from one video stream description, such as
    "h264, yuv420p, 1920x1080 [SAR 1:1 DAR 16:9], 6520 kb/s, 23.98 fps", and the
    aspect ratios derived from them. */
module VideoStreams {
  import opened Wrappers
  import opened Text
  import opened Floats
  import opened ProbeText

  /** The instance variables VideoStream#initialize sets; nil is None. */
  datatype VideoStream = VideoStream(
    language: Option<string>,
    raw: string,
    codec: Option<string>,
    colorspace: Option<string>,
    bitrate: Option<nat>,
    resolution: Option<string>,
    width: Option<int>,
    height: Option<int>,
    sar: Option<string>,
    dar: Option<string>,
    frameRate: Option<real>)

  /** `b =~ %r(\A(\d+) kb/s\Z)` then `$1.to_i`: the whole field is a number of kb/s
      (\Z also lets a final line feed through). A nil field does not match. */
  function KbPerSecond(b: Option<string>): Option<nat> {
    match b
    case None => None
    case Some(t) =>
      var e := DigitRun(t, 0);
      if e > 0 && (t[e..] == " kb/s" || t[e..] == " kb/s\n") then Some(DigitsValue(t[..e])) else None
  }

  /** The bitrate is read exactly from a field that is digits and " kb/s". */
  lemma KbPerSecondOf(d: string)
    requires d != [] && AllDigits(d)
    ensures KbPerSecond(Some(d + " kb/s")) == Some(DigitsValue(d))
  {
    LeadingDigitsOf(d + " kb/s", d, " kb/s");
  }

  /** A field with anything before its digits, or after " kb/s" but a line feed, gives
      no bitrate. */
  lemma KbPerSecondShape(t: string)
    requires KbPerSecond(Some(t)).Some?
    ensures exists k :: 0 < k <= |t| && AllDigits(t[..k]) && (t[k..] == " kb/s" || t[k..] == " kb/s\n")
  {
    var e := DigitRun(t, 0);
    assert AllDigits(t[..e]) by {
      assert forall j :: 0 <= j < e ==> t[..e][j] == t[j];
    }
  }

  /** VideoStream#initialize. The language argument is not stored, so `language`
      reads nil whatever the caller passed. */
  function ParseVideoStream(language: string, raw: string): (v: VideoStream)
    ensures v.raw == raw
  {
    var fields := ParseOptions(raw);
    var resolution := match At(fields, 2) case None => None case Some(r) => FirstWord(r);
    VideoStream(
      None,
      raw,
      At(fields, 0),
      At(fields, 1),
      KbPerSecond(At(fields, 3)),
      resolution,
      match resolution case None => None case Some(r) => Some(ToI(Field(r, 'x', 0))),
      match resolution case None => None case Some(r) => Some(ToI(Field(r, 'x', 1))),
      SampleAspectIn(raw),
      DisplayAspectIn(raw),
      FrameRateIn(raw))
  }

  /** The constructor as evidently intended: the language kept, like AudioStream does. */
  function ParseVideoStreamKeepingLanguage(language: string, raw: string): (v: VideoStream)
    ensures v.language == Some(language)
    ensures v == ParseVideoStream(language, raw).(language := Some(language))
  {
    ParseVideoStream(language, raw).(language := Some(language))
  }

  /** The language passed to the constructor is lost. */
  lemma LanguageDropped(raw: string)
    ensures ParseVideoStream("eng", raw).language == None
  {
  }

  /** A description ", "-joined from top-level fields: codec and colorspace are the first
      two, the resolution "<w>x<h>" the first word of the third, the bitrate the number
      of kb/s in the fourth. */
  lemma VideoStreamOf(language: string, ps: seq<string>, w: string, h: string, tail: string, kbps: string)
    requires |ps| >= 4 && forall i :: 0 <= i < |ps| ==> TopLevelPiece(ps[i])
    requires w != [] && h != [] && AllDigits(w) && AllDigits(h)
    requires tail == [] || IsSpace(tail[0])
    requires ps[2] == w + "x" + h + tail
    requires kbps != [] && AllDigits(kbps) && ps[3] == kbps + " kb/s"
    ensures var v := ParseVideoStream(language, Join(ps, ", "));
      v.codec == Some(ps[0]) && v.colorspace == Some(ps[1]) && v.bitrate == Some(DigitsValue(kbps)) &&
      v.resolution == Some(w + "x" + h) && v.width == Some(DigitsValue(w) as int) &&
      v.height == Some(DigitsValue(h) as int)
  {
    ParseOptionsOfJoin(ps);
    FieldsOfParsed(language, Join(ps, ", "), ps);
    ResolutionWord(ps[2], w, h, tail);
    KbPerSecondOf(kbps);
  }

  /** The fields a description's parsed pieces give. */
  lemma FieldsOfParsed(language: string, raw: string, ps: seq<string>)
    requires ParseOptions(raw) == ps && |ps| >= 4
    ensures var v := ParseVideoStream(language, raw);
      && v.codec == Some(ps[0]) && v.colorspace == Some(ps[1])
      && v.bitrate == KbPerSecond(Some(ps[3])) && v.resolution == FirstWord(ps[2])
      && (v.resolution.Some? ==>
            v.width == Some(ToI(Field(v.resolution.value, 'x', 0))) &&
            v.height == Some(ToI(Field(v.resolution.value, 'x', 1))))
  {
  }

  /** "<w>x<h>" and then whitespace or nothing: the resolution and its two sides. */
  lemma ResolutionWord(field: string, w: string, h: string, tail: string)
    requires w != [] && h != [] && AllDigits(w) && AllDigits(h)
    requires tail == [] || IsSpace(tail[0])
    requires field == w + "x" + h + tail
    ensures FirstWord(field) == Some(w + "x" + h)
    ensures ToI(Field(w + "x" + h, 'x', 0)) == DigitsValue(w) as int
    ensures ToI(Field(w + "x" + h, 'x', 1)) == DigitsValue(h) as int
  {
    assert w + "x" + h == w + ['x'] + h;
    DigitPair(w, h, 'x');
    FirstWordOf(field, w + "x" + h, tail);
  }

  /** A description with no "x" in its third field still has a resolution but reads
      its height as 0, since the missing piece is nil and nil.to_i is 0. */
  lemma HeightWithoutX(r: string)
    requires 'x' !in r
    ensures ToI(Field(r, 'x', 1)) == 0
  {
    assert IndexOfChar(r, 'x') == None;
    assert Field(r, 'x', 1) == "";
    assert SkipSpaces("") == "";
  }

  // ---- aspect ratios ----

  /** `w, h = ratio.split(":")` then `w.to_f / h.to_f`, nil when that is zero. A ratio
      "n:0" gives an infinity or NaN, which Ruby does not treat as zero. */
  function AspectFrom(ratio: Option<string>): Option<Float> {
    match ratio
    case None => None
    case Some(t) =>
      var aspect := Div(DecimalToF(Field(t, ':', 0)), DecimalToF(Field(t, ':', 1)));
      if IsZero(aspect) then None else Some(aspect)
  }

  /** `width.to_f / height.to_f`, nil when that is NaN. */
  function AspectFromDimensions(v: VideoStream): Option<Float> {
    var aspect := Div(ToF(v.width), ToF(v.height));
    if aspect.NaN? then None else Some(aspect)
  }

  /** nil.to_f and Integer#to_f. */
  function ToF(n: Option<int>): real {
    match n
    case None => 0.0
    case Some(i) => i as real
  }

  /** `aspect_from_dar || aspect_from_dimensions` */
  function CalculatedAspectRatio(v: VideoStream): Option<Float> {
    match AspectFrom(v.dar)
    case Some(a) => Some(a)
    case None => AspectFromDimensions(v)
  }

  /** `aspect_from_sar || 1` */
  function CalculatedPixelAspectRatio(v: VideoStream): Float {
    match AspectFrom(v.sar)
    case Some(a) => a
    case None => Num(1.0)
  }

  /** to_f of a run of digits is its value. */
  lemma DecimalToFOfDigits(d: string)
    requires AllDigits(d)
    ensures DecimalToF(d) == DigitsValue(d) as real
  {
    DigitsAt(d, 0, d);
    assert d[..|d|] == d;
  }

  /** A ratio "<w>:<h>" gives w / h when both are positive, and nil when w is 0. */
  lemma AspectFromRatio(w: string, h: string)
    requires w != [] && h != [] && AllDigits(w) && AllDigits(h)
    ensures DigitsValue(h) > 0 && DigitsValue(w) > 0 ==>
      AspectFrom(Some(RatioText(w, h))) == Some(Num(DigitsValue(w) as real / DigitsValue(h) as real))
    ensures DigitsValue(w) == 0 && DigitsValue(h) > 0 ==> AspectFrom(Some(RatioText(w, h))) == None
  {
    var t := RatioText(w, h);
    var a, b := DigitsValue(w) as real, DigitsValue(h) as real;
    assert DecimalToF(Field(t, ':', 0)) == a && DecimalToF(Field(t, ':', 1)) == b by {
      assert t == w + [':'] + h;
      assert ':' !in w && ':' !in h;
      FieldsOfPair(w, h, ':');
      DecimalToFOfDigits(w);
      DecimalToFOfDigits(h);
    }
    if a > 0.0 && b > 0.0 {
      QuotientPositive(a, b);
    } else if a == 0.0 && b > 0.0 {
      QuotientOfZero(b);
    }
  }

  lemma QuotientOfZero(b: real)
    requires b != 0.0
    ensures 0.0 / b == 0.0
  {
  }

  lemma QuotientPositive(a: real, b: real)
    requires a > 0.0 && b > 0.0
    ensures a / b > 0.0
  {
  }

  /** A usable display aspect ratio is preferred to the dimensions. */
  lemma AspectPrefersDar(v: VideoStream)
    requires AspectFrom(v.dar).Some?
    ensures CalculatedAspectRatio(v) == AspectFrom(v.dar)
  {
  }

  /** Without a usable display aspect ratio the dimensions decide; with neither a DAR
      nor a resolution the ratio is nil (0.0 / 0.0 is NaN). */
  lemma AspectFallsBack(v: VideoStream)
    requires AspectFrom(v.dar).None?
    ensures v.width.Some? && v.height.Some? && v.height.value != 0 ==>
      CalculatedAspectRatio(v) == Some(Num(v.width.value as real / v.height.value as real))
    ensures v.width.None? && v.height.None? ==> CalculatedAspectRatio(v) == None
  {
  }

  /** The pixel aspect ratio is 1 without a usable sample aspect ratio. */
  lemma PixelAspectDefault(v: VideoStream)
    requires v.sar.None? || AspectFrom(v.sar) == None
    ensures CalculatedPixelAspectRatio(v) == Num(1.0)
  {
  }

  /** "SAR w:h" (or "PAR w:h") with no S or P before it is the sample aspect ratio. */
  lemma SarOfDescription(language: string, raw: string, pre: string, tag: char, w: string, h: string, post: string)
    requires tag == 'S' || tag == 'P'
    requires 'S' !in pre && 'P' !in pre
    requires AllDigits(w) && AllDigits(h) && w != [] && h != []
    requires post == [] || !IsDigit(post[0])
    requires raw == pre + [tag, 'A', 'R', ' '] + RatioText(w, h) + post
    ensures ParseVideoStream(language, raw).sar == Some(RatioText(w, h))
  {
    SampleAspectOf(raw, pre, tag, w, h, post);
  }

  /** "DAR w:h" with no D before it is the display aspect ratio. */
  lemma DarOfDescription(language: string, raw: string, pre: string, w: string, h: string, post: string)
    requires 'D' !in pre
    requires AllDigits(w) && AllDigits(h) && w != [] && h != []
    requires post == [] || !IsDigit(post[0])
    requires raw == pre + "DAR " + RatioText(w, h) + post
    ensures ParseVideoStream(language, raw).dar == Some(RatioText(w, h))
  {
    assert "DAR " == ['D', 'A', 'R', ' '];
    DisplayAspectOf(raw, pre, w, h, post);
  }
}
