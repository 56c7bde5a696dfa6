/** FFMPEG::Movie: the fields the library reads from the text that `ffmpeg -i <path>`
    prints about a movie, and the answers it derives from them. Running ffmpeg is not
    modelled: the text it prints is a parameter. */
module Movies {
  import opened Wrappers
  import opened Text
  import opened RubyValues
  import opened Floats
  import opened ProbeText

  /** The instance variables Movie#initialize sets; a variable Ruby leaves nil is None. */
  datatype Movie = Movie(
    path: string,
    valid: bool,
    duration: real,
    bitrate: Option<nat>,
    videoStream: Option<string>,
    videoCodec: Option<string>,
    colorspace: Option<string>,
    resolution: Option<string>,
    audioStream: Option<string>,
    audioCodec: Option<string>,
    audioSampleRate: Option<nat>,
    audioChannels: Option<string>)

  const UnknownFormat := "Unknown format"
  const InvalidData := "Invalid data found when processing input"

  // ---- validity ----

  /** `output["Unknown format"].nil? && output["Invalid data ..."].nil?` */
  predicate ValidOutput(output: string) {
    FirstOccurrence(output, UnknownFormat).None? && FirstOccurrence(output, InvalidData).None?
  }

  /** A movie is valid exactly when ffmpeg's text mentions neither failure. */
  lemma ValidOutputSpec(output: string)
    ensures ValidOutput(output) <==> !Contains(output, UnknownFormat) && !Contains(output, InvalidData)
  {
    FirstOccurrenceSpec(output, UnknownFormat);
    FirstOccurrenceSpec(output, InvalidData);
  }

  // ---- bitrate: (\d*) ----

  /** `output[/bitrate: (\d*)/]` then `$1 ? $1.to_i : nil`. As `\d*` matches
      everywhere, the first "bitrate: " decides, and no digits after it read as 0. */
  function BitrateIn(output: string): Option<nat> {
    match FirstOccurrence(output, "bitrate: ")
    case None => None
    case Some(i) => Some(LeadingNat(output[i + 9..]))
  }

  /** The bitrate is nil exactly when the text has no "bitrate: ". */
  lemma BitrateAbsent(output: string)
    ensures BitrateIn(output).None? <==> !Contains(output, "bitrate: ")
  {
    FirstOccurrenceSpec(output, "bitrate: ");
  }

  /** The digits after the first "bitrate: " are the bitrate, whatever comes before
      it (the banner, the metadata) as long as no earlier "bitrate: " starts there. */
  lemma BitrateOf(output: string, pre: string, rest: string, digits: string, post: string)
    requires forall j :: 0 <= j < |pre| ==> !OccursAt(output, "bitrate: ", j)
    requires AllDigits(digits) && (post == [] || !IsDigit(post[0]))
    requires output == pre + "bitrate: " + rest && rest == digits + post
    ensures BitrateIn(output) == Some(DigitsValue(digits))
  {
    Parts3(output, pre, "bitrate: ", rest);
    OccursAfter(output, pre, "bitrate: ", rest);
    FirstOccurrenceIs(output, "bitrate: ", |pre|);
    LeadingDigitsOf(rest, digits, post);
  }

  // ---- duration ----

  /** With no "Duration: " in the text the duration is 0: the groups are nil, and
      nil.to_i and nil.to_f are 0. */
  lemma DurationAbsent(output: string)
    requires !Contains(output, "Duration: ")
    ensures DurationIn(output) == 0.0
  {
    var hits := DurationHits(output);
    assert forall j :: 0 <= j <= |output| ==> !hits[j];
  }

  // ---- the stream lines ----

  /** Lines 29-32: codec, colorspace and resolution from the video stream text. The
      third field's first word is the resolution; with fewer than three fields
      `resolution` is nil and `nil.split` raises. */
  function VideoFields(video: Option<string>): Result<(Option<string>, Option<string>, Option<string>), Error> {
    match video
    case None => Ok((None, None, None))
    case Some(v) =>
      var fs := CommaSplit(v);
      if |fs| < 3 then Err(NoMethodError("undefined method `split' for nil:NilClass"))
      else Ok((Some(fs[0]), Some(fs[1]), FirstWord(fs[2])))
  }

  /** Lines 34-37: codec, sample rate and channels from the audio stream text. The
      sample rate is the leading digits of the second field; with fewer than two
      fields it is nil, and reading its digits raises. */
  function AudioFields(audio: Option<string>): Result<(Option<string>, Option<nat>, Option<string>), Error> {
    match audio
    case None => Ok((None, None, None))
    case Some(a) =>
      var fs := CommaSplit(a);
      if |fs| < 2 then Err(NoMethodError("undefined method `[]' for nil:NilClass"))
      else Ok((Some(fs[0]), Some(LeadingNat(fs[1])), At(fs, 2)))
  }

  /** Movie#initialize after ffmpeg has printed `output` about the file at `path`. */
  function ParseMovie(path: string, output: string): Result<Movie, Error> {
    var video := CaptureLineAfter(output, "Video: ");
    var audio := CaptureLineAfter(output, "Audio: ");
    match VideoFields(video)
    case Err(e) => Err(e)
    case Ok((codec, colorspace, resolution)) =>
      match AudioFields(audio)
      case Err(e) => Err(e)
      case Ok((audioCodec, sampleRate, channels)) =>
        Ok(Movie(Escape(path), ValidOutput(output), DurationIn(output), BitrateIn(output),
                 video, codec, colorspace, resolution, audio, audioCodec, sampleRate, channels))
  }

  /** A video line ", "-joined from clean fields gives the first two fields and the
      first word of the third. */
  lemma VideoFieldsOf(ps: seq<string>, word: string, tail: string)
    requires |ps| >= 3 && ps[|ps| - 1] != ""
    requires forall i :: 0 <= i < |ps| ==> CleanPiece(ps[i])
    requires word != [] && forall j :: 0 <= j < |word| ==> !IsSpace(word[j])
    requires tail == [] || IsSpace(tail[0])
    requires ps[2] == word + tail
    ensures VideoFields(Some(Join(ps, ", "))) == Ok((Some(ps[0]), Some(ps[1]), Some(word)))
  {
    CommaSplitOfJoin(ps);
    FirstWordOf(ps[2], word, tail);
  }

  /** A video line without a comma has no third field, and reading it raises. */
  lemma VideoWithoutCommas(v: string)
    requires ',' !in v
    ensures VideoFields(Some(v)).Err?
  {
    FirstSepNone(v);
  }

  /** An audio line ", "-joined from clean fields whose second field starts with the
      sample rate's digits. */
  lemma AudioFieldsOf(ps: seq<string>, digits: string, unit: string)
    requires |ps| >= 2 && ps[|ps| - 1] != ""
    requires forall i :: 0 <= i < |ps| ==> CleanPiece(ps[i])
    requires AllDigits(digits) && (unit == [] || !IsDigit(unit[0]))
    requires ps[1] == digits + unit
    ensures AudioFields(Some(Join(ps, ", "))) == Ok((Some(ps[0]), Some(DigitsValue(digits)), At(ps, 2)))
  {
    CommaSplitOfJoin(ps);
    LeadingDigitsOf(ps[1], digits, unit);
  }

  /** When both stream lines can be read, the movie holds the video line's fields. */
  lemma MovieVideoOf(path: string, output: string, ps: seq<string>, word: string, tail: string)
    requires CaptureLineAfter(output, "Video: ") == Some(Join(ps, ", "))
    requires AudioFields(CaptureLineAfter(output, "Audio: ")).Ok?
    requires |ps| >= 3 && ps[|ps| - 1] != ""
    requires forall i :: 0 <= i < |ps| ==> CleanPiece(ps[i])
    requires word != [] && forall j :: 0 <= j < |word| ==> !IsSpace(word[j])
    requires tail == [] || IsSpace(tail[0])
    requires ps[2] == word + tail
    ensures ParseMovie(path, output).Ok?
    ensures var m := ParseMovie(path, output).value;
      m.videoStream == Some(Join(ps, ", ")) && m.videoCodec == Some(ps[0]) &&
      m.colorspace == Some(ps[1]) && m.resolution == Some(word)
  {
    VideoFieldsOf(ps, word, tail);
  }

  // ---- width, height and aspect ratio ----

  /** `resolution.split("x")[0].to_i rescue nil` */
  function Width(m: Movie): Option<int> {
    match m.resolution
    case None => None
    case Some(r) => Some(ToI(Field(r, 'x', 0)))
  }

  /** `resolution.split("x")[1].to_i rescue nil` */
  function Height(m: Movie): Option<int> {
    match m.resolution
    case None => None
    case Some(r) => Some(ToI(Field(r, 'x', 1)))
  }

  /** A resolution "<w>x<h>" gives the width w and the height h. */
  lemma WidthHeightOf(m: Movie, w: string, h: string)
    requires w != [] && h != [] && AllDigits(w) && AllDigits(h)
    requires m.resolution == Some(w + "x" + h)
    ensures Width(m) == Some(DigitsValue(w) as int) && Height(m) == Some(DigitsValue(h) as int)
  {
    DigitPair(w, h, 'x');
  }

  /** nil.to_f and Integer#to_f. */
  function ToF(n: Option<int>): real {
    match n
    case None => 0.0
    case Some(i) => i as real
  }

  /** `width.to_f / height.to_f` */
  function CalculatedAspectRatio(m: Movie): Float {
    Div(ToF(Width(m)), ToF(Height(m)))
  }

  /** The aspect ratio of a "<w>x<h>" resolution is w / h, or an infinity or NaN
      when h is 0. */
  lemma AspectOfResolution(m: Movie, w: string, h: string)
    requires w != [] && h != [] && AllDigits(w) && AllDigits(h)
    requires m.resolution == Some(w + "x" + h)
    ensures DigitsValue(h) > 0 ==> CalculatedAspectRatio(m) == Num(DigitsValue(w) as real / DigitsValue(h) as real)
    ensures DigitsValue(h) == 0 ==> CalculatedAspectRatio(m).Inf? || CalculatedAspectRatio(m).NaN?
  {
    WidthHeightOf(m, w, h);
  }

  /** Without a resolution the ratio is 0.0 / 0.0: NaN, not an error. */
  lemma AspectWithoutResolution(m: Movie)
    requires m.resolution.None?
    ensures CalculatedAspectRatio(m) == NaN
  {
  }

  // ---- audio channels and frame rate ----

  /** Lines 57-59 on the channels text: "channels" gives its leading number, then
      "mono" 1 and "stereo" 2; any other text gives nil. */
  function ChannelCount(c: string): Option<nat> {
    if FirstOccurrence(c, "channels").Some? then Some(LeadingNat(c))
    else if FirstOccurrence(c, "mono").Some? then Some(1)
    else if FirstOccurrence(c, "stereo").Some? then Some(2)
    else None
  }

  /** Movie#audio_channels: `@audio_channels[...]` raises when there is no channels field. */
  function AudioChannels(m: Movie): Result<Option<nat>, Error> {
    match m.audioChannels
    case None => Err(NoMethodError("undefined method `[]' for nil:NilClass"))
    case Some(c) => Ok(ChannelCount(c))
  }

  /** The channel count by what the text includes, in the order the source tests. */
  lemma ChannelCountSpec(c: string)
    ensures Contains(c, "channels") ==> ChannelCount(c) == Some(LeadingNat(c))
    ensures !Contains(c, "channels") && Contains(c, "mono") ==> ChannelCount(c) == Some(1)
    ensures !Contains(c, "channels") && !Contains(c, "mono") && Contains(c, "stereo") ==> ChannelCount(c) == Some(2)
    ensures !Contains(c, "channels") && !Contains(c, "mono") && !Contains(c, "stereo") ==> ChannelCount(c).None?
  {
    FirstOccurrenceSpec(c, "channels");
    FirstOccurrenceSpec(c, "mono");
    FirstOccurrenceSpec(c, "stereo");
  }

  /** Movie#frame_rate: the number before "fps" in the video stream, nil without one;
      a movie without a video stream raises. */
  function FrameRate(m: Movie): Result<Option<real>, Error> {
    match m.videoStream
    case None => Err(NoMethodError("undefined method `[]' for nil:NilClass"))
    case Some(v) => Ok(FrameRateIn(v))
  }

  // ---- escape ----

  /** Movie#escape: a backslash, "</", a line break ("\r\n", "\n" or "\r"), a double
      or a single quote is replaced by its escaped form; any other character is kept.
      At each position the longest entry of the table applies, so "\r\n" is one line
      break. */
  function Escape(s: string): (r: string)
    ensures '\n' !in r && '\r' !in r
    decreases |s|
  {
    if s == [] then []
    else if s[0] == '\\' then "\\\\" + Escape(s[1..])
    else if s[0] == '<' && |s| > 1 && s[1] == '/' then "<\\/" + Escape(s[2..])
    else if s[0] == '\r' && |s| > 1 && s[1] == '\n' then "\\n" + Escape(s[2..])
    else if s[0] == '\n' || s[0] == '\r' then "\\n" + Escape(s[1..])
    else if s[0] == '"' then "\\\"" + Escape(s[1..])
    else if s[0] == '\'' then "\\'" + Escape(s[1..])
    else [s[0]] + Escape(s[1..])
  }

  /** A character the escape table leaves alone wherever it stands. */
  predicate PlainChar(c: char) {
    c != '\\' && c != '\n' && c != '\r' && c != '"' && c != '\''
  }

  /** A path with none of the table's characters and no "</" is kept as it is. */
  lemma {:induction false} EscapePlain(s: string)
    requires forall i :: 0 <= i < |s| ==> PlainChar(s[i])
    requires forall i :: 0 <= i < |s| - 1 ==> !(s[i] == '<' && s[i + 1] == '/')
    ensures Escape(s) == s
    decreases |s|
  {
    if s != [] {
      assert PlainChar(s[0]);
      assert |s| > 1 ==> !(s[0] == '<' && s[1] == '/');
      EscapePlain(s[1..]);
    }
  }

  /** Reads an escaped text back: a backslash and the character after it stand for
      that character, and "\n" written out for a line feed. */
  function Unescape(t: string): string
    decreases |t|
  {
    if t == [] then []
    else if t[0] == '\\' && |t| > 1 then [if t[1] == 'n' then '\n' else t[1]] + Unescape(t[2..])
    else [t[0]] + Unescape(t[1..])
  }

  /** s with each "\r\n" and each lone "\r" made a "\n". */
  function UnixLineBreaks(s: string): string
    decreases |s|
  {
    if s == [] then []
    else if s[0] == '\r' && |s| > 1 && s[1] == '\n' then "\n" + UnixLineBreaks(s[2..])
    else if s[0] == '\r' then "\n" + UnixLineBreaks(s[1..])
    else [s[0]] + UnixLineBreaks(s[1..])
  }

  lemma UnescapePair(c: char, t: string)
    ensures Unescape(['\\', c] + t) == [if c == 'n' then '\n' else c] + Unescape(t)
  {
    assert (['\\', c] + t)[2..] == t;
  }

  lemma UnescapeOne(c: char, t: string)
    requires c != '\\'
    ensures Unescape([c] + t) == [c] + Unescape(t)
  {
    assert ([c] + t)[1..] == t;
  }

  /** Escaping loses nothing but the kind of each line break. */
  lemma {:induction false} UnescapeEscape(s: string)
    ensures Unescape(Escape(s)) == UnixLineBreaks(s)
    decreases |s|
  {
    if s == [] {
    } else if s[0] == '\\' {
      UnescapeEscape(s[1..]);
      UnescapePair('\\', Escape(s[1..]));
    } else if s[0] == '<' && |s| > 1 && s[1] == '/' {
      UnescapeEscape(s[2..]);
      UnescapePair('/', Escape(s[2..]));
      UnescapeOne('<', "\\/" + Escape(s[2..]));
      assert "<\\/" + Escape(s[2..]) == ['<'] + ("\\/" + Escape(s[2..]));
      assert UnixLineBreaks(s) == "<" + UnixLineBreaks(s[1..]);
      assert UnixLineBreaks(s[1..]) == "/" + UnixLineBreaks(s[2..]) by {
        assert s[1..][1..] == s[2..];
      }
    } else if s[0] == '\r' && |s| > 1 && s[1] == '\n' {
      UnescapeEscape(s[2..]);
      UnescapePair('n', Escape(s[2..]));
    } else if s[0] == '\n' || s[0] == '\r' {
      UnescapeEscape(s[1..]);
      UnescapePair('n', Escape(s[1..]));
    } else if s[0] == '"' {
      UnescapeEscape(s[1..]);
      UnescapePair('"', Escape(s[1..]));
    } else if s[0] == '\'' {
      UnescapeEscape(s[1..]);
      UnescapePair('\'', Escape(s[1..]));
    } else {
      UnescapeEscape(s[1..]);
      UnescapeOne(s[0], Escape(s[1..]));
    }
  }
}
