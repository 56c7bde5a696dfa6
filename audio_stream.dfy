/** FFMPEG::AudioStream: the fields read from one audio stream description, such as
    "aac, 44100 Hz, stereo, s16, 128 kb/s". */
module AudioStreams {
  import opened Wrappers
  import opened Text
  import opened RubyValues
  import opened ProbeText
  import Movies

  /** The instance variables AudioStream#initialize sets; nil is None. */
  datatype AudioStream = AudioStream(
    language: string,
    raw: string,
    codec: Option<string>,
    sampleRate: Option<nat>,
    channels: Option<string>,
    bitrate: Option<nat>)

  /** `b =~ %r(\A(\d+) kb/s)` then `$1.to_i`: the field starts with a number of kb/s.
      A nil field does not match. */
  function KbPerSecondPrefix(b: Option<string>): Option<nat> {
    match b
    case None => None
    case Some(t) =>
      var e := DigitRun(t, 0);
      if e > 0 && OccursAt(t, " kb/s", e) then Some(DigitsValue(t[..e])) else None
  }

  /** AudioStream#initialize. The fields are read only from a description that holds
      a comma; when its commas are all inside parentheses there is no second field,
      and reading the sample rate from nil raises. */
  function ParseAudioStream(language: string, raw: string): (r: Result<AudioStream, Error>)
    ensures r.Ok? ==> r.value.language == language && r.value.raw == raw
  {
    if FirstOccurrence(raw, ",").None? then Ok(AudioStream(language, raw, None, None, None, None))
    else
      var fields := ParseOptions(raw);
      if |fields| < 2 then Err(NoMethodError("undefined method `[]' for nil:NilClass"))
      else Ok(AudioStream(language, raw, Some(fields[0]), Some(LeadingNat(fields[1])), At(fields, 2),
                          KbPerSecondPrefix(At(fields, 4))))
  }

  /** AudioStream#to_s */
  function ToS(a: AudioStream): string {
    a.raw
  }

  /** Without a comma nothing is parsed: codec, sample rate, channels and bitrate are
      all nil, and no error is raised. */
  lemma WithoutComma(language: string, raw: string)
    requires ',' !in raw
    ensures ParseAudioStream(language, raw) == Ok(AudioStream(language, raw, None, None, None, None))
  {
    FirstOccurrenceSpec(raw, ",");
    ContainsChar(raw, ',');
  }

  /** A ", "-joined description of at least two pieces holds a comma. */
  lemma JoinHasComma(ps: seq<string>)
    requires |ps| >= 2
    ensures ',' in Join(ps, ", ")
  {
    var init := Join(ps[..|ps| - 1], ", ");
    assert Join(ps, ", ")[|init|] == ',';
  }

  /** A description ", "-joined from top-level fields: the codec is the first, the sample
      rate the digits that start the second, the channels the third, and the bitrate
      the number of kb/s that starts the fifth. */
  lemma AudioStreamOf(language: string, ps: seq<string>, rate: string, unit: string, kbps: string, more: string)
    requires |ps| >= 5 && forall i :: 0 <= i < |ps| ==> TopLevelPiece(ps[i])
    requires AllDigits(rate) && (unit == [] || !IsDigit(unit[0])) && ps[1] == rate + unit
    requires kbps != [] && AllDigits(kbps) && ps[4] == kbps + " kb/s" + more
    ensures ParseAudioStream(language, Join(ps, ", ")) ==
      Ok(AudioStream(language, Join(ps, ", "), Some(ps[0]), Some(DigitsValue(rate)), Some(ps[2]), Some(DigitsValue(kbps))))
  {
    var raw := Join(ps, ", ");
    JoinHasComma(ps);
    ContainsChar(raw, ',');
    FirstOccurrenceSpec(raw, ",");
    ParseOptionsOfJoin(ps);
    FieldsOfParsed(language, raw, ps);
    LeadingDigitsOf(ps[1], rate, unit);
    KbPerSecondPrefixOf(ps[4], kbps, more);
  }

  /** The fields a description with a comma gets from its parsed pieces. */
  lemma FieldsOfParsed(language: string, raw: string, ps: seq<string>)
    requires FirstOccurrence(raw, ",").Some? && ParseOptions(raw) == ps && |ps| >= 5
    ensures ParseAudioStream(language, raw) ==
      Ok(AudioStream(language, raw, Some(ps[0]), Some(LeadingNat(ps[1])), Some(ps[2]), KbPerSecondPrefix(Some(ps[4]))))
  {
  }

  lemma KbPerSecondPrefixOf(t: string, kbps: string, more: string)
    requires kbps != [] && AllDigits(kbps) && t == kbps + " kb/s" + more
    ensures KbPerSecondPrefix(Some(t)) == Some(DigitsValue(kbps))
  {
    Parts3(t, kbps, " kb/s", more);
    assert t[|kbps|] == ' ';
    DigitsAt(t, 0, kbps);
  }

  /** A field that does not start with digits and " kb/s" gives no bitrate. */
  lemma NoBitrateWithoutDigits(t: string)
    requires t == [] || !IsDigit(t[0])
    ensures KbPerSecondPrefix(Some(t)) == None
  {
  }

  // ---- channels ----

  /** AudioStream#channels on the channels text: "channels" gives its leading number,
      then "mono" 1, "stereo" 2 and "5.1" 6; any other text gives nil. */
  function ChannelCount(c: string): Option<nat> {
    if FirstOccurrence(c, "channels").Some? then Some(LeadingNat(c))
    else if FirstOccurrence(c, "mono").Some? then Some(1)
    else if FirstOccurrence(c, "stereo").Some? then Some(2)
    else if FirstOccurrence(c, "5.1").Some? then Some(6)
    else None
  }

  /** AudioStream#channels: nil without a channels field. */
  function Channels(a: AudioStream): Option<nat> {
    match a.channels
    case None => None
    case Some(c) => ChannelCount(c)
  }

  /** The count by what the text includes, in the order the source tests. */
  lemma ChannelCountSpec(c: string)
    ensures Contains(c, "channels") ==> ChannelCount(c) == Some(LeadingNat(c))
    ensures !Contains(c, "channels") && Contains(c, "mono") ==> ChannelCount(c) == Some(1)
    ensures !Contains(c, "channels") && !Contains(c, "mono") && Contains(c, "stereo") ==> ChannelCount(c) == Some(2)
    ensures !Contains(c, "channels") && !Contains(c, "mono") && !Contains(c, "stereo") ==>
      ChannelCount(c) == if Contains(c, "5.1") then Some(6) else None
  {
    FirstOccurrenceSpec(c, "channels");
    FirstOccurrenceSpec(c, "mono");
    FirstOccurrenceSpec(c, "stereo");
    FirstOccurrenceSpec(c, "5.1");
  }

  /** The stream's count agrees with Movie#audio_channels on every text but those
      whose only clue is "5.1", which Movie does not know. */
  lemma ChannelCountAgreesWithMovie(c: string)
    ensures ChannelCount(c) != Movies.ChannelCount(c) <==> Movies.ChannelCount(c).None? && Contains(c, "5.1")
  {
    FirstOccurrenceSpec(c, "5.1");
  }
}
