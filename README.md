# streamio-ffmpeg in Dafny

A model of the part of streamio-ffmpeg that is pure computation: it turns encoding
settings and ffmpeg's textual output into argument lists and values. The model covers:

- `EncodingOptions`: a Hash of settings whose `to_s` renders each supported key
  through its own `convert_<key>` rule.
- The resize rule, both in `Transcoders::Scaler` and written inline in
  `Transcoder#apply_transcoder_options`, and the rotation rule of
  `Transcoders::Autorotator`.
- `Transcoder`:
  - option-format dispatch;
  - moving a screenshot seek time into the input options, with in-place Array edits;
  - flattening the input options and assembling the ffmpeg command;
  - parsing progress from ffmpeg's `time=` lines;
  - the validate default;
  - the error list of `validate_output_file` and the outcome of `run`.
- The parsing of ffmpeg's probe text in `Movie`, `VideoStream` and `AudioStream`,
  and `Movie#escape`.
- The argument strings of `ScreenshotOptions` and `ThumnbailingOptions`.

Modules, file by file:

- `wrappers.dfy` (module `Wrappers`): `Option` and `Result`.
- `ruby_values.dfy` (module `RubyValues`): the Ruby values the options hold, `to_s`, truthiness and the raised errors.
- `ruby_hash.dfy` (module `RubyHash`): an insertion-ordered Hash with `[]=`, `delete` and `merge!`.
- `floats.dfy` (module `Floats`): Float division with its infinities and NaN, `ceil` and `floor`.
- `text.dfy` (module `Text`): digits, integer text, `to_i`, `split` and word helpers.
- `probe_text.dfy` (module `ProbeText`): one function per regular expression the library applies, and the comma split of `FFMPEG.parse_options`.
- `settings.dfy` (module `Settings`): the transcoder options Hash and the movie facts the scaling code reads.
- `encoding_options.dfy` (module `EncodingOpts`): `EncodingOptions`.
- `scaler.dfy` (module `Scaler`): `Transcoders::Scaler`.
- `autorotator.dfy` (module `Autorotator`): `Transcoders::Autorotator`.
- `movie.dfy` (module `Movies`): `Movie`.
- `video_stream.dfy` (module `VideoStreams`): `VideoStream`.
- `audio_stream.dfy` (module `AudioStreams`): `AudioStream`.
- `transcoder.dfy` (module `Transcoders`): `Transcoder`.
- `screenshot_options.dfy` (module `ScreenshotOpts`): `ScreenshotOptions`.
- `thumbnailing_options.dfy` (module `ThumbnailingOpts`): `ThumnbailingOptions`.

The parts that change state in place are classes:

- `EncodingOptions` has `Store` and `Delete`.
- A Ruby Array that the transcoder edits is the class `Transcoders.RubyArray`, with
  `find_index`, `delete_at`, `concat` and `[]=`.
- `Transcoder` keeps its instance variables as fields.

Each method is proved against a function that states what it computes. The parsing
code sets each field once, so it is modelled as functions of the text ffmpeg prints.

Ruby semantics that matter:

- `nil.to_s` is `""` and `nil.to_i` is `0`.
- Only `nil` and `false` are falsy.
- A Hash keeps insertion order.
- `find_index` answers the first match.
- `delete_at` past the end answers nil and changes nothing.
- `a[i] = x` past the end fills the gap with nil.
- Float division by zero gives an infinity or NaN rather than raising, and `ceil`
  or `floor` of those raises `FloatDomainError`.
- A method called on nil raises `NoMethodError`. Each such place in the source is an
  `Err` in the model.

Where the code and the documented behaviour differ, the model follows the code, with
one exception: `EncodingOptions#width` and `#height` are called by the code but not
defined in lib/ffmpeg/encoding_options.rb, so they are taken from their tests (see
"## Left out"). Otherwise:

- Options that are an Array are accepted, and any class other than Array or Hash
  raises `ArgumentError`.
- `supports_option?` means "a `convert_<key>` rule exists".
- Bitrates use `-b` and `-ab`.
- There is no reordering of the rendered options.

## Model

| member | source | states |
|---|---|---|
| `EncodingOpts.EncodingOptions.constructor` | lib/ffmpeg/encoding_options.rb:5-7 | the new options hold the given Hash merged into an empty one |
| `RubyHash.MergeIntoEmpty` | lib/ffmpeg/encoding_options.rb:5-7 | merging a Hash into an empty one gives the same keys, in the same order, with the same values |
| `EncodingOpts.Convert` | lib/ffmpeg/encoding_options.rb:16-18 | a key yields a fragment exactly when it has a `convert_<key>` rule |
| `EncodingOpts.UnsupportedKeyIsEmpty` | lib/ffmpeg/encoding_options.rb:10-11 | a key without a rule contributes the empty fragment whatever its value, and nothing raises |
| `EncodingOpts.SerializeEmpty` | lib/ffmpeg/encoding_options.rb:9-13 | `to_s` of an empty Hash is `""` |
| `EncodingOpts.SerializeAppend` | lib/ffmpeg/encoding_options.rb:9-13 | storing a new key appends its fragment after one space (or alone, into an empty Hash): `to_s` follows insertion order |
| `EncodingOpts.SerializeOverwrite` | lib/ffmpeg/encoding_options.rb:9-13 | storing over an existing key keeps its place and changes only its fragment |
| `EncodingOpts.FlagTable` | lib/ffmpeg/encoding_options.rb:20-66 | no flag holds a space and each flag belongs to exactly one key |
| `EncodingOpts.FragmentRoundTrip` | lib/ffmpeg/encoding_options.rb:20-66 | a flagged fragment reads back as its key and the value's text, with the unit for a bitrate |
| `EncodingOpts.PlainRules` | lib/ffmpeg/encoding_options.rb:36-66 | every flagged rule other than the two bitrates renders as its flag, one space and the value's text, with no unit added |
| `EncodingOpts.CustomVerbatim` | lib/ffmpeg/encoding_options.rb:68-70 | `custom` renders as its value's text with no flag |
| `EncodingOpts.BitrateUnit` | lib/ffmpeg/encoding_options.rb:72-74 | a bitrate whose text holds a `k` is emitted unchanged; otherwise `k` is appended; either way the value part holds a `k` |
| `EncodingOpts.IntegerBitrateGetsUnit` | lib/ffmpeg/encoding_options.rb:48-58 | an Integer bitrate n renders as the flag, n and `k` |
| `EncodingOpts.ResolutionRoundTrip` | spec/ffmpeg/encoding_options_spec.rb:16-24 | the `WxH` resolution the scaling code writes reads back as that width and height |
| `EncodingOpts.EncodingOptions.Width` | spec/ffmpeg/encoding_options_spec.rb:16-19 | `width` is nil exactly when no non-nil resolution is set; its value is stated by `EncodingOpts.ResolutionRoundTrip` |
| `EncodingOpts.EncodingOptions.Height` | spec/ffmpeg/encoding_options_spec.rb:21-24 | `height` is nil exactly when no non-nil resolution is set; its value is stated by `EncodingOpts.ResolutionRoundTrip` |
| `EncodingOpts.EncodingOptions.Store` | lib/ffmpeg/transcoder.rb:127 | `[]=` stores the value under the key and changes nothing else |
| `EncodingOpts.EncodingOptions.Delete` | lib/ffmpeg/transcoder.rb:162 | `delete` removes the key and answers its old value, or nil |
| `RubyHash.PutSpec` | lib/ffmpeg/transcoders/autorotator.rb:7 | `[]=` makes the key map to the value, keeps every other key's value, and appends only a new key |
| `RubyHash.DeleteSpec` | lib/ffmpeg/transcoder.rb:162 | `delete` leaves the key absent and every other key with its value and place |
| `Scaler.EvenizeReal` | lib/ffmpeg/transcoders/scaler.rb:62-65 | `evenize` gives an even integer in (x - 1, x + 1] |
| `Scaler.EvenizeUnique` | lib/ffmpeg/transcoders/scaler.rb:62-65 | that is the only even integer in that interval, so the result is determined by the bound |
| `Scaler.EvenizeEven` | lib/ffmpeg/transcoders/scaler.rb:64 | an even integer is kept |
| `Scaler.InvertSideSwaps` | lib/ffmpeg/transcoders/scaler.rb:57-59 | `invert_side` swaps width and height and undoes itself |
| `Scaler.ScaleOnlyWhenPreserving` | lib/ffmpeg/transcoders/scaler.rb:6-9 | nothing is written exactly when the movie has no aspect ratio or the option names neither side |
| `Scaler.ScaleMeaning` | lib/ffmpeg/transcoders/scaler.rb:28-42 | the size comes from the side the option names, is capped by the movie's own size when enlarging is off, and goes to the inverted side when the orientation changes |
| `Scaler.NoEnlargeCaps` | lib/ffmpeg/transcoders/scaler.rb:36-39 | with enlarging off, the authoritative size is the smaller of the requested size and the movie's size |
| `Scaler.ScaleFailures` | lib/ffmpeg/transcoders/scaler.rb:28-55 | no requested size, a NaN aspect ratio, or no movie size when enlarging is off each raise |
| `Scaler.PreserveWidthMeaning` | lib/ffmpeg/transcoders/scaler.rb:46-49 | preserving the width keeps it exactly; the height is the even integer within 1 of width / aspect |
| `Scaler.PreserveHeightMeaning` | lib/ffmpeg/transcoders/scaler.rb:50-53 | preserving the height keeps it exactly; the width is the even integer within 1 of height * aspect |
| `Scaler.SetNewResolution` | lib/ffmpeg/transcoders/scaler.rb:44-55 | the options gain the new resolution, are untouched for another side, or are untouched with the error raised |
| `Scaler.ApplyPreserveAspectRatio` | lib/ffmpeg/transcoders/scaler.rb:28-42 | the options change exactly as the scaling rule says, or not at all when it raises |
| `Autorotator.ApplyAutorotate` | lib/ffmpeg/transcoders/autorotator.rb:4-14 | the options become the autorotated Hash |
| `Autorotator.AutorotatedSpec` | lib/ffmpeg/transcoders/autorotator.rb:4-14 | without autorotation nothing changes; with it, metadata is `s:v:0 rotate=0`, the filter is the rotation's, and every other key keeps its value and place |
| `Autorotator.RotationFilterNil` | lib/ffmpeg/transcoders/autorotator.rb:8-13 | the filter is nil exactly for a rotation other than 90, 180 and 270 |
| `Autorotator.OrientationIsTranspose` | lib/ffmpeg/transcoders/autorotator.rb:17-19 | given autorotation, the orientation changes exactly when the filter is a transpose |
| `Autorotator.OrientationNeedsAutorotate` | lib/ffmpeg/transcoders/autorotator.rb:17-23 | a change of orientation needs autorotation; a falsy option rules it out |
| `Transcoders.FindIndex` | lib/ffmpeg/transcoder.rb:154 | `find_index` answers an index holding the value with none before it, and nil exactly when the value is absent |
| `Transcoders.FindIndexIs` | lib/ffmpeg/transcoder.rb:154 | an index holding the value with none before it is the one `find_index` answers |
| `Transcoders.RubyArray.FindIndexOf` | lib/ffmpeg/transcoder.rb:176 | the scan answers what `find_index` answers |
| `Transcoders.RubyArray.DeleteAt` | lib/ffmpeg/transcoder.rb:156-157 | `delete_at` removes and answers the element, or answers nil and changes nothing past the end |
| `Transcoders.RubyArray.Concat` | lib/ffmpeg/transcoder.rb:178 | `concat` appends the elements |
| `Transcoders.StoreAt` | lib/ffmpeg/transcoder.rb:180 | `a[i] = x` puts x at i, keeps every other element, and pads with nil past the end |
| `Transcoders.RubyArray.Store` | lib/ffmpeg/transcoder.rb:180 | the Array becomes its old contents with x stored at i |
| `Transcoders.SeekFromListSpec` | lib/ffmpeg/transcoder.rb:153-159 | without both markers the Array is whole; otherwise putting `-seek_time` and its value back at the first `-seek_time` gives the original, other elements keep their order, and the seek time is the value's text |
| `Transcoders.SeekFromListAt` | lib/ffmpeg/transcoder.rb:154-157 | with both markers found, the result drops `-seek_time` and the element after it |
| `Transcoders.DeleteTwice` | lib/ffmpeg/transcoder.rb:156-157 | two `delete_at` calls at one index remove that element and the next |
| `Transcoders.SeekFromHashSpec` | lib/ffmpeg/transcoder.rb:160-163 | with a non-nil `:screenshot`, `:seek_time` is gone, every other key keeps its value, and the seek time is the deleted value's text; otherwise nothing changes |
| `Transcoders.SeekTimeFromArray` | lib/ffmpeg/transcoder.rb:153-159 | the Array is edited in place to the relocation result and the seek time is answered |
| `Transcoders.SeekTimeFromHash` | lib/ffmpeg/transcoder.rb:160-163 | a new `EncodingOptions` holds the Hash without the seek time |
| `Transcoders.ScreenshotSeekTime` | lib/ffmpeg/transcoder.rb:150-168 | an Array is edited in place, a Hash is copied into new options, and any other class raises the "Unknown options format" `ArgumentError` |
| `Transcoders.WithSeek` | lib/ffmpeg/transcoder.rb:170-186 | moving the seek time in keeps the input options well formed |
| `Transcoders.SeekFollowsSs` | lib/ffmpeg/transcoder.rb:173-181 | the first `-ss` is followed by the seek time; an existing `-ss` keeps its place and only the next element changes; without one the pair is appended |
| `Transcoders.SeekIntoHash` | lib/ffmpeg/transcoder.rb:171-185 | Hash input options get `:ss` set to the seek time and keep every other value; an empty seek time changes nothing |
| `Transcoders.SeekIntoList` | lib/ffmpeg/transcoder.rb:175-181 | the in-place Array edit gives the relocated input options |
| `Transcoders.ScreenshotToTranscoderOptions` | lib/ffmpeg/transcoder.rb:170-186 | only `:input_options` changes, to the options with the seek time moved in |
| `Transcoders.Atoms` | lib/ffmpeg/transcoder.rb:37 | an Array's elements become command elements one for one |
| `Transcoders.PairArgs` | lib/ffmpeg/transcoder.rb:37 | `to_a` of a Hash gives its pairs in order |
| `Transcoders.FlatPairs` | lib/ffmpeg/transcoder.rb:34 | each Hash input option becomes `-key` and its value, in order, twice as many elements |
| `Transcoders.FlattenInputOptions` | lib/ffmpeg/transcoder.rb:28-35 | the loop's `iopts` are the input options flattened: an Array verbatim, a Hash in pairs, none when absent |
| `Transcoders.CommandShape` | lib/ffmpeg/transcoder.rb:37 | the binary and `-y` come first, the input options next, then `-i` directly before the input, the raw options, and the output file last |
| `Transcoders.ValidateDefault` | lib/ffmpeg/transcoder.rb:119 | validation is on when the option is absent; a given value is kept |
| `Transcoders.InlineAgreesWithScaler` | lib/ffmpeg/transcoder.rb:117-134 | the inline resize rule is the scaling rule with enlarging allowed and no rotation |
| `Transcoders.InlineWidthMeaning` | lib/ffmpeg/transcoder.rb:121-127 | preserving the width keeps it and writes the even height within 1 of width / aspect; no movie or no side named writes nothing |
| `Transcoders.ValidationErrorsSpec` | lib/ffmpeg/transcoder.rb:104-105 | the two errors are recorded independently; none exactly when the file exists and is valid |
| `Transcoders.FailureMessageShape` | lib/ffmpeg/transcoder.rb:111-113 | the raised message starts "Failed encoding.Errors: ", lists the errors comma-separated, and ends with ffmpeg's whole output |
| `Transcoders.ProgressMeaning` | lib/ffmpeg/transcoder.rb:74-83 | a `time=H:M:S.f` chunk yields H * 3600 + M * 60 + S over the movie's duration |
| `Transcoders.ProgressWithoutMatch` | lib/ffmpeg/transcoder.rb:77-82 | a `time=` chunk that does not match yields 0.0, or NaN over a zero duration, and never raises |
| `Transcoders.Transcoder.constructor` | lib/ffmpeg/transcoder.rb:13-22 | the fields hold the movie, input, output file and options, with no errors yet |
| `Transcoders.Transcoder.ApplyTranscoderOptions` | lib/ffmpeg/transcoder.rb:117-134 | `:validate` gets its default, and the raw options change exactly as the inline resize rule says, or the rule's error is raised |
| `Transcoders.Transcoder.BuildCommand` | lib/ffmpeg/transcoder.rb:26-37 | a non-nil `:input` overrides the input, and the command is the assembled argument vector |
| `Transcoders.Transcoder.TranscodeMovie` | lib/ffmpeg/transcoder.rb:64-101 | the output is the chunks in order; progress is 0.0 then one value per `time=` chunk when there is a movie; a failed exit adds its error |
| `Transcoders.Transcoder.ValidateOutputFile` | lib/ffmpeg/transcoder.rb:103-115 | both checks append their errors; it succeeds exactly when the error list is empty, yielding 1.0, and otherwise raises the message naming them all |
| `Transcoders.Transcoder.Run` | lib/ffmpeg/transcoder.rb:40-48 | with validation off it answers nil; with it on it answers the encoded movie or raises, after the progress values |
| `Transcoders.NewTranscoder` | lib/ffmpeg/transcoder.rb:13-38 | for each option format, the new transcoder's raw options, settled transcoder options and command, or the error raised |
| `Transcoders.Assemble` | lib/ffmpeg/transcoder.rb:14-37 | after the seek time is taken out: fields set, resize applied, and the command built from the raw options |
| `ProbeText.FirstOccurrenceSpec` | lib/ffmpeg/movie.rb:15 | a literal search answers its leftmost occurrence, and nil exactly when the text lacks it |
| `ProbeText.CaptureLineOf` | lib/ffmpeg/movie.rb:23-27 | `Video: (.*)` captures the rest of the line after the first marker |
| `ProbeText.DurationOf` | lib/ffmpeg/movie.rb:17-18 | `Duration: HH:MM:SS.d` gives HH * 3600 + MM * 60 + SS.d seconds |
| `ProbeText.TimeOf` | lib/ffmpeg/transcoder.rb:75-76 | `time=H:M:S.f` gives H * 3600 + M * 60 + S.f seconds |
| `ProbeText.TimeFallback` | lib/ffmpeg/transcoder.rb:77-79 | a line where the time pattern matches nowhere gives 0.0 |
| `ProbeText.FrameRateOf` | lib/ffmpeg/video_stream.rb:12 | the number before ` fps` is the frame rate, whatever text precedes it as long as that text holds no `f` and does not end in a digit (so no earlier match of the pattern starts there) |
| `ProbeText.SampleAspectOf` | lib/ffmpeg/video_stream.rb:10 | `SAR w:h` or `PAR w:h` gives the ratio text |
| `ProbeText.DisplayAspectOf` | lib/ffmpeg/video_stream.rb:11 | `DAR w:h` gives the ratio text |
| `ProbeText.RatioShape` | lib/ffmpeg/video_stream.rb:10-11 | a captured ratio is digits, a colon and digits |
| `ProbeText.DecimalToFOf` | lib/ffmpeg/transcoder.rb:76 | `to_f` of `W.F` is its decimal value |
| `ProbeText.CommaSplitOfJoin` | lib/ffmpeg/movie.rb:30 | splitting a `, `-joined line on commas gives back its fields |
| `ProbeText.ParseOptionsOfJoin` | spec/ffmpeg/ffmpeg_spec.rb:6-14 | `parse_options` of fields joined by `, ` gives those fields back, for any fields that are non-empty, unpadded and balanced in parentheses with no comma outside them; commas inside parentheses do not cut a field |
| `ProbeText.SplitTopNested` | spec/ffmpeg/ffmpeg_spec.rb:11-14 | a piece whose commas all sit inside parentheses is copied whole into the current field, and the nesting depth advances by its balance |
| `ProbeText.ParseOptionsEmpty` | spec/ffmpeg/ffmpeg_spec.rb:6-9 | `parse_options` of `""` is the empty list |
| `ProbeText.ParseOptionsNested` | spec/ffmpeg/ffmpeg_spec.rb:11-14 | the first three fields of the test's description, `h264 (Main) (avc1 / 0x31637661), yuv420p(tv, bt709), 960x540`, split into exactly those three fields |
| `Movies.ValidOutputSpec` | lib/ffmpeg/movie.rb:15 | a movie is valid exactly when the text mentions neither failure message |
| `Movies.DurationAbsent` | lib/ffmpeg/movie.rb:17-18 | without `Duration: ` the duration is 0 |
| `Movies.BitrateAbsent` | lib/ffmpeg/movie.rb:20-21 | the bitrate is nil exactly when there is no `bitrate: ` marker |
| `Movies.BitrateOf` | lib/ffmpeg/movie.rb:20-21 | the digits after the first `bitrate: ` are the bitrate, whatever text precedes it as long as no earlier `bitrate: ` starts there |
| `Movies.VideoFieldsOf` | lib/ffmpeg/movie.rb:29-32 | codec and colorspace are the first two fields, the resolution the first word of the third |
| `Movies.VideoWithoutCommas` | lib/ffmpeg/movie.rb:29-32 | a video line without a third field raises |
| `Movies.AudioFieldsOf` | lib/ffmpeg/movie.rb:34-37 | codec, the sample rate's leading digits and the channels text are read from the audio line |
| `Movies.MovieVideoOf` | lib/ffmpeg/movie.rb:23-37 | a parsed movie holds the video line's fields |
| `Movies.WidthHeightOf` | lib/ffmpeg/movie.rb:44-50 | a `WxH` resolution gives width W and height H |
| `Movies.AspectOfResolution` | lib/ffmpeg/movie.rb:52-54 | the aspect ratio is W / H, or an infinity or NaN when H is 0 |
| `Movies.AspectWithoutResolution` | lib/ffmpeg/movie.rb:52-54 | without a resolution the ratio is NaN, not an error |
| `Movies.ChannelCountSpec` | lib/ffmpeg/movie.rb:56-60 | `channels` gives the leading number, then `mono` 1, `stereo` 2, else nil, in that order |
| `Movies.Escape` | lib/ffmpeg/movie.rb:71-74 | the escaped path holds no raw CR or LF |
| `Movies.EscapePlain` | lib/ffmpeg/movie.rb:71-74 | a path with none of the table's characters is unchanged |
| `Movies.UnescapeEscape` | lib/ffmpeg/movie.rb:71-74 | reading the escaped path back gives the path with line breaks normalised: only the kind of line break is lost |
| `VideoStreams.ParseVideoStream` | lib/ffmpeg/video_stream.rb:5-19 | the stream keeps its description |
| `VideoStreams.VideoStreamOf` | lib/ffmpeg/video_stream.rb:7-18 | codec, colorspace, bitrate, resolution, width and height from a description joined from top-level fields, which may hold parenthesised groups with commas inside |
| `VideoStreams.KbPerSecondOf` | lib/ffmpeg/video_stream.rb:8 | a field `<digits> kb/s` gives that bitrate |
| `VideoStreams.KbPerSecondShape` | lib/ffmpeg/video_stream.rb:8 | a bitrate is read only from a field that is exactly digits and ` kb/s` |
| `VideoStreams.HeightWithoutX` | lib/ffmpeg/video_stream.rb:14-18 | a resolution without `x` reads its height as 0 |
| `VideoStreams.SarOfDescription` | lib/ffmpeg/video_stream.rb:10 | the stream's SAR is the ratio after `SAR ` or `PAR ` |
| `VideoStreams.DarOfDescription` | lib/ffmpeg/video_stream.rb:11 | the stream's DAR is the ratio after `DAR ` |
| `VideoStreams.AspectFromRatio` | lib/ffmpeg/video_stream.rb:35-40 | a ratio `w:h` gives w / h, and nil when w is 0 |
| `VideoStreams.AspectPrefersDar` | lib/ffmpeg/video_stream.rb:25-27 | a usable DAR decides the aspect ratio |
| `VideoStreams.AspectFallsBack` | lib/ffmpeg/video_stream.rb:49-52 | without a DAR, width / height decides; with neither, nil |
| `VideoStreams.PixelAspectDefault` | lib/ffmpeg/video_stream.rb:29-31 | without a usable SAR the pixel aspect ratio is 1 |
| `AudioStreams.ParseAudioStream` | lib/ffmpeg/audio_stream.rb:5-14 | the language and description are stored verbatim |
| `AudioStreams.WithoutComma` | lib/ffmpeg/audio_stream.rb:9-13 | without a comma codec, sample rate, channels and bitrate are all nil |
| `AudioStreams.AudioStreamOf` | lib/ffmpeg/audio_stream.rb:10-12 | codec, sample rate, channels and bitrate from a description joined from top-level fields, which may hold parenthesised groups with commas inside |
| `AudioStreams.KbPerSecondPrefixOf` | lib/ffmpeg/audio_stream.rb:11 | a field starting `<digits> kb/s` gives that bitrate |
| `AudioStreams.NoBitrateWithoutDigits` | lib/ffmpeg/audio_stream.rb:11 | a field not starting with a digit gives no bitrate |
| `AudioStreams.ChannelCountSpec` | lib/ffmpeg/audio_stream.rb:20-26 | `channels` gives the leading number, then `mono` 1, `stereo` 2, `5.1` 6, else nil, in that order |
| `AudioStreams.ChannelCountAgreesWithMovie` | lib/ffmpeg/audio_stream.rb:20-26 | the stream's count differs from the movie's only when `5.1` is the sole clue |
| `ScreenshotOpts.SeekPlacement` | lib/ffmpeg/screenshot_options.rb:15-21 | the seek is in exactly one string: `following` when safe, `preceding` otherwise |
| `ScreenshotOpts.SafeSeek` | lib/ffmpeg/screenshot_options.rb:15-17 | when `safe` is truthy (its default is true) the preceding string is empty and the following one starts with the seek |
| `ScreenshotOpts.UnsafeSeek` | lib/ffmpeg/screenshot_options.rb:18-21 | without a safe seek the seek is the preceding string and the following one does not start with `-ss` |
| `ScreenshotOpts.FollowingShape` | lib/ffmpeg/screenshot_options.rb:24-27 | `following` holds the frame-grab arguments, then `-s WxH` exactly when a width or height is given |
| `ScreenshotOpts.Defaults` | lib/ffmpeg/screenshot_options.rb:4-13 | with no settings the frame is grabbed safely at second 4 with no size |
| `ThumbnailingOpts.ThumbnailShape` | lib/ffmpeg/thumbnailing_options.rb:7-12 | `preceding` is `-itsoffset -<position>` whatever the size; `following` starts with the frame grab and ends ` -s WxH` exactly when a width or height is given |
| `ThumbnailingOpts.Defaults` | lib/ffmpeg/thumbnailing_options.rb:7 | the default position is 4 with no size |
| `EncodingOpts.Serialize` | lib/ffmpeg/encoding_options.rb:9-13 | definition of `to_s`; meaning stated by `EncodingOpts.SerializeEmpty`, `EncodingOpts.SerializeAppend` and `EncodingOpts.SerializeOverwrite` |
| `Movies.ParseMovie` | lib/ffmpeg/movie.rb:7-38 | definition of `initialize`; meaning stated by `Movies.MovieVideoOf`, `Movies.DurationAbsent`, `Movies.BitrateOf` and `Movies.AudioFieldsOf` |
| `Movies.CalculatedAspectRatio` | lib/ffmpeg/movie.rb:52-54 | definition; meaning stated by `Movies.AspectOfResolution` and `Movies.AspectWithoutResolution` |
| `Movies.AudioChannels` | lib/ffmpeg/movie.rb:56-60 | definition; meaning stated by `Movies.ChannelCountSpec` |
| `Movies.FrameRate` | lib/ffmpeg/movie.rb:62-64 | definition; meaning stated by `ProbeText.FrameRateOf` on the video line |
| `VideoStreams.CalculatedAspectRatio` | lib/ffmpeg/video_stream.rb:25-27 | definition; meaning stated by `VideoStreams.AspectPrefersDar` and `VideoStreams.AspectFallsBack` |
| `VideoStreams.CalculatedPixelAspectRatio` | lib/ffmpeg/video_stream.rb:29-31 | definition; meaning stated by `VideoStreams.PixelAspectDefault` |
| `VideoStreams.AspectFrom` | lib/ffmpeg/video_stream.rb:35-47 | definition of `aspect_from_dar` and `aspect_from_sar`; meaning stated by `VideoStreams.AspectFromRatio` |
| `AudioStreams.Channels` | lib/ffmpeg/audio_stream.rb:20-26 | definition; meaning stated by `AudioStreams.ChannelCountSpec` |
| `Autorotator.Autorotated` | lib/ffmpeg/transcoders/autorotator.rb:4-14 | definition; meaning stated by `Autorotator.AutorotatedSpec` |
| `Scaler.ScaledResolution` | lib/ffmpeg/transcoders/scaler.rb:28-42 | definition; meaning stated by `Scaler.ScaleMeaning`, `Scaler.NoEnlargeCaps` and `Scaler.ScaleFailures` |
| `Scaler.NewResolution` | lib/ffmpeg/transcoders/scaler.rb:44-55 | definition; meaning stated by `Scaler.PreserveWidthMeaning` and `Scaler.PreserveHeightMeaning` |
| `Scaler.Evenize` | lib/ffmpeg/transcoders/scaler.rb:62-65 | definition on Floats; meaning stated by `Scaler.EvenizeReal` and `Scaler.EvenizeUnique` |
| `Transcoders.SeekFromList` | lib/ffmpeg/transcoder.rb:153-159 | definition; meaning stated by `Transcoders.SeekFromListSpec` and `Transcoders.SeekFromListAt` |
| `Transcoders.SeekFromHash` | lib/ffmpeg/transcoder.rb:160-163 | definition; meaning stated by `Transcoders.SeekFromHashSpec` |
| `Transcoders.InlineResolution` | lib/ffmpeg/transcoder.rb:120-133 | definition; meaning stated by `Transcoders.InlineAgreesWithScaler` and `Transcoders.InlineWidthMeaning` |
| `Transcoders.ProgressOf` | lib/ffmpeg/transcoder.rb:74-83 | definition; meaning stated by `Transcoders.ProgressMeaning` and `Transcoders.ProgressWithoutMatch` |
| `ScreenshotOpts.NewScreenshotOptions` | lib/ffmpeg/screenshot_options.rb:9-28 | definition; meaning stated by `ScreenshotOpts.SeekPlacement`, `ScreenshotOpts.SafeSeek`, `ScreenshotOpts.UnsafeSeek`, `ScreenshotOpts.FollowingShape` and `ScreenshotOpts.Defaults` |
| `ThumbnailingOpts.NewThumbnailingOptions` | lib/ffmpeg/thumbnailing_options.rb:7-13 | definition; meaning stated by `ThumbnailingOpts.ThumbnailShape` and `ThumbnailingOpts.Defaults` |
| `VideoStreams.LanguageDropped` | lib/ffmpeg/video_stream.rb:5-7 | the language passed to the constructor is not stored |
| `VideoStreams.ParseVideoStreamKeepingLanguage` | lib/ffmpeg/video_stream.rb:5-7 | the corrected constructor stores the language and is otherwise the same |

## Left out

- Running ffmpeg is not modelled: `Open3` spawning, streaming stderr, the timeout and
  the `Transcoder.timeout` class variable, logging, and `fix_encoding`. The text ffmpeg
  prints, its exit status, whether the output file exists and what probing it gives
  are parameters.
- The file-existence check and the ffmpeg call in `Movie#initialize` are I/O. The
  parsing takes the printed text as a parameter.
- `Movie#transcode` only chains `Transcoder.new` and `run`, which are modelled as
  `Transcoders.NewTranscoder` and `Transcoders.Transcoder.Run`.
- `encoded` memoises `Movie.new(output_file)`. The model passes the probed movie in
  as a parameter and does not model the memo.
- lib/ffmpeg/io_monkey.rb is pure concurrency.
- lib/ffmpeg/concat.rb, lib/ffmpeg/screenshot.rb and lib/ffmpeg/thumbnailer.rb launch
  processes.
- lib/ffmpeg/stream.rb declares attributes only.
- The library entry files configure a logger and the binary path. The ffmpeg binary
  is a parameter.
- `FFMPEG.parse_options` is not part of this model's sources. `ProbeText.ParseOptions`
  is defined from its test: a split at commas outside parentheses, with each piece
  stripped.
- A finite Float is a `real`, so rounding is not modelled. NaN and the infinities are
  modelled.
- `calculated_pixel_aspect_ratio` answers the Integer 1 when there is no SAR. The model
  gives the Float 1.0.
- The messages of `NoMethodError` are approximate. The class name inside the "Unknown
  options format" message is a parameter; Ruby's `inspect` is not modelled.
- Symbols and Floats in options are represented by their text.
- The caller's `transcoder_options` Hash, and the `:input_options` Array or Hash
  inside it, are modelled as values, not shared. The model does not capture that the
  caller sees the writes made through them:
  - `[:validate] =` (lib/ffmpeg/transcoder.rb:119);
  - `input_options[:ss] =` on Hash input options (lib/ffmpeg/transcoder.rb:183);
  - `[:input_options] =` (lib/ffmpeg/transcoder.rb:185);
  - the seek time appended to or written into the caller's own Array
    (lib/ffmpeg/transcoder.rb:175-181).
- A truthy `:input_options` that is neither an Array nor a Hash (a String, say) is not
  modelled: `Settings.InputOptions` has no case for it. The source would call `each`
  on it (lib/ffmpeg/transcoder.rb:34) or `[]=` (lib/ffmpeg/transcoder.rb:183).
  The `options` Array is shared and edited in place, as in the source.
- An input that is not a Movie is kept as an unread value.
- Behaviour asserted by tests but absent from the code is not modelled:
  - option reordering;
  - the `-b:v`/`-b:a` spellings, `duration`, `seek_time`, `screenshot` and watermark
    rules, and dropping nil values;
  - String options being accepted;
  - the duration tolerance;
  - a "fit" preserve mode.
- `Transcoders.WithSeek`'s contract states only that well-formed options stay well
  formed. Its meaning is stated by `Transcoders.SeekFollowsSs` and
  `Transcoders.SeekIntoHash`.
- `EncodingOpts.EncodingOptions.Width` and `EncodingOpts.EncodingOptions.Height` are
  defined from spec/ffmpeg/encoding_options_spec.rb:16-24. lib/ffmpeg/encoding_options.rb
  defines neither `width` nor `height`, so as written `@raw_options.send(side)`
  (lib/ffmpeg/transcoders/scaler.rb:32) and `@raw_options.width` / `.height`
  (lib/ffmpeg/transcoder.rb:124, 129) would raise `NoMethodError`. The model follows
  the tests here, not the code.
- `Transcoders.Transcoder.TranscodeMovie` does not model the `Process hung` error
  that the timeout raises.

## Findings

| source | as written | input that shows it | evidently intended | confidence | as-written member | corrected member |
|---|---|---|---|---|---|---|
| lib/ffmpeg/video_stream.rb:5-7 | `initialize(language, raw)` never assigns `@language`, so `language` always reads nil | `VideoStream.new("eng", "h264")`: `language` is nil | store the language, as `AudioStream#initialize` does | high; not executed | `VideoStreams.LanguageDropped` | `VideoStreams.ParseVideoStreamKeepingLanguage` |
