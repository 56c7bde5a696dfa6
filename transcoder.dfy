/** FFMPEG::Transcoder (lib/ffmpeg/transcoder.rb): builds the ffmpeg argument vector
    from a movie, an output path, encoding options and transcoder options, moves a
    screenshot seek time into the input options, and turns the outcome of a run into
    success or a raised error. Spawning ffmpeg and reading its output as it streams is
    not modelled: the chunks it printed, its exit status, whether the output file
    exists and what probing that file gives are parameters. */
module Transcoders {
  import opened Wrappers
  import opened Text
  import opened RubyValues
  import opened RubyHash
  import opened Floats
  import opened EncodingOpts
  import opened Settings
  import opened ProbeText
  import Movies
  import Scaler

  // ---- Ruby arrays ----

  /** Array#find_index(x): the first index holding x. */
  function FindIndex(s: seq<Value>, x: Value): (r: Option<nat>)
    ensures r.Some? ==> r.value < |s| && s[r.value] == x && x !in s[..r.value]
    ensures r.None? <==> x !in s
  {
    if s == [] then None
    else if s[0] == x then Some(0)
    else
      match FindIndex(s[1..], x)
      case None => None
      case Some(i) =>
        assert s[..i + 1] == [s[0]] + s[1..][..i];
        Some(i + 1)
  }

  /** An index holding x with no x before it is the one find_index answers. */
  lemma FindIndexIs(s: seq<Value>, x: Value, i: nat)
    requires i < |s| && s[i] == x && x !in s[..i]
    ensures FindIndex(s, x) == Some(i)
  {
    assert s[..i + 1][i] == x;
    var j := FindIndex(s, x).value;
    assert forall k :: 0 <= k < i ==> s[..i][k] == s[k];
    assert forall k :: 0 <= k < j ==> s[..j][k] == s[k];
  }

  /** `a[i] = x`: past the end, the gap is filled with nil. */
  function StoreAt(s: seq<Value>, i: nat, x: Value): (r: seq<Value>)
    ensures |r| == if i < |s| then |s| else i + 1
    ensures r[i] == x
    ensures forall j :: 0 <= j < |s| && j != i ==> r[j] == s[j]
    ensures forall j :: |s| <= j < i ==> r[j] == Nil
  {
    if i < |s| then s[i := x] else s + seq(i - |s|, _ => Nil) + [x]
  }

  /** A Ruby Array that the transcoder changes in place. */
  class RubyArray {
    var items: seq<Value>

    constructor (items: seq<Value>)
      ensures this.items == items
    {
      this.items := items;
    }

    /** Array#find_index */
    method FindIndexOf(x: Value) returns (r: Option<nat>)
      ensures r == FindIndex(items, x)
    {
      var i := 0;
      while i < |items|
        invariant 0 <= i <= |items|
        invariant x !in items[..i]
      {
        if items[i] == x {
          FindIndexIs(items, x, i);
          return Some(i);
        }
        assert items[..i + 1] == items[..i] + [items[i]];
        i := i + 1;
      }
      assert items[..i] == items;
      return None;
    }

    /** Array#delete_at: removes and answers the element at i, or answers nil and
        changes nothing when i is past the end. */
    method DeleteAt(i: nat) returns (removed: Value)
      modifies this
      ensures i < |old(items)| ==> removed == old(items)[i] && items == old(items)[..i] + old(items)[i + 1..]
      ensures i >= |old(items)| ==> removed == Nil && items == old(items)
    {
      if i < |items| {
        removed := items[i];
        items := items[..i] + items[i + 1..];
      } else {
        removed := Nil;
      }
    }

    /** Array#concat */
    method Concat(more: seq<Value>)
      modifies this
      ensures items == old(items) + more
    {
      items := items + more;
    }

    /** `a[i] = x` */
    method Store(i: nat, x: Value)
      modifies this
      ensures items == StoreAt(old(items), i, x)
    {
      if i < |items| {
        items := items[i := x];
      } else {
        items := items + seq(i - |items|, _ => Nil) + [x];
      }
    }
  }

  // ---- screenshot_seek_time ----

  /** The `options` argument: an Array, which is changed in place, a Hash (an
      EncodingOptions is one), or an object of another class, named by its class. */
  datatype Options =
    | ListOptions(list: RubyArray)
    | HashOptions(pairs: Hash<Value>)
    | OtherOptions(className: string)

  /** @raw_options: the caller's Array itself, or a new EncodingOptions. */
  datatype RawOptions = ListRaw(list: RubyArray) | HashRaw(opts: EncodingOptions)

  /** What screenshot_seek_time makes of an Array: when "-screenshot" is present the
      first "-seek_time" and the element after it are removed, and that element's text
      is the seek time. A seek time that is never read is nil, whose text is "". */
  function SeekFromList(s: seq<Value>): (seq<Value>, string) {
    if FindIndex(s, Str("-screenshot")).None? then (s, "")
    else
      match FindIndex(s, Str("-seek_time"))
      case None => (s, "")
      case Some(i) =>
        if i + 1 < |s| then (s[..i] + s[i + 2..], ToS(s[i + 1])) else (s[..i], "")
  }

  /** What screenshot_seek_time makes of a Hash: when :screenshot is not nil, :seek_time
      is deleted and its text is the seek time. */
  function SeekFromHash(h: Hash<Value>): (Hash<Value>, string) {
    if h.Fetch("screenshot").GetOr(Nil) == Nil then (h, "")
    else (h.Delete("seek_time"), ToS(h.Fetch("seek_time").GetOr(Nil)))
  }

  function UnknownFormat(className: string): Error {
    ArgumentError("Unknown options format '" + className + "', should be either EncodingOptions, Hash or Array.")
  }

  /** Without both "-screenshot" and "-seek_time" the Array is kept whole and there
      is no seek time. Otherwise putting "-seek_time" and its value back where the
      first "-seek_time" was gives the original Array, and the seek time is the text
      of that value ("" when "-seek_time" was last). */
  lemma {:induction false} SeekFromListSpec(s: seq<Value>)
    ensures Str("-screenshot") !in s || Str("-seek_time") !in s ==> SeekFromList(s) == (s, "")
    ensures Str("-screenshot") in s && Str("-seek_time") in s ==>
      var i := FindIndex(s, Str("-seek_time")).value;
      var (rest, seek) := SeekFromList(s);
      && Str("-seek_time") !in rest[..i]
      && (i + 1 < |s| ==> s == rest[..i] + [Str("-seek_time"), s[i + 1]] + rest[i..] && seek == ToS(s[i + 1]))
      && (i + 1 == |s| ==> s == rest + [Str("-seek_time")] && seek == "")
  {
    if Str("-screenshot") in s && Str("-seek_time") in s {
      var i := FindIndex(s, Str("-seek_time")).value;
      SeekFromListAt(s, i);
      if i + 1 < |s| {
        Reinsert(s, i);
      } else {
        assert s == s[..i] + [s[i]];
      }
    }
  }

  lemma Reinsert(s: seq<Value>, i: nat)
    requires i + 1 < |s|
    ensures var rest := s[..i] + s[i + 2..];
      rest[..i] == s[..i] && s == rest[..i] + [s[i], s[i + 1]] + rest[i..]
  {
    var rest := s[..i] + s[i + 2..];
    assert rest[..i] == s[..i];
    assert rest[i..] == s[i + 2..];
    assert s == s[..i] + [s[i], s[i + 1]] + s[i + 2..];
  }

  /** Without a non-nil :screenshot the Hash is kept whole and there is no seek time;
      with one, :seek_time is gone, every other key keeps its value, and the seek time
      is the text of the deleted value. */
  lemma SeekFromHashSpec(h: Hash<Value>)
    requires h.Valid()
    ensures h.Fetch("screenshot").GetOr(Nil) == Nil ==> SeekFromHash(h) == (h, "")
    ensures h.Fetch("screenshot").GetOr(Nil) != Nil ==>
      var (rest, seek) := SeekFromHash(h);
      && rest.Valid()
      && rest.Fetch("seek_time") == None
      && (forall k :: k != "seek_time" ==> rest.Fetch(k) == h.Fetch(k))
      && seek == ToS(h.Fetch("seek_time").GetOr(Nil))
  {
    DeleteSpec(h, "seek_time");
  }

  /** screenshot_seek_time: the raw options and the seek time, or the ArgumentError
      for options that are neither an Array nor a Hash. */
  method ScreenshotSeekTime(options: Options) returns (r: Result<(RawOptions, string), Error>)
    requires options.HashOptions? ==> options.pairs.Valid()
    modifies if options.ListOptions? then {options.list} else {}
    ensures options.ListOptions? ==>
      && options.list.items == SeekFromList(old(options.list.items)).0
      && r == Ok((ListRaw(options.list), SeekFromList(old(options.list.items)).1))
    ensures options.HashOptions? ==>
      && r.Ok? && r.value.0.HashRaw? && fresh(r.value.0.opts)
      && r.value.0.opts.Valid()
      && r.value.0.opts.Contents() == SeekFromHash(options.pairs).0
      && r.value.1 == SeekFromHash(options.pairs).1
    ensures options.OtherOptions? ==> r == Err(UnknownFormat(options.className))
  {
    match options {
      case ListOptions(list) =>
        var seekTime := SeekTimeFromArray(list);
        r := Ok((ListRaw(list), seekTime));
      case HashOptions(pairs) =>
        var raw, seekTime := SeekTimeFromHash(pairs);
        r := Ok((HashRaw(raw), seekTime));
      case OtherOptions(className) =>
        r := Err(UnknownFormat(className));
    }
  }

  /** Lines 154-158, in place. */
  method SeekTimeFromArray(list: RubyArray) returns (seekTime: string)
    modifies list
    ensures list.items == SeekFromList(old(list.items)).0
    ensures seekTime == SeekFromList(old(list.items)).1
  {
    ghost var s := list.items;
    seekTime := "";
    var shot := list.FindIndexOf(Str("-screenshot"));
    if shot.None? {
      return;
    }
    var i := list.FindIndexOf(Str("-seek_time"));
    if i.None? {
      return;
    }
    SeekFromListAt(s, i.value);
    DeleteTwice(s, i.value);
    var _ := list.DeleteAt(i.value);
    var value := list.DeleteAt(i.value);
    seekTime := ToS(value);
  }

  /** SeekFromList once both markers are found. */
  lemma SeekFromListAt(s: seq<Value>, i: nat)
    requires FindIndex(s, Str("-screenshot")).Some? && FindIndex(s, Str("-seek_time")) == Some(i)
    ensures i < |s|
    ensures SeekFromList(s) == if i + 1 < |s| then (s[..i] + s[i + 2..], ToS(s[i + 1])) else (s[..i], "")
  {
  }

  /** Two delete_at calls at the same index remove that element and the next. */
  lemma DeleteTwice(s: seq<Value>, i: nat)
    requires i < |s|
    ensures var s1 := s[..i] + s[i + 1..];
      && (i + 1 < |s| ==> i < |s1| && s1[i] == s[i + 1] && s1[..i] + s1[i + 1..] == s[..i] + s[i + 2..])
      && (i + 1 == |s| ==> i == |s1| && s1 == s[..i])
  {
    var s1 := s[..i] + s[i + 1..];
    if i + 1 < |s| {
      assert s1[..i] == s[..i];
      assert s1[i + 1..] == s[i + 2..];
    }
  }

  /** Lines 161-162, on a new EncodingOptions. */
  method SeekTimeFromHash(pairs: Hash<Value>) returns (raw: EncodingOptions, seekTime: string)
    requires pairs.Valid()
    ensures fresh(raw) && raw.Valid()
    ensures raw.Contents() == SeekFromHash(pairs).0 && seekTime == SeekFromHash(pairs).1
  {
    raw := new EncodingOptions(pairs);
    MergeIntoEmpty(pairs);
    seekTime := "";
    if raw.Get("screenshot") != Nil {
      var removed := raw.Delete("seek_time");
      seekTime := ToS(removed);
    }
  }

  // ---- screenshot_to_transcoder_options ----

  /** The Array input options with the seek time after the first "-ss", or with
      "-ss" and the seek time appended when there is none. */
  function SeekInList(s: seq<Value>, seek: string): seq<Value> {
    match FindIndex(s, Str("-ss"))
    case None => s + [Str("-ss"), Str(seek)]
    case Some(i) => StoreAt(s, i + 1, Str(seek))
  }

  /** :input_options once the seek time is in them; an empty seek time changes nothing,
      and absent input options start as an empty Array. */
  function WithSeek(io: InputOptions, seek: string): (r: InputOptions)
    ensures WellFormed(io) ==> WellFormed(r)
  {
    if seek == "" then io
    else
      match io
      case NoInputOptions => ListInput(SeekInList([], seek))
      case ListInput(s) => ListInput(SeekInList(s, seek))
      case HashInput(h) => HashInput(h.Put("ss", Str(seek)))
  }

  /** In Array input options the first "-ss" is followed by the seek time afterwards.
      An existing "-ss" keeps its place and only the element after it changes (the
      Array grows only when "-ss" was last); without one, the pair is appended. */
  lemma SeekFollowsSs(s: seq<Value>, seek: string)
    ensures var r := SeekInList(s, seek);
      && FindIndex(r, Str("-ss")).Some?
      && FindIndex(r, Str("-ss")).value + 1 < |r|
      && r[FindIndex(r, Str("-ss")).value + 1] == Str(seek)
    ensures Str("-ss") in s ==>
      var i := FindIndex(s, Str("-ss")).value;
      var r := SeekInList(s, seek);
      && FindIndex(r, Str("-ss")) == Some(i)
      && |r| == (if i + 1 < |s| then |s| else |s| + 1)
      && forall j :: 0 <= j < |s| && j != i + 1 ==> r[j] == s[j]
    ensures Str("-ss") !in s ==> SeekInList(s, seek) == s + [Str("-ss"), Str(seek)]
  {
    var r := SeekInList(s, seek);
    if Str("-ss") in s {
      var i := FindIndex(s, Str("-ss")).value;
      assert r[..i] == s[..i];
      FindIndexIs(r, Str("-ss"), i);
    } else {
      assert r[..|s|] == s;
      FindIndexIs(r, Str("-ss"), |s|);
    }
  }

  /** In Hash input options the seek time is stored as :ss; the other options keep
      their values and an empty seek time changes nothing. */
  lemma SeekIntoHash(h: Hash<Value>, seek: string)
    requires h.Valid()
    ensures seek == "" ==> WithSeek(HashInput(h), seek) == HashInput(h)
    ensures seek != "" ==>
      && WithSeek(HashInput(h), seek).pairs.Valid()
      && WithSeek(HashInput(h), seek).pairs.Fetch("ss") == Some(Str(seek))
      && forall k :: k != "ss" ==> WithSeek(HashInput(h), seek).pairs.Fetch(k) == h.Fetch(k)
  {
    PutSpec(h, "ss", Str(seek));
  }

  /** screenshot_to_transcoder_options, on a copy of the transcoder options. */
  method ScreenshotToTranscoderOptions(seek: string, topts: TranscoderOptions) returns (r: TranscoderOptions)
    ensures r == topts.(inputOptions := WithSeek(topts.inputOptions, seek))
  {
    if seek == "" {
      return topts;
    }
    match topts.inputOptions {
      case NoInputOptions =>
        var items := SeekIntoList([], seek);
        r := topts.(inputOptions := ListInput(items));
      case ListInput(s) =>
        var items := SeekIntoList(s, seek);
        r := topts.(inputOptions := ListInput(items));
      case HashInput(h) =>
        r := topts.(inputOptions := HashInput(h.Put("ss", Str(seek))));
    }
  }

  /** The Array branch: the seek time after "-ss", in place. */
  method SeekIntoList(s: seq<Value>, seek: string) returns (r: seq<Value>)
    ensures r == SeekInList(s, seek)
  {
    var list := new RubyArray(s);
    var fi := list.FindIndexOf(Str("-ss"));
    if fi.None? {
      list.Concat([Str("-ss"), Str(seek)]);
    } else {
      list.Store(fi.value + 1, Str(seek));
    }
    r := list.items;
  }

  // ---- the argument vector ----

  /** An element of the command: a value, or the [key, value] pair that `to_a` yields
      for each entry of a Hash of options. */
  datatype Arg = Atom(v: Value) | Pair(key: string, value: Value)

  function Atoms(s: seq<Value>): (r: seq<Arg>)
    ensures |r| == |s| && forall i :: 0 <= i < |s| ==> r[i] == Atom(s[i])
  {
    seq(|s|, i requires 0 <= i < |s| => Atom(s[i]))
  }

  /** `h.to_a`: the pairs in the hash's order. */
  function PairArgs(h: Hash<Value>): (r: seq<Arg>)
    requires forall k :: k in h.keys ==> k in h.vals
    ensures |r| == |h.keys| && forall i :: 0 <= i < |h.keys| ==> r[i] == Pair(h.keys[i], h.vals[h.keys[i]])
  {
    seq(|h.keys|, i requires 0 <= i < |h.keys| => Pair(h.keys[i], h.vals[h.keys[i]]))
  }

  /** `['-' + k.to_s, v]` for each pair of Hash input options, in the hash's order. */
  function FlatPairs(keys: seq<string>, vals: map<string, Value>): (r: seq<Value>)
    requires forall k :: k in keys ==> k in vals
    ensures |r| == 2 * |keys|
    ensures forall i :: 0 <= i < |keys| ==> r[2 * i] == Str("-" + keys[i]) && r[2 * i + 1] == vals[keys[i]]
  {
    if keys == [] then []
    else
      var last := keys[|keys| - 1];
      FlatPairs(keys[..|keys| - 1], vals) + [Str("-" + last), vals[last]]
  }

  /** Every key of Hash input options has a value. */
  predicate WellFormed(io: InputOptions) {
    io.HashInput? ==> forall k :: k in io.pairs.keys ==> k in io.pairs.vals
  }

  /** iopts: an Array of input options verbatim, a Hash flattened, none when absent. */
  function InputArgs(io: InputOptions): seq<Value>
    requires WellFormed(io)
  {
    match io
    case NoInputOptions => []
    case ListInput(s) => s
    case HashInput(h) => FlatPairs(h.keys, h.vals)
  }

  /** Lines 28-35: iopts built up with `+=`. */
  method FlattenInputOptions(io: InputOptions) returns (iopts: seq<Value>)
    requires WellFormed(io)
    ensures iopts == InputArgs(io)
  {
    iopts := [];
    match io {
      case NoInputOptions =>
      case ListInput(s) =>
        iopts := iopts + s;
      case HashInput(h) =>
        for i := 0 to |h.keys|
          invariant iopts == FlatPairs(h.keys[..i], h.vals)
        {
          var k := h.keys[i];
          assert h.keys[..i + 1][..i] == h.keys[..i];
          iopts := iopts + [Str("-" + k), h.vals[k]];
        }
        assert h.keys[..|h.keys|] == h.keys;
    }
  }

  /** `[binary, '-y', *iopts, '-i', input, *raw, output_file]` */
  function Command(binary: string, iopts: seq<Value>, input: Value, raw: seq<Arg>, outputFile: string): seq<Arg> {
    [Atom(Str(binary)), Atom(Str("-y"))] + Atoms(iopts) + [Atom(Str("-i")), Atom(input)] + raw + [Atom(Str(outputFile))]
  }

  /** The binary and "-y" come first and the output file last; the input options sit
      between "-y" and "-i", the input directly follows "-i", and the raw options
      follow the input. */
  lemma CommandShape(binary: string, iopts: seq<Value>, input: Value, raw: seq<Arg>, outputFile: string)
    ensures var c := Command(binary, iopts, input, raw, outputFile);
      && |c| == |iopts| + |raw| + 5
      && c[0] == Atom(Str(binary)) && c[1] == Atom(Str("-y"))
      && (forall i :: 0 <= i < |iopts| ==> c[2 + i] == Atom(iopts[i]))
      && c[|iopts| + 2] == Atom(Str("-i")) && c[|iopts| + 3] == Atom(input)
      && (forall i :: 0 <= i < |raw| ==> c[|iopts| + 4 + i] == raw[i])
      && c[|c| - 1] == Atom(Str(outputFile))
  {
  }

  // ---- apply_transcoder_options ----

  /** `@transcoder_options.fetch(:validate) { true }`: validation is on unless the
      option is given, and a given value, even nil or false, is kept. */
  function ValidateDefault(validate: Option<Value>): (r: Value)
    ensures validate.None? ==> r == Bool(true)
    ensures validate.Some? ==> r == validate.value
  {
    validate.GetOr(Bool(true))
  }

  /** Lines 121-133 on the raw options (None for an Array): Ok(None) when no
      resolution is written, Ok(Some(r)) when resolution r is stored, Err when it
      raises. Movie#calculated_aspect_ratio is never nil, so only a missing movie
      skips the rule; an Array has no `width` or `height`. */
  function InlineResolution(h: Option<Hash<Value>>, preserve: Value, movie: Option<Movies.Movie>): Result<Option<string>, Error> {
    var side := ToS(preserve);
    if movie.None? || (side != "width" && side != "height") then Ok(None)
    else if h.None? then Err(NoSideOnArray(side))
    else Scaler.NewResolution(side, Scaler.OptionsSide(h.value, side), Movies.CalculatedAspectRatio(movie.value))
  }

  /** An Array has no `width` or `height` method. */
  function NoSideOnArray(side: string): Error {
    NoMethodError("undefined method `" + side + "' for Array")
  }

  /** The options after a resolution is written, or as they were. */
  function Resized(h: Hash<Value>, written: Option<string>): Hash<Value> {
    match written
    case None => h
    case Some(r) => h.Put("resolution", Str(r))
  }

  /** The inline rule is the scaling rule with enlarging allowed and no rotation,
      given the movie's own aspect ratio and size. */
  lemma InlineAgreesWithScaler(h: Hash<Value>, topts: TranscoderOptions, m: Movies.Movie)
    requires topts.enlarge != Bool(false)
    ensures InlineResolution(Some(h), topts.preserveAspectRatio, Some(m)) ==
      Scaler.ScaledResolution(h, topts, MovieFacts(Some(Movies.CalculatedAspectRatio(m)), Movies.Width(m), Movies.Height(m), None), false)
  {
  }

  /** Preserving the width of a requested "WxH" keeps W and writes the even height
      within 1 of W / aspect; with no movie, or no side named, nothing is written. */
  lemma InlineWidthMeaning(h: Hash<Value>, m: Movies.Movie, width: int, a: real)
    requires Scaler.OptionsSide(h, "width") == Some(width)
    requires Movies.CalculatedAspectRatio(m) == Num(a) && a != 0.0
    ensures var r := InlineResolution(Some(h), Str("width"), Some(m));
      && r.Ok? && r.value.Some?
      && Scaler.OptionsSide(Resized(h, r.value), "width") == Some(width)
      && var height := Scaler.OptionsSide(Resized(h, r.value), "height").value;
        height % 2 == 0 && width as real / a - 1.0 < height as real <= width as real / a + 1.0
    ensures forall v :: ToS(v) != "width" && ToS(v) != "height" ==> InlineResolution(Some(h), v, Some(m)) == Ok(None)
    ensures forall v :: InlineResolution(Some(h), v, None) == Ok(None)
  {
    Scaler.PreserveWidthMeaning(h, width, a);
  }

  // ---- the transcoder ----

  /** The `input` argument: a Movie, or anything else (whose value is never read). */
  datatype Source = MovieSource(movie: Movies.Movie) | OtherSource

  /** @input after line 26: the :input option when it is not nil, otherwise the
      movie's (escaped) path, otherwise nil. */
  function InputOf(source: Source, topts: TranscoderOptions): Value {
    if topts.input != Nil then topts.input
    else match source
      case MovieSource(m) => Str(m.path)
      case OtherSource => Nil
  }

  function MovieOf(source: Source): Option<Movies.Movie> {
    match source
    case MovieSource(m) => Some(m)
    case OtherSource => None
  }

  const NonZeroExit := "ffmpeg returned non-zero exit code"
  const NoOutputFile := "no output file created"
  const InvalidEncoding := "encoded file is invalid"

  /** The errors transcode_movie records for the exit status. */
  function ExitErrors(exitSuccess: bool): seq<string> {
    if exitSuccess then [] else [NonZeroExit]
  }

  /** The errors validate_output_file records. Without the file `encoded` is nil, so
      the file is reported invalid as well. */
  function ValidationErrors(fileExists: bool, encodedValid: bool): seq<string> {
    (if fileExists then [] else [NoOutputFile]) + (if fileExists && encodedValid then [] else [InvalidEncoding])
  }

  /** The two checks report independently, the missing file first; no error is
      recorded exactly when the file exists and is a valid movie. */
  lemma ValidationErrorsSpec(fileExists: bool, encodedValid: bool)
    ensures NoOutputFile in ValidationErrors(fileExists, encodedValid) <==> !fileExists
    ensures InvalidEncoding in ValidationErrors(fileExists, encodedValid) <==> !(fileExists && encodedValid)
    ensures ValidationErrors(fileExists, encodedValid) == [] <==> fileExists && encodedValid
    ensures !fileExists ==> ValidationErrors(fileExists, encodedValid) == [NoOutputFile, InvalidEncoding]
  {
  }

  /** "Failed encoding." followed by the "Errors: " text the source builds. */
  const FailurePrefix := "Failed encoding.Errors: "
  const FailureMiddle := ". Full output: "

  /** The message of the error a failed validation raises. */
  function FailureMessage(errors: seq<string>, output: string): string {
    FailurePrefix + Join(errors, ", ") + FailureMiddle + output
  }

  /** The raised message names the errors, comma separated, and ends with the whole
      output ffmpeg printed. */
  lemma FailureMessageShape(errors: seq<string>, output: string)
    ensures var msg := FailureMessage(errors, output);
      var n := |FailurePrefix|;
      && msg[..n] == "Failed encoding.Errors: "
      && msg[n..n + |Join(errors, ", ")|] == Join(errors, ", ")
      && msg[|msg| - |output|..] == output
  {
    Parts4(FailureMessage(errors, output), FailurePrefix, Join(errors, ", "), FailureMiddle, output);
  }

  /** The progress yielded for one chunk: when it holds "time=" and the transcoder
      has a movie, the parsed time over the movie's duration, with no guard against
      a zero duration. */
  function ProgressOf(chunk: string, movie: Option<Movies.Movie>): Option<Float> {
    if FirstOccurrence(chunk, "time=").None? || movie.None? then None
    else Some(Div(TimeIn(chunk), movie.value.duration))
  }

  /** Every progress value yielded over the chunks, in order. */
  function Progresses(chunks: seq<string>, movie: Option<Movies.Movie>): seq<Float> {
    if chunks == [] then []
    else
      var last := chunks[|chunks| - 1];
      Progresses(chunks[..|chunks| - 1], movie) + (match ProgressOf(last, movie) case None => [] case Some(p) => [p])
  }

  /** The output ffmpeg printed, chunk after chunk. */
  function Concat(chunks: seq<string>): string {
    if chunks == [] then "" else Concat(chunks[..|chunks| - 1]) + chunks[|chunks| - 1]
  }

  /** One more chunk adds its text to the output and its progress, if any, to the list. */
  lemma ChunkStep(chunks: seq<string>, i: nat, movie: Option<Movies.Movie>)
    requires i < |chunks|
    ensures Concat(chunks[..i + 1]) == Concat(chunks[..i]) + chunks[i]
    ensures Progresses(chunks[..i + 1], movie) ==
      Progresses(chunks[..i], movie) + (match ProgressOf(chunks[i], movie) case None => [] case Some(p) => [p])
  {
    assert chunks[..i + 1][..i] == chunks[..i];
  }

  /** A "time=H:M:S.f" chunk gives that many seconds over the duration; a chunk whose
      "time=" does not match gives 0 over it, which is NaN when the duration is 0. */
  lemma ProgressMeaning(s: string, pre: string, hours: string, minutes: string, whole: string, frac: string, post: string, m: Movies.Movie)
    requires TimeGroups(hours, minutes, whole, frac)
    requires 't' !in pre
    requires post == [] || !IsDigit(post[0])
    requires s == pre + TimeText(hours, minutes, whole, frac) + post
    requires m.duration > 0.0
    ensures ProgressOf(s, Some(m)) == Some(Num(ClockSeconds(hours, minutes, Decimal(whole, frac)) / m.duration))
  {
    TimeOf(s, pre, hours, minutes, whole, frac, post);
    TimeTextHasMarker(s, pre, hours, minutes, whole, frac, post);
  }

  lemma TimeTextHasMarker(s: string, pre: string, hours: string, minutes: string, whole: string, frac: string, post: string)
    requires TimeGroups(hours, minutes, whole, frac)
    requires s == pre + TimeText(hours, minutes, whole, frac) + post
    ensures FirstOccurrence(s, "time=").Some?
  {
    var t := TimeText(hours, minutes, whole, frac);
    Parts3(s, pre, t, post);
    assert t[..5] == "time=";
    assert OccursAt(s, "time=", |pre|);
    FirstOccurrenceSpec(s, "time=");
  }

  /** A chunk with "time=" that does not match gives 0.0: NaN over a zero duration. */
  lemma ProgressWithoutMatch(chunk: string, m: Movies.Movie)
    requires FirstOccurrence(chunk, "time=").Some?
    requires forall i :: 0 <= i <= |chunk| ==> TimeAt(chunk, i).None?
    ensures m.duration != 0.0 ==> ProgressOf(chunk, Some(m)) == Some(Num(0.0))
    ensures m.duration == 0.0 ==> ProgressOf(chunk, Some(m)) == Some(NaN)
  {
    TimeFallback(chunk);
    if m.duration != 0.0 {
      QuotientOfZero(m.duration);
    }
  }

  lemma QuotientOfZero(b: real)
    requires b != 0.0
    ensures 0.0 / b == 0.0
  {
  }

  // ---- the transcoder object ----

  /** The transcoder options once relocation and the validate default are applied. */
  function Settled(topts: TranscoderOptions, seek: string): TranscoderOptions {
    topts.(inputOptions := WithSeek(topts.inputOptions, seek), validate := Some(ValidateDefault(topts.validate)))
  }

  class Transcoder {
    var movie: Option<Movies.Movie>
    var input: Value
    var outputFile: string
    var raw: RawOptions
    var topts: TranscoderOptions
    var errors: seq<string>
    var command: seq<Arg>
    var output: string

    function RawHash(): set<EncodingOptions>
      reads this
    {
      if raw.HashRaw? then {raw.opts} else {}
    }

    /** The raw options as a Hash; None when they are an Array. */
    function RawContents(): Option<Hash<Value>>
      reads this, RawHash()
    {
      if raw.HashRaw? then Some(raw.opts.Contents()) else None
    }

    /** The raw options object, whichever it is. */
    function RawObject(): set<object>
      reads this
    {
      match raw
      case ListRaw(list) => {list}
      case HashRaw(opts) => {opts}
    }

    /** `@raw_options.to_a` */
    function RawArgs(): seq<Arg>
      reads this, RawObject(), RawHash()
      requires Valid()
    {
      match raw
      case ListRaw(list) => Atoms(list.items)
      case HashRaw(opts) => PairArgs(opts.Contents())
    }

    ghost predicate Valid()
      reads this, RawHash()
    {
      (raw.HashRaw? ==> raw.opts.Valid()) && WellFormed(topts.inputOptions)
    }

    /** The fields as lines 14-22 set them. */
    constructor (movie: Option<Movies.Movie>, input: Value, outputFile: string, raw: RawOptions, topts: TranscoderOptions)
      ensures this.movie == movie && this.input == input && this.outputFile == outputFile
      ensures this.raw == raw && this.topts == topts
      ensures errors == [] && command == [] && output == ""
    {
      this.movie := movie;
      this.input := input;
      this.outputFile := outputFile;
      this.raw := raw;
      this.topts := topts;
      errors := [];
      command := [];
      output := "";
    }

    /** apply_transcoder_options: the validate default, then the resize rule written
        inline; Some(e) when it raises e. */
    method ApplyTranscoderOptions() returns (error: Option<Error>)
      requires Valid()
      modifies this, RawHash()
      ensures Valid()
      ensures movie == old(movie) && input == old(input) && outputFile == old(outputFile) && raw == old(raw)
      ensures errors == old(errors) && command == old(command) && output == old(output)
      ensures topts == old(topts).(validate := Some(ValidateDefault(old(topts).validate)))
      ensures var r := InlineResolution(old(RawContents()), topts.preserveAspectRatio, movie);
        && (r.Err? ==> error == Some(r.error) && RawContents() == old(RawContents()))
        && (r.Ok? ==> error == None && RawContents() == if r.value.None? then old(RawContents()) else Some(Resized(old(RawContents()).value, r.value)))
    {
      topts := topts.(validate := Some(ValidateDefault(topts.validate)));
      if movie.None? {
        return None;
      }
      var aspect := Movies.CalculatedAspectRatio(movie.value);
      var side := ToS(topts.preserveAspectRatio);
      if side == "width" {
        if raw.ListRaw? {
          return Some(NoSideOnArray(side));
        }
        var width := raw.opts.Width();
        if width.None? {
          return Some(NoMethodError("undefined method `/' for nil"));
        }
        var newHeight := IntDiv(width.value, aspect);
        if !newHeight.Num? {
          return Some(FloatDomainError);
        }
        var height := if Ceil(newHeight.r) % 2 == 0 then Ceil(newHeight.r) else Floor(newHeight.r);
        if height % 2 != 0 {
          height := height + 1;
        }
        raw.opts.Store("resolution", Str(Resolution(width.value, height)));
      } else if side == "height" {
        if raw.ListRaw? {
          return Some(NoSideOnArray(side));
        }
        var height := raw.opts.Height();
        if height.None? {
          return Some(NoMethodError("undefined method `*' for nil"));
        }
        var newWidth := IntMul(height.value, aspect);
        if !newWidth.Num? {
          return Some(FloatDomainError);
        }
        var width := if Ceil(newWidth.r) % 2 == 0 then Ceil(newWidth.r) else Floor(newWidth.r);
        if width % 2 != 0 {
          width := width + 1;
        }
        raw.opts.Store("resolution", Str(Resolution(width, height.value)));
      }
      return None;
    }

    /** Lines 26-37: the :input option overrides the input, and the command is built. */
    method BuildCommand(binary: string)
      requires Valid()
      modifies this
      ensures Valid()
      ensures input == if topts.input != Nil then topts.input else old(input)
      ensures command == Command(binary, InputArgs(topts.inputOptions), input, RawArgs(), outputFile)
      ensures movie == old(movie) && outputFile == old(outputFile) && raw == old(raw) && topts == old(topts)
      ensures errors == old(errors) && output == old(output)
    {
      if topts.input != Nil {
        input := topts.input;
      }
      var iopts := FlattenInputOptions(topts.inputOptions);
      command := Command(binary, iopts, input, RawArgs(), outputFile);
    }

    /** encoding_succeeded? */
    predicate EncodingSucceeded()
      reads this
    {
      errors == []
    }

    /** transcode_movie without the process: the chunks ffmpeg printed are collected
        into the output, progress is yielded as 0.0 and then once per chunk holding
        "time=" (when there is a movie), and a failed exit is recorded. */
    method TranscodeMovie(chunks: seq<string>, exitSuccess: bool) returns (progress: seq<Float>)
      modifies this
      ensures output == Concat(chunks)
      ensures progress == [Num(0.0)] + Progresses(chunks, movie)
      ensures errors == old(errors) + ExitErrors(exitSuccess)
      ensures movie == old(movie) && input == old(input) && outputFile == old(outputFile) && raw == old(raw)
      ensures topts == old(topts) && command == old(command)
    {
      progress := [Num(0.0)];
      output := "";
      for i := 0 to |chunks|
        invariant output == Concat(chunks[..i])
        invariant progress == [Num(0.0)] + Progresses(chunks[..i], movie)
        invariant errors == old(errors) && movie == old(movie) && input == old(input) && outputFile == old(outputFile)
        invariant raw == old(raw) && topts == old(topts) && command == old(command)
      {
        var line := chunks[i];
        ChunkStep(chunks, i, movie);
        output := output + line;
        if FirstOccurrence(line, "time=").Some? {
          var time := TimeIn(line);
          if movie.Some? {
            assert ProgressOf(line, movie) == Some(Div(time, movie.value.duration));
            progress := progress + [Div(time, movie.value.duration)];
          }
        } else {
          assert ProgressOf(line, movie) == None;
        }
      }
      assert chunks[..|chunks|] == chunks;
      if !exitSuccess {
        errors := errors + [NonZeroExit];
      }
    }

    /** validate_output_file: the two checks append their errors; on success 1.0 is
        yielded, otherwise the error naming them all is raised. */
    method ValidateOutputFile(fileExists: bool, encodedValid: bool) returns (progress: seq<Float>, error: Option<Error>)
      modifies this
      ensures errors == old(errors) + ValidationErrors(fileExists, encodedValid)
      ensures error.None? <==> errors == []
      ensures error.None? ==> progress == [Num(1.0)]
      ensures error.Some? ==> progress == [] && error.value == FFMPEGError(FailureMessage(errors, output))
      ensures movie == old(movie) && input == old(input) && outputFile == old(outputFile) && raw == old(raw)
      ensures topts == old(topts) && command == old(command) && output == old(output)
    {
      if !fileExists {
        errors := errors + [NoOutputFile];
      }
      if !(fileExists && encodedValid) {
        errors := errors + [InvalidEncoding];
      }
      if EncodingSucceeded() {
        return [Num(1.0)], None;
      }
      return [], Some(FFMPEGError(FailureMessage(errors, output)));
    }

    /** run: transcode, then validate when :validate is truthy and answer the encoded
        movie, or answer nil. `probe` is what Movie.new makes of the output file. */
    method Run(chunks: seq<string>, exitSuccess: bool, fileExists: bool, probe: Movies.Movie)
      returns (progress: seq<Float>, r: Result<Option<Movies.Movie>, Error>)
      modifies this
      ensures var validate := Truthy(topts.validate.GetOr(Nil));
        && errors == old(errors) + ExitErrors(exitSuccess) + (if validate then ValidationErrors(fileExists, fileExists && probe.valid) else [])
        && (!validate ==> r == Ok(None) && progress == [Num(0.0)] + Progresses(chunks, movie))
        && (validate && errors == [] ==> r == Ok(Some(probe)) && progress == [Num(0.0)] + Progresses(chunks, movie) + [Num(1.0)])
        && (validate && errors != [] ==> r == Err(FFMPEGError(FailureMessage(errors, output))) && progress == [Num(0.0)] + Progresses(chunks, movie))
      ensures output == Concat(chunks)
      ensures movie == old(movie) && topts == old(topts) && command == old(command)
    {
      progress := TranscodeMovie(chunks, exitSuccess);
      if Truthy(topts.validate.GetOr(Nil)) {
        var more, error := ValidateOutputFile(fileExists, fileExists && probe.valid);
        progress := progress + more;
        if error.Some? {
          return progress, Err(error.value);
        }
        return progress, Ok(Some(probe));
      }
      return progress, Ok(None);
    }
  }

  /** What a new transcoder holds besides its raw options and command. */
  ghost predicate Built(t: Transcoder, source: Source, outputFile: string, topts: TranscoderOptions, seek: string)
    reads t, t.RawHash()
  {
    && t.movie == MovieOf(source)
    && t.input == InputOf(source, topts)
    && t.outputFile == outputFile
    && t.topts == Settled(topts, seek)
    && t.errors == [] && t.output == ""
    && t.Valid()
  }

  /** Transcoder#initialize: the new transcoder, or the error it raises. `binary` is
      the configured ffmpeg executable. */
  method NewTranscoder(binary: string, source: Source, outputFile: string, options: Options, topts: TranscoderOptions)
    returns (r: Result<Transcoder, Error>)
    requires options.HashOptions? ==> options.pairs.Valid()
    requires WellFormed(topts.inputOptions)
    modifies if options.ListOptions? then {options.list} else {}
    ensures options.OtherOptions? ==> r == Err(UnknownFormat(options.className))
    ensures options.ListOptions? ==>
      var (rest, seek) := SeekFromList(old(options.list.items));
      var resized := InlineResolution(None, topts.preserveAspectRatio, MovieOf(source));
      && options.list.items == rest
      && (resized.Err? ==> r == Err(resized.error))
      && (resized.Ok? ==>
        && r.Ok? && fresh(r.value) && r.value.raw == ListRaw(options.list)
        && Built(r.value, source, outputFile, topts, seek)
        && r.value.command == Command(binary, InputArgs(Settled(topts, seek).inputOptions), InputOf(source, topts), Atoms(rest), outputFile))
    ensures options.HashOptions? ==>
      var (h, seek) := SeekFromHash(options.pairs);
      var resized := InlineResolution(Some(h), topts.preserveAspectRatio, MovieOf(source));
      && (resized.Err? ==> r == Err(resized.error))
      && (resized.Ok? ==>
        && r.Ok? && fresh(r.value) && r.value.raw.HashRaw? && fresh(r.value.raw.opts)
        && Built(r.value, source, outputFile, topts, seek)
        && r.value.raw.opts.Contents() == Resized(h, resized.value)
        && r.value.command == Command(binary, InputArgs(Settled(topts, seek).inputOptions), InputOf(source, topts),
                                      PairArgs(Resized(h, resized.value)), outputFile))
  {
    var seekTime := ScreenshotSeekTime(options);
    if seekTime.Err? {
      return Err(seekTime.error);
    }
    var (raw, seek) := seekTime.value;
    r := Assemble(binary, source, outputFile, raw, seek, topts);
  }

  /** Lines 14-37 once screenshot_seek_time has answered the raw options and the seek
      time. */
  method Assemble(binary: string, source: Source, outputFile: string, raw: RawOptions, seek: string, topts: TranscoderOptions)
    returns (r: Result<Transcoder, Error>)
    requires raw.HashRaw? ==> raw.opts.Valid()
    requires WellFormed(topts.inputOptions)
    modifies if raw.HashRaw? then {raw.opts} else {}
    ensures var before := if raw.HashRaw? then Some(old(raw.opts.Contents())) else None;
      var resized := InlineResolution(before, topts.preserveAspectRatio, MovieOf(source));
      && (resized.Err? ==> r == Err(resized.error))
      && (resized.Ok? ==>
        && r.Ok? && fresh(r.value) && r.value.raw == raw
        && Built(r.value, source, outputFile, topts, seek)
        && (raw.HashRaw? ==> raw.opts.Contents() == Resized(before.value, resized.value))
        && r.value.command == Command(binary, InputArgs(Settled(topts, seek).inputOptions), InputOf(source, topts),
                                      r.value.RawArgs(), outputFile))
  {
    var movie := MovieOf(source);
    var input := match source case MovieSource(m) => Str(m.path) case OtherSource => Nil;
    var settled := ScreenshotToTranscoderOptions(seek, topts);
    var t := new Transcoder(movie, input, outputFile, raw, settled);
    var error := t.ApplyTranscoderOptions();
    if error.Some? {
      return Err(error.value);
    }
    t.BuildCommand(binary);
    return Ok(t);
  }
}
