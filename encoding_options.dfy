/** EncodingOptions (lib/ffmpeg/encoding_options.rb): a Hash of encoding settings whose
    to_s turns every key that has a `convert_<key>` rule into a command-line fragment. */
module EncodingOpts {
  import opened Wrappers
  import opened Text
  import opened RubyValues
  import opened RubyHash

  /** The flag of each key whose `convert_<key>` rule renders "<flag> <value>". */
  function Flag(key: string): Option<string> {
    match key
    case "croptop" => Some("-croptop")
    case "cropbottom" => Some("-cropbottom")
    case "cropleft" => Some("-cropleft")
    case "cropright" => Some("-cropright")
    case "video_codec" => Some("-vcodec")
    case "frame_rate" => Some("-r")
    case "resolution" => Some("-s")
    case "video_bitrate" => Some("-b")
    case "audio_codec" => Some("-acodec")
    case "audio_bitrate" => Some("-ab")
    case "audio_sample_rate" => Some("-ar")
    case "audio_channels" => Some("-ac")
    case _ => None
  }

  /** The keys that have a flag, in the order the rules are written. */
  const FlaggedKeys: seq<string> := [
    "croptop", "cropbottom", "cropleft", "cropright", "video_codec", "frame_rate",
    "resolution", "video_bitrate", "audio_codec", "audio_bitrate", "audio_sample_rate",
    "audio_channels"]

  /** supports_option?: a `convert_<key>` rule exists. `custom` has one without a flag. */
  predicate SupportsOption(key: string) {
    key == "custom" || Flag(key).Some?
  }

  predicate IsBitrate(key: string) {
    key == "video_bitrate" || key == "audio_bitrate"
  }

  /** k_format: the unit "k", unless the value's text already holds a k. */
  function KFormat(value: Value): string {
    if 'k' in ToS(value) then "" else "k"
  }

  /** `convert_<key>(value)`; None where there is no such rule. */
  function Convert(key: string, value: Value): (r: Option<string>)
    ensures r.Some? <==> SupportsOption(key)
  {
    if key == "custom" then Some(ToS(value))
    else
      match Flag(key)
      case None => None
      case Some(flag) => Some(flag + " " + ToS(value) + (if IsBitrate(key) then KFormat(value) else ""))
  }

  /** What the collect block yields for one pair, as join sees it: nil becomes "". */
  function Fragment(key: string, value: Value): string {
    Convert(key, value).GetOr("")
  }

  function Fragments(h: Hash<Value>): seq<string>
    requires forall k :: k in h.keys ==> k in h.vals
  {
    seq(|h.keys|, i requires 0 <= i < |h.keys| => Fragment(h.keys[i], h.vals[h.keys[i]]))
  }

  /** EncodingOptions#to_s */
  function Serialize(h: Hash<Value>): string
    requires forall k :: k in h.keys ==> k in h.vals
  {
    Join(Fragments(h), " ")
  }

  /** `resolution.split("x")[i].to_i`: one side of the "WxH" resolution, None when
      no resolution is set. */
  function ResolutionSide(h: Hash<Value>, i: nat): Option<int> {
    match h.Fetch("resolution")
    case None => None
    case Some(Nil) => None
    case Some(v) => Some(ToI(Field(ToS(v), 'x', i)))
  }

  /** The resolution text "WxH" that the scaling code stores. */
  function Resolution(width: int, height: int): string {
    IntToString(width) + "x" + IntToString(height)
  }

  /** The flag of a fragment and the text after the first space, if it has both. */
  function SplitFragment(fragment: string): Option<(string, string)> {
    match IndexOfChar(fragment, ' ')
    case None => None
    case Some(j) => Some((fragment[..j], fragment[j + 1..]))
  }

  /** The key whose rule uses the given flag: the flag table read backwards. */
  function KeyOfFlag(flag: string): Option<string> {
    match flag
    case "-croptop" => Some("croptop")
    case "-cropbottom" => Some("cropbottom")
    case "-cropleft" => Some("cropleft")
    case "-cropright" => Some("cropright")
    case "-vcodec" => Some("video_codec")
    case "-r" => Some("frame_rate")
    case "-s" => Some("resolution")
    case "-b" => Some("video_bitrate")
    case "-acodec" => Some("audio_codec")
    case "-ab" => Some("audio_bitrate")
    case "-ar" => Some("audio_sample_rate")
    case "-ac" => Some("audio_channels")
    case _ => None
  }

  /** Reading a fragment back: the key its flag belongs to and the value text. */
  function ParseFragment(fragment: string): Option<(string, string)> {
    match SplitFragment(fragment)
    case None => None
    case Some((flag, rest)) =>
      match KeyOfFlag(flag)
      case None => None
      case Some(key) => Some((key, rest))
  }

  /** No two keys share a flag, no flag holds a space, and every flag names its key back. */
  lemma FlagTable(key: string)
    requires Flag(key).Some?
    ensures ' ' !in Flag(key).value
    ensures KeyOfFlag(Flag(key).value) == Some(key)
  {
  }

  lemma SplitAtFirstSpace(flag: string, rest: string)
    requires ' ' !in flag
    ensures SplitFragment(flag + " " + rest) == Some((flag, rest))
  {
    var f := flag + " " + rest;
    assert f[..|flag|] == flag;
    assert f[|flag|] == ' ';
    assert IndexOfChar(f, ' ') == Some(|flag|);
    assert f[|flag| + 1..] == rest;
  }

  /** A flagged rule renders the flag, one space and the value text, so that the
      flag names the key back and the value text (with its unit, for a bitrate)
      follows the first space. */
  lemma FragmentRoundTrip(key: string, value: Value)
    requires Flag(key).Some?
    ensures ParseFragment(Fragment(key, value)) ==
      Some((key, ToS(value) + (if IsBitrate(key) then KFormat(value) else "")))
  {
    var flag := Flag(key).value;
    var rest := ToS(value) + (if IsBitrate(key) then KFormat(value) else "");
    FlagTable(key);
    assert Fragment(key, value) == flag + " " + rest;
    SplitAtFirstSpace(flag, rest);
  }

  /** A bitrate's value text always ends up with a k in it; text that already has
      one is emitted unchanged, anything else gets "k" appended. */
  lemma BitrateUnit(key: string, value: Value)
    requires IsBitrate(key)
    ensures 'k' in ToS(value) ==> Fragment(key, value) == Flag(key).value + " " + ToS(value)
    ensures 'k' !in ToS(value) ==> Fragment(key, value) == Flag(key).value + " " + ToS(value) + "k"
    ensures 'k' in Fragment(key, value)[|Flag(key).value| + 1..]
  {
    var f := Fragment(key, value);
    var flag := Flag(key).value;
    var rest := ToS(value) + KFormat(value);
    assert f == flag + " " + rest;
    Parts2(f, flag + " ", rest);
    if 'k' !in ToS(value) {
      assert rest[|rest| - 1] == 'k';
    }
  }

  /** An Integer bitrate never holds a k, so it always gets the unit. */
  lemma IntegerBitrateGetsUnit(key: string, n: int)
    requires IsBitrate(key)
    ensures Fragment(key, Int(n)) == Flag(key).value + " " + IntToString(n) + "k"
  {
    IntToStringChars(n, 'k');
  }

  /** A key without a rule contributes an empty fragment, whatever its value. */
  lemma UnsupportedKeyIsEmpty(key: string, value: Value)
    requires !SupportsOption(key)
    ensures Fragment(key, value) == ""
  {
  }

  /** `custom` is passed on as its text, with no flag in front. */
  lemma CustomVerbatim(value: Value)
    ensures Fragment("custom", value) == ToS(value)
  {
  }

  /** Every flagged rule but the two bitrates puts its flag, one space and the value's
      text, and adds no unit. */
  lemma PlainRules(key: string, value: Value)
    requires Flag(key).Some? && !IsBitrate(key)
    ensures Fragment(key, value) == Flag(key).value + " " + ToS(value)
  {
  }

  /** to_s of an empty hash is the empty string. */
  lemma SerializeEmpty()
    ensures Serialize(Empty()) == ""
  {
  }

  /** Storing a new key appends its fragment after one space (or alone, into an
      empty hash): to_s follows insertion order. */
  lemma {:induction false} SerializeAppend(h: Hash<Value>, key: string, value: Value)
    requires h.Valid() && key !in h.keys
    ensures h.keys == [] ==> Serialize(h.Put(key, value)) == Fragment(key, value)
    ensures h.keys != [] ==> Serialize(h.Put(key, value)) == Serialize(h) + " " + Fragment(key, value)
  {
    var h' := h.Put(key, value);
    assert h'.keys == h.keys + [key];
    var fs := Fragments(h');
    assert fs[..|fs| - 1] == Fragments(h);
    assert fs[|fs| - 1] == Fragment(key, value);
  }

  /** Storing over an existing key keeps the key's place and changes only its fragment. */
  lemma SerializeOverwrite(h: Hash<Value>, i: nat, value: Value)
    requires h.Valid() && i < |h.keys|
    ensures Fragments(h.Put(h.keys[i], value)) == Fragments(h)[i := Fragment(h.keys[i], value)]
  {
    var h' := h.Put(h.keys[i], value);
    assert h'.keys == h.keys;
    forall j | 0 <= j < |h.keys| && j != i ensures h.keys[j] != h.keys[i] {
    }
  }

  /** The resolution the scaling code writes reads back as the width and height it
      was made of. */
  lemma ResolutionRoundTrip(h: Hash<Value>, width: int, height: int)
    ensures ResolutionSide(h.Put("resolution", Str(Resolution(width, height))), 0) == Some(width)
    ensures ResolutionSide(h.Put("resolution", Str(Resolution(width, height))), 1) == Some(height)
  {
    var w, ht := IntToString(width), IntToString(height);
    var r := Resolution(width, height);
    ResolutionSideOfText(h, r, 0);
    ResolutionSideOfText(h, r, 1);
    IntToStringChars(width, 'x');
    IntToStringChars(height, 'x');
    assert r == w + ['x'] + ht;
    FieldsOfPair(w, ht, 'x');
    ToIOfIntToString(width);
    ToIOfIntToString(height);
  }

  lemma ResolutionSideOfText(h: Hash<Value>, r: string, i: nat)
    ensures ResolutionSide(h.Put("resolution", Str(r)), i) == Some(ToI(Field(r, 'x', i)))
  {
    assert h.Put("resolution", Str(r)).Fetch("resolution") == Some(Str(r));
  }

  /** The options object: a Hash that callers read and change in place. */
  class EncodingOptions {
    var keys: seq<string>
    var vals: map<string, Value>

    function Contents(): Hash<Value>
      reads this
    {
      Hash(keys, vals)
    }

    ghost predicate Valid()
      reads this
    {
      Contents().Valid()
    }

    /** EncodingOptions.new(options): merge! of the given hash into an empty one. */
    constructor (options: Hash<Value>)
      requires options.Valid()
      ensures Valid() && Contents() == Merge(Empty(), options)
    {
      keys := options.keys;
      vals := options.vals;
      MergeIntoEmpty(options);
    }

    /** options[key] = value */
    method Store(key: string, value: Value)
      requires Valid()
      modifies this
      ensures Valid() && Contents() == old(Contents()).Put(key, value)
    {
      PutSpec(Contents(), key, value);
      if key !in vals {
        keys := keys + [key];
      }
      vals := vals[key := value];
    }

    /** options.delete(key): the removed value, or nil when the key was absent. */
    method Delete(key: string) returns (removed: Value)
      requires Valid()
      modifies this
      ensures Valid() && Contents() == old(Contents()).Delete(key)
      ensures removed == old(Contents()).Fetch(key).GetOr(Nil)
    {
      DeleteSpec(Contents(), key);
      removed := if key in vals then vals[key] else Nil;
      keys := Without(keys, key);
      vals := vals - {key};
    }

    /** options[key], nil when absent. */
    function Get(key: string): Value
      reads this
    {
      Contents().Fetch(key).GetOr(Nil)
    }

    function ToString(): string
      reads this
      requires Valid()
    {
      Serialize(Contents())
    }

    /** `width`: the width read from the resolution, nil when none is set. */
    function Width(): (r: Option<int>)
      reads this
      ensures r.Some? <==> "resolution" in vals && vals["resolution"] != Nil
    {
      ResolutionSide(Contents(), 0)
    }

    /** `height`: the height read from the resolution, nil when none is set. */
    function Height(): (r: Option<int>)
      reads this
      ensures r.Some? <==> "resolution" in vals && vals["resolution"] != Nil
    {
      ResolutionSide(Contents(), 1)
    }
  }
}
