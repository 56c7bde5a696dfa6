/** FFMPEG::ScreenshotOptions (lib/ffmpeg/screenshot_options.rb): the ffmpeg arguments
    that go before and after the input when a single frame is grabbed. */
module ScreenshotOpts {
  import opened Text
  import opened RubyValues
  import opened RubyHash

  /** The two argument strings the object exposes. */
  datatype ScreenshotOptions = ScreenshotOptions(preceding: string, following: string)

  const DefaultPosition: Value := Int(4)

  /** The arguments that grab one raw frame; a space ends them. */
  const FrameGrab := "-vcodec mjpeg -vframes 1 -an -f rawvideo "

  /** `options.has_key?(key) ? options[key] : default` */
  function Setting(options: Hash<Value>, key: string, default: Value): Value {
    options.Fetch(key).GetOr(default)
  }

  /** "-ss <position> " */
  function Seek(position: Value): string {
    "-ss " + ToS(position) + " "
  }

  /** "-s <width>x<height>", or nothing when both are nil. */
  function Size(width: Value, height: Value): string {
    if width == Nil && height == Nil then "" else "-s " + ToS(width) + "x" + ToS(height)
  }

  /** ScreenshotOptions.new(options) */
  function NewScreenshotOptions(options: Hash<Value>): ScreenshotOptions {
    var position := Setting(options, "position", DefaultPosition);
    var width := Setting(options, "width", Nil);
    var height := Setting(options, "height", Nil);
    var safe := Setting(options, "safe", Bool(true));
    var (preceding, following) := if Truthy(safe) then ("", Seek(position)) else (Seek(position), "");
    ScreenshotOptions(preceding, following + FrameGrab + Size(width, height))
  }

  /** Where the frame-grab arguments start in `following`. */
  function GrabStart(options: Hash<Value>): nat {
    if Truthy(Setting(options, "safe", Bool(true))) then |Seek(Setting(options, "position", DefaultPosition))| else 0
  }

  /** The two strings, part by part. */
  lemma StringParts(options: Hash<Value>)
    ensures var o := NewScreenshotOptions(options);
      var seek := Seek(Setting(options, "position", DefaultPosition));
      var seekPart := if Truthy(Setting(options, "safe", Bool(true))) then seek else "";
      && o.preceding == (if Truthy(Setting(options, "safe", Bool(true))) then "" else seek)
      && o.following == seekPart + FrameGrab + Size(Setting(options, "width", Nil), Setting(options, "height", Nil))
  {
  }

  /** Text that starts with the frame-grab arguments does not start with a seek. */
  lemma GrabIsNoSeek(t: string, pre: string, tail: string)
    requires t == pre + FrameGrab + tail && pre == []
    ensures !OccursAt(t, "-ss", 0)
  {
    Parts3(t, pre, FrameGrab, tail);
    assert t[1] == FrameGrab[1] == 'v';
  }

  /** Safe: no seek before the input, and `following` starts with it. */
  lemma SafeSeek(options: Hash<Value>)
    requires Truthy(Setting(options, "safe", Bool(true)))
    ensures NewScreenshotOptions(options).preceding == ""
    ensures OccursAt(NewScreenshotOptions(options).following, Seek(Setting(options, "position", DefaultPosition)), 0)
  {
    var f := NewScreenshotOptions(options).following;
    var seek := Seek(Setting(options, "position", DefaultPosition));
    StringParts(options);
    Parts3(f, seek, FrameGrab, Size(Setting(options, "width", Nil), Setting(options, "height", Nil)));
  }

  /** Not safe: the seek goes before the input, and `following` has none. */
  lemma UnsafeSeek(options: Hash<Value>)
    requires !Truthy(Setting(options, "safe", Bool(true)))
    ensures NewScreenshotOptions(options).preceding == Seek(Setting(options, "position", DefaultPosition))
    ensures !OccursAt(NewScreenshotOptions(options).following, "-ss", 0)
  {
    StringParts(options);
    GrabIsNoSeek(NewScreenshotOptions(options).following, "", Size(Setting(options, "width", Nil), Setting(options, "height", Nil)));
  }

  /** The seek goes into exactly one of the two strings: after the input when `safe`
      (the default), before it otherwise; `following` then never starts with a seek. */
  lemma SeekPlacement(options: Hash<Value>)
    ensures var o := NewScreenshotOptions(options);
      var seek := Seek(Setting(options, "position", DefaultPosition));
      if Truthy(Setting(options, "safe", Bool(true)))
      then o.preceding == "" && OccursAt(o.following, seek, 0)
      else o.preceding == seek && !OccursAt(o.following, "-ss", 0)
  {
    if Truthy(Setting(options, "safe", Bool(true))) {
      SafeSeek(options);
    } else {
      UnsafeSeek(options);
    }
  }

  /** `following` holds the frame-grab arguments right after the seek (or at its start),
      and ends with them exactly when neither width nor height is given; otherwise the
      size "-s WxH" follows them. */
  lemma FollowingShape(options: Hash<Value>)
    ensures var o := NewScreenshotOptions(options);
      var k := GrabStart(options);
      var width, height := Setting(options, "width", Nil), Setting(options, "height", Nil);
      && OccursAt(o.following, FrameGrab, k)
      && (width == Nil && height == Nil <==> |o.following| == k + |FrameGrab|)
      && (width != Nil || height != Nil ==>
            o.following[k + |FrameGrab|..] == "-s " + ToS(width) + "x" + ToS(height))
  {
    var o := NewScreenshotOptions(options);
    var seekPart := if Truthy(Setting(options, "safe", Bool(true))) then Seek(Setting(options, "position", DefaultPosition)) else "";
    var width, height := Setting(options, "width", Nil), Setting(options, "height", Nil);
    StringParts(options);
    Parts3(o.following, seekPart, FrameGrab, Size(width, height));
  }

  /** With no settings the frame is grabbed safely at second 4, at the movie's size. */
  lemma Defaults()
    ensures NewScreenshotOptions(Empty()) == ScreenshotOptions("", "-ss 4 " + FrameGrab)
  {
    assert ToS(DefaultPosition) == "4";
  }
}
