/** FFMPEG::ThumnbailingOptions (lib/ffmpeg/thumbnailing_options.rb; the class name is
    spelled so in the source): the ffmpeg arguments for a thumbnail, offset into the
    input by the position. */
module ThumbnailingOpts {
  import opened Text
  import opened RubyValues

  datatype ThumbnailingOptions = ThumbnailingOptions(preceding: string, following: string)

  const FrameGrab := "-vcodec mjpeg -vframes 1 -an -f rawvideo"

  /** ThumnbailingOptions.new(position = 4, width = nil, height = nil) */
  function NewThumbnailingOptions(position: Value := Int(4), width: Value := Nil, height: Value := Nil): ThumbnailingOptions {
    var size := if width == Nil && height == Nil then "" else " -s " + ToS(width) + "x" + ToS(height);
    ThumbnailingOptions("-itsoffset -" + ToS(position), FrameGrab + size)
  }

  /** `preceding` is the negative offset of the position and depends on nothing else;
      `following` starts with the frame-grab arguments, and " -s WxH" follows them
      exactly when a width or a height is given. */
  lemma ThumbnailShape(position: Value, width: Value, height: Value)
    ensures var o := NewThumbnailingOptions(position, width, height);
      && o.preceding == "-itsoffset -" + ToS(position)
      && (forall w, h :: NewThumbnailingOptions(position, w, h).preceding == o.preceding)
      && OccursAt(o.following, FrameGrab, 0)
      && (width == Nil && height == Nil <==> o.following == FrameGrab)
      && (width != Nil || height != Nil ==> o.following[|FrameGrab|..] == " -s " + ToS(width) + "x" + ToS(height))
  {
    var o := NewThumbnailingOptions(position, width, height);
    var size := if width == Nil && height == Nil then "" else " -s " + ToS(width) + "x" + ToS(height);
    Parts2(o.following, FrameGrab, size);
  }

  /** By default the thumbnail is taken 4 seconds in, at the movie's size. */
  lemma Defaults()
    ensures NewThumbnailingOptions() == ThumbnailingOptions("-itsoffset -4", FrameGrab)
  {
    assert ToS(Int(4)) == "4";
  }
}
