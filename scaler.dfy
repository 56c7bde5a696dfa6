/** The resize rule (lib/ffmpeg/transcoders/scaler.rb): when the aspect ratio is to be
    preserved, one side of the requested resolution is authoritative and the other is
    recomputed from the source movie's aspect ratio, rounded to an even number. */
module Scaler {
  import opened Wrappers
  import opened Text
  import opened RubyValues
  import opened RubyHash
  import opened Floats
  import opened EncodingOpts
  import opened Settings

  /** preserve_aspect_ratio?: the movie has an aspect ratio and the option names a side. */
  predicate PreserveAspectRatio(movie: MovieFacts, topts: TranscoderOptions) {
    movie.aspect.Some? && (ToS(topts.preserveAspectRatio) == "width" || ToS(topts.preserveAspectRatio) == "height")
  }

  /** invert_side */
  function InvertSide(side: string): string {
    if side == "height" then "width" else "height"
  }

  /** Index of a side in the "WxH" resolution text. */
  function SideIndex(side: string): nat {
    if side == "width" then 0 else 1
  }

  /** `@raw_options.send(side)` */
  function OptionsSide(h: Hash<Value>, side: string): Option<int> {
    ResolutionSide(h, SideIndex(side))
  }

  /** `@movie.send(side)` */
  function MovieSide(movie: MovieFacts, side: string): Option<int> {
    if side == "width" then movie.width else movie.height
  }

  function Min(a: int, b: int): int {
    if a < b then a else b
  }

  /** evenize on a finite number: ceil when that is even, otherwise floor, and one
      more when the result is still odd. The result is the one even integer in
      (x - 1, x + 1]. */
  function EvenizeReal(x: real): (r: int)
    ensures r % 2 == 0
    ensures x - 1.0 < r as real <= x + 1.0
  {
    var c := Ceil(x);
    var f := Floor(x);
    assert c as real - 1.0 < x <= c as real;
    assert f as real <= x < f as real + 1.0;
    var n := if c % 2 == 0 then c else f;
    if n % 2 != 0 then n + 1 else n
  }

  /** No other even integer lies within the bound evenize keeps. */
  lemma EvenizeUnique(x: real, r: int)
    requires r % 2 == 0 && x - 1.0 < r as real <= x + 1.0
    ensures r == EvenizeReal(x)
  {
    var e := EvenizeReal(x);
    assert -2 < r - e < 2;
    assert (r - e) % 2 == 0;
  }

  /** An integer that is already even is kept. */
  lemma EvenizeEven(n: int)
    requires n % 2 == 0
    ensures EvenizeReal(n as real) == n
  {
    EvenizeUnique(n as real, n);
  }

  /** evenize on a Float: `ceil` and `floor` raise FloatDomainError on NaN and the
      infinities. */
  function Evenize(f: Float): Result<int, Error> {
    match f
    case Num(x) => Ok(EvenizeReal(x))
    case _ => Err(FloatDomainError)
  }

  /** set_new_resolution: the "WxH" text for the given authoritative side, or None
      (nothing written) for a side that is neither. `size` is nil when no resolution
      was requested, and nil has no `/` or `*`. */
  function NewResolution(side: string, size: Option<int>, aspect: Float): Result<Option<string>, Error> {
    if side == "width" then
      if size.None? then Err(NoMethodError("undefined method `/' for nil"))
      else
        match Evenize(IntDiv(size.value, aspect))
        case Err(e) => Err(e)
        case Ok(height) => Ok(Some(Resolution(size.value, height)))
    else if side == "height" then
      if size.None? then Err(NoMethodError("undefined method `*' for nil"))
      else
        match Evenize(IntMul(size.value, aspect))
        case Err(e) => Err(e)
        case Ok(width) => Ok(Some(Resolution(width, size.value)))
    else Ok(None)
  }

  /** The side the resolution is finally computed for. */
  function TargetSide(topts: TranscoderOptions, changeOrientation: bool): string {
    var side := ToS(topts.preserveAspectRatio);
    if changeOrientation then InvertSide(side) else side
  }

  /** What apply_preserve_aspect_ratio does to the options: Ok(None) when it writes
      nothing, Ok(Some(r)) when it stores resolution r, Err when it raises. */
  function ScaledResolution(h: Hash<Value>, topts: TranscoderOptions, movie: MovieFacts, changeOrientation: bool): Result<Option<string>, Error> {
    if !PreserveAspectRatio(movie, topts) then Ok(None)
    else
      var requested := OptionsSide(h, ToS(topts.preserveAspectRatio));
      var side := TargetSide(topts, changeOrientation);
      if topts.enlarge == Bool(false) then
        var original := MovieSide(movie, side);
        if original.None? then Err(NoMethodError("undefined method `<' for nil"))
        else if requested.None? then Err(ArgumentError("comparison of Integer with nil failed"))
        else NewResolution(side, Some(Min(original.value, requested.value)), movie.aspect.value)
      else NewResolution(side, requested, movie.aspect.value)
  }

  /** invert_side swaps the two sides and undoes itself. */
  lemma InvertSideSwaps(side: string)
    requires side == "width" || side == "height"
    ensures InvertSide(side) != side
    ensures InvertSide(side) == "width" || InvertSide(side) == "height"
    ensures InvertSide(InvertSide(side)) == side
  {
  }

  /** Preserving the width keeps it exactly; the height becomes the even integer
      within 1 of width / aspect. */
  lemma PreserveWidthMeaning(h: Hash<Value>, size: int, a: real)
    requires a != 0.0
    ensures NewResolution("width", Some(size), Num(a)).Ok?
    ensures NewResolution("width", Some(size), Num(a)).value.Some?
    ensures var h' := h.Put("resolution", Str(NewResolution("width", Some(size), Num(a)).value.value));
      && OptionsSide(h', "width") == Some(size)
      && OptionsSide(h', "height").Some?
      && OptionsSide(h', "height").value % 2 == 0
      && size as real / a - 1.0 < OptionsSide(h', "height").value as real <= size as real / a + 1.0
  {
    var x := size as real / a;
    assert IntDiv(size, Num(a)) == Num(x);
    var height := EvenizeReal(x);
    assert Evenize(IntDiv(size, Num(a))) == Ok(height);
    var r := Resolution(size, height);
    assert NewResolution("width", Some(size), Num(a)) == Ok(Some(r));
    ResolutionRoundTrip(h, size, height);
    var h' := h.Put("resolution", Str(r));
    assert OptionsSide(h', "width") == ResolutionSide(h', 0);
    assert OptionsSide(h', "height") == ResolutionSide(h', 1);
  }

  /** Preserving the height keeps it exactly; the width becomes the even integer
      within 1 of height * aspect. */
  lemma PreserveHeightMeaning(h: Hash<Value>, size: int, a: real)
    ensures NewResolution("height", Some(size), Num(a)).Ok?
    ensures NewResolution("height", Some(size), Num(a)).value.Some?
    ensures var h' := h.Put("resolution", Str(NewResolution("height", Some(size), Num(a)).value.value));
      && OptionsSide(h', "height") == Some(size)
      && OptionsSide(h', "width").Some?
      && OptionsSide(h', "width").value % 2 == 0
      && size as real * a - 1.0 < OptionsSide(h', "width").value as real <= size as real * a + 1.0
  {
    var x := size as real * a;
    assert IntMul(size, Num(a)) == Num(x);
    var width := EvenizeReal(x);
    assert Evenize(IntMul(size, Num(a))) == Ok(width);
    var r := Resolution(width, size);
    assert NewResolution("height", Some(size), Num(a)) == Ok(Some(r));
    ResolutionRoundTrip(h, width, size);
    var h' := h.Put("resolution", Str(r));
    assert OptionsSide(h', "width") == ResolutionSide(h', 0);
    assert OptionsSide(h', "height") == ResolutionSide(h', 1);
  }

  /** The resolution is written exactly when the aspect ratio is to be preserved (or
      the rule raises); otherwise the options are untouched. */
  lemma ScaleOnlyWhenPreserving(h: Hash<Value>, topts: TranscoderOptions, movie: MovieFacts, changeOrientation: bool)
    ensures ScaledResolution(h, topts, movie, changeOrientation) == Ok(None) <==> !PreserveAspectRatio(movie, topts)
  {
  }

  /** When the rule applies: the size comes from the side the option names, is
      capped at the movie's own size on the target side when enlarging is off, and
      is applied to the inverted side when the orientation changes. */
  lemma ScaleMeaning(h: Hash<Value>, topts: TranscoderOptions, movie: MovieFacts, changeOrientation: bool)
    requires PreserveAspectRatio(movie, topts)
    requires movie.aspect.value.Num? && movie.aspect.value.r != 0.0
    requires OptionsSide(h, ToS(topts.preserveAspectRatio)).Some?
    requires topts.enlarge == Bool(false) ==> MovieSide(movie, TargetSide(topts, changeOrientation)).Some?
    ensures var requested := OptionsSide(h, ToS(topts.preserveAspectRatio)).value;
      var side := TargetSide(topts, changeOrientation);
      var size := if topts.enlarge == Bool(false) then Min(MovieSide(movie, side).value, requested) else requested;
      ScaledResolution(h, topts, movie, changeOrientation) == NewResolution(side, Some(size), movie.aspect.value)
    ensures changeOrientation ==> TargetSide(topts, changeOrientation) == InvertSide(ToS(topts.preserveAspectRatio))
    ensures var r := ScaledResolution(h, topts, movie, changeOrientation);
      r.Ok? && r.value.Some?
  {
    var side := TargetSide(topts, changeOrientation);
    var requested := OptionsSide(h, ToS(topts.preserveAspectRatio)).value;
    var size := if topts.enlarge == Bool(false) then Min(MovieSide(movie, side).value, requested) else requested;
    if side == "width" {
      PreserveWidthMeaning(h, size, movie.aspect.value.r);
    } else {
      PreserveHeightMeaning(h, size, movie.aspect.value.r);
    }
  }

  /** With enlarging off the authoritative side never exceeds the movie's own. */
  lemma NoEnlargeCaps(h: Hash<Value>, topts: TranscoderOptions, movie: MovieFacts, changeOrientation: bool)
    requires PreserveAspectRatio(movie, topts) && topts.enlarge == Bool(false)
    requires movie.aspect.value.Num? && movie.aspect.value.r != 0.0
    requires OptionsSide(h, ToS(topts.preserveAspectRatio)).Some?
    requires MovieSide(movie, TargetSide(topts, changeOrientation)).Some?
    ensures var r := ScaledResolution(h, topts, movie, changeOrientation);
      var side := TargetSide(topts, changeOrientation);
      var written := OptionsSide(h.Put("resolution", Str(r.value.value)), side).value;
      && written <= MovieSide(movie, side).value
      && written <= OptionsSide(h, ToS(topts.preserveAspectRatio)).value
      && (written == MovieSide(movie, side).value || written == OptionsSide(h, ToS(topts.preserveAspectRatio)).value)
  {
    var side := TargetSide(topts, changeOrientation);
    var requested := OptionsSide(h, ToS(topts.preserveAspectRatio)).value;
    var size := Min(MovieSide(movie, side).value, requested);
    ScaleMeaning(h, topts, movie, changeOrientation);
    if side == "width" {
      PreserveWidthMeaning(h, size, movie.aspect.value.r);
    } else {
      PreserveHeightMeaning(h, size, movie.aspect.value.r);
    }
  }

  /** Without a requested resolution, or with a NaN aspect ratio, the rule raises. */
  lemma ScaleFailures(h: Hash<Value>, topts: TranscoderOptions, movie: MovieFacts, changeOrientation: bool)
    requires PreserveAspectRatio(movie, topts)
    ensures OptionsSide(h, ToS(topts.preserveAspectRatio)).None? ==> ScaledResolution(h, topts, movie, changeOrientation).Err?
    ensures movie.aspect.value == NaN ==> ScaledResolution(h, topts, movie, changeOrientation).Err?
    ensures topts.enlarge == Bool(false) && MovieSide(movie, TargetSide(topts, changeOrientation)).None? ==>
      ScaledResolution(h, topts, movie, changeOrientation).Err?
  {
  }

  /** set_new_resolution, writing into the options. */
  method SetNewResolution(raw: EncodingOptions, side: string, size: Option<int>, aspect: Float) returns (error: Option<Error>)
    requires raw.Valid()
    modifies raw
    ensures raw.Valid()
    ensures var r := NewResolution(side, size, aspect);
      && (r.Err? ==> error == Some(r.error) && raw.Contents() == old(raw.Contents()))
      && (r.Ok? && r.value.None? ==> error == None && raw.Contents() == old(raw.Contents()))
      && (r.Ok? && r.value.Some? ==> error == None && raw.Contents() == old(raw.Contents()).Put("resolution", Str(r.value.value)))
  {
    error := None;
    if side == "width" {
      if size.None? {
        return Some(NoMethodError("undefined method `/' for nil"));
      }
      var newHeight := Evenize(IntDiv(size.value, aspect));
      if newHeight.Err? {
        return Some(newHeight.error);
      }
      raw.Store("resolution", Str(Resolution(size.value, newHeight.value)));
    } else if side == "height" {
      if size.None? {
        return Some(NoMethodError("undefined method `*' for nil"));
      }
      var newWidth := Evenize(IntMul(size.value, aspect));
      if newWidth.Err? {
        return Some(newWidth.error);
      }
      raw.Store("resolution", Str(Resolution(newWidth.value, size.value)));
    }
  }

  /** apply_preserve_aspect_ratio: Some(e) when it raises e. */
  method ApplyPreserveAspectRatio(raw: EncodingOptions, topts: TranscoderOptions, movie: MovieFacts, changeOrientation: bool)
    returns (error: Option<Error>)
    requires raw.Valid()
    modifies raw
    ensures raw.Valid()
    ensures var r := ScaledResolution(old(raw.Contents()), topts, movie, changeOrientation);
      && (r.Err? ==> error == Some(r.error) && raw.Contents() == old(raw.Contents()))
      && (r.Ok? && r.value.None? ==> error == None && raw.Contents() == old(raw.Contents()))
      && (r.Ok? && r.value.Some? ==> error == None && raw.Contents() == old(raw.Contents()).Put("resolution", Str(r.value.value)))
  {
    if !PreserveAspectRatio(movie, topts) {
      return None;
    }
    var side := ToS(topts.preserveAspectRatio);
    var size := if side == "width" then raw.Width() else raw.Height();
    if changeOrientation {
      side := InvertSide(side);
    }
    if topts.enlarge == Bool(false) {
      var originalSize := MovieSide(movie, side);
      if originalSize.None? {
        return Some(NoMethodError("undefined method `<' for nil"));
      }
      if size.None? {
        return Some(ArgumentError("comparison of Integer with nil failed"));
      }
      if originalSize.value < size.value {
        size := originalSize;
      }
    }
    error := SetNewResolution(raw, side, size, movie.aspect.value);
  }
}
