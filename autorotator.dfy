/** The rotation rule (lib/ffmpeg/transcoders/autorotator.rb): a rotated source is
    turned upright by a video filter, and its rotation metadata is cleared. */
module Autorotator {
  import opened Wrappers
  import opened RubyValues
  import opened RubyHash
  import opened EncodingOpts
  import opened Settings

  /** autorotate?: the option is truthy and the movie has a non-zero rotation. */
  predicate Autorotate(topts: TranscoderOptions, movie: MovieFacts) {
    Truthy(topts.autorotate) && movie.rotation.Some? && movie.rotation.value != 0
  }

  /** changes_orientation?: a quarter turn either way swaps width and height. */
  predicate ChangesOrientation(topts: TranscoderOptions, movie: MovieFacts) {
    Autorotate(topts, movie) && (movie.rotation.value == 90 || movie.rotation.value == 270)
  }

  /** The filter table, with nil for a rotation it does not list. */
  function RotationFilter(rotation: int): Value {
    if rotation == 90 then Str("transpose=1")
    else if rotation == 180 then Str("hflip,vflip")
    else if rotation == 270 then Str("transpose=2")
    else Nil
  }

  const MetadataReset: string := "s:v:0 rotate=0"

  /** The options after apply_autorotate. */
  function Autorotated(h: Hash<Value>, topts: TranscoderOptions, movie: MovieFacts): Hash<Value> {
    if !Autorotate(topts, movie) then h
    else h.Put("metadata", Str(MetadataReset)).Put("video_filter", RotationFilter(movie.rotation.value))
  }

  /** apply_autorotate */
  method ApplyAutorotate(raw: EncodingOptions, topts: TranscoderOptions, movie: MovieFacts)
    requires raw.Valid()
    modifies raw
    ensures raw.Valid()
    ensures raw.Contents() == Autorotated(old(raw.Contents()), topts, movie)
  {
    if !Autorotate(topts, movie) {
      return;
    }
    raw.Store("metadata", Str(MetadataReset));
    raw.Store("video_filter", RotationFilter(movie.rotation.value));
  }

  /** Without autorotation nothing changes; with it, the metadata is reset, the
      filter is the one for the rotation, and every other option keeps its value. */
  lemma AutorotatedSpec(h: Hash<Value>, topts: TranscoderOptions, movie: MovieFacts)
    requires h.Valid()
    ensures Autorotated(h, topts, movie).Valid()
    ensures !Autorotate(topts, movie) ==> Autorotated(h, topts, movie) == h
    ensures Autorotate(topts, movie) ==>
      && Autorotated(h, topts, movie).Fetch("metadata") == Some(Str(MetadataReset))
      && Autorotated(h, topts, movie).Fetch("video_filter") == Some(RotationFilter(movie.rotation.value))
    ensures forall k :: k != "metadata" && k != "video_filter" ==>
      Autorotated(h, topts, movie).Fetch(k) == h.Fetch(k)
    ensures forall i :: 0 <= i < |h.keys| ==> Autorotated(h, topts, movie).keys[i] == h.keys[i]
  {
    if Autorotate(topts, movie) {
      var h1 := h.Put("metadata", Str(MetadataReset));
      PutSpec(h, "metadata", Str(MetadataReset));
      PutSpec(h1, "video_filter", RotationFilter(movie.rotation.value));
    }
  }

  /** Given autorotation, the orientation changes exactly when the filter is a transpose. */
  lemma OrientationIsTranspose(topts: TranscoderOptions, movie: MovieFacts)
    requires Autorotate(topts, movie)
    ensures ChangesOrientation(topts, movie) <==>
      RotationFilter(movie.rotation.value) == Str("transpose=1") ||
      RotationFilter(movie.rotation.value) == Str("transpose=2")
  {
  }

  /** The filter is nil exactly for a rotation outside the table. */
  lemma RotationFilterNil(rotation: int)
    ensures RotationFilter(rotation) == Nil <==> rotation != 90 && rotation != 180 && rotation != 270
  {
  }

  /** A change of orientation implies autorotation. */
  lemma OrientationNeedsAutorotate(topts: TranscoderOptions, movie: MovieFacts)
    ensures ChangesOrientation(topts, movie) ==> Autorotate(topts, movie)
    ensures !Truthy(topts.autorotate) ==> !ChangesOrientation(topts, movie)
  {
  }
}
