/** The transcoder options hash and what the resize and rotation rules read about the
    source movie. */
module Settings {
  import opened Wrappers
  import opened RubyValues
  import opened RubyHash
  import opened Floats

  /** transcoder_options[:input_options]: absent (or nil), an Array of arguments, or a
      Hash of option names to values. */
  datatype InputOptions =
    | NoInputOptions
    | ListInput(items: seq<Value>)
    | HashInput(pairs: Hash<Value>)

  /** The transcoder options hash. A key Ruby reads with `[]` is nil when absent, so
      it is held as a Value; `validate` is read with `fetch` and so keeps its absence. */
  datatype TranscoderOptions = TranscoderOptions(
    input: Value,
    inputOptions: InputOptions,
    validate: Option<Value>,
    preserveAspectRatio: Value,
    enlarge: Value,
    autorotate: Value)

  /** What the scaling and rotation rules ask of the source movie: its calculated
      aspect ratio, its width and height, and its rotation, each possibly nil. */
  datatype MovieFacts = MovieFacts(
    aspect: Option<Float>,
    width: Option<int>,
    height: Option<int>,
    rotation: Option<int>)
}
