/** What the HTTP front end sees of the storage engine: its compile-time
    limits, the sample representation, error numbers and the state of an
    opened node. The engine itself (node files, decimation, queries) is not
    part of this model; its answers are inputs of the handlers. */
module Tsdb {

  import opened Wrappers

  /** Limits and enumeration values defined by the engine's header. That
      header is not part of this model: the values here stand in for its
      definitions, and every property is stated in terms of the names. */
  const MAX_METRICS: nat := 32
  const MAX_LAYERS: nat := 8
  const PAD_MASK: nat := 3
  const DOWNSAMPLE_MASK: nat := 3
  const PAD_UNKNOWN: nat := 0
  const DOWNSAMPLE_MEAN: nat := 0
  const NO_TIMESTAMP: int := 0

  /** Length in bytes of a node or admin key. */
  const KEY_LENGTH: nat := 32

  /** Key identifiers, in the order of the key-name table. */
  const KEY_READ: nat := 0
  const KEY_WRITE: nat := 1
  const KEY_COUNT: nat := 2

  /** Error numbers (Linux values); the engine and the parsers return them
      negated. */
  const ENOENT: int := 2
  const EACCES: int := 13
  const EINVAL: int := 22

  function Pow2(k: nat): (r: nat)
    ensures r >= 1
  {
    if k == 0 then 1 else 2 * Pow2(k - 1)
  }

  /** Largest accepted mode numbers: the parser admits 0 .. (1 << MASK) - 1. */
  const MAX_PAD_MODE: int := Pow2(PAD_MASK) - 1
  const MAX_DOWNSAMPLE_MODE: int := Pow2(DOWNSAMPLE_MASK) - 1

  /** One metric value: a number, or the not-a-number marker for a missing
      sample. */
  datatype Sample = Missing | Value(v: real)

  type Key = seq<bv8>

  /** Per-metric policy as stored in a node. */
  datatype MetricModes = MetricModes(padMode: nat, downsampleMode: nat)

  /** The metadata of an opened node; the metric count is |metrics|. */
  datatype Meta = Meta(interval: nat, startTime: int, npoints: nat,
                       decimation: seq<nat>, metrics: seq<MetricModes>)

  /** An opened node handle: its metadata and its read and write keys. */
  datatype Node = Node(meta: Meta, readKey: Option<Key>, writeKey: Option<Key>)
  {
    function KeyOf(keyid: nat): Option<Key>
    {
      if keyid == KEY_READ then readKey else if keyid == KEY_WRITE then writeKey else None
    }
  }

  /** One point of a series answer. */
  datatype SeriesPoint = SeriesPoint(timestamp: int, value: real)
}
