/** Small pieces of the HTTP front end: the key-name lookup, the length of
    a node's decimation ladder as get-node reports it, and the text framing
    of a series answer. */
module HttpTsdbHelpers {

  import opened Wrappers
  import opened Json
  import opened Tsdb
  import opened HttpTsdbParsers

  // ---------------------------------------------------------------------
  // Key names

  /** Key names in key-identifier order. */
  const KEY_NAMES: seq<string> := ["read", "write"]

  /** ASCII lower-casing, as the C locale's tolower. */
  function ToLower(c: char): char
  {
    if 'A' <= c <= 'Z' then (c as int + 32) as char else c
  }

  /** strcasecmp(a, b) == 0. */
  predicate SameIgnoringCase(a: string, b: string)
  {
    |a| == |b| && forall i :: 0 <= i < |a| ==> ToLower(a[i]) == ToLower(b[i])
  }

  /** The identifier of the first key name matching `name` without regard
      to case, or KEY_COUNT when none does. */
  function KeyIdOf(name: string): (id: nat)
    ensures id <= KEY_COUNT == |KEY_NAMES|
  {
    if SameIgnoringCase(name, KEY_NAMES[KEY_READ]) then KEY_READ
    else if SameIgnoringCase(name, KEY_NAMES[KEY_WRITE]) then KEY_WRITE
    else KEY_COUNT
  }

  /** The lookup does not depend on case: names that differ only in case
      find the same key, and a found key's name matches the given one. */
  lemma KeyIdOfIgnoresCase(a: string, b: string)
    requires SameIgnoringCase(a, b)
    ensures KeyIdOf(a) == KeyIdOf(b)
    ensures KeyIdOf(a) < KEY_COUNT ==> SameIgnoringCase(b, KEY_NAMES[KeyIdOf(a)])
  {
    forall c: string | |c| == |a| && SameIgnoringCase(a, c)
      ensures SameIgnoringCase(b, c)
    {
      assert forall i :: 0 <= i < |a| ==> ToLower(b[i]) == ToLower(a[i]) == ToLower(c[i]);
    }
    forall c: string | |c| == |a| && SameIgnoringCase(b, c)
      ensures SameIgnoringCase(a, c)
    {
      assert forall i :: 0 <= i < |a| ==> ToLower(a[i]) == ToLower(b[i]) == ToLower(c[i]);
    }
  }

  /** The key-name search loop of the get-key and put-key handlers: the
      first identifier whose name matches, or KEY_COUNT. */
  method FindKeyId(name: string) returns (keyid: nat)
    ensures keyid <= KEY_COUNT
    ensures keyid < KEY_COUNT ==> SameIgnoringCase(name, KEY_NAMES[keyid])
    ensures forall j :: 0 <= j < keyid && j < KEY_COUNT ==> !SameIgnoringCase(name, KEY_NAMES[j])
    ensures keyid == KeyIdOf(name)
  {
    keyid := 0;
    while keyid < KEY_COUNT
      invariant keyid <= KEY_COUNT
      invariant forall j :: 0 <= j < keyid ==> !SameIgnoringCase(name, KEY_NAMES[j])
    {
      if SameIgnoringCase(name, KEY_NAMES[keyid]) {
        break;
      }
      keyid := keyid + 1;
    }
  }

  // ---------------------------------------------------------------------
  // The decimation ladder

  /** The leading entries of `s` before its first zero. */
  function NonZeroPrefix(s: seq<nat>): (r: seq<nat>)
    ensures |r| <= |s| && r == s[..|r|]
    ensures forall i :: 0 <= i < |r| ==> r[i] > 0
    ensures |r| < |s| ==> s[|r|] == 0
    ensures forall m :: 0 <= m < |s| && s[m] == 0 ==> |r| <= m
  {
    if s == [] || s[0] == 0 then [] else [s[0]] + NonZeroPrefix(s[1..])
  }

  /** The ladder get-node reports: the entries before the first zero, among
      the first MAX_LAYERS. */
  function Ladder(decimation: seq<nat>): (r: seq<nat>)
    ensures |r| <= MAX_LAYERS && |r| <= |decimation| && r == decimation[..|r|]
    ensures forall i :: 0 <= i < |r| ==> r[i] > 0
    ensures |r| < MAX_LAYERS && |r| < |decimation| ==> decimation[|r|] == 0
    ensures forall m :: 0 <= m < |decimation| && decimation[m] == 0 ==> |r| <= m
  {
    var cap := if |decimation| < MAX_LAYERS then |decimation| else MAX_LAYERS;
    NonZeroPrefix(decimation[..cap])
  }

  /** The ladder-length loop of get-node: counts the entries before the first
      zero, stopping at MAX_LAYERS. */
  method LadderLength(decimation: array<nat>) returns (nlayers: nat)
    requires decimation.Length == MAX_LAYERS
    ensures nlayers <= MAX_LAYERS
    ensures decimation[..nlayers] == Ladder(decimation[..])
  {
    nlayers := 0;
    while nlayers < MAX_LAYERS
      invariant nlayers <= MAX_LAYERS
      invariant forall j :: 0 <= j < nlayers ==> decimation[j] != 0
    {
      if decimation[nlayers] == 0 {
        break;
      }
      nlayers := nlayers + 1;
    }
  }

  /** The all-zero decimation slots the create handler starts from. */
  function NoDecimation(): seq<nat>
  {
    seq(MAX_LAYERS, _ => 0)
  }

  /** A ladder accepted at node creation is reported back as the request's
      entries before its first zero (unwritten slots stay zero). */
  lemma ReportedLadder(items: seq<Item>)
    requires LadderValid(items, 0)
    ensures |Ladder(ParseLadderFrom(items, 0, NoDecimation()).slots)| <= |items|
    ensures var r := Ladder(ParseLadderFrom(items, 0, NoDecimation()).slots);
      forall j :: 0 <= j < |r| ==> r[j] == items[j].value.valueint > 0
    ensures var r := Ladder(ParseLadderFrom(items, 0, NoDecimation()).slots);
      |r| < |items| ==> items[|r|].value.valueint == 0
  {
    var slots := ParseLadderFrom(items, 0, NoDecimation()).slots;
    ParseLadderResult(items, 0, NoDecimation());
    if |items| < MAX_LAYERS {
      assert slots[|items|] == NoDecimation()[|items|] == 0;
    }
  }

  // ---------------------------------------------------------------------
  // The framing of a series answer

  /** The texts separated by ", ", with no separator after the last. */
  function Join(texts: seq<string>): string
  {
    if texts == [] then ""
    else if |texts| == 1 then texts[0]
    else texts[0] + ", " + Join(texts[1..])
  }

  /** A series body: "[", the point texts separated by ", ", then "]". */
  function Framed(texts: seq<string>): string
  {
    "[" + Join(texts) + "]"
  }

  /** Appending a text to a non-empty list adds one separator before it. */
  lemma {:induction false} JoinSnoc(texts: seq<string>, x: string)
    requires texts != []
    ensures Join(texts + [x]) == Join(texts) + ", " + x
    decreases |texts|
  {
    if |texts| == 1 {
      assert texts + [x] == [texts[0], x];
    } else {
      assert (texts + [x])[1..] == texts[1..] + [x];
      JoinSnoc(texts[1..], x);
    }
  }

  /** The printf conversions of a point: `integer` stands for the `%`PRIi64
      text of an int64, `decimal` for the `%f` text of a double. */
  datatype Formats = Formats(integer: int -> string, decimal: real -> string)

  /** The text of one point: its timestamp in milliseconds and its value,
      as "[ ms, value ]". */
  function PointText(p: SeriesPoint, format: Formats): (t: string)
    ensures |t| == POINT_FRAME + |format.integer(p.timestamp * 1000)| + |format.decimal(p.value)|
  {
    "[ " + format.integer(p.timestamp * 1000) + ", " + format.decimal(p.value) + " ]"
  }

  /** Characters of a point's text besides its two numbers. */
  const POINT_FRAME: nat := 6

  /** The text of each point, in order. */
  function PointTexts(points: seq<SeriesPoint>, format: Formats): (r: seq<string>)
    ensures |r| == |points|
    ensures forall k :: 0 <= k < |points| ==> r[k] == PointText(points[k], format)
  {
    seq(|points|, k requires 0 <= k < |points| => PointText(points[k], format))
  }

  /** Joining texts of at least `m` characters each takes at least `m + 2`
      characters per text, less the one separator that is not written. */
  lemma {:induction false} JoinLength(texts: seq<string>, m: nat)
    requires forall k :: 0 <= k < |texts| ==> |texts[k]| >= m
    ensures |Join(texts)| + 2 >= (m + 2) * |texts|
    decreases |texts|
  {
    if |texts| > 1 {
      JoinLength(texts[1..], m);
      assert |texts[0]| >= m;
    } else if |texts| == 1 {
      assert |texts[0]| >= m;
    }
  }

  /** A series body is at least eight characters per point: however short
      the numbers, the frame of each point and the separators take that. */
  lemma FramedLength(points: seq<SeriesPoint>, format: Formats)
    ensures |Framed(PointTexts(points, format))| >= (POINT_FRAME + 2) * |points|
  {
    JoinLength(PointTexts(points, format), POINT_FRAME);
  }

  /** The output loop of get-series: "[", then each point's text followed by
      ", " while points remain, then "]", as the text the loop means to
      write; the output buffer's size is applied by the handlers. */
  method RenderSeries(points: seq<SeriesPoint>, format: Formats) returns (out: string)
    ensures out == Framed(PointTexts(points, format))
  {
    var texts := PointTexts(points, format);
    out := "[";
    var remaining := |points|;
    var i := 0;
    while remaining > 0
      invariant 0 <= i <= |points| && i + remaining == |points|
      invariant out == "[" + Join(texts[..i]) + (if 0 < i < |points| then ", " else "")
    {
      remaining := remaining - 1;
      out := out + PointText(points[i], format) + (if remaining != 0 then ", " else "");
      if i > 0 {
        JoinSnoc(texts[..i], texts[i]);
      }
      assert texts[..i + 1] == texts[..i] + [texts[i]];
      i := i + 1;
    }
    assert texts[..i] == texts;
    out := out + "]";
  }
}
