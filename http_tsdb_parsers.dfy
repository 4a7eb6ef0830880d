/** The request-payload parsers of the HTTP front end: the value array and
    the body of a point submission, the metric definitions, the decimation
    ladder and the body of a node definition, and the body of a key update.

    Each parser walks a child list and writes fixed-capacity arrays through
    out-parameters. Each is modelled twice: a pure function over sequences
    that gives the state the walk leaves behind (return code, counters, array
    contents), and a method that does the walk on arrays and is proved to
    leave exactly that state. The lemmas state what the source promises
    about the pure function. */
module HttpTsdbParsers {

  import opened Wrappers
  import opened Json
  import opened Tsdb

  // ---------------------------------------------------------------------
  // The value array of a point submission

  /** The sample an element of the value array denotes: null is the missing
      marker and a number its floating value; any other type has none. */
  function SampleOf(it: Item): Option<Sample>
  {
    match it.value
    case Null => Some(Missing)
    case Number(_, d) => Some(Value(d))
    case _ => None
  }

  /** Return code, metric count and the value slots after a value walk. */
  datatype ValuesState = ValuesState(rc: int, n: nat, slots: seq<Sample>)

  /** The walk of the value parser over `items`, appending after the first
      `n` slots: stop with -EINVAL when the slots are full and an item
      remains, or at an item that is neither null nor a number. */
  function AppendValues(items: seq<Item>, n: nat, slots: seq<Sample>): (r: ValuesState)
    requires n <= MAX_METRICS == |slots|
    ensures n <= r.n <= MAX_METRICS && |r.slots| == MAX_METRICS
    ensures r.rc == 0 || r.rc == -EINVAL
    decreases |items|
  {
    if items == [] then ValuesState(0, n, slots)
    else if n == MAX_METRICS then ValuesState(-EINVAL, n, slots)
    else match SampleOf(items[0])
      case None => ValuesState(-EINVAL, n, slots)
      case Some(s) => AppendValues(items[1..], n + 1, slots[n := s])
  }

  /** The value parser accepts exactly the arrays whose items are all null
      or numbers and that fit in the slots left. */
  lemma {:induction false} AppendValuesAccepts(items: seq<Item>, n: nat, slots: seq<Sample>)
    requires n <= MAX_METRICS == |slots|
    ensures AppendValues(items, n, slots).rc == 0 <==>
      (forall k :: 0 <= k < |items| ==> SampleOf(items[k]).Some?) && n + |items| <= MAX_METRICS
  {
    if items != [] && n < MAX_METRICS && SampleOf(items[0]).Some? {
      AppendValuesAccepts(items[1..], n + 1, slots[n := SampleOf(items[0]).value]);
      assert forall k :: 1 <= k < |items| ==> items[k] == items[1..][k - 1];
    }
  }

  /** An accepted array appends exactly one slot per item, in order: null
      becomes Missing and a number its value; no other slot changes. */
  lemma {:induction false} AppendValuesOnePerItem(items: seq<Item>, n: nat, slots: seq<Sample>)
    requires n <= MAX_METRICS == |slots|
    requires AppendValues(items, n, slots).rc == 0
    ensures var r := AppendValues(items, n, slots);
      && r.n == n + |items|
      && r.slots[..n] == slots[..n]
      && r.slots[r.n..] == slots[r.n..]
      && (forall k :: 0 <= k < |items| && items[k].value.Null? ==> r.slots[n + k] == Missing)
      && (forall k :: 0 <= k < |items| && items[k].value.Number? ==>
            r.slots[n + k] == Value(items[k].value.valuedouble))
  {
    if items != [] {
      var s := SampleOf(items[0]).value;
      var r := AppendValues(items, n, slots);
      AppendValuesOnePerItem(items[1..], n + 1, slots[n := s]);
      assert r == AppendValues(items[1..], n + 1, slots[n := s]);
      assert r.slots[..n + 1][..n] == r.slots[..n];
      forall k | 1 <= k < |items|
        ensures items[k] == items[1..][k - 1] && n + k == (n + 1) + (k - 1)
      {
      }
    }
  }

  /** The samples an accepted value array denotes, in order. */
  function Samples(items: seq<Item>): (r: seq<Sample>)
    ensures |r| == |items|
  {
    seq(|items|, k requires 0 <= k < |items| =>
      if items[k].value.Number? then Value(items[k].value.valuedouble) else Missing)
  }

  /** An accepted array leaves the slots before `n` as they were, then its
      samples, then the slots after them as they were. */
  lemma AppendValuesSamples(items: seq<Item>, n: nat, slots: seq<Sample>)
    requires n <= MAX_METRICS == |slots|
    requires AppendValues(items, n, slots).rc == 0
    ensures var r := AppendValues(items, n, slots);
      && r.n == n + |items|
      && r.slots == slots[..n] + Samples(items) + slots[r.n..]
  {
    var r := AppendValues(items, n, slots);
    AppendValuesOnePerItem(items, n, slots);
    AppendValuesAccepts(items, n, slots);
    var want := slots[..n] + Samples(items) + slots[r.n..];
    forall j | 0 <= j < |r.slots|
      ensures r.slots[j] == want[j]
    {
      if j < n {
        assert r.slots[j] == r.slots[..n][j];
      } else if j < r.n {
        assert SampleOf(items[j - n]).Some?;
        assert r.slots[n + (j - n)] == Samples(items)[j - n];
      } else {
        assert r.slots[j] == r.slots[r.n..][j - r.n];
      }
    }
  }

  /** post_values_value_parser: walks the array `json`, appending to the
      `n0` values already in `values`. */
  method ParseValueArray(json: Item, n0: nat, values: array<Sample>) returns (rc: int, n: nat)
    requires values.Length == MAX_METRICS && n0 <= MAX_METRICS
    modifies values
    ensures AppendValues(Children(json), n0, old(values[..])) == ValuesState(rc, n, values[..])
  {
    var items := Children(json);
    var i := 0;
    n := n0;
    while i < |items|
      invariant 0 <= i <= |items| && n0 <= n <= MAX_METRICS
      invariant AppendValues(items[i..], n, values[..]) == AppendValues(items, n0, old(values[..]))
    {
      assert items[i..][1..] == items[i + 1..];
      if n == MAX_METRICS {
        return -EINVAL, n;
      }
      match items[i].value {
        case Null =>
          values[n] := Missing;
        case Number(_, d) =>
          values[n] := Value(d);
        case _ =>
          return -EINVAL, n;
      }
      n := n + 1;
      i := i + 1;
    }
    assert items[i..] == [];
    rc := 0;
  }

  // ---------------------------------------------------------------------
  // The body of a point submission

  /** Return code, timestamp, metric count and value slots after the body
      walk. */
  datatype PostState = PostState(rc: int, timestamp: int, n: nat, slots: seq<Sample>)

  /** A millisecond timestamp converted to whole seconds: divided by 1000
      and truncated toward zero, as the conversion to a signed integer
      does. */
  function MsToSeconds(ms: real): (s: int)
    ensures ms >= 0.0 ==> s >= 0 && s as real * 1000.0 <= ms < (s + 1) as real * 1000.0
    ensures ms < 0.0 ==> s <= 0 && (s - 1) as real * 1000.0 < ms <= s as real * 1000.0
  {
    if ms >= 0.0 then (ms / 1000.0).Floor else -((-ms / 1000.0).Floor)
  }

  /** The future-post policy check: the submitted millisecond timestamp is
      later than the current timestamp value. */
  predicate InFuture(ms: real, timestamp: int)
  {
    ms / 1000.0 > timestamp as real
  }

  /** The walk of the body parser over the members from `n` values on:
      unnamed members and names other than "timestamp" and "values" are
      skipped; a non-numeric timestamp is -EINVAL; with the future-post
      policy, a timestamp later than the current one is -EACCES; a values
      member is handed to the value parser, whose failure is -EINVAL. */
  function PostDataFrom(members: seq<Item>, denyFuture: bool, timestamp: int, n: nat,
                        slots: seq<Sample>): (r: PostState)
    requires n <= MAX_METRICS == |slots|
    ensures r.n <= MAX_METRICS && |r.slots| == MAX_METRICS
    decreases |members|
  {
    if members == [] then PostState(0, timestamp, n, slots)
    else
      var m := members[0];
      if Named(m, "timestamp") then
        if !m.value.Number? then PostState(-EINVAL, timestamp, n, slots)
        else if denyFuture && InFuture(m.value.valuedouble, timestamp) then
          PostState(-EACCES, timestamp, n, slots)
        else PostDataFrom(members[1..], denyFuture, MsToSeconds(m.value.valuedouble), n, slots)
      else if Named(m, "values") then
        var v := AppendValues(Children(m), n, slots);
        if v.rc < 0 then PostState(-EINVAL, timestamp, v.n, v.slots)
        else PostDataFrom(members[1..], denyFuture, timestamp, v.n, v.slots)
      else PostDataFrom(members[1..], denyFuture, timestamp, n, slots)
  }

  /** The body parser as the handler runs it: the metric count starts at 0
      and the timestamp at the caller's default. */
  function PostData(body: Item, denyFuture: bool, timestamp: int, slots: seq<Sample>): PostState
    requires |slots| == MAX_METRICS
  {
    PostDataFrom(Children(body), denyFuture, timestamp, 0, slots)
  }

  /** The members a body parser looks at: named, with one of `keys`. */
  function Relevant(members: seq<Item>, keys: set<string>): (r: seq<Item>)
    ensures |r| <= |members|
    ensures forall m :: m in r ==> m in members && m.name.Some? && m.name.value in keys
    ensures forall m :: m in members && m.name.Some? && m.name.value in keys ==> m in r
  {
    if members == [] then []
    else if members[0].name.Some? && members[0].name.value in keys then
      [members[0]] + Relevant(members[1..], keys)
    else Relevant(members[1..], keys)
  }

  /** Unnamed members and members with other names have no effect on the
      body parser. */
  lemma {:induction false} PostDataSkipsOthers(members: seq<Item>, denyFuture: bool, timestamp: int,
                                               n: nat, slots: seq<Sample>)
    requires n <= MAX_METRICS == |slots|
    ensures PostDataFrom(members, denyFuture, timestamp, n, slots)
         == PostDataFrom(Relevant(members, {"timestamp", "values"}), denyFuture, timestamp, n, slots)
  {
    if members != [] {
      var m := members[0];
      var rest := Relevant(members[1..], {"timestamp", "values"});
      if Named(m, "timestamp") {
        assert Relevant(members, {"timestamp", "values"}) == [m] + rest;
        assert ([m] + rest)[1..] == rest;
        if m.value.Number? {
          PostDataSkipsOthers(members[1..], denyFuture, MsToSeconds(m.value.valuedouble), n, slots);
        }
      } else if Named(m, "values") {
        assert Relevant(members, {"timestamp", "values"}) == [m] + rest;
        assert ([m] + rest)[1..] == rest;
        var v := AppendValues(Children(m), n, slots);
        if v.rc >= 0 {
          PostDataSkipsOthers(members[1..], denyFuture, timestamp, v.n, v.slots);
        }
      } else {
        PostDataSkipsOthers(members[1..], denyFuture, timestamp, n, slots);
      }
    }
  }

  /** Without a "timestamp" member the caller's default timestamp is left
      as it was, whatever the outcome. */
  lemma {:induction false} PostDataKeepsDefaultTimestamp(members: seq<Item>, denyFuture: bool,
                                                         timestamp: int, n: nat, slots: seq<Sample>)
    requires n <= MAX_METRICS == |slots|
    requires forall k :: 0 <= k < |members| ==> !Named(members[k], "timestamp")
    ensures PostDataFrom(members, denyFuture, timestamp, n, slots).timestamp == timestamp
  {
    if members != [] {
      assert !Named(members[0], "timestamp");
      assert forall k :: 0 <= k < |members| - 1 ==> members[1..][k] == members[k + 1];
      if Named(members[0], "values") {
        var v := AppendValues(Children(members[0]), n, slots);
        if v.rc >= 0 {
          PostDataKeepsDefaultTimestamp(members[1..], denyFuture, timestamp, v.n, v.slots);
        }
      } else {
        PostDataKeepsDefaultTimestamp(members[1..], denyFuture, timestamp, n, slots);
      }
    }
  }

  /** A "timestamp" member that is not a number makes the body invalid:
      the parse fails, with -EINVAL unless the future-post policy rejected
      an earlier timestamp first. */
  lemma {:induction false} PostDataRejectsBadTimestamp(members: seq<Item>, denyFuture: bool,
                                                       timestamp: int, n: nat, slots: seq<Sample>, j: nat)
    requires n <= MAX_METRICS == |slots|
    requires j < |members| && Named(members[j], "timestamp") && !members[j].value.Number?
    ensures var r := PostDataFrom(members, denyFuture, timestamp, n, slots);
      r.rc != 0 && (!denyFuture ==> r.rc == -EINVAL)
  {
    var m := members[0];
    if j > 0 {
      assert members[1..][j - 1] == members[j];
      if Named(m, "timestamp") {
        if m.value.Number? && !(denyFuture && InFuture(m.value.valuedouble, timestamp)) {
          PostDataRejectsBadTimestamp(members[1..], denyFuture, MsToSeconds(m.value.valuedouble), n, slots, j - 1);
        }
      } else if Named(m, "values") {
        var v := AppendValues(Children(m), n, slots);
        if v.rc >= 0 {
          PostDataRejectsBadTimestamp(members[1..], denyFuture, timestamp, v.n, v.slots, j - 1);
        }
      } else {
        PostDataRejectsBadTimestamp(members[1..], denyFuture, timestamp, n, slots, j - 1);
      }
    }
  }

  /** The samples of the members named "values", in member order. */
  function ValuesSamples(members: seq<Item>): seq<Sample>
  {
    if members == [] then []
    else (if Named(members[0], "values") then Samples(Children(members[0])) else []) + ValuesSamples(members[1..])
  }

  /** The millisecond value of the last "timestamp" member that is a
      number, if any. */
  function LastTimestamp(members: seq<Item>): Option<real>
  {
    if members == [] then None
    else
      var last := members[|members| - 1];
      if Named(last, "timestamp") && last.value.Number? then Some(last.value.valuedouble)
      else LastTimestamp(members[..|members| - 1])
  }

  /** An accepted body appends, after the caller's first `n` slots, the
      samples of its "values" members in order, and leaves the other slots
      as they were. */
  lemma {:induction false} PostDataAccepted(members: seq<Item>, denyFuture: bool, timestamp: int,
                                            n: nat, slots: seq<Sample>)
    requires n <= MAX_METRICS == |slots|
    requires PostDataFrom(members, denyFuture, timestamp, n, slots).rc == 0
    ensures var r := PostDataFrom(members, denyFuture, timestamp, n, slots);
      && r.n == n + |ValuesSamples(members)|
      && r.slots == slots[..n] + ValuesSamples(members) + slots[r.n..]
    decreases |members|
  {
    if members != [] {
      var m := members[0];
      var rest := members[1..];
      if Named(m, "timestamp") {
        PostDataAccepted(rest, denyFuture, MsToSeconds(m.value.valuedouble), n, slots);
      } else if Named(m, "values") {
        var v := AppendValues(Children(m), n, slots);
        AppendValuesSamples(Children(m), n, slots);
        PostDataAccepted(rest, denyFuture, timestamp, v.n, v.slots);
        var r := PostDataFrom(members, denyFuture, timestamp, n, slots);
        SpliceSamples(slots, v.slots, n, v.n, r.n, Samples(Children(m)), ValuesSamples(rest), r.slots);
      } else {
        PostDataAccepted(rest, denyFuture, timestamp, n, slots);
      }
    }
  }

  /** Writing `a` after the first `n` slots and then `b` after them is
      writing `a + b` after the first `n` slots. */
  lemma SpliceSamples(s0: seq<Sample>, s1: seq<Sample>, n: nat, n1: nat, n2: nat,
                      a: seq<Sample>, b: seq<Sample>, s2: seq<Sample>)
    requires n1 == n + |a| && n2 == n1 + |b| && n2 <= |s0|
    requires s1 == s0[..n] + a + s0[n1..]
    requires s2 == s1[..n1] + b + s1[n2..]
    ensures s2 == s0[..n] + (a + b) + s0[n2..]
  {
    assert s1[..n1] == s0[..n] + a;
    assert s1[n2..] == s0[n2..];
  }

  /** An accepted body carries the timestamp of its last numeric
      "timestamp" member, converted to seconds, or else the default. */
  lemma {:induction false} PostDataTimestamp(members: seq<Item>, denyFuture: bool, timestamp: int,
                                             n: nat, slots: seq<Sample>)
    requires n <= MAX_METRICS == |slots|
    requires PostDataFrom(members, denyFuture, timestamp, n, slots).rc == 0
    ensures PostDataFrom(members, denyFuture, timestamp, n, slots).timestamp
         == match LastTimestamp(members)
            case Some(ms) => MsToSeconds(ms)
            case None => timestamp
    decreases |members|
  {
    if members != [] {
      var m := members[0];
      var rest := members[1..];
      LastTimestampCons(m, rest);
      assert [m] + rest == members;
      if Named(m, "timestamp") {
        PostDataTimestamp(rest, denyFuture, MsToSeconds(m.value.valuedouble), n, slots);
      } else if Named(m, "values") {
        var v := AppendValues(Children(m), n, slots);
        PostDataTimestamp(rest, denyFuture, timestamp, v.n, v.slots);
      } else {
        PostDataTimestamp(rest, denyFuture, timestamp, n, slots);
      }
    }
  }

  /** How LastTimestamp sees a member put in front of a list. */
  lemma {:induction false} LastTimestampCons(m: Item, rest: seq<Item>)
    ensures LastTimestamp([m] + rest) ==
      if LastTimestamp(rest).Some? then LastTimestamp(rest)
      else if Named(m, "timestamp") && m.value.Number? then Some(m.value.valuedouble)
      else None
    decreases |rest|
  {
    if rest != [] {
      var all := [m] + rest;
      assert all[..|all| - 1] == [m] + rest[..|rest| - 1];
      assert all[|all| - 1] == rest[|rest| - 1];
      LastTimestampCons(m, rest[..|rest| - 1]);
    }
  }

  /** post_values_data_parser: walks the members of `json`; `timestamp0`
      is the caller's default timestamp. */
  method ParsePostData(json: Item, denyFuture: bool, timestamp0: int, values: array<Sample>)
    returns (rc: int, timestamp: int, n: nat)
    requires values.Length == MAX_METRICS
    modifies values
    ensures PostData(json, denyFuture, timestamp0, old(values[..])) == PostState(rc, timestamp, n, values[..])
  {
    var members := Children(json);
    timestamp := timestamp0;
    n := 0;
    var i := 0;
    while i < |members|
      invariant 0 <= i <= |members| && n <= MAX_METRICS
      invariant PostDataFrom(members[i..], denyFuture, timestamp, n, values[..])
             == PostDataFrom(members, denyFuture, timestamp0, 0, old(values[..]))
    {
      assert members[i..][1..] == members[i + 1..];
      var m := members[i];
      if m.name.Some? {
        if m.name.value == "timestamp" {
          if !m.value.Number? {
            return -EINVAL, timestamp, n;
          }
          if denyFuture && m.value.valuedouble / 1000.0 > timestamp as real {
            return -EACCES, timestamp, n;
          }
          timestamp := MsToSeconds(m.value.valuedouble);
        } else if m.name.value == "values" {
          var vrc;
          vrc, n := ParseValueArray(m, n, values);
          if vrc < 0 {
            return -EINVAL, timestamp, n;
          }
        }
      }
      i := i + 1;
    }
    assert members[i..] == [];
    rc := 0;
  }

  // ---------------------------------------------------------------------
  // Settings chosen by the last member of a name

  /** The integer value of the last member named `key` that is a
      non-negative number, or `default` when there is none. */
  function LastSetting(members: seq<Item>, key: string, default: nat): nat
  {
    if members == [] then default
    else
      var last := members[|members| - 1];
      if Named(last, key) && last.value.Number? && last.value.valueint >= 0 then last.value.valueint
      else LastSetting(members[..|members| - 1], key, default)
  }

  /** The setting a single member leaves when it comes after `default`. */
  function SettingOf(m: Item, key: string, default: nat): nat
  {
    if Named(m, key) && m.value.Number? && m.value.valueint >= 0 then m.value.valueint else default
  }

  /** Reading the members front to back, each one may replace the setting
      carried so far: the last one wins. */
  lemma {:induction false} LastSettingCons(m: Item, rest: seq<Item>, key: string, default: nat)
    ensures LastSetting([m] + rest, key, default) == LastSetting(rest, key, SettingOf(m, key, default))
    decreases |rest|
  {
    if rest != [] {
      var all := [m] + rest;
      assert all[..|all| - 1] == [m] + rest[..|rest| - 1];
      assert all[|all| - 1] == rest[|rest| - 1];
      LastSettingCons(m, rest[..|rest| - 1], key, default);
    } else {
      assert ([m] + rest)[..0] == [];
    }
  }

  /** When every member named `key` is a number in 0 .. max, so is the
      setting (given a default in range). */
  lemma {:induction false} LastSettingInRange(members: seq<Item>, key: string, default: nat, max: int)
    requires default <= max
    requires forall j :: 0 <= j < |members| && Named(members[j], key) ==>
      members[j].value.Number? && 0 <= members[j].value.valueint <= max
    ensures LastSetting(members, key, default) <= max
    decreases |members|
  {
    if members != [] {
      var prefix := members[..|members| - 1];
      assert forall j :: 0 <= j < |prefix| ==> prefix[j] == members[j];
      LastSettingInRange(prefix, key, default, max);
    }
  }

  // ---------------------------------------------------------------------
  // The metric definitions of a node definition

  /** Return code, metric count and the pad-mode and downsample-mode slots
      after a metrics walk. */
  datatype MetricsState = MetricsState(rc: int, n: nat, pads: seq<nat>, dss: seq<nat>)

  /** A mode member is a number whose integer value is in 0 .. max. */
  predicate ModeInRange(it: Item, max: int)
  {
    it.value.Number? && 0 <= it.value.valueint <= max
  }

  /** Every "pad_mode" and "downsample_mode" member of one metric
      definition is a number in its range. */
  predicate OptionsValid(opts: seq<Item>)
  {
    forall j :: 0 <= j < |opts| ==>
      && (Named(opts[j], "pad_mode") ==> ModeInRange(opts[j], MAX_PAD_MODE))
      && (Named(opts[j], "downsample_mode") ==> ModeInRange(opts[j], MAX_DOWNSAMPLE_MODE))
  }

  /** The inner walk over the members of the definition of metric `k`:
      unnamed and unknown members are skipped; a "pad_mode" or
      "downsample_mode" that is not a number in range is -EINVAL, one that
      is sets slot `k`. */
  function ApplyOptions(opts: seq<Item>, k: nat, pads: seq<nat>, dss: seq<nat>): (r: MetricsState)
    requires k < |pads| == |dss|
    ensures r.n == k && |r.pads| == |pads| && |r.dss| == |dss|
    ensures r.rc == 0 || r.rc == -EINVAL
    decreases |opts|
  {
    if opts == [] then MetricsState(0, k, pads, dss)
    else
      var o := opts[0];
      if Named(o, "pad_mode") then
        if !ModeInRange(o, MAX_PAD_MODE) then MetricsState(-EINVAL, k, pads, dss)
        else ApplyOptions(opts[1..], k, pads[k := o.value.valueint], dss)
      else if Named(o, "downsample_mode") then
        if !ModeInRange(o, MAX_DOWNSAMPLE_MODE) then MetricsState(-EINVAL, k, pads, dss)
        else ApplyOptions(opts[1..], k, pads, dss[k := o.value.valueint])
      else ApplyOptions(opts[1..], k, pads, dss)
  }

  /** The options of one metric are accepted exactly when they are valid;
      then slot `k` holds the last pad and downsample settings (the slot's
      previous value when there is none) and no other slot changes. */
  lemma {:induction false} ApplyOptionsResult(opts: seq<Item>, k: nat, pads: seq<nat>, dss: seq<nat>)
    requires k < |pads| == |dss|
    ensures var r := ApplyOptions(opts, k, pads, dss);
      && (r.rc == 0 <==> OptionsValid(opts))
      && (r.rc == 0 ==>
            && r.pads == pads[k := LastSetting(opts, "pad_mode", pads[k])]
            && r.dss == dss[k := LastSetting(opts, "downsample_mode", dss[k])])
  {
    if opts == [] {
    } else {
      var o := opts[0];
      var rest := opts[1..];
      assert opts == [o] + rest;
      LastSettingCons(o, rest, "pad_mode", pads[k]);
      LastSettingCons(o, rest, "downsample_mode", dss[k]);
      assert forall j :: 1 <= j < |opts| ==> opts[j] == rest[j - 1];
      if Named(o, "pad_mode") {
        if ModeInRange(o, MAX_PAD_MODE) {
          ApplyOptionsResult(rest, k, pads[k := o.value.valueint], dss);
        }
      } else if Named(o, "downsample_mode") {
        if ModeInRange(o, MAX_DOWNSAMPLE_MODE) {
          ApplyOptionsResult(rest, k, pads, dss[k := o.value.valueint]);
        }
      } else {
        ApplyOptionsResult(rest, k, pads, dss);
      }
    }
  }

  /** The walk of the metrics parser over the metric definitions from slot
      `n` on: -EINVAL when the slots are full and a definition remains;
      otherwise the slot gets the defaults (pad Unknown, downsample Mean),
      then the definition's own settings. */
  function DefineMetrics(defs: seq<Item>, n: nat, pads: seq<nat>, dss: seq<nat>): (r: MetricsState)
    requires n <= MAX_METRICS == |pads| == |dss|
    ensures n <= r.n <= MAX_METRICS && |r.pads| == |r.dss| == MAX_METRICS
    ensures r.rc == 0 || r.rc == -EINVAL
    decreases |defs|
  {
    if defs == [] then MetricsState(0, n, pads, dss)
    else if n == MAX_METRICS then MetricsState(-EINVAL, n, pads, dss)
    else
      var o := ApplyOptions(Children(defs[0]), n, pads[n := PAD_UNKNOWN], dss[n := DOWNSAMPLE_MEAN]);
      if o.rc != 0 then MetricsState(-EINVAL, n, o.pads, o.dss)
      else DefineMetrics(defs[1..], n + 1, o.pads, o.dss)
  }

  /** A metrics array is acceptable: it fits the slots and every definition
      is valid. */
  predicate MetricsValid(defs: seq<Item>, n: nat)
  {
    n + |defs| <= MAX_METRICS && forall k :: 0 <= k < |defs| ==> OptionsValid(Children(defs[k]))
  }

  /** The metrics parser accepts exactly the valid definitions. */
  lemma {:induction false} DefineMetricsAccepts(defs: seq<Item>, n: nat, pads: seq<nat>, dss: seq<nat>)
    requires n <= MAX_METRICS == |pads| == |dss|
    ensures DefineMetrics(defs, n, pads, dss).rc == 0 <==> MetricsValid(defs, n)
    decreases |defs|
  {
    if defs != [] && n < MAX_METRICS {
      var o := ApplyOptions(Children(defs[0]), n, pads[n := PAD_UNKNOWN], dss[n := DOWNSAMPLE_MEAN]);
      ApplyOptionsResult(Children(defs[0]), n, pads[n := PAD_UNKNOWN], dss[n := DOWNSAMPLE_MEAN]);
      if o.rc == 0 {
        DefineMetricsAccepts(defs[1..], n + 1, o.pads, o.dss);
        assert forall k :: 1 <= k < |defs| ==> defs[k] == defs[1..][k - 1];
      }
    } else if defs != [] {
      assert !MetricsValid(defs, n);
    }
  }

  /** An accepted metrics array defines one metric per definition and
      changes no slot outside them. */
  lemma {:induction false} DefineMetricsSlots(defs: seq<Item>, n: nat, pads: seq<nat>, dss: seq<nat>)
    requires n <= MAX_METRICS == |pads| == |dss|
    requires DefineMetrics(defs, n, pads, dss).rc == 0
    ensures var r := DefineMetrics(defs, n, pads, dss);
      && r.n == n + |defs|
      && r.pads[..n] == pads[..n] && r.dss[..n] == dss[..n]
      && r.pads[r.n..] == pads[r.n..] && r.dss[r.n..] == dss[r.n..]
    decreases |defs|
  {
    if defs != [] {
      var opts := Children(defs[0]);
      var p0, d0 := pads[n := PAD_UNKNOWN], dss[n := DOWNSAMPLE_MEAN];
      var o := ApplyOptions(opts, n, p0, d0);
      ApplyOptionsResult(opts, n, p0, d0);
      DefineMetricsSlots(defs[1..], n + 1, o.pads, o.dss);
      var r := DefineMetrics(defs, n, pads, dss);
      assert r.pads[..n + 1][..n] == r.pads[..n];
      assert r.dss[..n + 1][..n] == r.dss[..n];
    }
  }

  /** In an accepted metrics array, each definition's metric has its last
      pad and downsample settings, or the defaults. */
  lemma {:induction false} DefineMetricsSettings(defs: seq<Item>, n: nat, pads: seq<nat>, dss: seq<nat>)
    requires n <= MAX_METRICS == |pads| == |dss|
    requires DefineMetrics(defs, n, pads, dss).rc == 0
    ensures var r := DefineMetrics(defs, n, pads, dss);
      forall k :: 0 <= k < |defs| ==>
        && n + k < MAX_METRICS
        && r.pads[n + k] == LastSetting(Children(defs[k]), "pad_mode", PAD_UNKNOWN)
        && r.dss[n + k] == LastSetting(Children(defs[k]), "downsample_mode", DOWNSAMPLE_MEAN)
    decreases |defs|
  {
    if defs != [] {
      var opts := Children(defs[0]);
      var p0, d0 := pads[n := PAD_UNKNOWN], dss[n := DOWNSAMPLE_MEAN];
      var o := ApplyOptions(opts, n, p0, d0);
      ApplyOptionsResult(opts, n, p0, d0);
      DefineMetricsSlots(defs[1..], n + 1, o.pads, o.dss);
      DefineMetricsSettings(defs[1..], n + 1, o.pads, o.dss);
      var r := DefineMetrics(defs, n, pads, dss);
      assert r.pads[..n + 1][n] == r.pads[n] && r.dss[..n + 1][n] == r.dss[n];
      forall k | 0 <= k < |defs|
        ensures n + k < MAX_METRICS
        ensures r.pads[n + k] == LastSetting(Children(defs[k]), "pad_mode", PAD_UNKNOWN)
        ensures r.dss[n + k] == LastSetting(Children(defs[k]), "downsample_mode", DOWNSAMPLE_MEAN)
      {
        if k > 0 {
          assert defs[k] == defs[1..][k - 1];
          assert n + k == (n + 1) + (k - 1);
        }
      }
    }
  }

  /** Every metric an accepted metrics array defines has modes in range. */
  lemma DefineMetricsInRange(defs: seq<Item>, n: nat, pads: seq<nat>, dss: seq<nat>)
    requires n <= MAX_METRICS == |pads| == |dss|
    requires DefineMetrics(defs, n, pads, dss).rc == 0
    ensures var r := DefineMetrics(defs, n, pads, dss);
      forall k :: n <= k < r.n ==> r.pads[k] <= MAX_PAD_MODE && r.dss[k] <= MAX_DOWNSAMPLE_MODE
  {
    DefineMetricsAccepts(defs, n, pads, dss);
    DefineMetricsSlots(defs, n, pads, dss);
    DefineMetricsSettings(defs, n, pads, dss);
    var r := DefineMetrics(defs, n, pads, dss);
    forall k | 0 <= k < |defs|
      ensures LastSetting(Children(defs[k]), "pad_mode", PAD_UNKNOWN) <= MAX_PAD_MODE
      ensures LastSetting(Children(defs[k]), "downsample_mode", DOWNSAMPLE_MEAN) <= MAX_DOWNSAMPLE_MODE
    {
      var opts := Children(defs[k]);
      assert OptionsValid(opts);
      LastSettingInRange(opts, "pad_mode", PAD_UNKNOWN, MAX_PAD_MODE);
      LastSettingInRange(opts, "downsample_mode", DOWNSAMPLE_MEAN, MAX_DOWNSAMPLE_MODE);
    }
    forall k | n <= k < r.n
      ensures r.pads[k] <= MAX_PAD_MODE && r.dss[k] <= MAX_DOWNSAMPLE_MODE
    {
      assert k == n + (k - n);
    }
  }

  /** The inner loop of put_node_metrics_parser over the members of the
      definition of metric `k`. */
  method ParseMetricOptions(def: Item, k: nat, pads: array<nat>, dss: array<nat>) returns (rc: int)
    requires k < pads.Length == dss.Length && pads != dss
    modifies pads, dss
    ensures ApplyOptions(Children(def), k, old(pads[..]), old(dss[..])) == MetricsState(rc, k, pads[..], dss[..])
  {
    var opts := Children(def);
    var i := 0;
    while i < |opts|
      invariant 0 <= i <= |opts|
      invariant ApplyOptions(opts[i..], k, pads[..], dss[..]) == ApplyOptions(opts, k, old(pads[..]), old(dss[..]))
    {
      assert opts[i..][1..] == opts[i + 1..];
      var o := opts[i];
      if o.name.Some? {
        if o.name.value == "pad_mode" {
          if !o.value.Number? {
            return -EINVAL;
          }
          if o.value.valueint < 0 || o.value.valueint > MAX_PAD_MODE {
            return -EINVAL;
          }
          pads[k] := o.value.valueint;
        } else if o.name.value == "downsample_mode" {
          if !o.value.Number? {
            return -EINVAL;
          }
          if o.value.valueint < 0 || o.value.valueint > MAX_DOWNSAMPLE_MODE {
            return -EINVAL;
          }
          dss[k] := o.value.valueint;
        }
      }
      i := i + 1;
    }
    assert opts[i..] == [];
    rc := 0;
  }

  /** put_node_metrics_parser: walks the metric definitions of `json`,
      counting from zero. */
  method ParseMetrics(json: Item, pads: array<nat>, dss: array<nat>) returns (rc: int, n: nat)
    requires pads.Length == dss.Length == MAX_METRICS && pads != dss
    modifies pads, dss
    ensures DefineMetrics(Children(json), 0, old(pads[..]), old(dss[..])) == MetricsState(rc, n, pads[..], dss[..])
  {
    var defs := Children(json);
    n := 0;
    var i := 0;
    while i < |defs|
      invariant 0 <= i <= |defs| && n <= MAX_METRICS
      invariant DefineMetrics(defs[i..], n, pads[..], dss[..]) == DefineMetrics(defs, 0, old(pads[..]), old(dss[..]))
    {
      assert defs[i..][1..] == defs[i + 1..];
      if n == MAX_METRICS {
        return -EINVAL, n;
      }
      pads[n] := PAD_UNKNOWN;
      dss[n] := DOWNSAMPLE_MEAN;
      var orc := ParseMetricOptions(defs[i], n, pads, dss);
      if orc != 0 {
        return -EINVAL, n;
      }
      n := n + 1;
      i := i + 1;
    }
    assert defs[i..] == [];
    rc := 0;
  }

  // ---------------------------------------------------------------------
  // The decimation ladder of a node definition

  /** Return code and decimation slots after a ladder walk. */
  datatype LadderState = LadderState(rc: int, slots: seq<nat>)

  /** The walk of the decimation parser over `items`, writing from slot `k`
      on: -EINVAL when all layers are taken and an item remains, and for an
      item that is not a number or is negative; zero is accepted. */
  function ParseLadderFrom(items: seq<Item>, k: nat, slots: seq<nat>): (r: LadderState)
    requires k <= MAX_LAYERS == |slots|
    ensures |r.slots| == MAX_LAYERS && (r.rc == 0 || r.rc == -EINVAL)
    decreases |items|
  {
    if items == [] then LadderState(0, slots)
    else if k == MAX_LAYERS then LadderState(-EINVAL, slots)
    else if !items[0].value.Number? then LadderState(-EINVAL, slots)
    else if items[0].value.valueint < 0 then LadderState(-EINVAL, slots)
    else ParseLadderFrom(items[1..], k + 1, slots[k := items[0].value.valueint])
  }

  /** A decimation array is acceptable: at most the layers left, every
      entry a non-negative number. */
  predicate LadderValid(items: seq<Item>, k: nat)
  {
    k + |items| <= MAX_LAYERS &&
    forall j :: 0 <= j < |items| ==> items[j].value.Number? && items[j].value.valueint >= 0
  }

  /** The decimation parser accepts exactly the valid arrays; then it writes
      the entries in input order from slot `k` and leaves every other slot
      as it was. */
  lemma {:induction false} ParseLadderResult(items: seq<Item>, k: nat, slots: seq<nat>)
    requires k <= MAX_LAYERS == |slots|
    ensures var r := ParseLadderFrom(items, k, slots);
      && (r.rc == 0 <==> LadderValid(items, k))
      && (r.rc == 0 ==>
            && r.slots[..k] == slots[..k]
            && r.slots[k + |items|..] == slots[k + |items|..]
            && forall j :: 0 <= j < |items| ==> r.slots[k + j] == items[j].value.valueint)
  {
    if items != [] && k < MAX_LAYERS && items[0].value.Number? && items[0].value.valueint >= 0 {
      var s := slots[k := items[0].value.valueint];
      ParseLadderResult(items[1..], k + 1, s);
      assert forall j :: 1 <= j < |items| ==> items[j] == items[1..][j - 1];
      var r := ParseLadderFrom(items, k, slots);
      if r.rc == 0 {
        assert r.slots[..k + 1][..k] == r.slots[..k];
        forall j | 1 <= j < |items| ensures r.slots[k + j] == items[j].value.valueint {
          assert k + j == (k + 1) + (j - 1);
        }
      }
    }
  }

  /** put_node_decimation_parser: walks the array `json`, always writing from
      the first layer. */
  method ParseDecimation(json: Item, decimation: array<nat>) returns (rc: int)
    requires decimation.Length == MAX_LAYERS
    modifies decimation
    ensures ParseLadderFrom(Children(json), 0, old(decimation[..])) == LadderState(rc, decimation[..])
  {
    var items := Children(json);
    var ndecimation := 0;
    var i := 0;
    while i < |items|
      invariant 0 <= i <= |items| && ndecimation <= MAX_LAYERS
      invariant ParseLadderFrom(items[i..], ndecimation, decimation[..]) == ParseLadderFrom(items, 0, old(decimation[..]))
    {
      assert items[i..][1..] == items[i + 1..];
      if ndecimation == MAX_LAYERS {
        return -EINVAL;
      }
      match items[i].value {
        case Number(vi, _) =>
          if vi < 0 {
            return -EINVAL;
          }
          decimation[ndecimation] := vi;
          ndecimation := ndecimation + 1;
        case _ =>
          return -EINVAL;
      }
      i := i + 1;
    }
    assert items[i..] == [];
    rc := 0;
  }

  // ---------------------------------------------------------------------
  // The body of a node definition

  /** The settings a node definition collects: interval, metric count and
      the pad-mode, downsample-mode and decimation slots. */
  datatype NodeDef = NodeDef(interval: nat, nmetrics: nat, pads: seq<nat>, dss: seq<nat>, decimation: seq<nat>)
  {
    predicate Shaped()
    {
      nmetrics <= MAX_METRICS && |pads| == |dss| == MAX_METRICS && |decimation| == MAX_LAYERS
    }
  }

  datatype NodeState = NodeState(rc: int, def: NodeDef)

  /** The walk of the node-definition parser: unnamed and unknown members
      are skipped; an "interval" that is not a non-negative number is
      -EINVAL, one that is sets the interval; a "decimation" or "metrics"
      member is handed to its parser, whose failure is -EINVAL. */
  function NodeDataFrom(members: seq<Item>, d: NodeDef): (r: NodeState)
    requires d.Shaped()
    ensures r.def.Shaped()
    ensures r.rc == 0 || r.rc == -EINVAL
    decreases |members|
  {
    if members == [] then NodeState(0, d)
    else
      var m := members[0];
      if Named(m, "interval") then
        if !m.value.Number? then NodeState(-EINVAL, d)
        else if m.value.valueint < 0 then NodeState(-EINVAL, d)
        else NodeDataFrom(members[1..], d.(interval := m.value.valueint))
      else if Named(m, "decimation") then
        var l := ParseLadderFrom(Children(m), 0, d.decimation);
        if l.rc < 0 then NodeState(-EINVAL, d.(decimation := l.slots))
        else NodeDataFrom(members[1..], d.(decimation := l.slots))
      else if Named(m, "metrics") then
        var ms := DefineMetrics(Children(m), 0, d.pads, d.dss);
        if ms.rc < 0 then NodeState(-EINVAL, d.(nmetrics := ms.n, pads := ms.pads, dss := ms.dss))
        else NodeDataFrom(members[1..], d.(nmetrics := ms.n, pads := ms.pads, dss := ms.dss))
      else NodeDataFrom(members[1..], d)
  }

  /** One member of a node definition is acceptable. */
  predicate NodeMemberValid(m: Item)
  {
    && (Named(m, "interval") ==> m.value.Number? && m.value.valueint >= 0)
    && (Named(m, "decimation") ==> LadderValid(Children(m), 0))
    && (Named(m, "metrics") ==> MetricsValid(Children(m), 0))
  }

  /** The last member called `name`, if any. */
  function LastMember(members: seq<Item>, name: string): (r: Option<Item>)
    ensures r.Some? ==> r.value in members && Named(r.value, name)
  {
    if members == [] then None
    else if Named(members[|members| - 1], name) then Some(members[|members| - 1])
    else LastMember(members[..|members| - 1], name)
  }

  /** The metric count the last "metrics" member defines, or `default`. */
  function LastMetricsCount(members: seq<Item>, default: nat): nat
  {
    match LastMember(members, "metrics")
    case Some(m) => |Children(m)|
    case None => default
  }

  /** The node-definition parser accepts exactly the bodies whose members
      are all acceptable; then the interval is the last "interval" member's
      value and the metric count is the size of the last "metrics" array (the
      caller's values when there is none). */
  lemma {:induction false} NodeDataResult(members: seq<Item>, d: NodeDef)
    requires d.Shaped()
    ensures var r := NodeDataFrom(members, d);
      && (r.rc == 0 <==> forall k :: 0 <= k < |members| ==> NodeMemberValid(members[k]))
      && (r.rc == 0 ==>
            && r.def.interval == LastSetting(members, "interval", d.interval)
            && r.def.nmetrics == LastMetricsCount(members, d.nmetrics))
  {
    if members != [] {
      var m := members[0];
      var rest := members[1..];
      assert members == [m] + rest;
      assert forall k :: 1 <= k < |members| ==> members[k] == rest[k - 1];
      LastSettingCons(m, rest, "interval", d.interval);
      LastMemberCons(m, rest, "metrics");
      if Named(m, "interval") {
        if m.value.Number? && m.value.valueint >= 0 {
          NodeDataResult(rest, d.(interval := m.value.valueint));
        }
      } else if Named(m, "decimation") {
        var l := ParseLadderFrom(Children(m), 0, d.decimation);
        ParseLadderResult(Children(m), 0, d.decimation);
        if l.rc >= 0 {
          NodeDataResult(rest, d.(decimation := l.slots));
        }
      } else if Named(m, "metrics") {
        var ms := DefineMetrics(Children(m), 0, d.pads, d.dss);
        DefineMetricsAccepts(Children(m), 0, d.pads, d.dss);
        if ms.rc >= 0 {
          DefineMetricsSlots(Children(m), 0, d.pads, d.dss);
          NodeDataResult(rest, d.(nmetrics := ms.n, pads := ms.pads, dss := ms.dss));
        }
      } else {
        NodeDataResult(rest, d);
      }
    }
  }

  /** The first `nmetrics` mode slots of a definition hold modes in range. */
  predicate ModesInRange(d: NodeDef)
    requires d.Shaped()
  {
    forall k :: 0 <= k < d.nmetrics ==> d.pads[k] <= MAX_PAD_MODE && d.dss[k] <= MAX_DOWNSAMPLE_MODE
  }

  /** An accepted node definition defines only metrics whose modes are in
      range, when the caller's first slots were. */
  lemma {:induction false} NodeDataModesInRange(members: seq<Item>, d: NodeDef)
    requires d.Shaped() && ModesInRange(d)
    ensures var r := NodeDataFrom(members, d); r.rc == 0 ==> ModesInRange(r.def)
    decreases |members|
  {
    if members != [] {
      var m := members[0];
      if Named(m, "interval") {
        if m.value.Number? && m.value.valueint >= 0 {
          NodeDataModesInRange(members[1..], d.(interval := m.value.valueint));
        }
      } else if Named(m, "decimation") {
        var l := ParseLadderFrom(Children(m), 0, d.decimation);
        if l.rc >= 0 {
          NodeDataModesInRange(members[1..], d.(decimation := l.slots));
        }
      } else if Named(m, "metrics") {
        var ms := DefineMetrics(Children(m), 0, d.pads, d.dss);
        if ms.rc >= 0 {
          DefineMetricsSlots(Children(m), 0, d.pads, d.dss);
          DefineMetricsInRange(Children(m), 0, d.pads, d.dss);
          NodeDataModesInRange(members[1..], d.(nmetrics := ms.n, pads := ms.pads, dss := ms.dss));
        }
      } else {
        NodeDataModesInRange(members[1..], d);
      }
    }
  }

  /** How LastMember sees a member put in front of a list: it counts only
      when the rest has no member of that name. */
  lemma {:induction false} LastMemberCons(m: Item, rest: seq<Item>, name: string)
    ensures LastMember([m] + rest, name)
         == if LastMember(rest, name).Some? then LastMember(rest, name)
            else if Named(m, name) then Some(m) else None
    decreases |rest|
  {
    if rest != [] {
      var all := [m] + rest;
      assert all[..|all| - 1] == [m] + rest[..|rest| - 1];
      assert all[|all| - 1] == rest[|rest| - 1];
      LastMemberCons(m, rest[..|rest| - 1], name);
    } else {
      assert ([m] + rest)[..0] == [];
    }
  }

  /** An accepted node definition defines the metrics of its last "metrics"
      array, one per definition in order, each with that definition's last
      pad and downsample settings or the defaults; without a "metrics"
      member the caller's count and mode slots are kept. */
  lemma {:induction false} NodeDataModes(members: seq<Item>, d: NodeDef)
    requires d.Shaped()
    requires NodeDataFrom(members, d).rc == 0
    ensures var r := NodeDataFrom(members, d);
      match LastMember(members, "metrics")
      case None => r.def.nmetrics == d.nmetrics && r.def.pads == d.pads && r.def.dss == d.dss
      case Some(ms) =>
        && r.def.nmetrics == |Children(ms)|
        && forall k :: 0 <= k < |Children(ms)| ==>
             && r.def.pads[k] == LastSetting(Children(Children(ms)[k]), "pad_mode", PAD_UNKNOWN)
             && r.def.dss[k] == LastSetting(Children(Children(ms)[k]), "downsample_mode", DOWNSAMPLE_MEAN)
    decreases |members|
  {
    if members != [] {
      var m := members[0];
      var rest := members[1..];
      assert members == [m] + rest;
      LastMemberCons(m, rest, "metrics");
      if Named(m, "interval") {
        NodeDataModes(rest, d.(interval := m.value.valueint));
      } else if Named(m, "decimation") {
        NodeDataModes(rest, d.(decimation := ParseLadderFrom(Children(m), 0, d.decimation).slots));
      } else if Named(m, "metrics") {
        var defs := Children(m);
        var ms := DefineMetrics(defs, 0, d.pads, d.dss);
        DefineMetricsSlots(defs, 0, d.pads, d.dss);
        DefineMetricsSettings(defs, 0, d.pads, d.dss);
        NodeDataModes(rest, d.(nmetrics := ms.n, pads := ms.pads, dss := ms.dss));
        forall k | 0 <= k < |defs|
          ensures ms.pads[k] == LastSetting(Children(defs[k]), "pad_mode", PAD_UNKNOWN)
          ensures ms.dss[k] == LastSetting(Children(defs[k]), "downsample_mode", DOWNSAMPLE_MEAN)
        {
          assert k == 0 + k;
        }
      } else {
        NodeDataModes(rest, d);
      }
    }
  }

  /** The ladder entries an accepted decimation array denotes. */
  function Entries(items: seq<Item>): (r: seq<nat>)
    ensures |r| == |items|
  {
    seq(|items|, k requires 0 <= k < |items| =>
      if items[k].value.Number? && items[k].value.valueint >= 0 then items[k].value.valueint as nat else 0)
  }

  /** `vals` written over the first slots of `slots`, cut to its length. */
  function Overlay(vals: seq<nat>, slots: seq<nat>): (r: seq<nat>)
    ensures |r| == |slots|
    ensures forall j :: 0 <= j < |r| ==> r[j] == if j < |vals| then vals[j] else slots[j]
  {
    if |vals| <= |slots| then vals + slots[|vals|..] else vals[..|slots|]
  }

  /** The ladder after each "decimation" member in turn is written over
      the previous one from the first layer; a shorter later array leaves
      the earlier array's higher layers in place. */
  function LadderAfter(members: seq<Item>, slots: seq<nat>): (r: seq<nat>)
    ensures |r| == |slots|
  {
    if members == [] then slots
    else LadderAfter(members[1..],
                     if Named(members[0], "decimation") then Overlay(Entries(Children(members[0])), slots) else slots)
  }

  /** An accepted decimation array is its entries written over the slots. */
  lemma LadderOverlay(items: seq<Item>, slots: seq<nat>)
    requires |slots| == MAX_LAYERS
    requires ParseLadderFrom(items, 0, slots).rc == 0
    ensures ParseLadderFrom(items, 0, slots).slots == Overlay(Entries(items), slots)
  {
    ParseLadderResult(items, 0, slots);
    var r := ParseLadderFrom(items, 0, slots);
    forall j | 0 <= j < MAX_LAYERS
      ensures r.slots[j] == Overlay(Entries(items), slots)[j]
    {
      if j < |items| {
        assert r.slots[0 + j] == items[j].value.valueint;
      } else {
        assert r.slots[j] == r.slots[|items|..][j - |items|];
      }
    }
  }

  /** An accepted node definition carries the ladder its "decimation"
      members write, in member order, over the caller's ladder. */
  lemma {:induction false} NodeDataLadder(members: seq<Item>, d: NodeDef)
    requires d.Shaped()
    requires NodeDataFrom(members, d).rc == 0
    ensures NodeDataFrom(members, d).def.decimation == LadderAfter(members, d.decimation)
    decreases |members|
  {
    if members != [] {
      var m := members[0];
      var rest := members[1..];
      if Named(m, "interval") {
        NodeDataLadder(rest, d.(interval := m.value.valueint));
      } else if Named(m, "decimation") {
        var l := ParseLadderFrom(Children(m), 0, d.decimation);
        LadderOverlay(Children(m), d.decimation);
        NodeDataLadder(rest, d.(decimation := l.slots));
      } else if Named(m, "metrics") {
        var ms := DefineMetrics(Children(m), 0, d.pads, d.dss);
        NodeDataLadder(rest, d.(nmetrics := ms.n, pads := ms.pads, dss := ms.dss));
      } else {
        NodeDataLadder(rest, d);
      }
    }
  }

  /** put_node_data_parser: walks the members of `json`, starting from the
      caller's interval and metric count. */
  method ParseNodeData(json: Item, interval0: nat, nmetrics0: nat,
                       pads: array<nat>, dss: array<nat>, decimation: array<nat>)
    returns (rc: int, interval: nat, nmetrics: nat)
    requires nmetrics0 <= MAX_METRICS && pads.Length == dss.Length == MAX_METRICS
    requires decimation.Length == MAX_LAYERS
    requires pads != dss && pads != decimation && dss != decimation
    modifies pads, dss, decimation
    ensures NodeDataFrom(Children(json), NodeDef(interval0, nmetrics0, old(pads[..]), old(dss[..]), old(decimation[..])))
         == NodeState(rc, NodeDef(interval, nmetrics, pads[..], dss[..], decimation[..]))
  {
    var members := Children(json);
    interval, nmetrics := interval0, nmetrics0;
    var i := 0;
    while i < |members|
      invariant 0 <= i <= |members| && nmetrics <= MAX_METRICS
      invariant NodeDataFrom(members[i..], NodeDef(interval, nmetrics, pads[..], dss[..], decimation[..]))
             == NodeDataFrom(members, NodeDef(interval0, nmetrics0, old(pads[..]), old(dss[..]), old(decimation[..])))
    {
      assert members[i..][1..] == members[i + 1..];
      var m := members[i];
      if m.name.Some? {
        if m.name.value == "interval" {
          if !m.value.Number? {
            return -EINVAL, interval, nmetrics;
          }
          if m.value.valueint < 0 {
            return -EINVAL, interval, nmetrics;
          }
          interval := m.value.valueint;
        } else if m.name.value == "decimation" {
          var drc := ParseDecimation(m, decimation);
          if drc < 0 {
            return -EINVAL, interval, nmetrics;
          }
        } else if m.name.value == "metrics" {
          var mrc;
          mrc, nmetrics := ParseMetrics(m, pads, dss);
          if mrc < 0 {
            return -EINVAL, interval, nmetrics;
          }
        }
      }
      i := i + 1;
    }
    assert members[i..] == [];
    rc := 0;
  }

  // ---------------------------------------------------------------------
  // The body of a key update

  /** Every member named "key" is a string. */
  predicate KeyBodyValid(members: seq<Item>)
  {
    forall k :: 0 <= k < |members| && Named(members[k], "key") ==> members[k].value.Str?
  }

  /** The string of the last "key" member that is a string, or `default`. */
  function LastKeyString(members: seq<Item>, default: Option<string>): Option<string>
  {
    if members == [] then default
    else
      var last := members[|members| - 1];
      if Named(last, "key") && last.value.Str? then Some(last.value.text)
      else LastKeyString(members[..|members| - 1], default)
  }

  /** put_key_data_parser: walks the members of `json`; `key0` is the
      caller's key string (NULL when it has none). A "key" member that is
      not a string is -EINVAL; otherwise the last one gives the key. */
  method ParseKeyData(json: Item, key0: Option<string>) returns (rc: int, key: Option<string>)
    ensures rc == 0 || rc == -EINVAL
    ensures rc == 0 <==> KeyBodyValid(Children(json))
    ensures rc == 0 ==> key == LastKeyString(Children(json), key0)
  {
    var members := Children(json);
    key := key0;
    var i := 0;
    while i < |members|
      invariant 0 <= i <= |members|
      invariant KeyBodyValid(members[..i])
      invariant key == LastKeyString(members[..i], key0)
    {
      var m := members[i];
      assert members[..i + 1][..i] == members[..i];
      if m.name.Some? && m.name.value == "key" {
        if !m.value.Str? {
          assert !KeyBodyValid(members) by { assert Named(members[i], "key"); }
          return -EINVAL, key;
        }
        key := Some(m.value.text);
      }
      i := i + 1;
    }
    assert members[..i] == members;
    rc := 0;
  }
}
