/** The older variant of the HTTP front end. It has the same value and body
    parsers, except that the body parser compares every member's name
    without first checking that the member has one; its node handlers are
    stubs; and it makes no signature checks. */
module LegacyHttpTsdb {

  import opened Wrappers
  import opened Json
  import opened Tsdb
  import opened HttpTsdbParsers
  import opened HttpTsdbHelpers
  import opened HttpTsdbHandlers

  // ---------------------------------------------------------------------
  // Parsers

  /** post_values_value_parser of the older variant: the same walk as the
      newer one, with the count incremented in the store. */
  method ParseValueArray(json: Item, n0: nat, values: array<Sample>) returns (rc: int, n: nat)
    requires values.Length == MAX_METRICS && n0 <= MAX_METRICS
    modifies values
    ensures AppendValues(Children(json), n0, old(values[..])) == ValuesState(rc, n, values[..])
  {
    var items := Children(json);
    var i := 0;
    n := n0;
    while i < |items|
      invariant 0 <= i <= |items| && n0 <= n <= MAX_METRICS
      invariant AppendValues(items[i..], n, values[..]) == AppendValues(items, n0, old(values[..]))
    {
      assert items[i..][1..] == items[i + 1..];
      if n == MAX_METRICS {
        return -EINVAL, n;
      }
      var item := items[i];
      if item.value.Null? {
        values[n], n := Missing, n + 1;
      } else if item.value.Number? {
        values[n], n := Value(item.value.valuedouble), n + 1;
      } else {
        return -EINVAL, n;
      }
      i := i + 1;
    }
    assert items[i..] == [];
    rc := 0;
  }

  /** The walk of the older body parser: as the newer one, except that a
      member without a name is dereferenced, which faults (None). */
  function PostDataFromAsWritten(members: seq<Item>, denyFuture: bool, timestamp: int, n: nat,
                                 slots: seq<Sample>): (r: Option<PostState>)
    requires n <= MAX_METRICS == |slots|
    ensures r.Some? ==> r.value.n <= MAX_METRICS && |r.value.slots| == MAX_METRICS
    decreases |members|
  {
    if members == [] then Some(PostState(0, timestamp, n, slots))
    else
      var m := members[0];
      if m.name.None? then None
      else if m.name.value == "timestamp" then
        if !m.value.Number? then Some(PostState(-EINVAL, timestamp, n, slots))
        else if denyFuture && InFuture(m.value.valuedouble, timestamp) then
          Some(PostState(-EACCES, timestamp, n, slots))
        else PostDataFromAsWritten(members[1..], denyFuture, MsToSeconds(m.value.valuedouble), n, slots)
      else if m.name.value == "values" then
        var v := AppendValues(Children(m), n, slots);
        if v.rc < 0 then Some(PostState(-EINVAL, timestamp, v.n, v.slots))
        else PostDataFromAsWritten(members[1..], denyFuture, timestamp, v.n, v.slots)
      else PostDataFromAsWritten(members[1..], denyFuture, timestamp, n, slots)
  }

  function PostDataAsWritten(body: Item, denyFuture: bool, timestamp: int, slots: seq<Sample>): Option<PostState>
    requires |slots| == MAX_METRICS
  {
    PostDataFromAsWritten(Children(body), denyFuture, timestamp, 0, slots)
  }

  /** When every member is named, the older body parser does what the newer
      one does. */
  lemma {:induction false} AgreesWhenNamed(members: seq<Item>, denyFuture: bool, timestamp: int, n: nat,
                                           slots: seq<Sample>)
    requires n <= MAX_METRICS == |slots|
    requires forall k :: 0 <= k < |members| ==> members[k].name.Some?
    ensures PostDataFromAsWritten(members, denyFuture, timestamp, n, slots)
         == Some(PostDataFrom(members, denyFuture, timestamp, n, slots))
    decreases |members|
  {
    if members != [] {
      var m := members[0];
      assert forall k :: 0 <= k < |members[1..]| ==> members[1..][k] == members[k + 1];
      if Named(m, "timestamp") {
        if m.value.Number? && !(denyFuture && InFuture(m.value.valuedouble, timestamp)) {
          AgreesWhenNamed(members[1..], denyFuture, MsToSeconds(m.value.valuedouble), n, slots);
        }
      } else if Named(m, "values") {
        var v := AppendValues(Children(m), n, slots);
        if v.rc >= 0 {
          AgreesWhenNamed(members[1..], denyFuture, timestamp, v.n, v.slots);
        }
      } else {
        AgreesWhenNamed(members[1..], denyFuture, timestamp, n, slots);
      }
    }
  }

  /** A body whose child list holds an unnamed item, such as the array
      `[1]`, faults in the older parser, where the newer one skips the item
      and accepts the body. */
  lemma UnnamedMemberFaults(slots: seq<Sample>)
    requires |slots| == MAX_METRICS
    ensures var body := Item(None, Arr([Item(None, Number(1, 1.0))]));
      && PostDataAsWritten(body, false, 0, slots) == None
      && PostData(body, false, 0, slots).rc == 0
  {
    var body := Item(None, Arr([Item(None, Number(1, 1.0))]));
    assert Children(body)[1..] == [];
  }

  /** post_values_data_parser of the older variant, on a body whose walk
      never reaches an unnamed member. */
  method ParsePostData(json: Item, denyFuture: bool, timestamp0: int, values: array<Sample>)
    returns (rc: int, timestamp: int, n: nat)
    requires values.Length == MAX_METRICS
    requires PostDataAsWritten(json, denyFuture, timestamp0, values[..]).Some?
    modifies values
    ensures PostDataAsWritten(json, denyFuture, timestamp0, old(values[..])) == Some(PostState(rc, timestamp, n, values[..]))
  {
    var members := Children(json);
    timestamp := timestamp0;
    n := 0;
    var i := 0;
    while i < |members|
      invariant 0 <= i <= |members| && n <= MAX_METRICS
      invariant PostDataFromAsWritten(members[i..], denyFuture, timestamp, n, values[..])
             == PostDataFromAsWritten(members, denyFuture, timestamp0, 0, old(values[..]))
    {
      assert members[i..][1..] == members[i + 1..];
      var m := members[i];
      if m.name.value == "timestamp" {
        if !m.value.Number? {
          return -EINVAL, timestamp, n;
        }
        if denyFuture && InFuture(m.value.valuedouble, timestamp) {
          return -EACCES, timestamp, n;
        }
        timestamp := MsToSeconds(m.value.valuedouble);
      } else if m.name.value == "values" {
        var vrc;
        vrc, n := ParseValueArray(m, n, values);
        if vrc < 0 {
          return -EINVAL, timestamp, n;
        }
      }
      i := i + 1;
    }
    assert members[i..] == [];
    rc := 0;
  }

  // ---------------------------------------------------------------------
  // Handlers

  /** Listing nodes, reading a node and creating one are not supported. */
  function GetNodes(): (r: Response)
    ensures r.status == NotFound && r.calls == []
  {
    Reply(NotFound, [])
  }

  function GetNode(): (r: Response)
    ensures r.status == NotFound && r.calls == []
  {
    Reply(NotFound, [])
  }

  function CreateNode(): (r: Response)
    ensures r.status == NotFound && r.calls == []
  {
    Reply(NotFound, [])
  }

  /** GET of the latest point, with no access check. */
  function RedirectLatest(id: Option<nat>, env: Env): (r: Response)
    ensures r.status in {Found, NotFound, InternalServerError}
    ensures r.status == Found <==> id.Some? && env.node.Some? && env.latest != NO_TIMESTAMP && env.allocOk
    ensures r.status == Found ==> r.location == Some(Location(id.value, env.latest))
    ensures id.Some? && env.node.Some? ==>
      && r.calls == [Open(id.value), Latest, Close]
      && (env.latest == NO_TIMESTAMP ==> r.status == NotFound)
  {
    if id.None? then Reply(NotFound, [])
    else if env.node.None? then Reply(NotFound, [Open(id.value)])
    else
      var calls := [Open(id.value), Latest, Close];
      if env.latest == NO_TIMESTAMP then Reply(NotFound, calls)
      else if !env.allocOk then Reply(InternalServerError, calls)
      else Response(Found, Some(Location(id.value, env.latest)), NoBody, calls)
  }

  /** POST of one point, with no access check. None when the body parser
      faults on an unnamed member. */
  function PostValues(cfg: Config, id: Option<nat>, body: Option<Item>, env: Env): (r: Option<Response>)
    ensures r.None? <==> id.Some? && body.Some? && PostDataAsWritten(body.value, cfg.denyFuture, env.now, NoValues()).None?
    ensures r.Some? ==> r.value.status in {Created, NotFound, BadRequest, Forbidden, InternalServerError}
    ensures r.Some? && id.Some? && env.node.Some? && Open(id.value) in r.value.calls ==>
      && ClosesHandle(r.value.calls)
      && (|r.value.calls| == 2 ==> r.value.status == BadRequest)
      && (|r.value.calls| == 3 && env.update.rc == -ENOENT ==> r.value.status == BadRequest)
    ensures id.None? ==> r == Some(Reply(NotFound, []))
    ensures id.Some? && body.None? ==> r == Some(Reply(BadRequest, []))
    ensures id.Some? && body.Some? ==>
      match PostDataAsWritten(body.value, cfg.denyFuture, env.now, NoValues())
      case None => true
      case Some(p) =>
        && (p.rc != 0 ==> r == Some(Reply(RejectStatus(Some(p.rc)), [])))
        && (p.rc == 0 && env.node.None? ==> r == Some(Reply(NotFound, [Open(id.value)])))
        && (p.rc == 0 && env.node.Some? && p.n != |env.node.value.meta.metrics| ==>
              r == Some(Reply(BadRequest, [Open(id.value), Close])))
        && (p.rc == 0 && env.node.Some? && p.n == |env.node.value.meta.metrics| ==>
              && r.value.calls == [Open(id.value), Update(p.timestamp, p.slots[..p.n]), Close]
              && r.value.status == (if env.update.rc == -ENOENT then BadRequest
                                    else if env.update.rc < 0 then InternalServerError
                                    else if !env.allocOk then InternalServerError
                                    else Created))
    ensures (r.Some? && r.value.status == Created) <==>
      && id.Some? && body.Some?
      && var p := PostDataAsWritten(body.value, cfg.denyFuture, env.now, NoValues());
      && p.Some? && p.value.rc == 0 && env.node.Some? && p.value.n == |env.node.value.meta.metrics|
      && env.update.rc >= 0 && env.allocOk
    ensures r.Some? && r.value.status == Created ==>
      && id.Some? && |r.value.calls| == 3 && env.update.rc >= 0
      && r.value.location == Some(Location(id.value, env.update.timestamp))
  {
    if id.None? then Some(Reply(NotFound, []))
    else if body.None? then Some(Reply(RejectStatus(None), []))
    else
      match PostDataAsWritten(body.value, cfg.denyFuture, env.now, NoValues())
      case None => None
      case Some(p) =>
        if p.rc != 0 then Some(Reply(RejectStatus(Some(p.rc)), []))
        else if env.node.None? then Some(Reply(NotFound, [Open(id.value)]))
        else if p.n != |env.node.value.meta.metrics| then Some(Reply(BadRequest, [Open(id.value), Close]))
        else
          var calls := [Open(id.value), Update(p.timestamp, p.slots[..p.n]), Close];
          if env.update.rc < 0 then
            Some(Reply(if env.update.rc == -ENOENT then BadRequest else InternalServerError, calls))
          else if !env.allocOk then Some(Reply(InternalServerError, calls))
          else Some(Response(Created, Some(Location(id.value, env.update.timestamp)), NoBody, calls))
  }

  /** GET of the values at a timestamp, with no access check. */
  function GetValues(cfg: Config, url: Option<(nat, int)>, env: Env): (r: Response)
    requires env.Valid()
    ensures r.status in {OK, Found, NotFound, InternalServerError}
    ensures url.Some? && env.node.Some? ==>
      && ClosesHandle(r.calls)
      && (env.fetch.rc == -ENOENT ==> r.status == NotFound)
      && (env.fetch.rc < 0 && env.fetch.rc != -ENOENT ==> r.status == InternalServerError)
    ensures r.status == OK ==>
      && url.Some? && env.node.Some? && env.fetch.rc >= 0
      && r.body == ValuesReport(env.fetch.timestamp * 1000, env.fetch.values[..|env.node.value.meta.metrics|])
  {
    if url.None? then Reply(NotFound, [])
    else
      var (id, timestamp) := url.value;
      if env.node.None? then Reply(NotFound, [Open(id)])
      else
        var calls := [Open(id), Fetch(timestamp), Close];
        if env.fetch.rc < 0 then
          Reply(if env.fetch.rc == -ENOENT then NotFound else InternalServerError, calls)
        else if cfg.roundUrls && env.fetch.timestamp != timestamp then
          if !env.allocOk then Reply(InternalServerError, calls)
          else Response(Found, Some(Location(id, env.fetch.timestamp)), NoBody, calls)
        else
          Response(OK, None, ValuesReport(env.fetch.timestamp * 1000, env.fetch.values[..|env.node.value.meta.metrics|]), calls)
  }

  /** A signed count stored in an unsigned 32-bit variable. */
  function Unsigned32(x: int): (u: nat)
    ensures 0 <= x < 0x1_0000_0000 ==> u == x
    ensures -0x1_0000_0000 <= x < 0 ==> u == x + 0x1_0000_0000
  {
    x % 0x1_0000_0000
  }

  /** GET of a series as written: the engine's answer is stored in an
      unsigned count, so its error branch is never taken and a negative
      answer becomes a huge count of points to print. A count past the
      points returned is undefined behaviour, recorded as the Overrun body
      in place of a text; otherwise the answer is what the same fixed
      output buffer as the newer handler's holds. */
  function GetSeriesAsWritten(url: Option<(nat, nat)>, q: SeriesParams, format: Formats, env: Env): (r: Response)
    requires env.Valid()
    ensures r.status in {OK, NotFound, InternalServerError}
    ensures r.status == OK <==> url.Some? && env.pointsAllocOk && env.node.Some? && env.allocOk
  {
    if url.None? then Reply(NotFound, [])
    else if !env.pointsAllocOk then Reply(InternalServerError, [])
    else
      var (id, metric) := url.value;
      if env.node.None? then Reply(NotFound, [Open(id)])
      else
        var calls := [Open(id), SeriesQueryOf(metric, q), Close];
        var count := Unsigned32(env.series.rc);
        if !env.allocOk then Reply(InternalServerError, calls)
        else if count <= |env.series.points| then
          Response(OK, None, SeriesOutput(Framed(PointTexts(env.series.points[..count], format))), calls)
        else Response(OK, None, Overrun(count), calls)
  }

  /** GET of a series with the engine's answer checked as a signed value:
      -ENOENT (no such metric) is 404, another error 500. */
  function GetSeries(url: Option<(nat, nat)>, q: SeriesParams, format: Formats, env: Env): (r: Response)
    requires env.Valid()
    ensures r.status in {OK, NotFound, InternalServerError}
    ensures r.status == OK <==> url.Some? && env.pointsAllocOk && env.node.Some? && env.series.rc >= 0 && env.allocOk
    ensures r.status == OK ==> r.body == SeriesOutput(Framed(PointTexts(env.series.points[..env.series.rc], format)))
    ensures url.Some? && env.pointsAllocOk && env.node.Some? ==>
      && ClosesHandle(r.calls)
      && (env.series.rc == -ENOENT ==> r.status == NotFound)
      && (env.series.rc < 0 && env.series.rc != -ENOENT ==> r.status == InternalServerError)
  {
    if url.None? then Reply(NotFound, [])
    else if !env.pointsAllocOk then Reply(InternalServerError, [])
    else
      var (id, metric) := url.value;
      if env.node.None? then Reply(NotFound, [Open(id)])
      else
        var calls := [Open(id), SeriesQueryOf(metric, q), Close];
        if env.series.rc < 0 then
          Reply(if env.series.rc == -ENOENT then NotFound else InternalServerError, calls)
        else if !env.allocOk then Reply(InternalServerError, calls)
        else Response(OK, None, SeriesOutput(Framed(PointTexts(env.series.points[..env.series.rc], format))), calls)
  }

  /** As written, a series request for a metric the node does not have
      (-ENOENT) is not refused: the output loop runs for 4294967294 points,
      reading past the points the engine returned and, once the buffer is
      full, writing past the output buffer (undefined behaviour, the Overrun
      body); the signed check answers 404. */
  lemma MissingMetricAnsweredOK(id: nat, metric: nat, q: SeriesParams, format: Formats, env: Env)
    requires env.Valid() && env.pointsAllocOk && env.node.Some? && env.allocOk
    requires env.series.rc == -ENOENT && |env.series.points| < 4294967294
    ensures GetSeriesAsWritten(Some((id, metric)), q, format, env).status == OK
    ensures GetSeriesAsWritten(Some((id, metric)), q, format, env).body == Overrun(4294967294)
    ensures GetSeries(Some((id, metric)), q, format, env).status == NotFound
  {
  }

  /** The two agree whenever the engine answers with a count. */
  lemma SeriesAgreeOnCounts(url: Option<(nat, nat)>, q: SeriesParams, format: Formats, env: Env)
    requires env.Valid() && env.series.rc >= 0
    ensures GetSeriesAsWritten(url, q, format, env) == GetSeries(url, q, format, env)
  {
  }

  // ---------------------------------------------------------------------
  // Relation to the newer handlers

  /** Without a read key on the node, the older handlers answer as the
      newer ones do. */
  lemma ReadsAgreeWithoutKey(cfg: Config, id: Option<nat>, url: Option<(nat, int)>, env: Env)
    requires env.Valid()
    requires env.node.Some? ==> env.node.value.KeyOf(KEY_READ).None?
    ensures RedirectLatest(id, env) == HttpTsdbHandlers.RedirectLatest(id, env)
    ensures GetValues(cfg, url, env) == HttpTsdbHandlers.GetValues(cfg, url, env)
  {
    if id.Some? {
      assert [Open(id.value)] + [Latest, Close] == [Open(id.value), Latest, Close];
    }
    if url.Some? {
      assert [Open(url.value.0)] + [Fetch(url.value.1), Close] == [Open(url.value.0), Fetch(url.value.1), Close];
    }
  }

  /** Without a write key on the node, and with every body member named,
      the older post handler answers as the newer one does. */
  lemma PostAgreesWithoutKey(cfg: Config, id: Option<nat>, body: Option<Item>, env: Env)
    requires env.node.Some? ==> env.node.value.KeyOf(KEY_WRITE).None?
    requires body.Some? ==> forall k :: 0 <= k < |Children(body.value)| ==> Children(body.value)[k].name.Some?
    ensures PostValues(cfg, id, body, env) == Some(HttpTsdbHandlers.PostValues(cfg, id, body, env))
  {
    if body.Some? {
      AgreesWhenNamed(Children(body.value), cfg.denyFuture, env.now, 0, NoValues());
      if id.Some? {
        var p := PostData(body.value, cfg.denyFuture, env.now, NoValues());
        assert [Open(id.value)] + [Close] == [Open(id.value), Close];
        assert [Open(id.value)] + [Update(p.timestamp, p.slots[..p.n]), Close]
            == [Open(id.value), Update(p.timestamp, p.slots[..p.n]), Close];
      }
    }
  }
}
