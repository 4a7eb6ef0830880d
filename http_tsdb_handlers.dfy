/** The request handlers of the HTTP front end, as decision chains. Each
    handler is a function of the parsed URL, the parsed request body and an
    environment that stands for everything outside this file: the signature
    checks, the storage engine's answers, the clock and the allocator. A
    handler returns the HTTP status, the Location header, the response
    record and the sequence of engine and signature calls it made. */
module HttpTsdbHandlers {

  import opened Wrappers
  import opened Json
  import opened Tsdb
  import opened HttpTsdbParsers
  import opened HttpTsdbHelpers

  /** Size in bytes of the series output buffer. */
  const BUF_SIZE: nat := 1024 * 1024

  /** Number of points a series answer asks for when the query gives none. */
  const DEFAULT_SERIES_NPOINTS: nat := 24

  datatype Status = OK | Created | Found | BadRequest | Forbidden | NotFound | InternalServerError
  {
    function Code(): nat
    {
      match this
      case OK => 200
      case Created => 201
      case Found => 302
      case BadRequest => 400
      case Forbidden => 403
      case NotFound => 404
      case InternalServerError => 500
    }
  }

  /** The request method a signature is checked against. */
  datatype Verb = GET | PUT | POST | DELETE

  /** One call out of the handler, in the order made. */
  datatype Call =
    | CheckAdmin(verb: Verb)                 // signature check with the admin key
    | Open(node: nat)                        // tsdb_open (it may find no node)
    | CheckKey(keyid: nat, verb: Verb)       // signature check with the node's key
    | Close                                  // tsdb_close of the opened node
    | Create(node: nat, interval: nat, metrics: seq<MetricModes>, decimation: seq<nat>)
    | Remove(node: nat)
    | SetKey(keyid: nat, key: Option<Key>)   // None clears the key
    | Update(timestamp: int, values: seq<Sample>)
    | Fetch(timestamp: int)
    | Latest
    | SeriesQuery(metric: nat, start: int, end: int, npoints: nat)

  /** A Location header: the values URL of a node at a timestamp. */
  datatype Location = Location(node: nat, timestamp: int)

  /** The response record. Timestamps in it are in milliseconds. */
  datatype Body =
    | NoBody
    | NodeReport(interval: nat, startMs: int, npoints: nat, decimation: seq<nat>, metrics: seq<MetricModes>)
    | KeyNames(names: seq<string>)
    | KeyReport(key: Option<Key>)            // the empty string when None
    | ValuesReport(timestampMs: int, values: seq<Sample>)
    | SeriesText(text: string)
    | Overrun(count: nat)                    // undefined behaviour: a series loop past the points returned
    | Overflow(length: nat)                  // a series text of this length that the output buffer cannot hold

  datatype Response = Response(status: Status, location: Option<Location>, body: Body, calls: seq<Call>)

  function Reply(status: Status, calls: seq<Call>): Response
  {
    Response(status, None, NoBody, calls)
  }

  /** Compile-time switches. */
  datatype Config = Config(denyFuture: bool, roundUrls: bool, enableDelete: bool)

  /** What tsdb_update_values returns and writes back into the timestamp. */
  datatype Written = Written(rc: int, timestamp: int)

  /** What tsdb_get_values returns and writes back: the (possibly rounded)
      timestamp and one value per metric slot. */
  datatype Fetched = Fetched(rc: int, timestamp: int, values: seq<Sample>)

  /** What tsdb_get_series returns: a negative error or the number of points
      written into the buffer. */
  datatype Answered = Answered(rc: int, points: seq<SeriesPoint>)

  /** The answers of everything outside this file for one request. */
  datatype Env = Env(
    adminOk: bool,          // the signature verifies with the admin key
    signatureOk: bool,      // the signature verifies with the node's key
    node: Option<Node>,     // tsdb_open of the URL's node
    now: int,               // time(NULL)
    allocOk: bool,          // malloc of a Location header or output buffer
    pointsAllocOk: bool,    // malloc of the series point buffer
    createOk: bool,         // tsdb_create >= 0
    deleteOk: bool,         // tsdb_delete >= 0
    latest: int,            // tsdb_get_latest
    update: Written,
    fetch: Fetched,
    series: Answered)
  {
    /** What the engine guarantees of its answers. */
    predicate Valid()
    {
      && (node.Some? ==> |node.value.meta.metrics| <= MAX_METRICS)
      && |fetch.values| == MAX_METRICS
      && series.rc <= |series.points|
      && -0x8000_0000 <= series.rc < 0x8000_0000    // a C int
    }
  }

  /** The status for a request body that was not accepted, when the body
      parsed and its parser returned `rc`, or did not parse at all (None). */
  function RejectStatus(rc: Option<int>): (s: Status)
    ensures s == Forbidden <==> rc == Some(-EACCES)
    ensures s != Forbidden ==> s == BadRequest
  {
    if rc == Some(-EACCES) then Forbidden else BadRequest
  }

  /** The same choice as written: `rc` is read even when the body did not
      parse, and then it is an uninitialised local, because only the parser
      call assigns it; `stale` stands for whatever it happens to hold. */
  function RejectStatusAsWritten(rc: Option<int>, stale: int): (s: Status)
    ensures rc.Some? ==> s == RejectStatus(rc)
    ensures rc.None? ==> (s == Forbidden <==> stale == -EACCES)
  {
    var code := if rc.Some? then rc.value else stale;
    if code == -EACCES then Forbidden else BadRequest
  }

  /** As written, the status for a body that is not JSON depends on a value
      the request did not determine; the corrected choice is always 400. */
  lemma UnparsedBodyStatus()
    ensures RejectStatusAsWritten(None, -EACCES) == Forbidden
    ensures RejectStatusAsWritten(None, 0) == BadRequest
    ensures RejectStatus(None) == BadRequest
  {
  }

  // ---------------------------------------------------------------------
  // Opening a node and checking its key

  /** Either an early response, or the opened node and the calls so far. */
  datatype Gate = Rejected(resp: Response) | Admitted(node: Node, calls: seq<Call>)

  /** The access check passes: the node exists, and its key `keyid` is
      unset or the signature verifies with it. */
  predicate Allowed(keyid: nat, env: Env)
  {
    env.node.Some? && (env.node.value.KeyOf(keyid).Some? ==> env.signatureOk)
  }

  /** tsdb_open of `id`, then, only when the node has key `keyid` set, the
      signature check with that key; a failed check closes the node. */
  function Admit(id: nat, keyid: nat, verb: Verb, env: Env): (g: Gate)
    ensures g.Admitted? <==> Allowed(keyid, env)
    ensures env.node.None? ==> g == Rejected(Reply(NotFound, [Open(id)]))
    ensures env.node.Some? && env.node.value.KeyOf(keyid).Some? && !env.signatureOk ==>
      g == Rejected(Reply(Forbidden, [Open(id), CheckKey(keyid, verb), Close]))
    ensures env.node.Some? && env.node.value.KeyOf(keyid).None? ==>
      g == Admitted(env.node.value, [Open(id)])
    ensures env.node.Some? && env.node.value.KeyOf(keyid).Some? && env.signatureOk ==>
      g == Admitted(env.node.value, [Open(id), CheckKey(keyid, verb)])
  {
    match env.node
    case None => Rejected(Reply(NotFound, [Open(id)]))
    case Some(node) =>
      if node.KeyOf(keyid).None? then Admitted(node, [Open(id)])
      else if !env.signatureOk then Rejected(Reply(Forbidden, [Open(id), CheckKey(keyid, verb), Close]))
      else Admitted(node, [Open(id), CheckKey(keyid, verb)])
  }

  /** The handle opened by the request is released: the trace ends with the
      one and only Close. */
  predicate ClosesHandle(calls: seq<Call>)
  {
    |calls| > 0 && calls[|calls| - 1] == Close && Close !in calls[..|calls| - 1]
  }

  // ---------------------------------------------------------------------
  // Nodes

  /** Listing nodes is not supported. */
  function GetNodes(): (r: Response)
    ensures r.status == NotFound && r.calls == []
  {
    Reply(NotFound, [])
  }

  /** GET of a node: its interval, start (ms), size, decimation ladder and
      per-metric modes. `id` is None when the URL names no node. */
  function GetNode(id: Option<nat>, env: Env): (r: Response)
    ensures id.Some? && env.node.Some? ==> ClosesHandle(r.calls)
    ensures r.status in {OK, NotFound, Forbidden}
    ensures id.None? ==> r == Reply(NotFound, [])
    ensures id.Some? && env.node.None? ==> r == Reply(NotFound, [Open(id.value)])
    ensures id.Some? && env.node.Some? && !Allowed(KEY_READ, env) ==>
      r == Reply(Forbidden, [Open(id.value), CheckKey(KEY_READ, GET), Close])
    ensures r.status == OK <==> id.Some? && Allowed(KEY_READ, env)
    ensures r.status == OK ==>
      var meta := env.node.value.meta;
      && r.body == NodeReport(meta.interval, meta.startTime * 1000, meta.npoints,
                              Ladder(meta.decimation), meta.metrics)
      && ClosesHandle(r.calls)
  {
    if id.None? then Reply(NotFound, [])
    else
      match Admit(id.value, KEY_READ, GET, env)
      case Rejected(resp) => resp
      case Admitted(node, calls) =>
        var meta := node.meta;
        Response(OK, None,
                 NodeReport(meta.interval, meta.startTime * 1000, meta.npoints, Ladder(meta.decimation), meta.metrics),
                 calls + [Close])
  }

  /** The settings a node definition starts from: no interval, no metrics,
      zero mode slots and an all-zero ladder. */
  function NoModes(): seq<nat>
  {
    seq(MAX_METRICS, _ => 0)
  }

  function BlankDef(): NodeDef
  {
    NodeDef(0, 0, NoModes(), NoModes(), NoDecimation())
  }

  /** The per-metric modes of the first `d.nmetrics` slots. */
  function ModesOf(d: NodeDef): (r: seq<MetricModes>)
    requires d.Shaped()
    ensures |r| == d.nmetrics
    ensures forall k :: 0 <= k < d.nmetrics ==> r[k] == MetricModes(d.pads[k], d.dss[k])
  {
    seq(d.nmetrics, k requires 0 <= k < d.nmetrics => MetricModes(d.pads[k], d.dss[k]))
  }

  /** PUT of a node definition (admin only). */
  function CreateNode(id: Option<nat>, body: Option<Item>, env: Env): (r: Response)
    ensures r.status in {OK, Forbidden, NotFound, BadRequest}
    ensures !env.adminOk ==> r == Reply(Forbidden, [CheckAdmin(PUT)])
    ensures env.adminOk && id.None? ==> r == Reply(NotFound, [CheckAdmin(PUT)])
    ensures r.calls == [CheckAdmin(PUT)] || (|r.calls| == 2 && r.calls[1].Create? && r.calls[1].node == id.value)
    ensures env.adminOk && id.Some? && |r.calls| == 1 ==> r.status == BadRequest
    ensures |r.calls| == 2 ==> r.status == (if env.createOk then OK else Forbidden)
  {
    if !env.adminOk then Reply(Forbidden, [CheckAdmin(PUT)])
    else if id.None? then Reply(NotFound, [CheckAdmin(PUT)])
    else if body.None? then Reply(RejectStatus(None), [CheckAdmin(PUT)])
    else
      var p := NodeDataFrom(Children(body.value), BlankDef());
      if p.rc != 0 then Reply(RejectStatus(Some(p.rc)), [CheckAdmin(PUT)])
      else if p.def.interval == 0 || p.def.nmetrics == 0 then Reply(BadRequest, [CheckAdmin(PUT)])
      else
        var calls := [CheckAdmin(PUT), Create(id.value, p.def.interval, ModesOf(p.def), p.def.decimation)];
        Reply(if env.createOk then OK else Forbidden, calls)
  }

  /** A node is created exactly when the admin signature verifies, the URL
      names a node, and the body parses into a valid definition whose last
      "interval" and last "metrics" are non-zero; the engine is then asked
      for that interval and for the ladder the "decimation" members write
      over an all-zero one. */
  lemma CreateNodeDecision(id: Option<nat>, body: Option<Item>, env: Env)
    ensures var r := CreateNode(id, body, env);
      |r.calls| == 2 <==>
        && env.adminOk && id.Some? && body.Some?
        && (forall k :: 0 <= k < |Children(body.value)| ==> NodeMemberValid(Children(body.value)[k]))
        && LastSetting(Children(body.value), "interval", 0) != 0
        && LastMetricsCount(Children(body.value), 0) != 0
    ensures var r := CreateNode(id, body, env);
      |r.calls| == 2 ==>
        && r.calls[1].interval == LastSetting(Children(body.value), "interval", 0)
        && r.calls[1].decimation == LadderAfter(Children(body.value), NoDecimation())
  {
    if body.Some? {
      NodeDataResult(Children(body.value), BlankDef());
      var p := NodeDataFrom(Children(body.value), BlankDef());
      if p.rc == 0 {
        NodeDataLadder(Children(body.value), BlankDef());
      }
    }
  }

  /** A created node gets one metric per definition of the body's last
      "metrics" array, in order, each with that definition's last pad and
      downsample settings (Unknown and Mean when it has none), all of them
      in range. */
  lemma CreateNodeMetrics(id: Option<nat>, body: Option<Item>, env: Env)
    ensures var r := CreateNode(id, body, env);
      |r.calls| == 2 ==>
        && LastMember(Children(body.value), "metrics").Some?
        && var defs := Children(LastMember(Children(body.value), "metrics").value);
        && |r.calls[1].metrics| == |defs|
        && forall k :: 0 <= k < |defs| ==>
             && r.calls[1].metrics[k] == MetricModes(LastSetting(Children(defs[k]), "pad_mode", PAD_UNKNOWN),
                                                     LastSetting(Children(defs[k]), "downsample_mode", DOWNSAMPLE_MEAN))
             && r.calls[1].metrics[k].padMode <= MAX_PAD_MODE
             && r.calls[1].metrics[k].downsampleMode <= MAX_DOWNSAMPLE_MODE
  {
    var r := CreateNode(id, body, env);
    if |r.calls| == 2 {
      var p := NodeDataFrom(Children(body.value), BlankDef());
      NodeDataModes(Children(body.value), BlankDef());
      NodeDataModesInRange(Children(body.value), BlankDef());
    }
  }

  /** DELETE of a node (admin only, and only when deletion is enabled). */
  function DeleteNode(cfg: Config, id: Option<nat>, env: Env): (r: Response)
    ensures r.status in {OK, Forbidden, NotFound}
    ensures !cfg.enableDelete ==> r == Reply(Forbidden, [])
    ensures cfg.enableDelete && env.adminOk && id.None? ==> r == Reply(NotFound, [CheckAdmin(DELETE)])
    ensures cfg.enableDelete && !env.adminOk ==> r == Reply(Forbidden, [CheckAdmin(DELETE)])
    ensures r.status == OK <==> cfg.enableDelete && env.adminOk && id.Some? && env.deleteOk
    ensures |r.calls| == 2 <==> cfg.enableDelete && env.adminOk && id.Some?
    ensures |r.calls| == 2 ==> r.calls[1] == Remove(id.value) && r.status == (if env.deleteOk then OK else NotFound)
  {
    if !cfg.enableDelete then Reply(Forbidden, [])
    else if !env.adminOk then Reply(Forbidden, [CheckAdmin(DELETE)])
    else if id.None? then Reply(NotFound, [CheckAdmin(DELETE)])
    else Reply(if env.deleteOk then OK else NotFound, [CheckAdmin(DELETE), Remove(id.value)])
  }

  // ---------------------------------------------------------------------
  // Keys

  /** GET of the key names (admin only); the same for every node. */
  function GetKeys(env: Env): (r: Response)
    ensures !env.adminOk ==> r == Reply(Forbidden, [CheckAdmin(GET)])
    ensures env.adminOk ==> r.status == OK && r.body == KeyNames(KEY_NAMES) && r.calls == [CheckAdmin(GET)]
  {
    if !env.adminOk then Reply(Forbidden, [CheckAdmin(GET)])
    else Response(OK, None, KeyNames(KEY_NAMES), [CheckAdmin(GET)])
  }

  /** GET of one key of a node (admin only). `url` is the node and the key
      name, None when the URL does not parse. */
  function GetKey(url: Option<(nat, string)>, env: Env): (r: Response)
    ensures url.Some? && Open(url.value.0) in r.calls && env.node.Some? ==> ClosesHandle(r.calls)
    ensures r.status in {OK, Forbidden, NotFound}
    ensures !env.adminOk ==> r == Reply(Forbidden, [CheckAdmin(GET)])
    ensures env.adminOk && url.None? ==> r == Reply(NotFound, [CheckAdmin(GET)])
    ensures env.adminOk && url.Some? && KeyIdOf(url.value.1) == KEY_COUNT ==> r == Reply(NotFound, [CheckAdmin(GET)])
    ensures env.adminOk && url.Some? && KeyIdOf(url.value.1) < KEY_COUNT && env.node.None? ==>
      r == Reply(NotFound, [CheckAdmin(GET), Open(url.value.0)])
    ensures r.status == OK <==>
      env.adminOk && url.Some? && KeyIdOf(url.value.1) < KEY_COUNT && env.node.Some?
    ensures r.status == OK ==>
      && r.body == KeyReport(env.node.value.KeyOf(KeyIdOf(url.value.1)))
      && r.calls == [CheckAdmin(GET), Open(url.value.0), Close]
  {
    if !env.adminOk then Reply(Forbidden, [CheckAdmin(GET)])
    else if url.None? then Reply(NotFound, [CheckAdmin(GET)])
    else
      var (id, name) := url.value;
      var keyid := KeyIdOf(name);
      if keyid == KEY_COUNT then Reply(NotFound, [CheckAdmin(GET)])
      else if env.node.None? then Reply(NotFound, [CheckAdmin(GET), Open(id)])
      else Response(OK, None, KeyReport(env.node.value.KeyOf(keyid)), [CheckAdmin(GET), Open(id), Close])
  }

  /** The decoded-key-size rule of a key update: None when the key is
      rejected, Some(None) to clear the key, Some(Some(k)) to set it to `k`.
      `decoded` is the base64 decoder's output, None when it failed. */
  function KeyUpdate(decoded: Option<seq<bv8>>): (u: Option<Option<Key>>)
    ensures u.Some? <==> decoded.Some? && (|decoded.value| == 0 || |decoded.value| == KEY_LENGTH)
    ensures u == Some(None) <==> decoded == Some([])
    ensures u.Some? && u.value.Some? ==> u.value.value == decoded.value && |u.value.value| == KEY_LENGTH
  {
    match decoded
    case None => None
    case Some(bytes) =>
      if |bytes| != 0 && |bytes| != KEY_LENGTH then None
      else if |bytes| == 0 then Some(None)
      else Some(Some(bytes))
  }

  /** The key update a key body asks for: None when the body is missing,
      has a "key" member that is not a string, has no key string, or its
      key does not decode to an empty or full-size key. */
  function RequestedKey(body: Option<Item>, decode: string -> Option<seq<bv8>>): Option<Option<Key>>
  {
    if body.None? || !KeyBodyValid(Children(body.value)) then None
    else
      var b64 := LastKeyString(Children(body.value), None);
      if b64.None? then None else KeyUpdate(decode(b64.value))
  }

  /** PUT of one key of a node (admin only). `decode` stands for the base64
      decoder. The key is validated before the node is opened. */
  function PutKey(url: Option<(nat, string)>, body: Option<Item>, decode: string -> Option<seq<bv8>>, env: Env): (r: Response)
    ensures url.Some? && Open(url.value.0) in r.calls && env.node.Some? ==> ClosesHandle(r.calls)
    ensures r.status in {OK, Forbidden, NotFound, BadRequest}
    ensures !env.adminOk ==> r == Reply(Forbidden, [CheckAdmin(PUT)])
    ensures env.adminOk && url.None? ==> r == Reply(NotFound, [CheckAdmin(PUT)])
    ensures env.adminOk && url.Some? && KeyIdOf(url.value.1) == KEY_COUNT ==> r == Reply(NotFound, [CheckAdmin(PUT)])
    ensures env.adminOk && url.Some? && KeyIdOf(url.value.1) < KEY_COUNT && RequestedKey(body, decode).None? ==>
      r == Reply(BadRequest, [CheckAdmin(PUT)])
    ensures env.adminOk && url.Some? && KeyIdOf(url.value.1) < KEY_COUNT && RequestedKey(body, decode).Some? ==>
      r == (if env.node.None? then Reply(NotFound, [CheckAdmin(PUT), Open(url.value.0)])
            else Reply(OK, [CheckAdmin(PUT), Open(url.value.0),
                            SetKey(KeyIdOf(url.value.1), RequestedKey(body, decode).value), Close]))
    ensures url.Some? && Open(url.value.0) in r.calls ==> RequestedKey(body, decode).Some?
    ensures r.status == BadRequest ==> r.calls == [CheckAdmin(PUT)]
    ensures r.status == OK <==> |r.calls| == 4
    ensures |r.calls| == 4 ==>
      && url.Some? && body.Some? && KeyBodyValid(Children(body.value))
      && var keyid := KeyIdOf(url.value.1);
      && var b64 := LastKeyString(Children(body.value), None);
      && keyid < KEY_COUNT && b64.Some? && env.node.Some?
      && KeyUpdate(decode(b64.value)).Some?
      && r.calls == [CheckAdmin(PUT), Open(url.value.0), SetKey(keyid, KeyUpdate(decode(b64.value)).value), Close]
  {
    if !env.adminOk then Reply(Forbidden, [CheckAdmin(PUT)])
    else if url.None? then Reply(NotFound, [CheckAdmin(PUT)])
    else
      var (id, name) := url.value;
      var keyid := KeyIdOf(name);
      if keyid == KEY_COUNT then Reply(NotFound, [CheckAdmin(PUT)])
      else
        var update := RequestedKey(body, decode);
        if update.None? then Reply(BadRequest, [CheckAdmin(PUT)])
        else if env.node.None? then Reply(NotFound, [CheckAdmin(PUT), Open(id)])
        else Reply(OK, [CheckAdmin(PUT), Open(id), SetKey(keyid, update.value), Close])
  }

  // ---------------------------------------------------------------------
  // Values

  /** GET of the latest point: a redirect to its values URL. */
  function RedirectLatest(id: Option<nat>, env: Env): (r: Response)
    ensures id.Some? && env.node.Some? ==> ClosesHandle(r.calls)
    ensures r.status in {Found, NotFound, Forbidden, InternalServerError}
    ensures id.None? ==> r == Reply(NotFound, [])
    ensures id.Some? && env.node.None? ==> r == Reply(NotFound, [Open(id.value)])
    ensures id.Some? && env.node.Some? && !Allowed(KEY_READ, env) ==> r.status == Forbidden
    ensures id.Some? && Allowed(KEY_READ, env) ==>
      && Latest in r.calls
      && r.status == (if env.latest == NO_TIMESTAMP then NotFound
                      else if !env.allocOk then InternalServerError
                      else Found)
    ensures r.status == Found ==> r.location == Some(Location(id.value, env.latest)) && ClosesHandle(r.calls)
  {
    if id.None? then Reply(NotFound, [])
    else
      match Admit(id.value, KEY_READ, GET, env)
      case Rejected(resp) => resp
      case Admitted(_, calls) =>
        var calls := calls + [Latest, Close];
        if env.latest == NO_TIMESTAMP then Reply(NotFound, calls)
        else if !env.allocOk then Reply(InternalServerError, calls)
        else Response(Found, Some(Location(id.value, env.latest)), NoBody, calls)
  }

  /** The value slots before parsing: nothing is read from a slot the
      parser did not write. */
  function NoValues(): seq<Sample>
  {
    seq(MAX_METRICS, _ => Missing)
  }

  /** The part of post-values after the body was accepted as `p`: the node
      is opened, its key checked, the metric count compared and the point
      handed to the engine. */
  function PostAfterParse(id: nat, p: PostState, env: Env): (r: Response)
    requires p.n <= |p.slots|
    ensures env.node.Some? ==> ClosesHandle(r.calls)
    ensures r.status in {Created, NotFound, BadRequest, Forbidden, InternalServerError}
    ensures env.node.None? ==> r == Reply(NotFound, [Open(id)])
    ensures env.node.Some? && !Allowed(KEY_WRITE, env) ==> r.status == Forbidden
    ensures Allowed(KEY_WRITE, env) && p.n != |env.node.value.meta.metrics| ==>
      r.status == BadRequest && forall c :: c in r.calls ==> !c.Update?
    ensures Allowed(KEY_WRITE, env) && p.n == |env.node.value.meta.metrics| ==>
      r.status == (if env.update.rc == -ENOENT then BadRequest
                   else if env.update.rc < 0 then InternalServerError
                   else if !env.allocOk then InternalServerError
                   else Created)
    ensures r.status == Created <==>
      && Allowed(KEY_WRITE, env)
      && p.n == |env.node.value.meta.metrics| && env.update.rc >= 0 && env.allocOk
    ensures r.status == Created ==>
      && r.location == Some(Location(id, env.update.timestamp))
      && |r.calls| >= 2 && r.calls[|r.calls| - 2] == Update(p.timestamp, p.slots[..p.n])
    ensures env.update.rc == -ENOENT && |r.calls| >= 2 && r.calls[|r.calls| - 2].Update? ==> r.status == BadRequest
  {
    match Admit(id, KEY_WRITE, POST, env)
    case Rejected(resp) => resp
    case Admitted(node, calls) =>
      if p.n != |node.meta.metrics| then Reply(BadRequest, calls + [Close])
      else
        var calls := calls + [Update(p.timestamp, p.slots[..p.n]), Close];
        if env.update.rc < 0 then
          Reply(if env.update.rc == -ENOENT then BadRequest else InternalServerError, calls)
        else if !env.allocOk then Reply(InternalServerError, calls)
        else Response(Created, Some(Location(id, env.update.timestamp)), NoBody, calls)
  }

  /** POST of one point. The body is parsed before the node is opened; the
      submission timestamp defaults to the current time. */
  function PostValues(cfg: Config, id: Option<nat>, body: Option<Item>, env: Env): (r: Response)
    ensures id.Some? && Open(id.value) in r.calls && env.node.Some? ==> ClosesHandle(r.calls)
    ensures r.status in {Created, NotFound, BadRequest, Forbidden, InternalServerError}
    ensures id.None? ==> r == Reply(NotFound, [])
    ensures id.Some? && body.None? ==> r == Reply(BadRequest, [])
    ensures id.Some? && body.Some? && PostData(body.value, cfg.denyFuture, env.now, NoValues()).rc == 0 ==>
      r == PostAfterParse(id.value, PostData(body.value, cfg.denyFuture, env.now, NoValues()), env)
    ensures id.Some? && body.Some? && PostData(body.value, cfg.denyFuture, env.now, NoValues()).rc != 0 ==>
      r == Reply(RejectStatus(Some(PostData(body.value, cfg.denyFuture, env.now, NoValues()).rc)), [])
    ensures r.status == Created <==>
      && id.Some? && body.Some?
      && var p := PostData(body.value, cfg.denyFuture, env.now, NoValues());
      && p.rc == 0 && env.node.Some? && (env.node.value.KeyOf(KEY_WRITE).Some? ==> env.signatureOk)
      && p.n == |env.node.value.meta.metrics| && env.update.rc >= 0 && env.allocOk
    ensures r.status == Created ==>
      && var p := PostData(body.value, cfg.denyFuture, env.now, NoValues());
      && r.location == Some(Location(id.value, env.update.timestamp))
      && ClosesHandle(r.calls) && |r.calls| >= 2
      && r.calls[|r.calls| - 2] == Update(p.timestamp, p.slots[..p.n])
    ensures env.update.rc == -ENOENT && |r.calls| >= 2 && r.calls[|r.calls| - 2].Update? ==> r.status == BadRequest
  {
    if id.None? then Reply(NotFound, [])
    else if body.None? then Reply(RejectStatus(None), [])
    else
      var p := PostData(body.value, cfg.denyFuture, env.now, NoValues());
      if p.rc != 0 then Reply(RejectStatus(Some(p.rc)), [])
      else PostAfterParse(id.value, p, env)
  }

  /** A created point is the samples of the body's "values" members in
      order, one per metric of the node, at the time of the body's last
      numeric "timestamp" member (milliseconds, converted to seconds), or
      at the current time when it has none. */
  lemma PostValuesPoint(cfg: Config, id: Option<nat>, body: Option<Item>, env: Env)
    ensures var r := PostValues(cfg, id, body, env);
      r.status == Created ==>
        && var members := Children(body.value);
        && |ValuesSamples(members)| == |env.node.value.meta.metrics|
        && r.calls[|r.calls| - 2] == Update(match LastTimestamp(members)
                                            case Some(ms) => MsToSeconds(ms)
                                            case None => env.now,
                                            ValuesSamples(members))
  {
    var r := PostValues(cfg, id, body, env);
    if r.status == Created {
      var members := Children(body.value);
      var p := PostData(body.value, cfg.denyFuture, env.now, NoValues());
      PostDataAccepted(members, cfg.denyFuture, env.now, 0, NoValues());
      PostDataTimestamp(members, cfg.denyFuture, env.now, 0, NoValues());
      assert p.slots[..p.n] == ValuesSamples(members);
    }
  }

  /** GET of the values at a timestamp. `url` is the node and the requested
      timestamp. With rounding enabled, a timestamp the engine moved is
      answered with a redirect to the moved one. */
  function GetValues(cfg: Config, url: Option<(nat, int)>, env: Env): (r: Response)
    requires env.Valid()
    ensures url.Some? && env.node.Some? ==> ClosesHandle(r.calls)
    ensures r.status in {OK, Found, NotFound, Forbidden, InternalServerError}
    ensures url.None? ==> r == Reply(NotFound, [])
    ensures url.Some? && env.node.None? ==> r == Reply(NotFound, [Open(url.value.0)])
    ensures url.Some? && env.node.Some? && !Allowed(KEY_READ, env) ==> r.status == Forbidden
    ensures url.Some? && Allowed(KEY_READ, env) && env.fetch.rc < 0 ==>
      r.status == (if env.fetch.rc == -ENOENT then NotFound else InternalServerError)
    ensures url.Some? && Allowed(KEY_READ, env) && env.fetch.rc >= 0 && cfg.roundUrls && env.fetch.timestamp != url.value.1 ==>
      r.status == (if env.allocOk then Found else InternalServerError)
    ensures r.status == OK <==>
      && url.Some? && Allowed(KEY_READ, env)
      && env.fetch.rc >= 0 && !(cfg.roundUrls && env.fetch.timestamp != url.value.1)
    ensures r.status == OK ==>
      && r.body == ValuesReport(env.fetch.timestamp * 1000, env.fetch.values[..|env.node.value.meta.metrics|])
      && ClosesHandle(r.calls)
    ensures r.status == Found ==>
      url.Some? && cfg.roundUrls && r.location == Some(Location(url.value.0, env.fetch.timestamp)) && env.fetch.timestamp != url.value.1
  {
    if url.None? then Reply(NotFound, [])
    else
      var (id, timestamp) := url.value;
      match Admit(id, KEY_READ, GET, env)
      case Rejected(resp) => resp
      case Admitted(node, calls) =>
        var calls := calls + [Fetch(timestamp), Close];
        if env.fetch.rc < 0 then
          Reply(if env.fetch.rc == -ENOENT then NotFound else InternalServerError, calls)
        else if cfg.roundUrls && env.fetch.timestamp != timestamp then
          if !env.allocOk then Reply(InternalServerError, calls)
          else Response(Found, Some(Location(id, env.fetch.timestamp)), NoBody, calls)
        else
          Response(OK, None, ValuesReport(env.fetch.timestamp * 1000, env.fetch.values[..|node.meta.metrics|]), calls)
  }

  // ---------------------------------------------------------------------
  // Series

  /** The series query parameters; None where absent (or not a number). */
  datatype SeriesParams = SeriesParams(start: Option<int>, end: Option<int>, npoints: Option<nat>)

  function OrElse<T>(o: Option<T>, default: T): T
  {
    if o.Some? then o.value else default
  }

  /** The engine query of a series request: absent bounds are
      NO_TIMESTAMP, an absent point count is the default. */
  function SeriesQueryOf(metric: nat, q: SeriesParams): (c: Call)
    ensures c.SeriesQuery? && c.metric == metric
    ensures c.start == (if q.start.Some? then q.start.value else NO_TIMESTAMP)
    ensures c.end == (if q.end.Some? then q.end.value else NO_TIMESTAMP)
    ensures c.npoints == (if q.npoints.Some? then q.npoints.value else DEFAULT_SERIES_NPOINTS)
  {
    SeriesQuery(metric, OrElse(q.start, NO_TIMESTAMP), OrElse(q.end, NO_TIMESTAMP), OrElse(q.npoints, DEFAULT_SERIES_NPOINTS))
  }

  /** What the output loop leaves of a series text in the fixed buffer.
      The text and its terminator fit only below BUF_SIZE characters. Each
      snprintf advances the write position by the length it meant to write,
      so a longer text ends with a recorded size past the buffer (and, once
      the position passes the end, a size that wraps and writes past it),
      and a text of exactly BUF_SIZE characters loses its last "]". */
  function SeriesOutput(text: string): (b: Body)
    ensures b == SeriesText(text) <==> |text| < BUF_SIZE
    ensures b.Overflow? <==> |text| >= BUF_SIZE
  {
    if |text| < BUF_SIZE then SeriesText(text) else Overflow(|text|)
  }

  /** The part of get-series after the access check, from the point buffer
      allocation on. `closeOnAllocFailure` says whether a failed point
      buffer allocation closes the node; `wholeText` whether the answer is
      the whole text, as an output buffer sized to it would give, rather
      than what the fixed buffer holds. */
  function SeriesAfterAdmit(id: nat, metric: nat, q: SeriesParams, calls: seq<Call>,
                            format: Formats, env: Env, closeOnAllocFailure: bool, wholeText: bool): (r: Response)
    requires env.Valid()
  {
    if !env.pointsAllocOk then
      Reply(InternalServerError, if closeOnAllocFailure then calls + [Close] else calls)
    else
      var calls := calls + [SeriesQueryOf(metric, q), Close];
      if env.series.rc < 0 then
        Reply(if env.series.rc == -ENOENT then NotFound else InternalServerError, calls)
      else if !env.allocOk then Reply(InternalServerError, calls)
      else
        var text := Framed(PointTexts(env.series.points[..env.series.rc], format));
        Response(OK, None, if wholeText then SeriesText(text) else SeriesOutput(text), calls)
  }

  /** GET of a series, as written: a failed point buffer allocation returns
      500 with the node still open, and the answer is what the fixed output
      buffer holds. `url` is the node and the metric; `format` stands for
      the number conversions of a point's text. */
  function GetSeries(url: Option<(nat, nat)>, q: SeriesParams, format: Formats, env: Env): (r: Response)
    requires env.Valid()
    ensures url.Some? && env.node.Some? && env.pointsAllocOk ==> ClosesHandle(r.calls)
    ensures r.status in {OK, NotFound, Forbidden, InternalServerError}
    ensures url.None? ==> r == Reply(NotFound, [])
    ensures url.Some? && env.node.None? ==> r == Reply(NotFound, [Open(url.value.0)])
    ensures url.Some? && env.node.Some? && !Allowed(KEY_READ, env) ==> r.status == Forbidden
    ensures url.Some? && Allowed(KEY_READ, env) && !env.pointsAllocOk ==>
      r.status == InternalServerError && Close !in r.calls
    ensures url.Some? && Allowed(KEY_READ, env) && env.pointsAllocOk ==>
      r.status == (if env.series.rc == -ENOENT then NotFound
                   else if env.series.rc < 0 then InternalServerError
                   else if !env.allocOk then InternalServerError
                   else OK)
    ensures r.status == OK <==>
      && url.Some? && Allowed(KEY_READ, env)
      && env.pointsAllocOk && env.series.rc >= 0 && env.allocOk
    ensures r.status == OK ==>
      && r.body == SeriesOutput(Framed(PointTexts(env.series.points[..env.series.rc], format)))
      && ClosesHandle(r.calls) && |r.calls| >= 2
      && r.calls[|r.calls| - 2] == SeriesQueryOf(url.value.1, q)
  {
    if url.None? then Reply(NotFound, [])
    else
      match Admit(url.value.0, KEY_READ, GET, env)
      case Rejected(resp) => resp
      case Admitted(_, calls) => SeriesAfterAdmit(url.value.0, url.value.1, q, calls, format, env, false, false)
  }

  /** GET of a series with the node closed on every path after it was
      opened. */
  function GetSeriesClosing(url: Option<(nat, nat)>, q: SeriesParams, format: Formats, env: Env): (r: Response)
    requires env.Valid()
    ensures url.Some? && env.node.Some? ==> ClosesHandle(r.calls)
    ensures r.status == GetSeries(url, q, format, env).status && r.body == GetSeries(url, q, format, env).body
  {
    if url.None? then Reply(NotFound, [])
    else
      match Admit(url.value.0, KEY_READ, GET, env)
      case Rejected(resp) => resp
      case Admitted(_, calls) => SeriesAfterAdmit(url.value.0, url.value.1, q, calls, format, env, true, false)
  }

  /** GET of a series with both corrections: the node is closed on every
      path after it was opened, and the answer is the whole series text
      whatever its length. */
  function GetSeriesCorrected(url: Option<(nat, nat)>, q: SeriesParams, format: Formats, env: Env): (r: Response)
    requires env.Valid()
    ensures url.Some? && env.node.Some? ==> ClosesHandle(r.calls)
    ensures r.status == GetSeries(url, q, format, env).status
    ensures r.status == OK ==> r.body == SeriesText(Framed(PointTexts(env.series.points[..env.series.rc], format)))
    ensures env.series.rc < 0 || |Framed(PointTexts(env.series.points[..env.series.rc], format))| < BUF_SIZE ==>
      r == GetSeriesClosing(url, q, format, env)
  {
    if url.None? then Reply(NotFound, [])
    else
      match Admit(url.value.0, KEY_READ, GET, env)
      case Rejected(resp) => resp
      case Admitted(_, calls) => SeriesAfterAdmit(url.value.0, url.value.1, q, calls, format, env, true, true)
  }

  /** As written, a series of enough points to pass the output buffer is
      answered 200 with an Overflow rather than its text, however short the
      numbers print; the corrected handler answers the whole text. */
  lemma SeriesOverflows(id: nat, metric: nat, q: SeriesParams, format: Formats, env: Env)
    requires env.Valid() && Allowed(KEY_READ, env) && env.pointsAllocOk && env.allocOk
    requires env.series.rc * (POINT_FRAME + 2) >= BUF_SIZE
    ensures var r := GetSeries(Some((id, metric)), q, format, env);
      r.status == OK && r.body.Overflow?
    ensures var text := Framed(PointTexts(env.series.points[..env.series.rc], format));
      GetSeriesCorrected(Some((id, metric)), q, format, env).body == SeriesText(text)
  {
    FramedLength(env.series.points[..env.series.rc], format);
  }

  /** As written, get-series leaves the node open when the point buffer
      cannot be allocated. */
  lemma GetSeriesLeaksOnAllocFailure(id: nat, metric: nat, format: Formats, env: Env)
    requires env.Valid() && env.node.Some? && env.node.value.KeyOf(KEY_READ).None? && !env.pointsAllocOk
    ensures var r := GetSeries(Some((id, metric)), SeriesParams(None, None, None), format, env);
      r.status == InternalServerError && r.calls == [Open(id)] && !ClosesHandle(r.calls)
  {
  }

  // ---------------------------------------------------------------------
  // Properties across handlers

  /** The per-node key is consulted only when it is set: without it, the
      access check neither looks at the signature nor records a check. */
  lemma AdmitWithoutKey(id: nat, keyid: nat, verb: Verb, env: Env)
    requires env.node.Some? && env.node.value.KeyOf(keyid).None?
    ensures Admit(id, keyid, verb, env) == Admit(id, keyid, verb, env.(signatureOk := !env.signatureOk))
    ensures Admit(id, keyid, verb, env) == Admitted(env.node.value, [Open(id)])
  {
  }

  /** Without a read key, get-node does not depend on the signature and
      makes no key check. */
  lemma GetNodeWithoutKey(id: Option<nat>, env: Env)
    requires env.node.Some? && env.node.value.KeyOf(KEY_READ).None?
    ensures GetNode(id, env) == GetNode(id, env.(signatureOk := !env.signatureOk))
    ensures CheckKey(KEY_READ, GET) !in GetNode(id, env).calls
  {
    if id.Some? {
      AdmitWithoutKey(id.value, KEY_READ, GET, env);
    }
  }

  /** The same for redirect-latest. */
  lemma RedirectLatestWithoutKey(id: Option<nat>, env: Env)
    requires env.node.Some? && env.node.value.KeyOf(KEY_READ).None?
    ensures RedirectLatest(id, env) == RedirectLatest(id, env.(signatureOk := !env.signatureOk))
    ensures CheckKey(KEY_READ, GET) !in RedirectLatest(id, env).calls
  {
    if id.Some? {
      AdmitWithoutKey(id.value, KEY_READ, GET, env);
    }
  }

  /** The same for get-values. */
  lemma GetValuesWithoutKey(cfg: Config, url: Option<(nat, int)>, env: Env)
    requires env.Valid() && env.node.Some? && env.node.value.KeyOf(KEY_READ).None?
    ensures GetValues(cfg, url, env) == GetValues(cfg, url, env.(signatureOk := !env.signatureOk))
    ensures CheckKey(KEY_READ, GET) !in GetValues(cfg, url, env).calls
  {
    if url.Some? {
      AdmitWithoutKey(url.value.0, KEY_READ, GET, env);
    }
  }

  /** The same for get-series. */
  lemma GetSeriesWithoutKey(url: Option<(nat, nat)>, q: SeriesParams, format: Formats, env: Env)
    requires env.Valid() && env.node.Some? && env.node.value.KeyOf(KEY_READ).None?
    ensures GetSeries(url, q, format, env) == GetSeries(url, q, format, env.(signatureOk := !env.signatureOk))
    ensures CheckKey(KEY_READ, GET) !in GetSeries(url, q, format, env).calls
  {
    if url.Some? {
      AdmitWithoutKey(url.value.0, KEY_READ, GET, env);
    }
  }

  /** Without a write key, post-values does not depend on the signature and
      makes no key check. */
  lemma PostValuesWithoutKey(cfg: Config, id: Option<nat>, body: Option<Item>, env: Env)
    requires env.node.Some? && env.node.value.KeyOf(KEY_WRITE).None?
    ensures PostValues(cfg, id, body, env) == PostValues(cfg, id, body, env.(signatureOk := !env.signatureOk))
    ensures CheckKey(KEY_WRITE, POST) !in PostValues(cfg, id, body, env).calls
  {
    if id.Some? {
      AdmitWithoutKey(id.value, KEY_WRITE, POST, env);
    }
  }

  /** A set key whose signature check fails gives 403, and the node is
      closed right after the check. */
  lemma FailedKeyCheckCloses(cfg: Config, id: nat, ts: int, metric: nat, q: SeriesParams,
                             body: Item, format: Formats, env: Env)
    requires env.Valid() && env.node.Some? && !env.signatureOk
    ensures env.node.value.KeyOf(KEY_READ).Some? ==>
      && GetNode(Some(id), env) == Reply(Forbidden, [Open(id), CheckKey(KEY_READ, GET), Close])
      && RedirectLatest(Some(id), env) == Reply(Forbidden, [Open(id), CheckKey(KEY_READ, GET), Close])
      && GetValues(cfg, Some((id, ts)), env) == Reply(Forbidden, [Open(id), CheckKey(KEY_READ, GET), Close])
      && GetSeries(Some((id, metric)), q, format, env) == Reply(Forbidden, [Open(id), CheckKey(KEY_READ, GET), Close])
    ensures env.node.value.KeyOf(KEY_WRITE).Some? && PostData(body, cfg.denyFuture, env.now, NoValues()).rc == 0 ==>
      PostValues(cfg, Some(id), Some(body), env) == Reply(Forbidden, [Open(id), CheckKey(KEY_WRITE, POST), Close])
  {
  }

  /** Admin operations check the admin signature before anything else: a
      failed check is 403 with no other call, whatever the request. */
  lemma AdminCheckedFirst(cfg: Config, id: Option<nat>, url: Option<(nat, string)>, body: Option<Item>,
                          decode: string -> Option<seq<bv8>>, env: Env)
    requires !env.adminOk
    ensures CreateNode(id, body, env) == Reply(Forbidden, [CheckAdmin(PUT)])
    ensures cfg.enableDelete ==> DeleteNode(cfg, id, env) == Reply(Forbidden, [CheckAdmin(DELETE)])
    ensures GetKeys(env) == Reply(Forbidden, [CheckAdmin(GET)])
    ensures GetKey(url, env) == Reply(Forbidden, [CheckAdmin(GET)])
    ensures PutKey(url, body, decode, env) == Reply(Forbidden, [CheckAdmin(PUT)])
  {
  }
}
