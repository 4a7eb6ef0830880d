# timestore HTTP front end, modelled in Dafny

This project models the HTTP front end of timestore, a small time-series store. The front end turns REST requests into calls on a storage engine.

- **Current front end** (`src/http_tsdb.c`). It has seven JSON body parsers:
  - the value array of a point;
  - the body of a point submission;
  - the options of one metric definition;
  - the metric definitions of a node;
  - the decimation ladder of a node;
  - the body of a node definition;
  - the body of a key update.

  It also has eleven request handlers: list nodes, get node, create node, delete node, list key names, get key, put key, redirect to latest point, post a point, get values at a timestamp, and get a series.
- **Older front end** (`http_tsdb.c`). It has the same two value parsers, stub node handlers and the same point handlers without signature checks.

How the model is built:

- **Parsers.** Each parser is a pure function over the parsed JSON tree (`Json.Item`). The function gives the state the walk leaves: the return code, counters and slot contents. Beside it, a method performs the source's walk on arrays and is proved to leave exactly that state. Lemmas then state, for all inputs, what each parser accepts and what it writes.
- **Handlers.** Each handler is a function of three things: the parsed URL (None when the URL's `sscanf` fails), the parsed body (None when the text is not JSON), and an environment `Env`. `Env` stands for everything outside the file: the signature checks, the engine's answers, the clock and the allocator.
- **Responses.** A handler returns the HTTP status, the Location header, the response record and the sequence of calls it made (open, key check, engine call, close). This trace is what lets the contracts state:
  - the order of the checks;
  - that a node is created only after every check has passed;
  - that every path that opens a node handle closes it exactly once.

## Model

| member | source | states |
|---|---|---|
| HttpTsdbParsers.AppendValues | src/http_tsdb.c:73-100 | the value walk only appends after the given count, never past MAX_METRICS slots, and fails only with -EINVAL |
| HttpTsdbParsers.AppendValuesAccepts | src/http_tsdb.c:79-97 | the value parser returns 0 exactly when every item is null or a number and the items fit in the slots that are left |
| HttpTsdbParsers.AppendValuesOnePerItem | src/http_tsdb.c:84-96 | an accepted array writes one slot per item, in order (null gives the missing marker, a number gives its value), and leaves every other slot unchanged |
| HttpTsdbParsers.AppendValuesSamples | src/http_tsdb.c:79-97 | an accepted array leaves the slots before the count, then its samples in order, then the slots after them |
| HttpTsdbParsers.ParseValueArray | src/http_tsdb.c:73-100 | the in-place loop over the value array leaves exactly the return code, count and slots of the value walk |
| HttpTsdbParsers.MsToSeconds | src/http_tsdb.c:126 | a millisecond timestamp becomes whole seconds truncated toward zero, bounded on both sides for either sign |
| HttpTsdbParsers.PostDataFrom | src/http_tsdb.c:102-134 | the body walk keeps the count within MAX_METRICS and the slot array at its size |
| HttpTsdbParsers.Relevant | src/http_tsdb.c:110-111 | the members the body parser looks at are exactly the named members with a name of interest |
| HttpTsdbParsers.PostDataSkipsOthers | src/http_tsdb.c:109-133 | unnamed members and members with other names have no effect on the body parser |
| HttpTsdbParsers.PostDataKeepsDefaultTimestamp | src/http_tsdb.c:115-126 | without a "timestamp" member the caller's default timestamp survives, whatever the outcome |
| HttpTsdbParsers.PostDataRejectsBadTimestamp | src/http_tsdb.c:115-119 | a non-numeric "timestamp" member anywhere makes the parse fail, with -EINVAL when the future-post policy is off |
| HttpTsdbParsers.PostDataAccepted | src/http_tsdb.c:102-134 | an accepted body appends exactly the samples of its "values" members, in member order, after the given count and changes no other slot |
| HttpTsdbParsers.PostDataTimestamp | src/http_tsdb.c:115-126 | an accepted body's timestamp is its last numeric "timestamp" in seconds, or the default |
| HttpTsdbParsers.LastTimestampCons | src/http_tsdb.c:109-126 | reading front to back, a later numeric "timestamp" replaces an earlier one |
| HttpTsdbParsers.ParsePostData | src/http_tsdb.c:102-134 | the in-place body loop leaves exactly the return code, timestamp, count and slots of the body walk |
| HttpTsdbParsers.LastSettingCons | src/http_tsdb.c:155-180 | for the mode and interval members, the last one wins |
| HttpTsdbParsers.LastSettingInRange | src/http_tsdb.c:159-180 | when every member of a name is in 0..max, the resulting setting is too |
| HttpTsdbParsers.ApplyOptions | src/http_tsdb.c:155-181 | the option walk of one metric keeps the slot index and the slot sizes, and fails only with -EINVAL |
| HttpTsdbParsers.ApplyOptionsResult | src/http_tsdb.c:155-181 | one metric's options are accepted exactly when every pad/downsample member is a number in 0..(1<<MASK)-1; then only slot k changes, and it takes the last settings |
| HttpTsdbParsers.DefineMetrics | src/http_tsdb.c:136-188 | the metrics walk never counts past MAX_METRICS, keeps the slot sizes, and fails only with -EINVAL |
| HttpTsdbParsers.DefineMetricsAccepts | src/http_tsdb.c:145-186 | the metrics parser returns 0 exactly when the definitions fit in MAX_METRICS and each one's options are valid |
| HttpTsdbParsers.DefineMetricsSlots | src/http_tsdb.c:145-186 | an accepted metrics array defines one metric per definition and leaves the slots outside them unchanged |
| HttpTsdbParsers.DefineMetricsSettings | src/http_tsdb.c:150-185 | each defined metric gets its definition's last pad and downsample settings, defaulting to Unknown and Mean |
| HttpTsdbParsers.DefineMetricsInRange | src/http_tsdb.c:164-179 | every metric an accepted array defines has modes within range |
| HttpTsdbParsers.ParseMetricOptions | src/http_tsdb.c:155-181 | the in-place inner loop leaves exactly the state of the option walk |
| HttpTsdbParsers.ParseMetrics | src/http_tsdb.c:136-188 | the in-place metrics loop leaves exactly the return code, count and slots of the metrics walk |
| HttpTsdbParsers.ParseLadderFrom | src/http_tsdb.c:190-217 | the ladder walk keeps MAX_LAYERS slots and fails only with -EINVAL |
| HttpTsdbParsers.ParseLadderResult | src/http_tsdb.c:190-217 | the ladder parser accepts exactly arrays of at most MAX_LAYERS non-negative numbers; it writes them in order and leaves the other slots unchanged |
| HttpTsdbParsers.ParseDecimation | src/http_tsdb.c:190-217 | the in-place ladder loop leaves exactly the return code and slots of the ladder walk |
| HttpTsdbParsers.NodeDataFrom | src/http_tsdb.c:219-253 | the node-definition walk keeps the definition well shaped and fails only with -EINVAL |
| HttpTsdbParsers.NodeDataResult | src/http_tsdb.c:219-253 | a node definition is accepted exactly when every member is acceptable; then the interval is the last "interval" and the metric count is the size of the last "metrics" array |
| HttpTsdbParsers.NodeDataModesInRange | src/http_tsdb.c:246-249 | an accepted node definition defines only metrics whose modes are in range |
| HttpTsdbParsers.LastMember | src/http_tsdb.c:227-250 | the member that decides a setting is a member of the body, with that name |
| HttpTsdbParsers.LastMemberCons | src/http_tsdb.c:227-250 | reading front to back, a later member of a name replaces an earlier one |
| HttpTsdbParsers.NodeDataModes | src/http_tsdb.c:246-249 | an accepted node definition defines one metric per definition of its last "metrics" array, each with that definition's last pad and downsample settings or Unknown and Mean; with no "metrics" the caller's count and modes stay |
| HttpTsdbParsers.Overlay | src/http_tsdb.c:197-208 | slot j of the overlay is entry j where there is one, else the old slot j |
| HttpTsdbParsers.LadderOverlay | src/http_tsdb.c:190-217 | an accepted decimation array is its entries written over the ladder from the first layer, higher layers kept |
| HttpTsdbParsers.NodeDataLadder | src/http_tsdb.c:242-245 | an accepted node definition carries the ladder its "decimation" members write, each over the previous, in member order |
| HttpTsdbParsers.ParseNodeData | src/http_tsdb.c:219-253 | the in-place node-definition loop leaves exactly the state of the walk |
| HttpTsdbParsers.ParseKeyData | src/http_tsdb.c:255-274 | the key-body parser returns 0 exactly when every "key" member is a string; then the key is the last such string, or the caller's |
| HttpTsdbHelpers.KeyIdOf | src/http_tsdb.c:66-69 | a key name maps to an identifier no greater than the number of key names |
| HttpTsdbHelpers.KeyIdOfIgnoresCase | src/http_tsdb.c:487-490 | key lookup ignores case: names differing only in case find the same key, and a found key's name matches |
| HttpTsdbHelpers.FindKeyId | src/http_tsdb.c:486-494 | the lookup loop returns the first key whose name matches without regard to case, or the key count when none does |
| HttpTsdbHelpers.NonZeroPrefix | src/http_tsdb.c:327-330 | the entries before the first zero: a prefix with no zero that stops at the first zero |
| HttpTsdbHelpers.Ladder | src/http_tsdb.c:327-331 | the reported ladder is the non-zero prefix of the first MAX_LAYERS slots |
| HttpTsdbHelpers.LadderLength | src/http_tsdb.c:327-331 | the ladder-length loop counts exactly the reported ladder |
| HttpTsdbHelpers.ReportedLadder | src/http_tsdb.c:190-217 | a ladder accepted at creation is read back as the request's entries before its first zero |
| HttpTsdbHelpers.JoinSnoc | src/http_tsdb.c:901-906 | appending a point text to a non-empty list adds exactly one ", " separator |
| HttpTsdbHelpers.PointText | src/http_tsdb.c:902-904 | a point's text is its millisecond timestamp's and its value's texts plus six characters of frame ("[ ", ", ", " ]") |
| HttpTsdbHelpers.PointTexts | src/http_tsdb.c:901-907 | one text per point, in order, each the point's own text |
| HttpTsdbHelpers.JoinLength | src/http_tsdb.c:901-907 | joining texts of at least m characters takes at least m + 2 characters per text, less one separator |
| HttpTsdbHelpers.FramedLength | src/http_tsdb.c:900-908 | a series text is at least eight characters per point, whatever the numbers print |
| HttpTsdbHelpers.RenderSeries | src/http_tsdb.c:900-908 | the output loop means to produce "[", the point texts separated by ", " with none after the last, then "]" |
| HttpTsdbHandlers.RejectStatus | src/http_tsdb.c:380-382 | a rejected body gets 403 exactly when the parser returned -EACCES, and 400 otherwise, including a body that is not JSON |
| HttpTsdbHandlers.RejectStatusAsWritten | src/http_tsdb.c:378-382 | as written, the status of a body that is not JSON depends on the uninitialised rc |
| HttpTsdbHandlers.UnparsedBodyStatus | src/http_tsdb.c:686-690 | as written, a body that is not JSON can get 403 or 400; the corrected choice is always 400 |
| HttpTsdbHandlers.Admit | src/http_tsdb.c:303-319 | open the node (404 if absent); check the signature only when the key is set; a failed check is 403 with the node closed; the request goes on exactly when the node exists and its key is unset or verifies |
| HttpTsdbHandlers.GetNodes | src/http_tsdb.c:276-284 | listing nodes is 404 and calls nothing |
| HttpTsdbHandlers.GetNode | src/http_tsdb.c:286-349 | an unparsable URL or an absent node is 404, a failed read-key check 403 after a close; 200 exactly when the node opens and passes the check; the record holds interval, start in ms, size, ladder and modes; the handle is closed once |
| HttpTsdbHandlers.CreateNode | src/http_tsdb.c:351-399 | the admin check comes first (403); an unparsable URL is 404; a body refused by the parser or with a zero interval or metric count is 400 with no engine call; otherwise create is called for the URL's node, and 200 or 403 follows its answer |
| HttpTsdbHandlers.CreateNodeDecision | src/http_tsdb.c:351-399 | create is called exactly for an admin request with a valid body whose last interval and last metrics count are non-zero; it gets that interval and the ladder the "decimation" members write over an all-zero one |
| HttpTsdbHandlers.CreateNodeMetrics | src/http_tsdb.c:377-395 | a created node gets one metric per definition of the last "metrics" array, in order, with each definition's last pad and downsample settings (Unknown and Mean by default), all in range |
| HttpTsdbHandlers.DeleteNode | src/http_tsdb.c:401-431 | only 200, 403 or 404; 403 when deletion is disabled or the admin check fails; an unparsable URL is 404 with no engine call; otherwise the engine delete decides between 200 and 404 |
| HttpTsdbHandlers.GetKeys | src/http_tsdb.c:433-459 | admin only; the key names in identifier order |
| HttpTsdbHandlers.GetKey | src/http_tsdb.c:461-525 | admin only; an unparsable URL or unknown key name is 404 before the node is opened, an absent node 404 after; 200 exactly for a known key name (any case) of an existing node; the key is reported and the node closed |
| HttpTsdbHandlers.KeyUpdate | src/http_tsdb.c:579-585 | a decoded key is accepted exactly when it is empty (clear) or KEY_LENGTH bytes long (set to those bytes) |
| HttpTsdbHandlers.PutKey | src/http_tsdb.c:527-608 | admin only; an unparsable URL or unknown key name is 404; a missing body, a non-string key, no key or a key of the wrong decoded size is 400 with the node never opened; a valid key sets or clears the key and closes the node (200), or is 404 when the node is absent |
| HttpTsdbHandlers.RedirectLatest | src/http_tsdb.c:610-661 | an unparsable URL or absent node is 404, a failed read check 403; once admitted: no point is 404, a failed header allocation 500, otherwise 302 to the latest point's URL; closed once |
| HttpTsdbHandlers.PostAfterParse | src/http_tsdb.c:692-736 | after the body is accepted: an absent node is 404, a failed write check 403; a value count unlike the node's metric count is 400 with no update; then -ENOENT from the update is 400, another error 500, a failed header allocation 500, otherwise 201 |
| HttpTsdbHandlers.PostValues | src/http_tsdb.c:663-737 | an unparsable URL is 404; the body is parsed before the node is opened and a rejected body makes no call; an accepted one goes on as PostAfterParse; 201 carries the stored timestamp's URL, after an update with the parsed values; closed once |
| HttpTsdbHandlers.PostValuesPoint | src/http_tsdb.c:692-736 | a created point is the samples of the body's "values" members in order, one per metric of the node, at the last numeric "timestamp" in seconds or the current time |
| HttpTsdbHandlers.GetValues | src/http_tsdb.c:739-817 | an unparsable URL or absent node is 404, a failed read check 403; once admitted: -ENOENT is 404, another error 500; with rounding on, a moved timestamp gets 302 to the moved URL, or 500 when the header cannot be allocated; otherwise 200 with the timestamp in ms and one value per metric; closed once |
| HttpTsdbHandlers.SeriesOutput | src/http_tsdb.c:894-914 | the fixed buffer answers the series text exactly when it is shorter than BUF_SIZE, and an Overflow otherwise |
| HttpTsdbHandlers.GetSeries | src/http_tsdb.c:822-917 | as written: an unparsable URL or absent node is 404, a failed read check 403; once admitted, a failed point allocation is 500 with the node left open; -ENOENT is 404, another error 500, a failed output allocation 500; otherwise 200 with what the fixed buffer holds of the framed points: the text below BUF_SIZE characters, an Overflow from there |
| HttpTsdbHandlers.GetSeriesCorrected | src/http_tsdb.c:876-914 | closes on every path, has the same status as GetSeries, answers 200 with the whole framed text of any length, and equals GetSeriesClosing whenever the text fits |
| HttpTsdbHandlers.SeriesOverflows | src/http_tsdb.c:900-914 | as written, a series of at least BUF_SIZE / 8 points is answered 200 with an Overflow however short its numbers print; the corrected handler answers its whole text |
| HttpTsdbHandlers.GetSeriesClosing | src/http_tsdb.c:876-881 | same status and body as GetSeries, with the node closed on every path after it was opened |
| HttpTsdbHandlers.GetSeriesLeaksOnAllocFailure | src/http_tsdb.c:876-881 | as written, a failed point allocation returns 500 without closing the node |
| HttpTsdbHandlers.AdmitWithoutKey | src/http_tsdb.c:310-319 | with no key set, the access check neither looks at the signature nor records a check |
| HttpTsdbHandlers.GetNodeWithoutKey | src/http_tsdb.c:310-319 | without a read key, get-node does not depend on the signature |
| HttpTsdbHandlers.RedirectLatestWithoutKey | src/http_tsdb.c:634-642 | without a read key, redirect-latest does not depend on the signature |
| HttpTsdbHandlers.GetValuesWithoutKey | src/http_tsdb.c:767-775 | without a read key, get-values does not depend on the signature |
| HttpTsdbHandlers.GetSeriesWithoutKey | src/http_tsdb.c:866-874 | without a read key, get-series does not depend on the signature |
| HttpTsdbHandlers.PostValuesWithoutKey | src/http_tsdb.c:704-712 | without a write key, post-values does not depend on the signature |
| HttpTsdbHandlers.FailedKeyCheckCloses | src/http_tsdb.c:310-319 | a set key with a failed signature gives 403 after open, check and close, in every node handler |
| HttpTsdbHandlers.AdminCheckedFirst | src/http_tsdb.c:363-369 | a failed admin signature gives 403 with no other call, in every admin handler |
| LegacyHttpTsdb.ParseValueArray | http_tsdb.c:51-77 | the older value loop leaves exactly the state of the same value walk |
| LegacyHttpTsdb.PostDataFromAsWritten | http_tsdb.c:79-110 | the older body walk faults at an unnamed member; otherwise it keeps the count and slot sizes |
| LegacyHttpTsdb.AgreesWhenNamed | http_tsdb.c:79-110 | when every member is named, the older body parser gives what the newer one does |
| LegacyHttpTsdb.UnnamedMemberFaults | http_tsdb.c:86-101 | the body `[1]` faults in the older parser and is accepted by the newer one |
| LegacyHttpTsdb.ParsePostData | http_tsdb.c:79-110 | on a body it does not fault on, the older in-place loop leaves exactly the state of its walk |
| LegacyHttpTsdb.GetNodes | http_tsdb.c:112-120 | listing nodes is 404 with no call |
| LegacyHttpTsdb.GetNode | http_tsdb.c:122-129 | reading a node is 404 with no call |
| LegacyHttpTsdb.CreateNode | http_tsdb.c:131-138 | creating a node is 404 with no call |
| LegacyHttpTsdb.RedirectLatest | http_tsdb.c:140-179 | no access check; 302 to the latest point exactly when the node opens, has a point and the header is allocated |
| LegacyHttpTsdb.PostValues | http_tsdb.c:181-245 | no access check; a fault exactly for an unnamed member; an unparsable URL or absent node is 404; a value count unlike the node's is 400 with no update; then -ENOENT is 400, another error 500, a failed header allocation 500, otherwise 201 with the stored timestamp's URL |
| LegacyHttpTsdb.GetValues | http_tsdb.c:247-313 | no access check; 200 with one value per metric, the rounding redirect, and 404 on -ENOENT; closed once |
| LegacyHttpTsdb.Unsigned32 | http_tsdb.c:368 | an int stored in an unsigned 32-bit variable: unchanged if non-negative, plus 2^32 if negative |
| LegacyHttpTsdb.GetSeriesAsWritten | http_tsdb.c:318-402 | as written: never refuses once the buffers allocate and the node opens, whatever the engine answered |
| LegacyHttpTsdb.GetSeries | http_tsdb.c:368-373 | the engine's answer checked as signed: -ENOENT gives 404, another error 500, a count gives what the fixed buffer holds of the framed points |
| LegacyHttpTsdb.MissingMetricAnsweredOK | http_tsdb.c:368-391 | as written, a missing metric is not refused: the output loop runs for 4294967294 points, past the points returned and past the output buffer (undefined behaviour, the Overrun body); corrected, it is 404 |
| LegacyHttpTsdb.SeriesAgreeOnCounts | http_tsdb.c:368-391 | when the engine returns a count, the as-written and corrected series handlers agree |
| LegacyHttpTsdb.ReadsAgreeWithoutKey | http_tsdb.c:140-313 | without a read key, the older redirect-latest and get-values answer as the newer ones do |
| LegacyHttpTsdb.PostAgreesWithoutKey | http_tsdb.c:181-245 | without a write key and with every member named, the older post handler answers as the newer one does |

## Left out

- The storage engine (`tsdb_open`, `tsdb_create`, `tsdb_update_values`, `tsdb_get_values`, `tsdb_get_series`, key storage) is not part of this model. Its answers are fields of `Env`, and the handlers record the calls they make. The older variant's extra open arguments (metric count, flags) are not modelled.
- LegacyHttpTsdb.PostValues: the older post handler passes the parsed value count to `tsdb_open` (http_tsdb.c:216), where the other older handlers pass 0 with the comment that a missing node is not to be created (http_tsdb.c:155-156); the post therefore probably asks the engine to create a missing node with that many metrics. The model records a plain `Open` and reads the outcome from the same `env.node` answer as the newer handler, so neither it nor LegacyHttpTsdb.PostAgreesWithoutKey captures node creation by the older post.
- JSON text parsing and printing (cJSON) are not modelled. A body is the tree the parser produced, or None. Responses are records, not text.
- Several routines are oracles: signature verification (HMAC over the request), base64 decoding, `time(NULL)` and `malloc`. They appear as fields of `Env` or as function parameters.
- The `sscanf` URL and query parsing is not modelled. The handlers take the parsed node, key name, timestamp or metric, or None. They also take the query's start, end and point count.
- The two number conversions of a series point, the `%` PRIi64 text of its millisecond timestamp and the `%f` text of its value, are the parameter `format` (HttpTsdbHelpers.Formats) of RenderSeries and the series handlers. The point's own frame "[ ", ", ", " ]" and the separators are modelled. The fixed output buffer is modelled by its size only: a text that does not fit is answered as Overflow with its length, not as the bytes that end up written and sent.
- Floating point is modelled with exact reals.
  - The conversion of a millisecond timestamp to whole seconds is exact division truncated toward zero (HttpTsdbParsers.MsToSeconds).
  - The `tsdb_data_t` cast of a value and the `(double)` arithmetic of get-node's start time are not modelled; the start is reported as an exact `startTime * 1000`.
- Integers are unbounded, so a 64-bit overflow of `timestamp * 1000` is not modelled. The only width that is modelled is the older get-series storing a signed count in an unsigned variable (LegacyHttpTsdb.Unsigned32).
- The limits and enumeration values of the engine's header (MAX_METRICS, MAX_LAYERS, the pad and downsample masks, the defaults, NO_TIMESTAMP, the key length) are not part of this model. `Tsdb` gives them stand-in values, and every property is stated in terms of the names.
- HttpTsdbHandlers.GetNode: reports the stored per-metric modes directly. It does not model extracting them from the flag word with `(flags >> SHIFT) & MASK`. The source is not consistent about the masks: creation accepts a mode up to `(1 << MASK) - 1` (src/http_tsdb.c:165, 176), using MASK as a bit width, while get-node reports `& MASK` (src/http_tsdb.c:335-336), using it as a mask. The two agree only when MASK is 1; with any wider mask, an accepted mode above MASK could not be reported back as set. The engine's header, which fixes MASK, is not part of this model, so this is not claimed as a finding.
- HttpTsdbHandlers.CreateNode: a body that is not JSON is 400, the corrected choice of the first finding; the source's status there depends on an uninitialised `rc` (HttpTsdbHandlers.RejectStatusAsWritten).
- HttpTsdbHandlers.PostValues: a body that is not JSON is 400, the corrected choice of the first finding; as written its status depends on an uninitialised `rc` (HttpTsdbHandlers.RejectStatusAsWritten).
- LegacyHttpTsdb.PostValues: a body that is not JSON is 400, the corrected choice of the first finding; as written its status depends on an uninitialised `rc` (HttpTsdbHandlers.RejectStatusAsWritten).
- HttpTsdbHandlers.CreateNode: mode slots the parser never wrote are zero in the model. In the source they are uninitialised, and they are passed on only for metrics that exist.
- Admin key generation and storage (`http_tsdb_gen_admin_key`, src/http_tsdb.c:919-963) are not part of this model: they are file and random-number I/O.
- Logging, profiling and the content-type header are left out. So is freeing memory: a leaked buffer is not recorded, but a handle left open is.

## Findings

| source | as written | input that shows it | evidently intended | confidence | as-written member | corrected member |
|---|---|---|---|---|---|---|
| src/http_tsdb.c:380-382 (also 688-690, and http_tsdb.c:206-208) | when `cJSON_Parse` fails, `rc` is never assigned but is compared with -EACCES to choose the status | a body that is not JSON, while the uninitialised `rc` happens to hold -EACCES | a body that is not JSON is always 400 | not executed | HttpTsdbHandlers.UnparsedBodyStatus | HttpTsdbHandlers.RejectStatus |
| src/http_tsdb.c:876-881 | when the point buffer cannot be allocated, get-series returns 500 without `tsdb_close` | an existing node with no read key, and a failed point allocation | the node is closed on every path after it is opened | not executed | HttpTsdbHandlers.GetSeriesLeaksOnAllocFailure | HttpTsdbHandlers.GetSeriesClosing |
| http_tsdb.c:368-391 | the engine's signed answer is stored in the unsigned `npoints`, so the `< 0` error branch can never be taken; a negative answer becomes a count near 2^32, and the output loop reads past `points` and, its `snprintf` size having wrapped, writes past `outbuf`: undefined behaviour | a series request for a metric the node lacks (the engine returns -ENOENT) | 404 for a missing metric, 500 for another error | not executed | LegacyHttpTsdb.MissingMetricAnsweredOK | LegacyHttpTsdb.GetSeries |
| src/http_tsdb.c:900-914 (also http_tsdb.c:384-399) | each `snprintf` advances `bufptr` by the length it meant to write, with no check against the fixed 1 MiB buffer | a series of 131 072 points or more (fewer with longer numbers), asked for with the `npoints` query: its text passes BUF_SIZE, the recorded response size passes the buffer and, once `bufptr` is past the end, the size argument wraps and later points are written past `outbuf` | the whole series text is answered, with a buffer sized to it | not executed | HttpTsdbHandlers.SeriesOverflows | HttpTsdbHandlers.GetSeriesCorrected |
| http_tsdb.c:86-101 | `strcmp` is called on each member's name without checking for NULL | the body `[1]`, whose only element has no name | unnamed members are skipped, as the newer parser does | not executed | LegacyHttpTsdb.UnnamedMemberFaults | HttpTsdbParsers.PostDataFrom |
