# Charging-station event relay: allow-list, routing and reconnect model

`producer.py` relays real-time charging-station events from a websocket feed
to an SQS queue. It forwards only the events whose station is on an
allow-list. This project models the script's three pieces of decision logic
in Dafny and proves properties of them:

- **Allow-list loading** (`load_target_stations`), module `AllowList` in
  `allow_list.dfy`. The input starts from a tokenised CSV file: a header
  record, the data records, and the index of the record at which reading
  raised, if any. A file can also be missing. Rows are assembled the way
  `csv.DictReader` does it. Header names are stripped first. A record whose
  `evse_uid` value is truthy contributes that value stripped with Python's
  `str.strip()` (its whitespace set is written out in `IsSpace`). The loader
  is a loop method. It is proved equal to `Load`, a recursive definition that
  adds one record's contribution at a time. `GatheredMembers` and
  `LoadMembers` give its set-builder reading, and the listed properties are
  lemmas about `Load`.
- **Routing** (`on_message`), module `Routing` in `routing.dfy`. The model
  works on what `json.loads` returned. `Route` decides to forward, skip or
  reject one message. Class `Relay` holds the target set and the record of
  every call to the queue's send. `Relay.OnMessage` appends exactly the
  sends `Route` calls for.
- **Reconnect supervisor** (`start_streaming` / `on_close`), module
  `Reconnect` in `reconnect.dfy`. The source retries by recursion. Here class
  `Supervisor` has one step method per external event (a token result, a
  connection close) and a loop `Run`. Every sleep and every connection is
  recorded in `log`. While the supervisor is requesting a token, the log
  equals the pure function `Trace` of the token results received. While a
  connection is open, the log is the trace of the earlier results followed
  by that connection.
- Module `Producer` in `producer.dfy` connects a loaded list to the routing
  decision. `Wrappers` holds `Option` and Python truthiness of an optional
  string.

Consequences the model makes precise:

- A whitespace-only `evse_uid` value is truthy. It therefore adds `""` to
  the targets. Every object message without `evseUId` defaults to `""`, so
  from then on all such messages are forwarded.
- A missing file yields an empty set, and then nothing is ever sent.

The model follows the code in these respects:

- The body sent is `json.dumps` of the decoded object, not the raw inbound
  text.
- Matching is exact membership only. There is no prefix mode.
- The field names `evse_uid` and `evseUId` are fixed.
- The delays are the constants 30 s and 10 s. No attempt counter or backoff
  state exists.

## Model

| member | source | states |
|---|---|---|
| AllowList.LoadTargetStations | producer.py:20-55 | the loop's set equals `Load(src)`: empty for a missing file, otherwise the stripped truthy `evse_uid` values of the records read before any failure, under stripped headers |
| AllowList.TrimLeftSpec | producer.py:47 | trimming the left end gives the longest suffix not starting with whitespace; everything dropped is whitespace |
| AllowList.TrimRightSpec | producer.py:47 | trimming the right end gives the longest prefix not ending with whitespace; everything dropped is whitespace |
| AllowList.StripIsTrimmedSlice | producer.py:47 | `strip()` returns one contiguous slice of its input with only whitespace removed around it and no whitespace left at either end, so no other normalisation is applied |
| AllowList.StripOfTrimmed | producer.py:47 | a value with no whitespace at either end is unchanged by `strip()` |
| AllowList.StripIdempotent | producer.py:41 | stripping twice equals stripping once |
| AllowList.StripAllSpace | producer.py:46-47 | a value made only of whitespace strips to `""` |
| AllowList.RowDictKeys | producer.py:43-45 | a row dictionary has exactly the header names as keys |
| AllowList.RowDictValues | producer.py:43-45 | a name maps to the cell under its last column, or to None when the record is shorter than the header |
| AllowList.GatheredStep | producer.py:43-47 | reading one more record adds its stripped value when that value is truthy, and nothing when it is missing, None or empty |
| AllowList.GatheredMembers | producer.py:43-47 | the record-by-record set holds exactly the values some record contributes (the set-builder reading of the loop) |
| AllowList.LoadMembers | producer.py:20-55 | an id is loaded iff the file exists and a record read before any failure contributes it |
| AllowList.LoadedRecord | producer.py:45-47 | when reading does not fail, every record with a present non-empty `evse_uid` value contributes that value stripped |
| AllowList.LoadedComesFromRecord | producer.py:45-47 | every loaded id comes from a record whose `evse_uid` value is truthy, so a missing file contributes nothing |
| AllowList.PaddedHeaderFound | producer.py:40-45 | header names are stripped before the lookup, so a column headed with surrounding spaces (e.g. ` evse_uid `) is still the identifier column |
| AllowList.BlankValueAddsEmpty | producer.py:45-47 | a whitespace-only value passes the truthiness test and adds `""` |
| AllowList.LoadedAreTrimmed | producer.py:47 | every loaded id has no whitespace at either end |
| AllowList.FailureKeepsPrefix | producer.py:53-55 | a failure at record k returns exactly the ids of the first k records, a subset of the full file's ids |
| AllowList.RecordOrderIrrelevant | producer.py:43-47 | the result depends only on which records occur, not on their order or repetition |
| Routing.ForwardedIffMember | producer.py:76-86 | a message is forwarded iff it decodes to an object whose `evseUId` string, defaulting to `""`, is in the target set; the body is the re-serialised decoded object |
| Routing.MissingIdIsEmpty | producer.py:78-81 | an object without `evseUId` is forwarded iff `""` is a target |
| Routing.NoMatchNoSend | producer.py:81-89 | an identifier not exactly in the target set (case included) is skipped with no send |
| Routing.RejectedNoSend | producer.py:74-92 | a decode failure, a non-object payload, or a list or object `evseUId` (unhashable at the membership test) is rejected with the matching error, and no rejected message causes a send |
| Routing.SendsAppend | producer.py:74-92 | the sends of a stream are the sends of its parts in order: handling a message depends on nothing but that message |
| Routing.BadMessageContained | producer.py:91-92 | a malformed message inside a stream leaves the sends of the messages around it unchanged |
| Routing.SendsAreForwardedBodies | producer.py:83-86 | exactly one send per forwarded message, so never more sends than messages; as a set, the sends are the forwarded bodies |
| Routing.SendsCount | producer.py:81-86 | the number of sends in a stream equals the number of its messages that are forwarded |
| Routing.Relay.constructor | producer.py:57-58 | the relay starts with the given target set and no sends |
| Routing.Relay.OnMessage | producer.py:74-92 | appends exactly the sends `Route` calls for (one re-serialised body on a match, none otherwise) and contains every failure, a refused send included, in its outcome |
| Reconnect.TraceAppend | producer.py:97-108 | the trace of consecutive token results is the concatenation of their traces, so delays do not depend on the number of earlier attempts |
| Reconnect.TraceSnoc | producer.py:102-108 | one more token result appends exactly its own actions |
| Reconnect.WaitsAreFixed | producer.py:97-108 | every wait lasts 10 s right after a connection and 30 s otherwise; every connection is followed by its 10 s wait |
| Reconnect.FailuresThenSuccess | producer.py:102-108 | any k falsy token results (missing or empty) then a token give exactly k waits of 30 s, then the connection, then one 10 s wait |
| Reconnect.ClosesGiveEqualWaits | producer.py:97-100 | n good tokens whose connections each close give exactly n connections, the i-th with the i-th token, each followed by a 10 s wait, and nothing else |
| Reconnect.Supervisor.constructor | producer.py:120-121 | the supervisor starts by requesting a token with nothing logged |
| Reconnect.Supervisor.TokenResult | producer.py:102-111 | a missing or empty token logs a 30 s wait and stays requesting; a token logs the connection and starts streaming |
| Reconnect.Supervisor.ConnectionClosed | producer.py:97-100 | a close logs a 10 s wait and returns to requesting a fresh token |
| Reconnect.Supervisor.Round | producer.py:97-108 | one round (a token request, and the connection it opens running until it closes) extends `log` by exactly that token's actions and returns to requesting a token |
| Reconnect.Supervisor.Run | producer.py:97-108 | any finite run of token results leaves the supervisor requesting again with `log` extended by `Trace(tokens)` |
| Producer.BlankRowForwardsIdlessMessages | producer.py:45-81 | a whitespace-only `evse_uid` row makes every object message without `evseUId` forwarded |
| Producer.MissingListSendsNothing | producer.py:24-26 | with a missing allow-list file, no message is ever sent |

## Left out

- SQS client setup and the `send_message` call (producer.py:11-17, 83-86) are foreign calls. A send is recorded in `Relay.sent`, and whether the queue accepts it is the input `sendOk`.
- The token exchange via `requests.post` (producer.py:60-72) is network I/O. Its result is an input `Option<string>`. A non-string `accessToken` value is not modelled.
- The websocket connection, `run_forever`, and the ping interval and timeout (producer.py:111-118) are library-driven transport. The model keeps only the close event. A connection that fails to open also reaches `on_close` through the library, so it is covered by `ConnectionClosed`.
- Opening the file, UTF-8 BOM decoding and CSV tokenisation (producer.py:28-37) are library parsing. The model starts from the header record and data records. Blank lines, which the CSV reader skips, are not records. An empty file, which has no header, is an empty header with no records. An unreadable header is covered by a failure at record 0, which gives the same empty result.
- JSON decoding and encoding (producer.py:76, 85) are library calls. The input is the decoded value or a decode failure, and a body is `Dumps(value)`. Duplicate keys, number formats and text escapes are not modelled.
- `time.sleep` and every `print` are real time and logging. Sleeps are recorded as `Wait` actions. Diagnostics are dropped.
- Supervisor.Run: every connection is assumed to close before the next token request, as in the source. A final connection that stays open is the state `TokenResult` leaves. The source's call-stack growth is not modelled. Each retry is a nested call that never returns: `start_streaming` calls itself after a failed token (producer.py:107), and `on_close` calls it from inside the socket library's close callback (producer.py:100). The stack therefore deepens with every failure and every reconnect. Once Python's recursion limit is reached, a `RecursionError` escapes `start_streaming`, which has no handler (producer.py:102-108, 121), and the script stops retrying. The model's supervisor retries without bound instead.
- `on_error` (producer.py:94-95) only prints, so it is not modelled.
