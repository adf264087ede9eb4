# qabel-drop core in Dafny

A model of the drop service: clients POST opaque messages to a drop id and
GET (or HEAD) every message ever posted there, optionally only those newer
than an `If-Modified-Since` date. New drops are announced through
notification backends.

The model covers:

- **Selection** (`Views.GetDrops`, `Views.Head`, `Views.Get`): the answer to
  a read is 400 "Invalid drop id" for an id `check_drop_id` rejects, 204 when
  nothing is stored for the id, 304 when the `If-Modified-Since` cursor
  filters out every stored drop, and otherwise the selected drops.
- **Write validation** (`Views.PostResponse`, `Views.DropView.Post`): bad id,
  bad authorization, missing or empty body, oversize body (413), in that
  order. Only when all four checks pass is exactly one drop appended to the
  store.
- **Multipart body** (`Multipart.GenerateBody`): four chunks per drop and a
  closing delimiter. A chunk reader (`Multipart.DecodeBody`) is proved to
  recover every date and message in order. So is a byte reader
  (`Multipart.ReadStream`) that splits the concatenated bytes on the
  delimiter, provided the boundary occurs in no message.
- **Notification backends** (`Notify`): the FCM topic message, which carries
  only the drop id, and the classification of provider errors into the
  monitoring label. Also the Redis pub/sub frame (header lines, a blank line,
  the raw message) published once on `prefix + drop_id`, with a reader
  (`Notify.ParseFrame`) proved to recover the header lines and the message.

Files and modules:

- `bytes.dfy`: module `Bytes`. Bytes, UTF-8 `str.encode()` and `b''.join`.
- `seqs.dfy`: module `Seqs`. Option, order-preserving filter, `str.join`,
  prefix and suffix helpers.
- `drops.dfy`: module `Drops`. The Drop record and the two store queries.
- `multipart.dfy`: module `Multipart`. The `generate_body` generator.
- `views.dfy`: module `Views`. `_get_drops`, `get_if_modified_since`, `head`,
  `get` and `post`.
- `notify.dfy`: module `Notify`. `FCM` and `Redis`.

Opaque collaborators are parameters:

- `isValidId` stands for `check_drop_id`.
- `parse` stands for `dateparser.parse`.
- `httpDate` stands for `formatdate(mktime(...))`.
- `latest` and `lastModified` stand for `str(utc_timestamp(...))` and `strftime`.
- `now` is the creation time the store assigns.
- `boundary` stands for the uuid4 string.
- A provider call's outcome is a `ProviderOutcome` argument.

Timestamps are integers: only their order matters. The store is the sequence
of all drops in creation order, and a query for an id keeps that order.

Reads take one cursor, the `If-Modified-Since` header. An id with no stored
drops answers 204 even when a cursor is sent, because the emptiness check
comes before the cursor is read. A POST is rejected unless the Authorization
header is exactly `Client Qabel`.

## Model

| member | source | states |
|---|---|---|
| `Bytes.Encode` | drop_service/views.py:94 | `.encode()` turns each character into 1 to 4 bytes |
| `Bytes.EncodeAppend` | drop_service/notify.py:72 | encoding a concatenation gives the concatenation of the encodings |
| `Bytes.EncodeOmits` | drop_service/notify.py:67-72 | an ASCII byte such as '\n' or '\r' appears in an encoding only where the text has that character |
| `Bytes.ConcatAppend` | drop_service/views.py:92-101 | the bytes of a chunk stream split in two are the bytes of each half, one after the other |
| `Drops.ForId` | drop_service/views.py:38 | the query for an id holds exactly the stored drops with that id |
| `Drops.NewerThan` | drop_service/views.py:44 | `created_at__gt` keeps exactly the drops strictly newer than the cursor; a cursor at or after every drop keeps none |
| `Drops.NewerThanAfterAppend` | drop_service/views.py:44 | a drop appended after the others joins the end of the newer-than selection exactly when it is newer than the cursor; the earlier selection keeps its order and multiplicities |
| `Drops.ChainedQueries` | drop_service/views.py:38-44 | filtering by id and then by `created_at__gt` selects the same drops, in the same order and with the same multiplicities, as one pass keeping drops with the id that are newer than the cursor |
| `Drops.ForIdAfterAppend` | drop_service/views.py:81 | creating a drop appends it to its own id's query and leaves other ids' queries unchanged |
| `Views.IfModifiedSince` | drop_service/views.py:85-90 | a cursor exists exactly when the header is present and non-empty, and it is the parsed header |
| `Views.GetDrops` | drop_service/views.py:33-48 | "Invalid drop id" exactly when the id is rejected, whatever the store holds; 204 exactly when the id is valid and nothing is stored for it, with or without a cursor; drops are selected exactly when some are stored for the id and there is no cursor or one of them is newer than it; the selection is the stored drops for the id strictly newer than the cursor, in store order with their multiplicities, never empty; 304 exactly when drops exist and none is newer than the cursor |
| `Views.Head` | drop_service/views.py:64-66 | the same error, 204 or 304 as the selection, and an empty 200 exactly when drops are selected |
| `Views.Get` | drop_service/views.py:50-62 | the selection's response unchanged, or a multipart stream whose content type names the boundary and whose chunks read back as the selected drops' dates and messages; when no stored date holds '\r' and the boundary collides with no stored message, so do its bytes |
| `Views.PostResponse` | drop_service/views.py:68-83 | each rejection happens exactly when the earlier checks pass and its own fails, in the order id, authorization, empty or missing body, length over the limit (413); a body of exactly the limit is accepted |
| `Views.DropView.Post` | drop_service/views.py:68-83 | answers as `PostResponse`; on 200 the store gains exactly one drop with the given id, time and message; on any rejection the store is unchanged |
| `Views.PostThenRead` | drop_service/views.py:33-83 | after a successful post, a read without a cursor selects the earlier drops for the id followed by the new one; if there were none, the body carries exactly the new message; a cursor parsing to the new drop's time gives 304 |
| `Multipart.Parts` | drop_service/views.py:95-100 | four chunks per drop |
| `Multipart.GenerateBody` | drop_service/views.py:92-101 | the loop yields, for each drop in order, its delimiter, content-type, date and payload chunks, then the closing delimiter |
| `Multipart.BodyShape` | drop_service/views.py:95-101 | a body has 4 chunks per drop plus 1; chunk 4i+j is chunk j of drop i; the last chunk is `--boundary--\r\n`, also for no drops |
| `Multipart.PayloadChunk` | drop_service/views.py:100 | drop i's fourth chunk is its message unchanged followed by `\r\n` |
| `Multipart.DecodeGeneratedBody` | drop_service/views.py:93-101 | reading a generated body back yields each drop's rendered date and message, unchanged and in order |
| `Multipart.DateEnds` | drop_service/views.py:97 | a rendered date without a carriage return ends at the first blank line after it |
| `Multipart.MessageEnds` | drop_service/views.py:98-101 | a message the boundary does not collide with ends at the first delimiter after it |
| `Multipart.ReadPartStep` | drop_service/views.py:95-98 | the bytes of one part in front of the rest of a body read as that part's date and message, then whatever the rest reads as |
| `Multipart.ReadGeneratedStream` | drop_service/views.py:93-101 | reading the concatenated bytes of a generated body back, splitting on the delimiter, yields each drop's rendered date and message, unchanged and in order, when no date holds '\r' and the boundary collides with no message |
| `Notify.TopicMessageFor` | drop_service/notify.py:44-55 | the topic is the drop id and the data message has the single key `drop-id`, mapped to the drop id |
| `Notify.TopicMessageWithholdsContent` | drop_service/notify.py:45-48 | the topic message depends on the drop id only: the message bytes never reach the push provider |
| `Notify.Classify` | drop_service/notify.py:51-57 | the label stays 'None' when the call returns; an instance of one of the four caught classes yields its class name and does not propagate; any other exception propagates |
| `Notify.ClassifyProviderError` | drop_service/notify.py:56-57 | each of the four classes is caught and labelled with its own name |
| `Notify.FcmNotifier.constructor` | drop_service/notify.py:35-39 | a new backend has submitted nothing and sent nothing |
| `Notify.FcmNotifier.Notify` | drop_service/notify.py:41-42 | `notify` only submits the drop to the executor; no provider call is made |
| `Notify.FcmNotifier.Deliver` | drop_service/notify.py:44-58 | `_notify` makes exactly one provider call, with the drop's topic message, and ends as `Classify` says |
| `Notify.FrameLayout` | drop_service/notify.py:66-74 | the frame is `X-Qabel-Latest: ts`, one `\n`, `Last-Modified: date`, `\n\n` and the message; it ends with the message |
| `Notify.RedisNotifier.constructor` | drop_service/notify.py:62-64 | a new backend keeps the configured prefix and has published nothing |
| `Notify.RedisNotifier.Notify` | drop_service/notify.py:66-75 | exactly one publish per call, on channel `prefix + drop_id`, carrying the frame |
| `Notify.ParseFrameRoundTrip` | drop_service/notify.py:67-75 | when neither header value contains '\n', splitting the frame at its first blank line recovers both header lines and the message unmodified |

## Left out

- HTTP plumbing is not modelled: view dispatch, `csrf_exempt`, `HttpResponse` objects, and the JSON error body beyond its message and status.
- `set_last_modified` and `drops.latest()` are not modelled. `util.py` and `models.py` are not part of this model, so the `Last-Modified` header of a GET is not stated.
- `check_drop_id` is an arbitrary predicate parameter. Its alphabet is defined in `util.py`, which is not part of this model.
- `dateparser.parse` is a total function parameter. A parse failure (`None`) is not modelled, because the code has no handling for it.
- `formatdate`/`mktime`, `strftime` and `utc_timestamp` are opaque rendering functions. Their float epoch arithmetic and time zones are out of scope.
- `Multipart.ReadGeneratedStream`: the byte-level round trip holds only when the boundary collides with no message and no rendered date holds '\r'. The source relies on a random uuid4 boundary for the first; RFC 2822 dates hold no '\r'.
- `uuid.uuid4()` is left out because it is random. The boundary is a parameter.
- `Multipart.GenerateBody` returns the whole chunk sequence. The generator's laziness is not captured, only its chunks and their order.
- Logging of a caught provider error (`self._logger.exception` in `FCM._notify`) is left out because it only records the error. The model keeps the error's class name as the monitoring label.
- Monitoring counters and `monitor_duration` timing are left out because they only record observations.
- The `ThreadPoolExecutor` is not modelled as concurrency. `FcmNotifier.Notify` records a submission, and `FcmNotifier.Deliver` is the task the executor runs at an unspecified later time.
- The network clients (`FCMNotification`, `StrictRedis`) are recorded calls (`sent`, `published`). Their own failures are not modelled. For FCM, the outcome of the call is a parameter. A Redis publish error would propagate, and that path is not modelled.
- `get_notificators` is left out because it loads classes dynamically from settings.
- The fixed framing byte literals (`b'--'`, `b'Content-Type: application/octet-stream\r\n'`, ...) are written as byte sequences, not as the encoding of text.
