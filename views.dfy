/** The read and write paths of `DropView`: which drops a GET or HEAD selects
    and which status it answers with, and the validation chain of a POST that
    ends in appending one drop to the store. */
module Views {
  import opened Bytes
  import opened Seqs
  import opened Drops
  import opened Multipart

  /** The responses the view produces: an error with its HTTP status and the
      message of its JSON body, 204 No Content, 304 Not Modified, or 200 OK. */
  datatype Response = Error(status: int, message: string) | NoContent | NotModified | Ok

  const InvalidDropId: Response := Error(400, "Invalid drop id")
  const BadAuthorization: Response := Error(400, "Bad authorization")
  const NoMessage: Response := Error(400, "No message provided")
  const TooLarge: Response := Error(413, "Message too large")

  /** The only Authorization header value a POST accepts. */
  const ClientQabel: string := "Client Qabel"

  /** `get_if_modified_since`: a cursor exists only when the If-Modified-Since
      header is present and non-empty; `parse` stands for dateparser.parse. */
  function IfModifiedSince(header: Option<string>, parse: string -> Timestamp): (r: Option<Timestamp>)
    ensures r.Some? <==> header.Some? && header.value != ""
    ensures r.Some? ==> r.value == parse(header.value)
  {
    if header.Some? && header.value != "" then Some(parse(header.value)) else None
  }

  /** What `_get_drops` hands back: a response to send as it is, or the drops to send. */
  datatype Selection = Respond(response: Response) | Selected(drops: seq<Drop>)

  /** `_get_drops`: reject a bad id before looking at the store; 204 when
      nothing is stored for the id (with or without a cursor); with a cursor,
      keep only drops strictly newer than it, and 304 if that leaves none. */
  function GetDrops(store: seq<Drop>, dropId: string, isValidId: string -> bool,
                    header: Option<string>, parse: string -> Timestamp): (r: Selection)
    ensures r == Respond(InvalidDropId) <==> !isValidId(dropId)
    ensures r == Respond(NoContent) <==> isValidId(dropId) && ForId(store, dropId) == []
    ensures r.Respond? ==> r.response in {InvalidDropId, NoContent, NotModified}
    ensures r.Selected? <==>
      isValidId(dropId) && ForId(store, dropId) != [] &&
      (IfModifiedSince(header, parse).None? ||
       exists d :: d in store && d.dropId == dropId && d.createdAt > IfModifiedSince(header, parse).value)
    ensures r.Selected? ==> r.drops != [] && r.drops == Visible(store, dropId, IfModifiedSince(header, parse))
    ensures r.Selected? ==> isValidId(dropId) && forall d :: d in r.drops <==>
      d in store && d.dropId == dropId &&
      (IfModifiedSince(header, parse).Some? ==> d.createdAt > IfModifiedSince(header, parse).value)
    ensures r == Respond(NotModified) <==>
      isValidId(dropId) && ForId(store, dropId) != [] && IfModifiedSince(header, parse).Some? &&
      forall d :: d in store && d.dropId == dropId ==> d.createdAt <= IfModifiedSince(header, parse).value
  {
    if !isValidId(dropId) then Respond(InvalidDropId)
    else
      var drops := ForId(store, dropId);
      if drops == [] then Respond(NoContent)
      else
        match IfModifiedSince(header, parse)
        case None =>
          ChainedQueries(store, dropId, 0);
          Selected(drops)
        case Some(since) =>
          ChainedQueries(store, dropId, since);
          var newer := NewerThan(drops, since);
          if newer == [] then
            assert forall d :: d in drops ==> d.createdAt <= since;
            Respond(NotModified)
          else
            assert exists d :: d in store && d.dropId == dropId && d.createdAt > since by {
              assert newer[0] in newer;
            }
            Selected(newer)
  }

  /** `head`: the same error, 204 or 304 as a GET, and otherwise an empty 200. */
  function Head(store: seq<Drop>, dropId: string, isValidId: string -> bool,
                header: Option<string>, parse: string -> Timestamp): (r: Response)
    ensures r in {InvalidDropId, NoContent, NotModified, Ok}
    ensures r == Ok <==> GetDrops(store, dropId, isValidId, header, parse).Selected?
    ensures r != Ok ==> GetDrops(store, dropId, isValidId, header, parse) == Respond(r)
  {
    match GetDrops(store, dropId, isValidId, header, parse)
    case Respond(response) => response
    case Selected(_) => Ok
  }

  /** What `get` answers: a plain response, or a streamed multipart body with its content type. */
  datatype Reply = Plain(response: Response) | Stream(contentType: string, body: seq<seq<byte>>)

  /** `get`: the selection's response as it is, or the selected drops as a
      multipart/mixed stream framed with `boundary` (a fresh uuid4 in the
      source, a parameter here). The chunks read back as the selected drops;
      so do the bytes a client receives, when the boundary collides with no
      stored message. */
  function Get(store: seq<Drop>, dropId: string, isValidId: string -> bool,
               header: Option<string>, parse: string -> Timestamp,
               boundary: string, httpDate: Timestamp -> string): (r: Reply)
    ensures r.Plain? <==> GetDrops(store, dropId, isValidId, header, parse).Respond?
    ensures r.Plain? ==> r.response == GetDrops(store, dropId, isValidId, header, parse).response
    ensures r.Stream? ==> r.contentType == "multipart/mixed; boundary=\"" + boundary + "\""
    ensures r.Stream? ==>
      DecodeBody(r.body, Encode(boundary)) ==
        Some(Expected(GetDrops(store, dropId, isValidId, header, parse).drops, httpDate))
    ensures (r.Stream? &&
             forall d :: d in store ==> '\r' !in httpDate(d.createdAt) && Separated(d.message, Encode(boundary))) ==>
      ReadStream(Concat(r.body), Encode(boundary)) ==
        Some(Expected(GetDrops(store, dropId, isValidId, header, parse).drops, httpDate))
  {
    match GetDrops(store, dropId, isValidId, header, parse)
    case Respond(response) => Plain(response)
    case Selected(drops) =>
      DecodeGeneratedBody(drops, Encode(boundary), httpDate);
      assert (forall d :: d in store ==> '\r' !in httpDate(d.createdAt) && Separated(d.message, Encode(boundary))) ==>
        ReadStream(Concat(Body(drops, Encode(boundary), httpDate)), Encode(boundary)) == Some(Expected(drops, httpDate)) by {
        if forall d :: d in store ==> '\r' !in httpDate(d.createdAt) && Separated(d.message, Encode(boundary)) {
          ReadGeneratedStream(drops, Encode(boundary), httpDate);
        }
      }
      Stream("multipart/mixed; boundary=\"" + boundary + "\"", Body(drops, Encode(boundary), httpDate))
  }

  /** The answer `post` gives: the first failing check in the order id,
      authorization, empty body, size; an empty 200 when all pass. A body of
      exactly `sizeLimit` bytes is accepted. */
  function PostResponse(dropId: string, isValidId: string -> bool, authorization: Option<string>,
                        body: Option<seq<byte>>, sizeLimit: nat): (r: Response)
    ensures r in {InvalidDropId, BadAuthorization, NoMessage, TooLarge, Ok}
    ensures r == InvalidDropId <==> !isValidId(dropId)
    ensures r == BadAuthorization <==> isValidId(dropId) && authorization != Some(ClientQabel)
    ensures r == NoMessage <==>
      isValidId(dropId) && authorization == Some(ClientQabel) && (body == None || body == Some([]))
    ensures r == TooLarge <==>
      isValidId(dropId) && authorization == Some(ClientQabel) && body.Some? && body.value != [] &&
      |body.value| > sizeLimit
    ensures r == Ok <==>
      isValidId(dropId) && authorization == Some(ClientQabel) && body.Some? && body.value != [] &&
      |body.value| <= sizeLimit
  {
    if !isValidId(dropId) then InvalidDropId
    else if authorization != Some(ClientQabel) then BadAuthorization
    else if body == None || body == Some([]) then NoMessage
    else if |body.value| > sizeLimit then TooLarge
    else Ok
  }

  /** The view over the drop store. `store` is every drop created so far, in
      creation order; `isValidId` stands for check_drop_id and `sizeLimit` for
      the MESSAGE_SIZE_LIMIT setting. */
  class DropView {
    var store: seq<Drop>
    const isValidId: string -> bool
    const sizeLimit: nat

    constructor (isValidId: string -> bool, sizeLimit: nat, store: seq<Drop>)
      ensures this.isValidId == isValidId && this.sizeLimit == sizeLimit && this.store == store
    {
      this.isValidId := isValidId;
      this.sizeLimit := sizeLimit;
      this.store := store;
    }

    /** `post`: answers with the first failed check and leaves the store alone,
        or creates exactly one drop (stamped `now`, the store's clock) with the
        given id and message and answers with an empty 200. */
    method Post(dropId: string, authorization: Option<string>, body: Option<seq<byte>>, now: Timestamp)
      returns (r: Response)
      modifies this
      ensures r == PostResponse(dropId, isValidId, authorization, body, sizeLimit)
      ensures r == Ok ==> body.Some? && store == old(store) + [Drop(dropId, now, body.value)]
      ensures r != Ok ==> store == old(store)
    {
      if !isValidId(dropId) {
        return InvalidDropId;
      }
      if authorization != Some(ClientQabel) {
        return BadAuthorization;
      }
      if body == None || body == Some([]) {
        return NoMessage;
      }
      var message := body.value;
      if |message| > sizeLimit {
        return TooLarge;
      }
      store := store + [Drop(dropId, now, message)];
      return Ok;
    }
  }

  /** A write followed by reads. After a successful post of `message` to a
      valid id, a read without a cursor selects the earlier drops for the id
      and then the new one; if the id had no drops, the body carries exactly
      that message. A read whose cursor parses to the new drop's creation time
      (and so to no earlier time than any drop for the id) answers 304. */
  lemma {:induction false} PostThenRead(store: seq<Drop>, dropId: string, isValidId: string -> bool,
                                        message: seq<byte>, sizeLimit: nat, now: Timestamp,
                                        parse: string -> Timestamp, cursor: string,
                                        boundary: string, httpDate: Timestamp -> string)
    requires PostResponse(dropId, isValidId, Some(ClientQabel), Some(message), sizeLimit) == Ok
    requires forall d :: d in store && d.dropId == dropId ==> d.createdAt <= now
    requires cursor != "" && parse(cursor) == now
    ensures var after := store + [Drop(dropId, now, message)];
      GetDrops(after, dropId, isValidId, None, parse) == Selected(ForId(store, dropId) + [Drop(dropId, now, message)])
      && (ForId(store, dropId) == [] ==>
            Get(after, dropId, isValidId, None, parse, boundary, httpDate).Stream?
            && DecodeBody(Get(after, dropId, isValidId, None, parse, boundary, httpDate).body, Encode(boundary))
               == Some([ReadPart(Encode(httpDate(now)), message)]))
      && GetDrops(after, dropId, isValidId, Some(cursor), parse) == Respond(NotModified)
  {
    var d := Drop(dropId, now, message);
    var after := store + [d];
    ForIdAfterAppend(store, d, dropId);
    assert ForId(after, dropId) == ForId(store, dropId) + [d];
    if ForId(store, dropId) == [] {
      assert ForId(after, dropId) == [d];
      assert Expected([d], httpDate) == [ReadPart(Encode(httpDate(now)), message)];
    }
    assert forall x :: x in after && x.dropId == dropId ==> x.createdAt <= now;
  }
}
