/** The multipart/mixed response body of a drop read (`DropView.generate_body`):
    four chunks per drop, then a closing delimiter, a decoder that recovers
    each part's date and message from the chunk stream, and a reader that does
    the same from the bytes a client receives. */
module Multipart {
  import opened Bytes
  import opened Seqs
  import opened Drops

  // The fixed framing bytes, written out as the byte literals of the source.

  /** b'--' */
  const DashDash: seq<byte> := [45, 45]
  /** b'\r\n' */
  const LineBreak: seq<byte> := [13, 10]
  /** Second chunk of every part, b'Content-Type: application/octet-stream\r\n' */
  const ContentType: seq<byte> := [67, 111, 110, 116, 101, 110, 116, 45, 84, 121, 112, 101, 58, 32,
    97, 112, 112, 108, 105, 99, 97, 116, 105, 111, 110, 47, 111, 99, 116, 101, 116, 45, 115, 116, 114,
    101, 97, 109, 13, 10]
  /** b'Date: ' */
  const DatePrefix: seq<byte> := [68, 97, 116, 101, 58, 32]
  /** b'\r\n\r\n' */
  const HeadersEnd: seq<byte> := [13, 10, 13, 10]
  /** b'--\r\n' */
  const CloseSuffix: seq<byte> := [45, 45, 13, 10]

  /** First chunk of a part: `--boundary` and a line break. */
  function Delimiter(boundary: seq<byte>): seq<byte>
  {
    DashDash + boundary + LineBreak
  }

  /** Third chunk of a part: the Date header and the blank line that ends the part headers. */
  function DateLine(date: seq<byte>): seq<byte>
  {
    DatePrefix + date + HeadersEnd
  }

  /** Fourth chunk of a part: the stored message bytes, then a line break. */
  function PayloadLine(message: seq<byte>): seq<byte>
  {
    message + LineBreak
  }

  /** The last chunk of every body: `--boundary--` and a line break. */
  function CloseDelimiter(boundary: seq<byte>): seq<byte>
  {
    DashDash + boundary + CloseSuffix
  }

  /** The four chunks of one drop. `httpDate` renders a creation time as an
      RFC 2822 date (formatdate of mktime of the time tuple with localtime set,
      so in local time with a numeric UTC offset). */
  function Part(d: Drop, boundary: seq<byte>, httpDate: Timestamp -> string): seq<seq<byte>>
  {
    [Delimiter(boundary), ContentType, DateLine(Encode(httpDate(d.createdAt))), PayloadLine(d.message)]
  }

  /** The parts of all drops, in order. */
  function Parts(drops: seq<Drop>, boundary: seq<byte>, httpDate: Timestamp -> string): (r: seq<seq<byte>>)
    ensures |r| == 4 * |drops|
  {
    if drops == [] then [] else Part(drops[0], boundary, httpDate) + Parts(drops[1..], boundary, httpDate)
  }

  /** The whole chunk stream of a response body. */
  function Body(drops: seq<Drop>, boundary: seq<byte>, httpDate: Timestamp -> string): seq<seq<byte>>
  {
    Parts(drops, boundary, httpDate) + [CloseDelimiter(boundary)]
  }

  lemma {:induction false} PartsAppend(a: seq<Drop>, b: seq<Drop>, boundary: seq<byte>, httpDate: Timestamp -> string)
    ensures Parts(a + b, boundary, httpDate) == Parts(a, boundary, httpDate) + Parts(b, boundary, httpDate)
  {
    if a == [] {
      assert a + b == b;
    } else {
      assert (a + b)[0] == a[0];
      assert (a + b)[1..] == a[1..] + b;
      PartsAppend(a[1..], b, boundary, httpDate);
    }
  }

  /** `generate_body`: yields the four chunks of each drop in turn, then the
      closing delimiter. The boundary string is encoded once up front. */
  method GenerateBody(drops: seq<Drop>, boundary: string, httpDate: Timestamp -> string)
    returns (chunks: seq<seq<byte>>)
    ensures chunks == Body(drops, Encode(boundary), httpDate)
  {
    var b := Encode(boundary);
    chunks := [];
    for i := 0 to |drops|
      invariant chunks == Parts(drops[..i], b, httpDate)
    {
      PartsAppend(drops[..i], [drops[i]], b, httpDate);
      assert drops[..i + 1] == drops[..i] + [drops[i]];
      chunks := chunks + [Delimiter(b)];
      chunks := chunks + [ContentType];
      chunks := chunks + [DateLine(Encode(httpDate(drops[i].createdAt)))];
      chunks := chunks + [PayloadLine(drops[i].message)];
    }
    assert drops[..|drops|] == drops;
    chunks := chunks + [CloseDelimiter(b)];
  }

  /** Shape of a body: 4 chunks per drop plus one; chunk 4*i+j is chunk j of
      drop i's part; the last chunk is the closing delimiter, also when there
      are no drops. */
  lemma {:induction false} BodyShape(drops: seq<Drop>, boundary: seq<byte>, httpDate: Timestamp -> string)
    ensures |Body(drops, boundary, httpDate)| == 4 * |drops| + 1
    ensures Body(drops, boundary, httpDate)[4 * |drops|] == CloseDelimiter(boundary)
    ensures forall i, j :: 0 <= i < |drops| && 0 <= j < 4 ==>
      Body(drops, boundary, httpDate)[4 * i + j] == Part(drops[i], boundary, httpDate)[j]
  {
    PartsAt(drops, boundary, httpDate);
  }

  lemma {:induction false} PartsAt(drops: seq<Drop>, boundary: seq<byte>, httpDate: Timestamp -> string)
    ensures forall i, j :: 0 <= i < |drops| && 0 <= j < 4 ==>
      Parts(drops, boundary, httpDate)[4 * i + j] == Part(drops[i], boundary, httpDate)[j]
  {
    if drops != [] {
      PartsAt(drops[1..], boundary, httpDate);
      var ps := Parts(drops, boundary, httpDate);
      var rest := Parts(drops[1..], boundary, httpDate);
      assert ps == Part(drops[0], boundary, httpDate) + rest;
      forall i, j | 0 <= i < |drops| && 0 <= j < 4
        ensures ps[4 * i + j] == Part(drops[i], boundary, httpDate)[j]
      {
        if i > 0 {
          assert ps[4 * i + j] == rest[4 * (i - 1) + j];
          assert drops[i] == drops[1..][i - 1];
        }
      }
    }
  }

  /** The payload chunk of drop i is its message, unmodified, followed by CRLF. */
  lemma PayloadChunk(drops: seq<Drop>, boundary: seq<byte>, httpDate: Timestamp -> string, i: nat)
    requires i < |drops|
    ensures |Body(drops, boundary, httpDate)| > 4 * i + 3
    ensures Body(drops, boundary, httpDate)[4 * i + 3] == drops[i].message + LineBreak
  {
    BodyShape(drops, boundary, httpDate);
    assert Part(drops[i], boundary, httpDate)[3] == drops[i].message + LineBreak;
  }

  /** What a reader recovers from one part: the Date header value and the message. */
  datatype ReadPart = ReadPart(date: seq<byte>, message: seq<byte>)

  /** Reads a chunk stream back into its parts: groups of four chunks that have
      the part layout, ended by exactly the closing delimiter; None if the
      stream has any other shape. */
  function DecodeBody(chunks: seq<seq<byte>>, boundary: seq<byte>): Option<seq<ReadPart>>
    decreases |chunks|
  {
    if chunks == [CloseDelimiter(boundary)] then Some([])
    else if |chunks| >= 5 && chunks[0] == Delimiter(boundary) && chunks[1] == ContentType
      && |DatePrefix| + |HeadersEnd| <= |chunks[2]|
      && StartsWith(chunks[2], DatePrefix) && EndsWith(chunks[2], HeadersEnd)
      && EndsWith(chunks[3], LineBreak)
    then
      match DecodeBody(chunks[4..], boundary)
      case None => None
      case Some(rest) =>
        Some([ReadPart(Between(chunks[2], DatePrefix, HeadersEnd),
                       Between(chunks[3], [], LineBreak))] + rest)
    else None
  }

  /** What the parts of a body carry: each drop's rendered date and its message, in order. */
  function Expected(drops: seq<Drop>, httpDate: Timestamp -> string): (r: seq<ReadPart>)
    ensures |r| == |drops|
  {
    if drops == [] then []
    else [ReadPart(Encode(httpDate(drops[0].createdAt)), drops[0].message)] + Expected(drops[1..], httpDate)
  }

  /** Round trip: reading back a generated body yields every drop's date and
      message, unchanged and in the original order. */
  lemma {:induction false} DecodeGeneratedBody(drops: seq<Drop>, boundary: seq<byte>, httpDate: Timestamp -> string)
    ensures DecodeBody(Body(drops, boundary, httpDate), boundary) == Some(Expected(drops, httpDate))
  {
    var body := Body(drops, boundary, httpDate);
    if drops == [] {
      assert body == [CloseDelimiter(boundary)];
    } else {
      var d := drops[0];
      var date := Encode(httpDate(d.createdAt));
      var rest := Body(drops[1..], boundary, httpDate);
      assert body == Part(d, boundary, httpDate) + rest;
      assert |body| >= 5;
      assert body[4..] == rest;
      BetweenOfWrapped(DatePrefix, date, HeadersEnd);
      BetweenOfWrapped([], d.message, LineBreak);
      assert [] + d.message + LineBreak == body[3];
      DecodeGeneratedBody(drops[1..], boundary, httpDate);
    }
  }

  /** The first occurrence of `pattern` in `s` is at `k` when it occurs there and nowhere before. */
  lemma FindFirst(s: seq<byte>, pattern: seq<byte>, k: nat)
    requires OccursAt(s, pattern, k)
    requires forall j :: 0 <= j < k ==> !OccursAt(s, pattern, j)
    ensures Find(s, pattern) == Some(k)
  {
  }

  /** The line break, dashes and boundary that open every delimiter after the
      first one, and so mark where a message ends (section 5.1.1 of RFC 2046). */
  function Separator(boundary: seq<byte>): seq<byte>
  {
    LineBreak + DashDash + boundary
  }

  /** The boundary does not collide with `message`: the separator that follows
      the message in the body occurs nowhere earlier in the message and its
      separator. A fresh uuid4 boundary makes this overwhelmingly likely, which
      is all the source relies on. */
  predicate Separated(message: seq<byte>, boundary: seq<byte>)
  {
    forall j :: 0 <= j < |message| ==> !OccursAt(message + Separator(boundary), Separator(boundary), j)
  }

  /** Reads the bytes of a body back into its parts. A part is the delimiter
      line, the content-type line and `Date: `, then the date up to the first
      blank line, then the message up to the first separator; the stream ends
      with exactly the closing delimiter. None if the bytes have any other shape. */
  function ReadStream(stream: seq<byte>, boundary: seq<byte>): Option<seq<ReadPart>>
    decreases |stream|
  {
    var head := Delimiter(boundary) + ContentType + DatePrefix;
    if stream == CloseDelimiter(boundary) then Some([])
    else if !StartsWith(stream, head) then None
    else
      var afterHead := stream[|head|..];
      match Find(afterHead, HeadersEnd)
      case None => None
      case Some(i) =>
        var afterDate := afterHead[i + |HeadersEnd|..];
        match Find(afterDate, Separator(boundary))
        case None => None
        case Some(j) =>
          match ReadStream(afterDate[j + |LineBreak|..], boundary)
          case None => None
          case Some(rest) => Some([ReadPart(afterHead[..i], afterDate[..j])] + rest)
  }

  /** The bytes of a body begin with the dashes and the boundary. */
  lemma BodyStart(drops: seq<Drop>, boundary: seq<byte>, httpDate: Timestamp -> string)
    ensures StartsWith(Concat(Body(drops, boundary, httpDate)), DashDash + boundary)
  {
    var body := Body(drops, boundary, httpDate);
    if drops == [] {
      assert body == [CloseDelimiter(boundary)];
      assert Concat(body) == CloseDelimiter(boundary);
    } else {
      assert body == Part(drops[0], boundary, httpDate) + Body(drops[1..], boundary, httpDate);
      assert body[0] == Delimiter(boundary);
      assert Concat(body) == body[0] + Concat(body[1..]);
    }
  }

  /** The bytes of one part: its four chunks laid end to end. */
  lemma PartBytes(d: Drop, boundary: seq<byte>, httpDate: Timestamp -> string)
    ensures Concat(Part(d, boundary, httpDate)) ==
      Delimiter(boundary) + ContentType + DateLine(Encode(httpDate(d.createdAt))) + PayloadLine(d.message)
  {
    var part := Part(d, boundary, httpDate);
    assert Concat(part[3..]) == part[3] by {
      assert part[3..][1..] == [];
    }
    assert Concat(part[2..]) == part[2] + part[3] by {
      assert part[2..][1..] == part[3..];
    }
    assert Concat(part[1..]) == part[1] + (part[2] + part[3]) by {
      assert part[1..][1..] == part[2..];
    }
  }

  /** The bytes of a body for at least one drop: the first part's four chunks
      laid end to end, then the bytes of the body for the remaining drops. */
  lemma BodyBytes(drops: seq<Drop>, boundary: seq<byte>, httpDate: Timestamp -> string)
    requires drops != []
    ensures Concat(Body(drops, boundary, httpDate)) ==
      Delimiter(boundary) + ContentType + DateLine(Encode(httpDate(drops[0].createdAt)))
      + PayloadLine(drops[0].message) + Concat(Body(drops[1..], boundary, httpDate))
  {
    var part := Part(drops[0], boundary, httpDate);
    var rest := Body(drops[1..], boundary, httpDate);
    assert Body(drops, boundary, httpDate) == part + rest;
    ConcatAppend(part, rest);
    PartBytes(drops[0], boundary, httpDate);
  }

  /** A date without a carriage return ends at the first blank line after it. */
  lemma DateEnds(date: seq<byte>, rest: seq<byte>)
    requires 13 !in date
    ensures Find(date + HeadersEnd + rest, HeadersEnd) == Some(|date|)
  {
    var s := date + HeadersEnd + rest;
    assert s[|date|..|date| + |HeadersEnd|] == HeadersEnd;
    forall j | 0 <= j < |date|
      ensures !OccursAt(s, HeadersEnd, j)
    {
      assert s[j] == date[j];
      assert date[j] in date;
      if j + |HeadersEnd| <= |s| {
        assert s[j..j + |HeadersEnd|][0] == s[j];
      }
    }
    FindFirst(s, HeadersEnd, |date|);
  }

  /** A message the boundary does not collide with ends at the first separator after it. */
  lemma MessageEnds(message: seq<byte>, boundary: seq<byte>, rest: seq<byte>)
    requires Separated(message, boundary)
    ensures Find(message + Separator(boundary) + rest, Separator(boundary)) == Some(|message|)
  {
    var sep := Separator(boundary);
    var s := message + sep + rest;
    assert s[|message|..|message| + |sep|] == sep;
    forall j | 0 <= j < |message|
      ensures !OccursAt(s, sep, j)
    {
      assert !OccursAt(message + sep, sep, j);
      if j + |sep| <= |s| {
        assert s[j..j + |sep|] == (message + sep)[j..j + |sep|];
      }
    }
    FindFirst(s, sep, |message|);
  }

  /** One step of the reader: a part laid out in bytes in front of the bytes
      of the rest of a body is read as that part's date and message, followed
      by whatever the rest reads as. */
  lemma ReadPartStep(boundary: seq<byte>, date: seq<byte>, message: seq<byte>, tail: seq<byte>)
    requires 13 !in date && Separated(message, boundary) && StartsWith(tail, DashDash + boundary)
    ensures ReadStream(Delimiter(boundary) + ContentType + DateLine(date) + PayloadLine(message) + tail, boundary) ==
      match ReadStream(tail, boundary)
      case None => None
      case Some(rest) => Some([ReadPart(date, message)] + rest)
  {
    var head := Delimiter(boundary) + ContentType + DatePrefix;
    var sep := Separator(boundary);
    var tail2 := tail[|DashDash + boundary|..];
    assert tail == DashDash + boundary + tail2;
    var stream := Delimiter(boundary) + ContentType + DateLine(date) + PayloadLine(message) + tail;
    var afterHead := date + HeadersEnd + (message + sep + tail2);
    assert stream == head + afterHead;
    assert |stream| > |CloseDelimiter(boundary)|;
    assert StartsWith(stream, head);
    assert stream[|head|..] == afterHead;
    DateEnds(date, message + sep + tail2);
    var afterDate := message + sep + tail2;
    assert afterHead[|date| + |HeadersEnd|..] == afterDate;
    MessageEnds(message, boundary, tail2);
    assert afterDate[|message| + |LineBreak|..] == tail;
    assert afterHead[..|date|] == date;
    assert afterDate[..|message|] == message;
  }

  /** Round trip on the bytes a client receives: when no rendered date holds a
      carriage return and the boundary collides with no message, reading the
      concatenated chunks back yields every drop's date and message, unchanged
      and in the original order. */
  lemma {:induction false} ReadGeneratedStream(drops: seq<Drop>, boundary: seq<byte>, httpDate: Timestamp -> string)
    requires forall d :: d in drops ==> '\r' !in httpDate(d.createdAt) && Separated(d.message, boundary)
    ensures ReadStream(Concat(Body(drops, boundary, httpDate)), boundary) == Some(Expected(drops, httpDate))
  {
    if drops == [] {
      assert Body(drops, boundary, httpDate) == [CloseDelimiter(boundary)];
      assert Concat(Body(drops, boundary, httpDate)) == CloseDelimiter(boundary);
    } else {
      var d := drops[0];
      BodyBytes(drops, boundary, httpDate);
      BodyStart(drops[1..], boundary, httpDate);
      EncodeOmits(httpDate(d.createdAt), '\r');
      ReadPartStep(boundary, Encode(httpDate(d.createdAt)), d.message, Concat(Body(drops[1..], boundary, httpDate)));
      ReadGeneratedStream(drops[1..], boundary, httpDate);
    }
  }
}
