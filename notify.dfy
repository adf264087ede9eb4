/** The two notification backends: FCM topic messages that carry only the
    drop id and contain the provider's known errors, and Redis pub/sub frames
    that carry a header block, a blank line and the raw message. */
module Notify {
  import opened Bytes
  import opened Seqs
  import opened Drops

  // ---------------------------------------------------------------- FCM

  /** The four provider error classes the FCM backend catches. */
  datatype ProviderError = AuthenticationError | FCMServerError | InvalidDataError | InternalPackageError

  /** The class name of a provider error, as `type(exc).__name__` gives it. */
  function ClassName(k: ProviderError): string
  {
    match k
    case AuthenticationError => "AuthenticationError"
    case FCMServerError => "FCMServerError"
    case InvalidDataError => "InvalidDataError"
    case InternalPackageError => "InternalPackageError"
  }

  /** An exception raised by the provider call: the name of its own class and
      which of the four caught classes it is an instance of (a subclass is an
      instance of its base, so `except` catches it too). */
  datatype Exception = Exception(className: string, instanceOf: set<ProviderError>)

  /** The exception of exactly one of the four classes. */
  function Raise(k: ProviderError): Exception
  {
    Exception(ClassName(k), {k})
  }

  /** How the call to notify_topic_subscribers ended. */
  datatype ProviderOutcome = Returned | Raised(exception: Exception)

  /** One call to notify_topic_subscribers: the topic and the data message. */
  datatype TopicMessage = TopicMessage(topicName: string, dataMessage: map<string, string>)

  /** The data message of a drop's topic message. */
  function DataMessage(drop: Drop): map<string, string>
  {
    map["drop-id" := drop.dropId]
  }

  /** The topic message for a drop: the topic is the drop id. */
  function TopicMessageFor(drop: Drop): (t: TopicMessage)
    ensures t.topicName == drop.dropId
    ensures t.dataMessage.Keys == {"drop-id"} && t.dataMessage["drop-id"] == drop.dropId
  {
    TopicMessage(drop.dropId, DataMessage(drop))
  }

  /** The topic message depends on the drop id alone: neither the message
      bytes nor the creation time reach the push provider. */
  lemma TopicMessageWithholdsContent(a: Drop, b: Drop)
    requires a.dropId == b.dropId
    ensures TopicMessageFor(a) == TopicMessageFor(b)
  {
  }

  /** How `_notify` ends: normally, with the monitoring label for
      `exception`, or with an exception that leaves it uncaught. */
  datatype Completion = Completed(exceptionLabel: string) | Escaped(exception: Exception)

  /** The label is 'None' when the call returns, the exception's class name
      when it is an instance of one of the four caught classes (and nothing
      propagates), and any other exception propagates. */
  function Classify(outcome: ProviderOutcome): (c: Completion)
    ensures outcome == Returned ==> c == Completed("None")
    ensures outcome.Raised? && outcome.exception.instanceOf != {} ==>
      c == Completed(outcome.exception.className)
    ensures outcome.Raised? && outcome.exception.instanceOf == {} ==> c == Escaped(outcome.exception)
    ensures c.Escaped? <==> outcome.Raised? && outcome.exception.instanceOf == {}
  {
    match outcome
    case Returned => Completed("None")
    case Raised(e) => if e.instanceOf != {} then Completed(e.className) else Escaped(e)
  }

  /** Each of the four classes is caught and labelled with its own name. */
  lemma ClassifyProviderError(k: ProviderError)
    ensures Classify(Raised(Raise(k))) == Completed(ClassName(k))
    ensures ClassName(k) != "None"
  {
  }

  /** The FCM backend. `notify` only hands the drop to the executor (a
      ThreadPoolExecutor in the source); `Deliver` is the task the executor
      runs later, `_notify`. `submitted` are the drops handed over, `sent` the
      topic messages given to the provider, in call order. */
  class FcmNotifier {
    var submitted: seq<Drop>
    var sent: seq<TopicMessage>

    constructor ()
      ensures submitted == [] && sent == []
    {
      submitted := [];
      sent := [];
    }

    /** `notify`: submits the delivery task and returns at once; no provider call is made. */
    method Notify(drop: Drop)
      modifies this
      ensures submitted == old(submitted) + [drop]
      ensures sent == old(sent)
    {
      submitted := submitted + [drop];
    }

    /** `_notify`: makes exactly one provider call with the drop's topic
        message, whose outcome is `outcome`, and classifies that outcome. */
    method Deliver(drop: Drop, outcome: ProviderOutcome) returns (c: Completion)
      modifies this
      ensures sent == old(sent) + [TopicMessageFor(drop)]
      ensures submitted == old(submitted)
      ensures c == Classify(outcome)
    {
      var data := map["drop-id" := drop.dropId];
      var exceptionLabel := "None";
      sent := sent + [TopicMessage(drop.dropId, data)];
      match outcome {
        case Returned =>
        case Raised(e) =>
          if e.instanceOf == {} {
            return Escaped(e);
          }
          exceptionLabel := e.className;
      }
      return Completed(exceptionLabel);
    }
  }

  // -------------------------------------------------------------- Redis

  /** One call to publish: the channel and the frame. */
  datatype Publication = Publication(channel: string, frame: seq<byte>)

  /** b'\n\n' */
  const BlankLine: seq<byte> := [10, 10]

  /** The two header lines of a frame. `latest` is str(utc_timestamp(created_at)),
      `lastModified` is created_at formatted as "%a, %d %b %Y %H:%M:%S GMT". */
  function HeaderLines(latest: string, lastModified: string): seq<string>
  {
    ["X-Qabel-Latest: " + latest, "Last-Modified: " + lastModified]
  }

  /** The published frame: the header lines joined by '\n', encoded, a blank line, the raw message. */
  function Frame(latest: string, lastModified: string, message: seq<byte>): seq<byte>
  {
    Encode(Join("\n", HeaderLines(latest, lastModified))) + BlankLine + message
  }

  /** Frame layout byte for byte: one line feed between the two header lines,
      none after the second, then the blank line and the message, unmodified. */
  lemma FrameLayout(latest: string, lastModified: string, message: seq<byte>)
    ensures Frame(latest, lastModified, message) ==
      Encode("X-Qabel-Latest: " + latest) + [LF] + Encode("Last-Modified: " + lastModified) + [LF, LF] + message
    ensures EndsWith(Frame(latest, lastModified, message), message)
  {
    var h1, h2 := "X-Qabel-Latest: " + latest, "Last-Modified: " + lastModified;
    assert Join("\n", HeaderLines(latest, lastModified)) == h1 + "\n" + h2;
    EncodeAppend(h1 + "\n", h2);
    EncodeAppend(h1, "\n");
    assert Encode("\n") == [LF];
    var f := Frame(latest, lastModified, message);
    assert f[|f| - |message|..] == message;
  }

  /** The Redis backend. `published` are the publish calls made, in order. */
  class RedisNotifier {
    const prefix: string
    var published: seq<Publication>

    constructor (prefix: string)
      ensures this.prefix == prefix && published == []
    {
      this.prefix := prefix;
      published := [];
    }

    /** `notify`: builds the frame from its pieces and publishes it once on
        the channel prefix + drop id. `latest` and `lastModified` render the
        creation time as the two header values. */
    method Notify(drop: Drop, latest: Timestamp -> string, lastModified: Timestamp -> string)
      modifies this
      ensures published == old(published) +
        [Publication(prefix + drop.dropId, Frame(latest(drop.createdAt), lastModified(drop.createdAt), drop.message))]
    {
      var headers := ["X-Qabel-Latest: " + latest(drop.createdAt), "Last-Modified: " + lastModified(drop.createdAt)];
      assert headers == HeaderLines(latest(drop.createdAt), lastModified(drop.createdAt));
      var data: seq<seq<byte>> := [];
      data := data + [Encode(Join("\n", headers))];
      data := data + [BlankLine];
      data := data + [drop.message];
      assert Concat(data) == data[0] + Concat(data[1..]);
      assert Concat(data[1..]) == data[1] + Concat(data[2..]);
      assert Concat(data[2..]) == data[2] + Concat([]);
      assert Concat(data) == Frame(latest(drop.createdAt), lastModified(drop.createdAt), drop.message);
      published := published + [Publication(prefix + drop.dropId, Concat(data))];
    }
  }

  // ------------------------------------------------- reading a frame back

  /** True when a blank line (two line feeds) starts at `j`. */
  predicate BlankAt(b: seq<byte>, j: int)
  {
    0 <= j && j + 1 < |b| && b[j] == LF && b[j + 1] == LF
  }

  /** Position of the first blank line in `b`. */
  function FindBlankLine(b: seq<byte>): (r: Option<nat>)
    ensures r.Some? ==> BlankAt(b, r.value) && forall j :: 0 <= j < r.value ==> !BlankAt(b, j)
    ensures r.None? ==> forall j :: 0 <= j < |b| ==> !BlankAt(b, j)
  {
    if |b| < 2 then None
    else if b[0] == LF && b[1] == LF then Some(0)
    else match FindBlankLine(b[1..])
      case None =>
        assert forall j :: 1 <= j < |b| ==> BlankAt(b, j) == BlankAt(b[1..], j - 1);
        None
      case Some(k) =>
        assert forall j :: 1 <= j < |b| ==> BlankAt(b, j) == BlankAt(b[1..], j - 1);
        Some(k + 1)
  }

  /** Position of the first line feed in `b`. */
  function FindLineFeed(b: seq<byte>): (r: Option<nat>)
    ensures r.Some? ==> r.value < |b| && b[r.value] == LF && LF !in b[..r.value]
    ensures r.None? ==> LF !in b
  {
    if b == [] then None
    else if b[0] == LF then Some(0)
    else match FindLineFeed(b[1..])
      case None => None
      case Some(k) =>
        assert b[..k + 1] == [b[0]] + b[1..][..k];
        Some(k + 1)
  }

  /** `b.split(b'\n')`: the pieces of `b` between line feeds. */
  function SplitLines(b: seq<byte>): (r: seq<seq<byte>>)
    ensures |r| >= 1
    decreases |b|
  {
    match FindLineFeed(b)
    case None => [b]
    case Some(i) => [b[..i]] + SplitLines(b[i + 1..])
  }

  /** What a subscriber reads from a frame: the header lines and the payload. */
  datatype ReadFrame = ReadFrame(headerLines: seq<seq<byte>>, payload: seq<byte>)

  /** Splits a frame at its first blank line into header lines and payload. */
  function ParseFrame(frame: seq<byte>): Option<ReadFrame>
  {
    match FindBlankLine(frame)
    case None => None
    case Some(i) => Some(ReadFrame(SplitLines(frame[..i]), frame[i + 2..]))
  }

  /** A blank line at `k` with none before it is the first one. */
  lemma FirstBlankLine(b: seq<byte>, k: nat)
    requires BlankAt(b, k)
    requires forall j :: 0 <= j < k ==> !BlankAt(b, j)
    ensures FindBlankLine(b) == Some(k)
  {
  }

  /** Two line-feed-free lines joined by one line feed split back into those lines. */
  lemma {:induction false} SplitTwoLines(x: seq<byte>, y: seq<byte>)
    requires LF !in x && LF !in y
    ensures SplitLines(x + [LF] + y) == [x, y]
  {
    var b := x + [LF] + y;
    assert b[|x|] == LF;
    assert b[..|x|] == x;
    assert FindLineFeed(b) == Some(|x|);
    assert b[|x| + 1..] == y;
    assert FindLineFeed(y) == None;
  }

  /** Round trip: when neither header value contains a line feed, a
      subscriber splitting the frame at its first blank line recovers the
      two header lines and the message, unmodified. */
  lemma ParseFrameRoundTrip(latest: string, lastModified: string, message: seq<byte>)
    requires '\n' !in latest && '\n' !in lastModified
    ensures ParseFrame(Frame(latest, lastModified, message)) ==
      Some(ReadFrame([Encode("X-Qabel-Latest: " + latest), Encode("Last-Modified: " + lastModified)], message))
  {
    var h1, h2 := "X-Qabel-Latest: " + latest, "Last-Modified: " + lastModified;
    assert '\n' !in h1 && '\n' !in h2;
    var e1, e2 := Encode(h1), Encode(h2);
    EncodeOmits(h1, '\n');
    EncodeOmits(h2, '\n');
    EncodeFirst(h2);
    FrameLayout(latest, lastModified, message);
    var f := Frame(latest, lastModified, message);
    var header := e1 + [LF] + e2;
    assert f == header + [LF, LF] + message;
    var k := |header|;
    assert BlankAt(f, k);
    forall j | 0 <= j < k
      ensures !BlankAt(f, j)
    {
      if j < |e1| {
        assert f[j] == e1[j];
      } else if j == |e1| {
        assert f[j + 1] == e2[0];
      } else {
        assert f[j] == e2[j - |e1| - 1];
      }
    }
    FirstBlankLine(f, k);
    assert f[..k] == header;
    assert f[k + 2..] == message;
    SplitTwoLines(e1, e2);
  }
}
