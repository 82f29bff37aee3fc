/** One TCP session of the Kafka server: big-endian length framing and strictly
    sequential request and response. */
module KafkaSession {

  type Byte = b: int | 0 <= b < 256
  type Bytes = seq<Byte>

  const INT32_SPAN := 0x1_0000_0000
  const INT32_LIMIT := 0x8000_0000

  predicate IsInt32(v: int) {
    -INT32_LIMIT <= v < INT32_LIMIT
  }

  /** The conversion of a size to `int32_t`: its low 32 bits, read as signed. */
  function ToInt32(n: int): (v: int)
    ensures IsInt32(v)
  {
    var low := n % INT32_SPAN;
    if low < INT32_LIMIT then low else low - INT32_SPAN
  }

  // ------------------------------------------------ the length prefix

  /** An arithmetic right shift by 8 bits. */
  function Shr8(v: int): int {
    v / 256
  }

  function EncodeBE(value: int): (bytes: Bytes)
    ensures |bytes| == 4
  {
    [Shr8(Shr8(Shr8(value))) % 256, Shr8(Shr8(value)) % 256, Shr8(value) % 256, value % 256]
  }

  /** `(b0 << 24) | (b1 << 16) | (b2 << 8) | b3`, before it is read as signed. */
  function Combine(b0: int, b1: int, b2: int, b3: int): int {
    256 * (256 * (256 * b0 + b1) + b2) + b3
  }

  function DecodeBE(bytes: Bytes): int
    requires |bytes| == 4
  {
    ToInt32(Combine(bytes[0], bytes[1], bytes[2], bytes[3]))
  }

  /** `writeBE` into the reused buffer. */
  method WriteBE(value: int, bytes: array<Byte>)
    requires IsInt32(value) && bytes.Length == 4
    modifies bytes
    ensures bytes[..] == EncodeBE(value)
  {
    bytes[0] := Shr8(Shr8(Shr8(value))) % 256;
    bytes[1] := Shr8(Shr8(value)) % 256;
    bytes[2] := Shr8(value) % 256;
    bytes[3] := value % 256;
  }

  /** The bytes of v, most significant first, make up v modulo 2^32. */
  lemma BytesMakeValue(v: int)
    ensures exists k :: v == Combine(EncodeBE(v)[0], EncodeBE(v)[1], EncodeBE(v)[2], EncodeBE(v)[3]) + k * INT32_SPAN
  {
    var v1 := Shr8(v);
    var v2 := Shr8(v1);
    var v3 := Shr8(v2);
    var k := Shr8(v3);
    assert v == 256 * v1 + v % 256 && v1 == 256 * v2 + v1 % 256;
    assert v2 == 256 * v3 + v2 % 256 && v3 == 256 * k + v3 % 256;
    assert v == Combine(v3 % 256, v2 % 256, v1 % 256, v % 256) + k * INT32_SPAN;
  }

  /** The prefix is big-endian: the first byte carries the highest bits. */
  lemma BigEndian(value: int)
    requires IsInt32(value)
    ensures var b := EncodeBE(value);
            b[0] as int * 0x100_0000 + b[1] as int * 0x1_0000 + b[2] as int * 0x100 + b[3] as int ==
            if value >= 0 then value else value + INT32_SPAN
  {
    var b := EncodeBE(value);
    BytesMakeValue(value);
    CombineRange(b[0], b[1], b[2], b[3]);
  }

  lemma CombineRange(b0: Byte, b1: Byte, b2: Byte, b3: Byte)
    ensures 0 <= Combine(b0, b1, b2, b3) < INT32_SPAN
  {
  }

  lemma ToInt32Unique(n: int, v: int, k: int)
    requires IsInt32(v) && 0 <= n < INT32_SPAN && v == n + k * INT32_SPAN
    ensures ToInt32(n) == v
  {
  }

  /** Reading back what was written gives the value, for every 32-bit integer. */
  lemma ReadWrite(value: int)
    requires IsInt32(value)
    ensures DecodeBE(EncodeBE(value)) == value
  {
    var b := EncodeBE(value);
    BytesMakeValue(value);
    CombineRange(b[0], b[1], b[2], b[3]);
    var k :| value == Combine(b[0], b[1], b[2], b[3]) + k * INT32_SPAN;
    ToInt32Unique(Combine(b[0], b[1], b[2], b[3]), value, k);
  }

  lemma CombineInjective(a0: Byte, a1: Byte, a2: Byte, a3: Byte, b0: Byte, b1: Byte, b2: Byte, b3: Byte)
    requires ToInt32(Combine(a0, a1, a2, a3)) == ToInt32(Combine(b0, b1, b2, b3))
    ensures a0 == b0 && a1 == b1 && a2 == b2 && a3 == b3
  {
    CombineRange(a0, a1, a2, a3);
    CombineRange(b0, b1, b2, b3);
    ToInt32Injective(Combine(a0, a1, a2, a3), Combine(b0, b1, b2, b3));
    Peel(256 * (256 * a0 + a1) + a2, a3, 256 * (256 * b0 + b1) + b2, b3);
    Peel(256 * a0 + a1, a2, 256 * b0 + b1, b2);
    Peel(a0, a1, b0, b1);
  }

  lemma ToInt32Injective(m: int, n: int)
    requires 0 <= m < INT32_SPAN && 0 <= n < INT32_SPAN && ToInt32(m) == ToInt32(n)
    ensures m == n
  {
  }

  /** The last byte of a number determines it together with the rest. */
  lemma Peel(x: int, a: Byte, y: int, b: Byte)
    requires 256 * x + a == 256 * y + b
    ensures x == y && a == b
  {
  }

  /** Writing back what was read gives the bytes. */
  lemma WriteRead(bytes: Bytes)
    requires |bytes| == 4
    ensures IsInt32(DecodeBE(bytes)) && EncodeBE(DecodeBE(bytes)) == bytes
  {
    var c := EncodeBE(DecodeBE(bytes));
    ReadWrite(DecodeBE(bytes));
    CombineInjective(bytes[0], bytes[1], bytes[2], bytes[3], c[0], c[1], c[2], c[3]);
  }

  // ------------------------------------------------ frames

  /** A message behind its length, as the server writes it. */
  function Frame(msg: Bytes): Bytes {
    EncodeBE(ToInt32(|msg|)) + msg
  }

  /** What reading one request off a byte stream comes to. */
  datatype Read = Request(msg: Bytes, rest: Bytes) | EndOfInput | BadLength | Truncated

  function ReadRequest(input: Bytes): (r: Read)
    ensures r.Request? ==> |r.rest| < |input|
  {
    if |input| < 4 then EndOfInput
    else
      var n := DecodeBE(input[..4]);
      if n < 0 then BadLength
      else if |input| < 4 + n then Truncated
      else Request(input[4..4 + n], input[4 + n..])
  }

  /** The requests a byte stream holds, up to the first that cannot be read. */
  function Requests(input: Bytes): seq<Bytes>
    decreases |input|
  {
    match ReadRequest(input)
    case Request(msg, rest) => [msg] + Requests(rest)
    case _ => []
  }

  /** Why no further request could be read. */
  function Tail(input: Bytes): Read
    decreases |input|
  {
    match ReadRequest(input)
    case Request(_, rest) => Tail(rest)
    case r => r
  }

  function Stream(msgs: seq<Bytes>): Bytes {
    if msgs == [] then [] else Frame(msgs[0]) + Stream(msgs[1..])
  }

  /** A framed message is read back exactly when its size fits the length prefix. */
  lemma FrameReadsBackIff(msg: Bytes, rest: Bytes)
    ensures ReadRequest(Frame(msg) + rest) == Request(msg, rest) <==> |msg| < INT32_LIMIT
  {
    if |msg| < INT32_LIMIT {
      FrameReadsBack(msg, rest);
    } else {
      PrefixReads(msg, rest);
      assert ToInt32(|msg|) < |msg|;
    }
  }

  /** The length read off a frame is the one written, wrapped to 32 bits. */
  lemma PrefixReads(msg: Bytes, rest: Bytes)
    ensures var input := Frame(msg) + rest;
            |input| >= 4 && input[4..] == msg + rest && DecodeBE(input[..4]) == ToInt32(|msg|)
  {
    SplitFrame(EncodeBE(ToInt32(|msg|)), msg, rest);
    ReadWrite(ToInt32(|msg|));
  }

  lemma SplitFrame(head: Bytes, msg: Bytes, rest: Bytes)
    requires |head| == 4
    ensures (head + msg + rest)[..4] == head && (head + msg + rest)[4..] == msg + rest
  {
  }

  lemma FrameReadsBack(msg: Bytes, rest: Bytes)
    requires |msg| < INT32_LIMIT
    ensures ReadRequest(Frame(msg) + rest) == Request(msg, rest)
  {
    PrefixReads(msg, rest);
    var input, n := Frame(msg) + rest, |msg|;
    assert ToInt32(n) == n;
    assert input[4..4 + n] == input[4..][..n] && input[4 + n..] == input[4..][n..];
  }

  /** Reading a stream of framed messages gives the messages, in order. */
  lemma {:induction false} StreamReadsBack(msgs: seq<Bytes>)
    requires forall i :: 0 <= i < |msgs| ==> |msgs[i]| < INT32_LIMIT
    ensures Requests(Stream(msgs)) == msgs && Tail(Stream(msgs)) == EndOfInput
  {
    if msgs != [] {
      FrameReadsBackIff(msgs[0], Stream(msgs[1..]));
      StreamReadsBack(msgs[1..]);
    }
  }

  // ------------------------------------------------ the session

  /** The callback's answer: bytes to send, nothing, or the socket was closed. */
  datatype Reply = Data(bytes: Bytes) | NoData | SocketClosed

  /** The callback sees the request and, through its context, the earlier ones. */
  type Handler = (seq<Bytes>, Bytes) -> Reply

  datatype End = ClientDone | SessionException | ServerClose | SocketGone

  function ReplyTo(handler: Handler, requests: seq<Bytes>, i: nat): Reply
    requires i < |requests|
  {
    handler(requests[..i], requests[i])
  }

  /** How many requests are answered before the first answer without data. */
  ghost function Answered(handler: Handler, requests: seq<Bytes>): (k: nat)
    ensures k <= |requests|
    ensures forall i :: 0 <= i < k ==> ReplyTo(handler, requests, i).Data?
    ensures k < |requests| ==> !ReplyTo(handler, requests, k).Data?
  {
    AnsweredFrom(handler, requests, 0)
  }

  ghost function AnsweredFrom(handler: Handler, requests: seq<Bytes>, j: nat): (k: nat)
    requires j <= |requests|
    ensures j <= k <= |requests|
    ensures forall i :: j <= i < k ==> ReplyTo(handler, requests, i).Data?
    ensures k < |requests| ==> !ReplyTo(handler, requests, k).Data?
    decreases |requests| - j
  {
    if j < |requests| && ReplyTo(handler, requests, j).Data? then AnsweredFrom(handler, requests, j + 1) else j
  }

  /** The data of the first k answers. */
  ghost function Answers(handler: Handler, requests: seq<Bytes>, k: nat): (r: seq<Bytes>)
    requires k <= |requests|
    requires forall i :: 0 <= i < k ==> ReplyTo(handler, requests, i).Data?
    ensures |r| == k
  {
    seq(k, i requires 0 <= i < k => ReplyTo(handler, requests, i).bytes)
  }

  lemma {:induction false} StreamAppend(msgs: seq<Bytes>, msg: Bytes)
    ensures Stream(msgs + [msg]) == Stream(msgs) + Frame(msg)
  {
    if msgs == [] {
      assert msgs + [msg] == [msg];
      assert Stream([msg]) == Frame(msg) + Stream([]);
    } else {
      StreamAppend(msgs[1..], msg);
      assert (msgs + [msg])[1..] == msgs[1..] + [msg];
    }
  }

  /** Everything the session does, as a function of the input and the callback. */
  ghost predicate IsSession(input: Bytes, handler: Handler, output: Bytes, end: End) {
    var requests := Requests(input);
    var k := Answered(handler, requests);
    && output == Stream(Answers(handler, requests, k))
    && end == if k < |requests| then (if ReplyTo(handler, requests, k).NoData? then ServerClose else SocketGone)
              else if Tail(input) == EndOfInput then ClientDone
              else SessionException
  }

  /** The session so far: served requests, what is left to read, what was written. */
  ghost predicate Served(input: Bytes, handler: Handler, served: seq<Bytes>, rest: Bytes, output: Bytes) {
    && Requests(input) == served + Requests(rest)
    && Tail(input) == Tail(rest)
    && (forall i :: 0 <= i < |served| ==> ReplyTo(handler, served, i).Data?)
    && output == Stream(Answers(handler, served, |served|))
  }

  lemma ServedStep(input: Bytes, handler: Handler, served: seq<Bytes>, rest: Bytes, output: Bytes)
    requires Served(input, handler, served, rest, output) && ReadRequest(rest).Request?
    requires handler(served, ReadRequest(rest).msg).Data?
    ensures var r := ReadRequest(rest);
            Served(input, handler, served + [r.msg], r.rest, output + Frame(handler(served, r.msg).bytes))
  {
    var r := ReadRequest(rest);
    var served' := served + [r.msg];
    assert served' + Requests(r.rest) == served + Requests(rest);
    forall i | 0 <= i < |served'|
      ensures ReplyTo(handler, served', i) ==
              if i < |served| then ReplyTo(handler, served, i) else handler(served, r.msg)
    {
      assert served'[..i] == served[..i];
    }
    var answers := Answers(handler, served, |served|);
    StreamAppend(answers, handler(served, r.msg).bytes);
    assert Answers(handler, served', |served'|) == answers + [handler(served, r.msg).bytes];
  }

  lemma SessionEnds(input: Bytes, handler: Handler, served: seq<Bytes>, rest: Bytes, output: Bytes)
    requires Served(input, handler, served, rest, output)
    requires ReadRequest(rest).Request? ==> !handler(served, ReadRequest(rest).msg).Data?
    ensures IsSession(input, handler, output,
              if ReadRequest(rest).Request? then
                (if handler(served, ReadRequest(rest).msg).NoData? then ServerClose else SocketGone)
              else if ReadRequest(rest) == EndOfInput then ClientDone else SessionException)
  {
    var requests := Requests(input);
    forall i | 0 <= i < |served|
      ensures ReplyTo(handler, requests, i) == ReplyTo(handler, served, i)
      ensures ReplyTo(handler, requests, i).Data?
    {
      assert requests[..i] == served[..i];
      assert ReplyTo(handler, served, i).Data?;
    }
    if ReadRequest(rest).Request? {
      assert requests[..|served|] == served && requests[|served|] == ReadRequest(rest).msg;
      assert ReplyTo(handler, requests, |served|) == handler(served, ReadRequest(rest).msg);
    } else {
      assert requests == served;
    }
    assert Answered(handler, requests) == |served|;
    assert Answers(handler, requests, |served|) == Answers(handler, served, |served|);
  }

  /** `ServerHandler::handler`. The length buffer is reused for the response. */
  method HandleSession(input: Bytes, handler: Handler) returns (output: Bytes, end: End)
    ensures IsSession(input, handler, output, end)
  {
    var lengthBytes := new Byte[4];
    var rest := input;
    output := [];
    var served: seq<Bytes> := [];
    while true
      invariant Served(input, handler, served, rest, output)
      decreases |rest|
    {
      if |rest| < 4 {
        SessionEnds(input, handler, served, rest, output);
        return output, ClientDone;
      }
      lengthBytes[0], lengthBytes[1], lengthBytes[2], lengthBytes[3] := rest[0], rest[1], rest[2], rest[3];
      assert lengthBytes[..] == rest[..4];
      var length := DecodeBE(lengthBytes[..]);
      if length < 0 || |rest| < 4 + length {
        // The vector allocation or the read throws.
        SessionEnds(input, handler, served, rest, output);
        return output, SessionException;
      }
      var msg := rest[4..4 + length];
      var reply := handler(served, msg);
      match reply {
        case SocketClosed =>
          SessionEnds(input, handler, served, rest, output);
          return output, SocketGone;
        case NoData =>
          SessionEnds(input, handler, served, rest, output);
          return output, ServerClose;
        case Data(bytes) =>
          WriteBE(ToInt32(|bytes|), lengthBytes);
          ServedStep(input, handler, served, rest, output);
          output := output + (lengthBytes[..] + bytes);
          served := served + [msg];
          rest := rest[4 + length..];
      }
    }
  }

  /** End to end: a client that frames its requests reads back exactly one answer
      per request, in order, when all sizes fit. */
  lemma ClientReadsAnswers(requests: seq<Bytes>, handler: Handler, output: Bytes, end: End)
    requires forall i :: 0 <= i < |requests| ==> |requests[i]| < INT32_LIMIT
    requires forall i :: 0 <= i < |requests| ==>
               ReplyTo(handler, requests, i).Data? && |ReplyTo(handler, requests, i).bytes| < INT32_LIMIT
    requires IsSession(Stream(requests), handler, output, end)
    ensures end == ClientDone
    ensures Requests(output) == Answers(handler, requests, |requests|)
  {
    StreamReadsBack(requests);
    assert Answered(handler, requests) == |requests|;
    StreamReadsBack(Answers(handler, requests, |requests|));
  }

  // ------------------------------------------------ the session, on the bytes alone

  /** The unsigned number in the first four bytes. */
  function Length(b: Bytes): int
    requires |b| >= 4
  {
    b[0] as int * 0x100_0000 + b[1] as int * 0x1_0000 + b[2] as int * 0x100 + b[3] as int
  }

  /** No complete message starts here: fewer than four bytes, a negative length, or
      fewer bytes than the length announces. */
  predicate Stuck(tail: Bytes) {
    |tail| < 4 || Length(tail) >= INT32_LIMIT || |tail| < 4 + Length(tail)
  }

  lemma DecodeIsLength(b: Bytes)
    requires |b| >= 4
    ensures DecodeBE(b[..4]) == if Length(b) < INT32_LIMIT then Length(b) else Length(b) - INT32_SPAN
    ensures 0 <= Length(b) < INT32_SPAN
  {
    assert Length(b) == Combine(b[0], b[1], b[2], b[3]);
    CombineRange(b[0], b[1], b[2], b[3]);
  }

  /** Only a complete frame is read as a request, and it is the one that was sent. */
  lemma ReadIsFrame(input: Bytes)
    requires ReadRequest(input).Request?
    ensures var r := ReadRequest(input);
            !Stuck(input) && |r.msg| < INT32_LIMIT && input == Frame(r.msg) + r.rest
  {
    var r, n := ReadRequest(input), DecodeBE(input[..4]);
    DecodeIsLength(input);
    WriteRead(input[..4]);
    assert |r.msg| == n && ToInt32(n) == n;
    assert input == input[..4] + input[4..4 + n] + input[4 + n..];
  }

  /** What is read, in every case. */
  lemma ReadCases(input: Bytes)
    ensures ReadRequest(input).Request? <==> !Stuck(input)
    ensures ReadRequest(input).EndOfInput? <==> |input| < 4
  {
    if |input| >= 4 {
      DecodeIsLength(input);
    }
  }

  /** Every input is a number of complete frames and a stuck rest. */
  lemma {:induction false} SplitInput(input: Bytes) returns (msgs: seq<Bytes>, tail: Bytes)
    ensures input == Stream(msgs) + tail && Stuck(tail)
    ensures forall i :: 0 <= i < |msgs| ==> |msgs[i]| < INT32_LIMIT
    decreases |input|
  {
    ReadCases(input);
    if Stuck(input) {
      msgs, tail := [], input;
    } else {
      var r := ReadRequest(input);
      ReadIsFrame(input);
      var more;
      more, tail := SplitInput(r.rest);
      msgs := [r.msg] + more;
      assert Stream(msgs) + tail == Frame(r.msg) + (Stream(more) + tail);
    }
  }

  lemma {:induction false} SplitIsRead(msgs: seq<Bytes>, tail: Bytes)
    requires Stuck(tail) && forall i :: 0 <= i < |msgs| ==> |msgs[i]| < INT32_LIMIT
    ensures Requests(Stream(msgs) + tail) == msgs
    ensures Tail(Stream(msgs) + tail) == EndOfInput <==> |tail| < 4
  {
    if msgs == [] {
      assert Stream(msgs) + tail == tail;
      ReadCases(tail);
    } else {
      var rest := Stream(msgs[1..]) + tail;
      assert Stream(msgs) + tail == Frame(msgs[0]) + rest;
      FrameReadsBackIff(msgs[0], rest);
      SplitIsRead(msgs[1..], tail);
    }
  }

  /** However the input splits into complete frames and a stuck rest, which it always
      does: if the callback answers all messages with data, the output is those
      answers framed, in order, and the session ends quietly when fewer than four
      bytes are left and with an exception when a frame is cut short or its length is
      negative. No answer is written for the rest. */
  lemma AllAnswered(msgs: seq<Bytes>, tail: Bytes, handler: Handler, output: Bytes, end: End)
    requires Stuck(tail) && forall i :: 0 <= i < |msgs| ==> |msgs[i]| < INT32_LIMIT
    requires IsSession(Stream(msgs) + tail, handler, output, end)
    requires forall i :: 0 <= i < |msgs| ==> handler(msgs[..i], msgs[i]).Data?
    ensures output == Stream(seq(|msgs|, i requires 0 <= i < |msgs| => handler(msgs[..i], msgs[i]).bytes))
    ensures end == if |tail| < 4 then ClientDone else SessionException
  {
    SplitIsRead(msgs, tail);
    assert forall i :: 0 <= i < |msgs| ==> ReplyTo(handler, msgs, i) == handler(msgs[..i], msgs[i]);
    assert Answered(handler, msgs) == |msgs|;
    assert Answers(handler, msgs, |msgs|) == seq(|msgs|, i requires 0 <= i < |msgs| => handler(msgs[..i], msgs[i]).bytes);
  }

  /** If message k is the first without data in its answer, the k answers before it
      are written and nothing else, and the session ends there. */
  lemma StoppedAt(msgs: seq<Bytes>, tail: Bytes, handler: Handler, output: Bytes, end: End, k: nat)
    requires Stuck(tail) && forall i :: 0 <= i < |msgs| ==> |msgs[i]| < INT32_LIMIT
    requires IsSession(Stream(msgs) + tail, handler, output, end)
    requires k < |msgs| && !handler(msgs[..k], msgs[k]).Data?
    requires forall i :: 0 <= i < k ==> handler(msgs[..i], msgs[i]).Data?
    ensures output == Stream(seq(k, i requires 0 <= i < k => handler(msgs[..i], msgs[i]).bytes))
    ensures end == if handler(msgs[..k], msgs[k]).NoData? then ServerClose else SocketGone
  {
    SplitIsRead(msgs, tail);
    assert forall i :: 0 <= i <= k ==> ReplyTo(handler, msgs, i) == handler(msgs[..i], msgs[i]);
    assert Answered(handler, msgs) == k;
    assert Answers(handler, msgs, k) == seq(k, i requires 0 <= i < k => handler(msgs[..i], msgs[i]).bytes);
  }
}
