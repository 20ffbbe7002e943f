// The stream reader: ReadMessage reassembles frames from what the network delivers.
module Connections {
  import opened Wire
  import opened Frames
  import opened Codec
  import opened Sequences

  datatype State = Connecting | Connected | Authenticated | Closing | Closed

  datatype ReadError = ConnectionClosed | ReadFailed | DecodeFailed(error: DecodeError)

  datatype ReadResult = Message(msg: Msg) | Error(error: ReadError)

  // The result of one ReadMessage call, the read buffer it leaves, and the
  // chunks still to come. A chunk is what one Read of the connection delivers.
  datatype Outcome = Outcome(result: ReadResult, buffer: seq<Byte>, chunks: seq<seq<Byte>>)

  // ---------- What ReadMessage computes ----------

  // The buffer holds enough to settle the call without reading.
  predicate Settled(buffer: seq<Byte>) {
    |buffer| >= FIXED_LENGTH && (Parse(buffer).Complete? || !Insufficient(Parse(buffer).error))
  }

  function Settle(buffer: seq<Byte>, chunks: seq<seq<Byte>>): Outcome
    requires Settled(buffer)
  {
    match Parse(buffer)
    case Complete(m, consumed) => Outcome(Message(m), buffer[consumed..], chunks)
    case Failed(e) => Outcome(Error(DecodeFailed(e)), buffer, chunks)
  }

  function Read(buffer: seq<Byte>, chunks: seq<seq<Byte>>): Outcome
    decreases |chunks|
  {
    if Settled(buffer) then Settle(buffer, chunks)
    else if chunks == [] then Outcome(Error(ReadFailed), buffer, chunks)
    else Read(buffer + chunks[0], chunks[1..])
  }

  // What has been taken out of the stream has grown by the bytes of this message,
  // as they decode in front of what is left in the buffer.
  ghost predicate Took(was: seq<Byte>, now: seq<Byte>, buffer: seq<Byte>, m: Msg) {
    was <= now && Parse(now[|was|..] + buffer) == Complete(m, |now| - |was|)
  }

  lemma TakesFrame(was: seq<Byte>, buffer: seq<Byte>, m: Msg, n: nat)
    requires Parse(buffer) == Complete(m, n)
    ensures Took(was, was + buffer[..n], buffer[n..], m)
  {
    assert (was + buffer[..n])[|was|..] + buffer[n..] == buffer;
  }

  // ---------- The connection ----------

  class Connection {
    var state: State
    var readBuffer: seq<Byte>
    var bytesReceived: int
    var messagesReceived: int
    // What the network has yet to deliver.
    var incoming: seq<seq<Byte>>

    // All bytes read so far, and those taken out of the buffer as frames.
    ghost var received: seq<Byte>
    ghost var consumed: seq<Byte>

    // Nothing is lost, reordered or duplicated between the network and the frames.
    ghost predicate Valid()
      reads this
    {
      && received == consumed + readBuffer
      && bytesReceived == |received|
      && messagesReceived >= 0
    }

    constructor (incoming: seq<seq<Byte>>)
      ensures Valid() && state == Connecting && readBuffer == [] && this.incoming == incoming
      ensures received == [] && messagesReceived == 0
    {
      state := Connecting;
      readBuffer := [];
      bytesReceived, messagesReceived := 0, 0;
      this.incoming := incoming;
      received, consumed := [], [];
    }

    method Start()
      modifies this`state
      ensures state == Connected
    {
      state := Connected;
    }

    // Decodes a frame at the start of the buffer and takes it out.
    method TryDecodeMessage() returns (r: Decoded)
      requires Valid() && readBuffer != []
      modifies this`readBuffer, this`consumed
      ensures Valid() && r == Parse(old(readBuffer))
      ensures r.Complete? ==>
        readBuffer == old(readBuffer)[r.consumed..] && consumed == old(consumed) + old(readBuffer)[..r.consumed]
      ensures r.Complete? ==> Took(old(consumed), consumed, readBuffer, r.msg)
      ensures r.Failed? ==> readBuffer == old(readBuffer) && consumed == old(consumed)
    {
      r := Decode(readBuffer);
      if r.Complete? {
        TakesFrame(consumed, readBuffer, r.msg, r.consumed);
        assert readBuffer == readBuffer[..r.consumed] + readBuffer[r.consumed..];
        consumed := consumed + readBuffer[..r.consumed];
        if r.consumed < |readBuffer| {
          readBuffer := readBuffer[r.consumed..];
        } else {
          assert readBuffer[r.consumed..] == [];
          readBuffer := [];
        }
      }
    }

    // One Read of the network, appended to the buffer.
    method ReadChunk()
      requires Valid() && incoming != []
      modifies this`readBuffer, this`bytesReceived, this`incoming, this`received
      ensures Valid() && readBuffer == old(readBuffer) + old(incoming)[0] && incoming == old(incoming)[1..]
      ensures received + Flatten(incoming) == old(received) + Flatten(old(incoming))
    {
      var chunk := incoming[0];
      incoming := incoming[1..];
      readBuffer := readBuffer + chunk;
      received := received + chunk;
      bytesReceived := bytesReceived + |chunk|;
    }

    // The start of one turn of ReadMessage's loop: whether the buffer settles the
    // call, and with what result.
    method TrySettle() returns (settled: bool, r: ReadResult)
      requires Valid()
      modifies this`readBuffer, this`messagesReceived, this`consumed
      ensures Valid() && (settled <==> Settled(old(readBuffer)))
      ensures settled ==> Outcome(r, readBuffer, incoming) == Settle(old(readBuffer), incoming)
      ensures messagesReceived == old(messagesReceived) + (if settled && r.Message? then 1 else 0)
      ensures settled && r.Message? ==> Took(old(consumed), consumed, readBuffer, r.msg)
      ensures !settled || r.Error? ==> readBuffer == old(readBuffer) && consumed == old(consumed)
    {
      settled, r := false, Error(ReadFailed);
      if |readBuffer| >= FIXED_LENGTH {
        var decoded := TryDecodeMessage();
        if decoded.Complete? {
          messagesReceived := messagesReceived + 1;
          settled, r := true, Message(decoded.msg);
        } else if !Insufficient(decoded.error) {
          settled, r := true, Error(DecodeFailed(decoded.error));
        }
      }
    }

    method ReadMessage() returns (r: ReadResult)
      requires Valid()
      modifies this`readBuffer, this`bytesReceived, this`messagesReceived, this`incoming, this`received, this`consumed
      ensures Valid()
      ensures state != Connected && state != Authenticated ==>
        r == Error(ConnectionClosed) && readBuffer == old(readBuffer) && incoming == old(incoming)
      ensures state == Connected || state == Authenticated ==>
        Outcome(r, readBuffer, incoming) == Read(old(readBuffer), old(incoming))
      ensures messagesReceived == old(messagesReceived) + (if r.Message? then 1 else 0)
      // A message takes exactly its bytes out of the stream, an error takes none.
      ensures r.Error? ==> consumed == old(consumed)
      ensures r.Message? ==> Took(old(consumed), consumed, readBuffer, r.msg)
      ensures received + Flatten(incoming) == old(received) + Flatten(old(incoming))
    {
      if state != Connected && state != Authenticated {
        return Error(ConnectionClosed);
      }
      while true
        invariant Valid() && messagesReceived == old(messagesReceived) && consumed == old(consumed)
        invariant Read(readBuffer, incoming) == Read(old(readBuffer), old(incoming))
        invariant received + Flatten(incoming) == old(received) + Flatten(old(incoming))
        decreases |incoming|
      {
        var settled;
        settled, r := TrySettle();
        if settled {
          return;
        }
        if incoming == [] {
          return Error(ReadFailed);
        }
        ReadChunk();
      }
    }
  }

  // ---------- Whole sessions ----------

  // n successive ReadMessage calls: the results, and the state after the last.
  datatype Session = Session(results: seq<ReadResult>, buffer: seq<Byte>, chunks: seq<seq<Byte>>)

  function ReadMany(n: nat, buffer: seq<Byte>, chunks: seq<seq<Byte>>): (s: Session)
    ensures |s.results| == n
  {
    if n == 0 then Session([], buffer, chunks) else
    var first := Read(buffer, chunks);
    var rest := ReadMany(n - 1, first.buffer, first.chunks);
    Session([first.result] + rest.results, rest.buffer, rest.chunks)
  }

  lemma ReadManyFirst(n: nat, buffer: seq<Byte>, chunks: seq<seq<Byte>>, o: Outcome)
    requires Read(buffer, chunks) == o
    ensures var rest := ReadMany(n, o.buffer, o.chunks);
            ReadMany(n + 1, buffer, chunks) == Session([o.result] + rest.results, rest.buffer, rest.chunks)
  {
  }

  // A call that finds a whole frame returns its message without reading.
  lemma ReadWhole(m: Msg, chunks: seq<seq<Byte>>)
    ensures Read(Frame(m), chunks) == Outcome(Message(Received(m)), [], chunks)
  {
    RoundTrip(m);
    assert Frame(m)[|Frame(m)|..] == [];
  }

  // A call that finds less reads a chunk.
  lemma MoreNeeded(m: Msg, buffer: seq<Byte>, chunks: seq<seq<Byte>>)
    requires buffer < Frame(m) && chunks != []
    ensures Read(buffer, chunks) == Read(buffer + chunks[0], chunks[1..])
  {
    StrictPrefix(m, |buffer|);
    assert buffer == Frame(m)[..|buffer|];
  }

  // What is left of the chunks that carried a frame: later, behind chunks without
  // any bytes.
  ghost predicate Leaves(chunks: seq<seq<Byte>>, later: seq<seq<Byte>>) {
    && |later| <= |chunks| && chunks[|chunks| - |later|..] == later
    && Flatten(chunks[..|chunks| - |later|]) == []
  }

  // A call whose buffer and next chunks make up one frame returns its message,
  // and leaves an empty buffer and at most empty chunks of that frame.
  lemma {:induction false} ReadOne(m: Msg, buffer: seq<Byte>, group: seq<seq<Byte>>, later: seq<seq<Byte>>)
    requires buffer + Flatten(group) == Frame(m)
    ensures var o := Read(buffer, group + later);
            o.result == Message(Received(m)) && o.buffer == [] && Leaves(o.chunks, later)
    decreases |group|
  {
    var chunks := group + later;
    if |buffer| == |Frame(m)| {
      assert buffer == Frame(m) && Flatten(group) == [];
      ReadWhole(m, chunks);
      assert chunks[|chunks| - |later|..] == later && chunks[..|chunks| - |later|] == group;
    } else {
      assert group != [];
      assert chunks[0] == group[0] && chunks[1..] == group[1..] + later;
      assert buffer + group[0] + Flatten(group[1..]) == Frame(m);
      MoreNeeded(m, buffer, chunks);
      ReadOne(m, buffer + group[0], group[1..], later);
    }
  }

  // The results when exactly these messages arrive.
  function Deliveries(msgs: seq<Msg>): (r: seq<ReadResult>)
    ensures |r| == |msgs| && forall i :: 0 <= i < |msgs| ==> r[i] == Message(Received(msgs[i]))
  {
    if msgs == [] then [] else [Message(Received(msgs[0]))] + Deliveries(msgs[1..])
  }

  ghost predicate Chunked(msgs: seq<Msg>, groups: seq<seq<seq<Byte>>>) {
    && |groups| == |msgs|
    && forall i :: 0 <= i < |msgs| ==> Flatten(groups[i]) == Frame(msgs[i])
  }

  // However the frames of a list of messages are cut into chunks, as long as no
  // chunk crosses the end of a frame, successive calls return exactly those
  // messages in order, and nothing is left over.
  lemma {:induction false} Reassembly(msgs: seq<Msg>, groups: seq<seq<seq<Byte>>>)
    requires Chunked(msgs, groups)
    ensures var s := ReadMany(|msgs|, [], Flatten(groups));
            && s.results == Deliveries(msgs)
            && s.buffer == [] && Flatten(s.chunks) == []
  {
    if msgs == [] {
      assert Flatten(groups) == [];
    } else {
      ReassemblyFrom([], msgs, groups);
      assert [] + Flatten(groups) == Flatten(groups);
    }
  }

  lemma ReadGroup(m: Msg, empty: seq<seq<Byte>>, group: seq<seq<Byte>>, later: seq<seq<Byte>>)
    returns (left: seq<seq<Byte>>)
    requires Flatten(empty) == [] && Flatten(group) == Frame(m)
    ensures Flatten(left) == []
    ensures Read([], empty + group + later) == Outcome(Message(Received(m)), [], left + later)
  {
    FlattenConcat(empty, group);
    assert [] + Flatten(empty + group) == Frame(m);
    ReadOne(m, [], empty + group, later);
    var o := Read([], empty + group + later);
    left := o.chunks[..|o.chunks| - |later|];
    assert o.chunks == left + later;
  }

  // The same with empty chunks left over from an earlier frame in front.
  lemma {:induction false} ReassemblyFrom(empty: seq<seq<Byte>>, msgs: seq<Msg>, groups: seq<seq<seq<Byte>>>)
    requires Chunked(msgs, groups) && Flatten(empty) == []
    ensures var s := ReadMany(|msgs|, [], empty + Flatten(groups));
            && s.results == Deliveries(msgs)
            && s.buffer == [] && Flatten(s.chunks) == []
    decreases |msgs|
  {
    var chunks := empty + Flatten(groups);
    if msgs == [] {
      assert chunks == empty;
    } else {
      var later := Flatten(groups[1..]);
      assert chunks == empty + groups[0] + later;
      var left := ReadGroup(msgs[0], empty, groups[0], later);
      ReassemblyFrom(left, msgs[1..], groups[1..]);
      ReadManyFirst(|msgs| - 1, [], chunks, Outcome(Message(Received(msgs[0])), [], left + later));
    }
  }

  // ---------- Chunks that cross the end of a frame ----------

  // What a call reads until it has n bytes: the buffer then, and the chunks left.
  function Gather(n: nat, buffer: seq<Byte>, chunks: seq<seq<Byte>>): (r: (seq<Byte>, seq<seq<Byte>>))
    ensures |r.0| < n ==> r.1 == []
    decreases |chunks|
  {
    if |buffer| >= n || chunks == [] then (buffer, chunks) else Gather(n, buffer + chunks[0], chunks[1..])
  }

  lemma {:induction false} GatherStream(n: nat, buffer: seq<Byte>, chunks: seq<seq<Byte>>)
    ensures var (b, rest) := Gather(n, buffer, chunks); b + Flatten(rest) == buffer + Flatten(chunks)
    ensures n <= |buffer + Flatten(chunks)| ==> n <= |Gather(n, buffer, chunks).0|
    decreases |chunks|
  {
    if |buffer| < n && chunks != [] {
      GatherStream(n, buffer + chunks[0], chunks[1..]);
      assert buffer + chunks[0] + Flatten(chunks[1..]) == buffer + Flatten(chunks);
    }
  }

  // The bytes behind a frame leave its checksum as it is.
  predicate Harmless(m: Msg, t: seq<Byte>) {
    Checksum(Payload(m) + t) == Checksum(Payload(m))
  }

  // Wherever the bytes to come start with a frame, and however they are cut, one
  // call returns its message if what was read beyond the frame is harmless, which
  // then stays in the buffer, and fails for good otherwise.
  lemma {:induction false} GluedFrames(m: Msg, buffer: seq<Byte>, chunks: seq<seq<Byte>>)
    requires Frame(m) <= buffer + Flatten(chunks)
    ensures var (b, rest) := Gather(|Frame(m)|, buffer, chunks);
            && Frame(m) <= b
            && Read(buffer, chunks) ==
                 if Harmless(m, b[|Frame(m)|..]) then Outcome(Message(Received(m)), b[|Frame(m)|..], rest)
                 else Outcome(Error(DecodeFailed(BadChecksum(|Frame(m)|))), b, rest)
    decreases |chunks|
  {
    var f := Frame(m);
    if |buffer| >= |f| {
      var t := buffer[|f|..];
      assert buffer[..|f|] == (buffer + Flatten(chunks))[..|f|] == f;
      assert buffer == f + t;
      TrailingBytes(m, t);
    } else {
      assert buffer == (buffer + Flatten(chunks))[..|buffer|] == f[..|buffer|];
      StrictPrefix(m, |buffer|);
      assert chunks != [];
      assert buffer + chunks[0] + Flatten(chunks[1..]) == buffer + Flatten(chunks);
      GluedFrames(m, buffer + chunks[0], chunks[1..]);
    }
  }

  // After a decoding failure the buffer is kept, so every later call fails in
  // the same way without reading: the connection never delivers again.
  lemma {:induction false} StuckForever(buffer: seq<Byte>, chunks: seq<seq<Byte>>, n: nat)
    requires Settled(buffer) && Parse(buffer).Failed?
    ensures ReadMany(n, buffer, chunks) ==
      Session(seq(n, _ => Error(DecodeFailed(Parse(buffer).error))), buffer, chunks)
  {
    if n > 0 {
      StuckForever(buffer, chunks, n - 1);
      var e := Error(DecodeFailed(Parse(buffer).error));
      assert [e] + seq(n - 1, _ => e) == seq(n, _ => e);
    }
  }

  // Every call of a session fails in this way.
  ghost predicate AllFail(results: seq<ReadResult>, e: DecodeError) {
    forall i :: 0 <= i < |results| ==> results[i] == Error(DecodeFailed(e))
  }

  lemma StuckAt(m: Msg, t: seq<Byte>, chunks: seq<seq<Byte>>, n: nat)
    requires !Harmless(m, t)
    ensures AllFail(ReadMany(n, Frame(m) + t, chunks).results, BadChecksum(|Frame(m)|))
  {
    TrailingBytes(m, t);
    StuckForever(Frame(m) + t, chunks, n);
  }

  // If what is read beyond a frame is not harmless, no call ever returns a
  // message again, whatever follows.
  lemma {:induction false} GluedFramesStick(m: Msg, buffer: seq<Byte>, chunks: seq<seq<Byte>>, n: nat)
    requires Frame(m) <= buffer + Flatten(chunks)
    requires Frame(m) <= Gather(|Frame(m)|, buffer, chunks).0
    requires !Harmless(m, Gather(|Frame(m)|, buffer, chunks).0[|Frame(m)|..])
    ensures AllFail(ReadMany(n, buffer, chunks).results, BadChecksum(|Frame(m)|))
  {
    var (b, rest) := Gather(|Frame(m)|, buffer, chunks);
    GluedFrames(m, buffer, chunks);
    if n > 0 {
      assert b == Frame(m) + b[|Frame(m)|..];
      StuckAt(m, b[|Frame(m)|..], rest, n - 1);
      ReadManyFirst(n - 1, buffer, chunks, Read(buffer, chunks));
    }
  }

  // All frames of a list of messages, one behind the other.
  function FrameAll(msgs: seq<Msg>): seq<Byte> {
    if msgs == [] then [] else Frame(msgs[0]) + FrameAll(msgs[1..])
  }

  // How many frames come before the first one with harmful bytes read behind it.
  function Readable(msgs: seq<Msg>, buffer: seq<Byte>, chunks: seq<seq<Byte>>): (k: nat)
    ensures k <= |msgs|
  {
    if msgs == [] then 0 else
    var n := |Frame(msgs[0])|;
    var (b, rest) := Gather(n, buffer, chunks);
    if |b| < n || !Harmless(msgs[0], b[n..]) then 0 else 1 + Readable(msgs[1..], b[n..], rest)
  }

  // The results of reading as many messages as there are frames.
  function Arrivals(msgs: seq<Msg>, buffer: seq<Byte>, chunks: seq<seq<Byte>>): (r: seq<ReadResult>)
    ensures |r| == |msgs|
  {
    if msgs == [] then [] else
    var n := |Frame(msgs[0])|;
    var (b, rest) := Gather(n, buffer, chunks);
    if |b| < n || !Harmless(msgs[0], b[n..]) then seq(|msgs|, _ => Error(DecodeFailed(BadChecksum(n))))
    else [Message(Received(msgs[0]))] + Arrivals(msgs[1..], b[n..], rest)
  }

  lemma PrefixSplit<T>(a: seq<T>, b: seq<T>, s: seq<T>)
    requires a + b <= s
    ensures a <= s && b <= s[|a|..]
  {
    assert (a + b)[..|a|] == a && (a + b)[|a|..] == b;
    assert s[|a|..][..|b|] == b;
  }

  // What a call has read when it has the frame f: the bytes behind it, the chunks
  // left, and between them the rest of the stream.
  lemma RestOfStream(f: seq<Byte>, more: seq<Byte>, buffer: seq<Byte>, chunks: seq<seq<Byte>>)
    returns (t: seq<Byte>, rest: seq<seq<Byte>>)
    requires f + more <= buffer + Flatten(chunks)
    ensures f <= buffer + Flatten(chunks)
    ensures Gather(|f|, buffer, chunks) == (f + t, rest) && more <= t + Flatten(rest)
  {
    var (b, left) := Gather(|f|, buffer, chunks);
    GatherStream(|f|, buffer, chunks);
    PrefixSplit(f, more, buffer + Flatten(chunks));
    t, rest := b[|f|..], left;
    assert t + Flatten(rest) == (buffer + Flatten(chunks))[|f|..];
    assert b[..|f|] == (b + Flatten(rest))[..|f|] == f;
    assert b == f + t;
  }

  lemma {:induction false} HarmfulFirst(
    msgs: seq<Msg>, buffer: seq<Byte>, chunks: seq<seq<Byte>>, t: seq<Byte>, rest: seq<seq<Byte>>)
    requires msgs != [] && Frame(msgs[0]) <= buffer + Flatten(chunks)
    requires Gather(|Frame(msgs[0])|, buffer, chunks) == (Frame(msgs[0]) + t, rest) && !Harmless(msgs[0], t)
    ensures ReadMany(|msgs|, buffer, chunks).results == Arrivals(msgs, buffer, chunks)
  {
    assert (Frame(msgs[0]) + t)[|Frame(msgs[0])|..] == t;
    GluedFramesStick(msgs[0], buffer, chunks, |msgs|);
  }

  lemma {:induction false} HarmlessFirst(
    msgs: seq<Msg>, buffer: seq<Byte>, chunks: seq<seq<Byte>>, t: seq<Byte>, rest: seq<seq<Byte>>)
    requires msgs != [] && Frame(msgs[0]) <= buffer + Flatten(chunks)
    requires Gather(|Frame(msgs[0])|, buffer, chunks) == (Frame(msgs[0]) + t, rest) && Harmless(msgs[0], t)
    requires ReadMany(|msgs| - 1, t, rest).results == Arrivals(msgs[1..], t, rest)
    ensures ReadMany(|msgs|, buffer, chunks).results == Arrivals(msgs, buffer, chunks)
  {
    assert (Frame(msgs[0]) + t)[|Frame(msgs[0])|..] == t;
    GluedFrames(msgs[0], buffer, chunks);
    ReadManyFirst(|msgs| - 1, buffer, chunks, Outcome(Message(Received(msgs[0])), t, rest));
  }

  lemma {:induction false} SessionStep(msgs: seq<Msg>, buffer: seq<Byte>, chunks: seq<seq<Byte>>)
    returns (t: seq<Byte>, rest: seq<seq<Byte>>)
    requires msgs != [] && FrameAll(msgs) <= buffer + Flatten(chunks)
    ensures FrameAll(msgs[1..]) <= t + Flatten(rest)
    ensures ReadMany(|msgs| - 1, t, rest).results == Arrivals(msgs[1..], t, rest) ==>
      ReadMany(|msgs|, buffer, chunks).results == Arrivals(msgs, buffer, chunks)
  {
    t, rest := RestOfStream(Frame(msgs[0]), FrameAll(msgs[1..]), buffer, chunks);
    if !Harmless(msgs[0], t) {
      HarmfulFirst(msgs, buffer, chunks, t, rest);
    } else if ReadMany(|msgs| - 1, t, rest).results == Arrivals(msgs[1..], t, rest) {
      HarmlessFirst(msgs, buffer, chunks, t, rest);
    }
  }

  lemma {:induction false} SessionArrivals(msgs: seq<Msg>, buffer: seq<Byte>, chunks: seq<seq<Byte>>)
    requires FrameAll(msgs) <= buffer + Flatten(chunks)
    ensures ReadMany(|msgs|, buffer, chunks).results == Arrivals(msgs, buffer, chunks)
    decreases |msgs|
  {
    if msgs != [] {
      var t, rest := SessionStep(msgs, buffer, chunks);
      SessionArrivals(msgs[1..], t, rest);
    }
  }

  // The first k messages arrive and then none.
  ghost predicate ArriveUpTo(results: seq<ReadResult>, msgs: seq<Msg>, k: nat)
    requires k <= |msgs| == |results|
  {
    && (forall i :: 0 <= i < k ==> results[i] == Message(Received(msgs[i])))
    && (forall i :: k <= i < |msgs| ==> results[i] == Error(DecodeFailed(BadChecksum(|Frame(msgs[k])|))))
  }

  lemma OneMoreArrives(results: seq<ReadResult>, m: Msg, msgs: seq<Msg>, k: nat)
    requires k <= |msgs| == |results| && ArriveUpTo(results, msgs, k)
    ensures ArriveUpTo([Message(Received(m))] + results, [m] + msgs, k + 1)
  {
  }

  lemma {:induction false} ArrivalsShape(msgs: seq<Msg>, buffer: seq<Byte>, chunks: seq<seq<Byte>>)
    ensures ArriveUpTo(Arrivals(msgs, buffer, chunks), msgs, Readable(msgs, buffer, chunks))
    decreases |msgs|
  {
    if msgs != [] {
      var n := |Frame(msgs[0])|;
      var (b, rest) := Gather(n, buffer, chunks);
      if |b| >= n && Harmless(msgs[0], b[n..]) {
        var later, k := Arrivals(msgs[1..], b[n..], rest), Readable(msgs[1..], b[n..], rest);
        ArrivalsShape(msgs[1..], b[n..], rest);
        OneMoreArrives(later, msgs[0], msgs[1..], k);
        assert msgs == [msgs[0]] + msgs[1..];
        assert Arrivals(msgs, buffer, chunks) == [Message(Received(msgs[0]))] + later;
        assert Readable(msgs, buffer, chunks) == k + 1;
      }
    }
  }

  // For any messages and any cutting of their frames into chunks, and whatever
  // follows them: the messages arrive in order up to the first one with harmful
  // bytes read behind it, and from there on every call fails. So they all arrive
  // if and only if none has.
  lemma {:induction false} SessionExactly(msgs: seq<Msg>, buffer: seq<Byte>, chunks: seq<seq<Byte>>)
    requires FrameAll(msgs) <= buffer + Flatten(chunks)
    ensures ArriveUpTo(ReadMany(|msgs|, buffer, chunks).results, msgs, Readable(msgs, buffer, chunks))
    ensures ReadMany(|msgs|, buffer, chunks).results == Deliveries(msgs) <==> Readable(msgs, buffer, chunks) == |msgs|
  {
    SessionArrivals(msgs, buffer, chunks);
    ArrivalsShape(msgs, buffer, chunks);
    var r, k, d := Arrivals(msgs, buffer, chunks), Readable(msgs, buffer, chunks), Deliveries(msgs);
    if k < |msgs| {
      assert r[k].Error? && d[k].Message?;
    } else {
      assert forall i :: 0 <= i < |msgs| ==> r[i] == d[i];
    }
  }

  // Chunks that do not make up n bytes are all read.
  lemma {:induction false} GatherParts(n: nat, buffer: seq<Byte>, parts: seq<seq<Byte>>, rest: seq<seq<Byte>>)
    requires |buffer| + |Flatten(parts)| < n
    ensures Gather(n, buffer, parts + rest) == Gather(n, buffer + Flatten(parts), rest)
    decreases |parts|
  {
    if parts == [] {
      assert parts + rest == rest && buffer + Flatten(parts) == buffer;
    } else {
      GatherParts(n, buffer + parts[0], parts[1..], rest);
      assert (parts + rest)[1..] == parts[1..] + rest;
      assert buffer + parts[0] + Flatten(parts[1..]) == buffer + Flatten(parts);
    }
  }

  lemma GatherLast(f: seq<Byte>, buffer: seq<Byte>, last: seq<Byte>, t: seq<Byte>, later: seq<seq<Byte>>)
    requires |buffer| < |f| && buffer + last == f
    ensures Gather(|f|, buffer, [last + t] + later) == (f + t, later)
  {
    assert ([last + t] + later)[1..] == later;
    assert buffer + (last + t) == f + t;
  }

  // A frame whose last chunk brings exactly the bytes t beyond its end.
  lemma GatherSurplus(m: Msg, buffer: seq<Byte>, parts: seq<seq<Byte>>, last: seq<Byte>,
                      t: seq<Byte>, later: seq<seq<Byte>>)
    requires |buffer| + |Flatten(parts)| < |Frame(m)| && buffer + Flatten(parts) + last == Frame(m)
    ensures var chunks := parts + ([last + t] + later);
            && Gather(|Frame(m)|, buffer, chunks) == (Frame(m) + t, later)
            && Frame(m) <= buffer + Flatten(chunks)
  {
    var chunks := parts + ([last + t] + later);
    GatherParts(|Frame(m)|, buffer, parts, [last + t] + later);
    GatherLast(Frame(m), buffer + Flatten(parts), last, t, later);
    GatherStream(|Frame(m)|, buffer, chunks);
  }

  lemma {:induction false} SurplusSticks(m: Msg, buffer: seq<Byte>, parts: seq<seq<Byte>>, last: seq<Byte>,
                                         t: seq<Byte>, later: seq<seq<Byte>>, n: nat)
    requires |buffer| + |Flatten(parts)| < |Frame(m)| && buffer + Flatten(parts) + last == Frame(m)
    requires !Harmless(m, t)
    ensures AllFail(ReadMany(n, buffer, parts + ([last + t] + later)).results, BadChecksum(|Frame(m)|))
  {
    GatherSurplus(m, buffer, parts, last, t, later);
    assert (Frame(m) + t)[|Frame(m)|..] == t;
    GluedFramesStick(m, buffer, parts + ([last + t] + later), n);
  }

  // Of any two different texts, of the same length of up to four bytes, that the
  // last chunk of a frame may bring beyond its end, one silences the connection
  // for good.
  lemma {:induction false} GluedBytesStick(
    m: Msg, buffer: seq<Byte>, parts: seq<seq<Byte>>, last: seq<Byte>, t: seq<Byte>, u: seq<Byte>,
    later: seq<seq<Byte>>, n: nat)
    requires |t| == |u| <= 4 && t != u
    requires |buffer| + |Flatten(parts)| < |Frame(m)| && buffer + Flatten(parts) + last == Frame(m)
    ensures AllFail(ReadMany(n, buffer, parts + ([last + t] + later)).results, BadChecksum(|Frame(m)|))
         || AllFail(ReadMany(n, buffer, parts + ([last + u] + later)).results, BadChecksum(|Frame(m)|))
  {
    BurstTrailing(m, t, u);
    TrailingBytes(m, t);
    TrailingBytes(m, u);
    if !Harmless(m, t) {
      SurplusSticks(m, buffer, parts, last, t, later, n);
    } else {
      SurplusSticks(m, buffer, parts, last, u, later, n);
    }
  }
}
