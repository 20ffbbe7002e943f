// The binary frame format: what the codec writes and what it accepts.
module Frames {
  import opened Wire
  import opened Buffers

  datatype Header = Header(
    version: Byte, msgType: U16, flags: Byte, sequenceId: U32,
    gameId: seq<Byte>, userId: seq<Byte>, timestamp: I64,
    bodyLength: U32, checksum: U32)

  datatype Msg = Msg(header: Header, body: seq<Byte>)

  datatype DecodeError =
    | TooShort(consumed: nat)
    | NoGameId(consumed: nat)
    | NoUserId(consumed: nat)
    | NoBody(consumed: nat)
    | BadChecksum(consumed: nat)

  datatype Decoded = Complete(msg: Msg, consumed: nat) | Failed(error: DecodeError)

  const FIXED_LENGTH: nat := 28
  const CHECKSUM_OFFSET: nat := 20

  // ---------- Writing ----------

  // The length fields have 16, 16 and 32 bits; what does not fit is cut off.
  function WireGameId(m: Msg): seq<Byte> {
    m.header.gameId[..|m.header.gameId| % 0x1_0000]
  }

  function WireUserId(m: Msg): seq<Byte> {
    m.header.userId[..|m.header.userId| % 0x1_0000]
  }

  function WireBody(m: Msg): seq<Byte> {
    m.body[..|m.body| % 0x1_0000_0000]
  }

  // The part of a frame before the checksum field, and the part after it.
  function Front(h: Header, bodyLength: U32): (r: seq<Byte>)
    ensures |r| == CHECKSUM_OFFSET
  {
    [h.version] + Big16(h.msgType) + [h.flags] + Big32(h.sequenceId)
    + Big64(ToUnsigned(h.timestamp)) + Big32(bodyLength)
  }

  function Back(gameId: seq<Byte>, userId: seq<Byte>, body: seq<Byte>): seq<Byte>
    requires |gameId| < 0x1_0000 && |userId| < 0x1_0000
  {
    Big16(|gameId|) + Big16(|userId|) + gameId + userId + body
  }

  // Everything the checksum covers.
  function Payload(m: Msg): (r: seq<Byte>)
    ensures |r| == FIXED_LENGTH - 4 + |WireGameId(m)| + |WireUserId(m)| + |WireBody(m)|
  {
    Front(m.header, |WireBody(m)|) + Back(WireGameId(m), WireUserId(m), WireBody(m))
  }

  function Frame(m: Msg): (r: seq<Byte>)
    ensures |r| == FIXED_LENGTH + |WireGameId(m)| + |WireUserId(m)| + |WireBody(m)|
  {
    Front(m.header, |WireBody(m)|) + Big32(Checksum(Payload(m)))
    + Back(WireGameId(m), WireUserId(m), WireBody(m))
  }

  // ---------- Reading ----------

  // The buffer without its checksum field.
  function Covered(data: seq<Byte>): seq<Byte>
    requires |data| >= FIXED_LENGTH
  {
    data[..CHECKSUM_OFFSET] + data[CHECKSUM_OFFSET + 4..]
  }

  function Parse(data: seq<Byte>): (r: Decoded)
    ensures r.Complete? ==> FIXED_LENGTH <= r.consumed <= |data|
    ensures r.Failed? && !r.error.BadChecksum? ==> r.error.consumed <= |data|
  {
    if |data| < FIXED_LENGTH then Failed(TooShort(0)) else
    var gameLength, userLength, bodyLength := U16At(data, 24), U16At(data, 26), U32At(data, 16);
    var user := FIXED_LENGTH + gameLength;
    var body := user + userLength;
    var end := body + bodyLength;
    if |data| < user then Failed(NoGameId(FIXED_LENGTH))
    else if |data| < body then Failed(NoUserId(user))
    else if |data| < end then Failed(NoBody(body))
    else if Checksum(Covered(data)) != U32At(data, CHECKSUM_OFFSET) then Failed(BadChecksum(end))
    else
      Complete(
        Msg(Header(data[0], U16At(data, 1), data[3], U32At(data, 4),
                   data[FIXED_LENGTH..user], data[user..body], ToSigned(U64At(data, 8)),
                   bodyLength, U32At(data, CHECKSUM_OFFSET)),
            data[body..end]),
        end)
  }

  // isInsufficientDataError: which failures make the reader wait for more bytes.
  predicate Insufficient(e: DecodeError) {
    !e.BadChecksum?
  }

  // What the receiver of a frame sees.
  function Received(m: Msg): Msg {
    Msg(m.header.(gameId := WireGameId(m), userId := WireUserId(m),
                  bodyLength := |WireBody(m)|, checksum := Checksum(Payload(m))),
        WireBody(m))
  }

  predicate Fits(m: Msg) {
    |m.header.gameId| < 0x1_0000 && |m.header.userId| < 0x1_0000 && |m.body| < 0x1_0000_0000
  }

  // ---------- Failures ----------

  // Each failure, with the bytes consumed that it reports, exactly when the code
  // finds it: by the lengths the buffer shows, in the order of the format, and last
  // by the checksum of all of the buffer but the four bytes from position 20 on.
  lemma FailsExactly(data: seq<Byte>)
    ensures Parse(data) == Failed(TooShort(0)) <==> |data| < 28
    ensures |data| >= 28 ==>
      var game, user, body := U16At(data, 24), U16At(data, 26), U32At(data, 16);
      && (Parse(data) == Failed(NoGameId(28)) <==> |data| < 28 + game)
      && (Parse(data) == Failed(NoUserId(28 + game)) <==> 28 + game <= |data| < 28 + game + user)
      && (Parse(data) == Failed(NoBody(28 + game + user)) <==>
            28 + game + user <= |data| < 28 + game + user + body)
      && (Parse(data) == Failed(BadChecksum(28 + game + user + body)) <==>
            |data| >= 28 + game + user + body && Checksum(data[..20] + data[24..]) != U32At(data, 20))
      && (Parse(data).Complete? <==>
            |data| >= 28 + game + user + body && Checksum(data[..20] + data[24..]) == U32At(data, 20))
  {
  }

  // ---------- The fields of a frame ----------

  lemma Front16At(h: Header, bodyLength: U32)
    ensures var f := Front(h, bodyLength); f[0] == h.version && f[1..3] == Big16(h.msgType) && f[3] == h.flags
  {
  }

  lemma Front32At(h: Header, bodyLength: U32)
    ensures var f := Front(h, bodyLength); f[4..8] == Big32(h.sequenceId) && f[16..20] == Big32(bodyLength)
  {
  }

  lemma Front64At(h: Header, bodyLength: U32)
    ensures Front(h, bodyLength)[8..16] == Big64(ToUnsigned(h.timestamp))
  {
  }

  // What a buffer that starts with the front of a frame reads as.
  lemma FrontFields(h: Header, bodyLength: U32, data: seq<Byte>)
    requires |data| >= FIXED_LENGTH && data[..CHECKSUM_OFFSET] == Front(h, bodyLength)
    ensures data[0] == h.version && U16At(data, 1) == h.msgType && data[3] == h.flags
    ensures U32At(data, 4) == h.sequenceId && U64At(data, 8) == ToUnsigned(h.timestamp)
    ensures U32At(data, 16) == bodyLength
  {
    var f := data[..CHECKSUM_OFFSET];
    Front16At(h, bodyLength);
    Front32At(h, bodyLength);
    Front64At(h, bodyLength);
    assert f[0] == data[0] && f[3] == data[3];
    assert f[1..3] == data[1..3] && f[4..8] == data[4..8] && f[8..16] == data[8..16] && f[16..20] == data[16..20];
    Read16(data, 1, h.msgType);
    Read32(data, 4, h.sequenceId);
    Read64(data, 8, ToUnsigned(h.timestamp));
    Read32(data, 16, bodyLength);
  }

  // The first 28 bytes of a frame, part by part.
  lemma FrameHead(m: Msg)
    ensures var f := Frame(m);
            && f[..CHECKSUM_OFFSET] == Front(m.header, |WireBody(m)|)
            && f[20..24] == Big32(Checksum(Payload(m)))
            && f[24..26] == Big16(|WireGameId(m)|) && f[26..28] == Big16(|WireUserId(m)|)
  {
    var f, front, checksum := Frame(m), Front(m.header, |WireBody(m)|), Big32(Checksum(Payload(m)));
    assert f[20..24] == checksum;
  }

  lemma SameSlice<T>(a: seq<T>, b: seq<T>, n: nat, i: nat, j: nat)
    requires i <= j <= n <= |a| && n <= |b| && a[..n] == b[..n]
    ensures a[i..j] == b[i..j]
  {
    assert a[..n][i..j] == a[i..j] && b[..n][i..j] == b[i..j];
  }

  lemma {:induction false} SameHead(m: Msg, data: seq<Byte>)
    requires |data| >= FIXED_LENGTH && data[..FIXED_LENGTH] == Frame(m)[..FIXED_LENGTH]
    ensures data[..CHECKSUM_OFFSET] == Front(m.header, |WireBody(m)|)
    ensures data[20..24] == Big32(Checksum(Payload(m)))
    ensures data[24..26] == Big16(|WireGameId(m)|) && data[26..28] == Big16(|WireUserId(m)|)
  {
    FrameHead(m);
    SameSlice(data, Frame(m), FIXED_LENGTH, 0, 20);
    SameSlice(data, Frame(m), FIXED_LENGTH, 20, 24);
    SameSlice(data, Frame(m), FIXED_LENGTH, 24, 26);
    SameSlice(data, Frame(m), FIXED_LENGTH, 26, 28);
  }

  lemma BackFields(data: seq<Byte>, checksum: U32, gameLength: U16, userLength: U16)
    requires |data| >= FIXED_LENGTH && data[20..24] == Big32(checksum)
    requires data[24..26] == Big16(gameLength) && data[26..28] == Big16(userLength)
    ensures U32At(data, 20) == checksum && U16At(data, 24) == gameLength && U16At(data, 26) == userLength
  {
    Read32(data, 20, checksum);
    Read16(data, 24, gameLength);
    Read16(data, 26, userLength);
  }

  lemma {:induction false} FrameFront(m: Msg, data: seq<Byte>)
    requires |data| >= FIXED_LENGTH && data[..FIXED_LENGTH] == Frame(m)[..FIXED_LENGTH]
    ensures data[0] == m.header.version && U16At(data, 1) == m.header.msgType && data[3] == m.header.flags
    ensures U32At(data, 4) == m.header.sequenceId && U64At(data, 8) == ToUnsigned(m.header.timestamp)
    ensures U32At(data, 16) == |WireBody(m)|
  {
    SameHead(m, data);
    FrontFields(m.header, |WireBody(m)|, data);
  }

  lemma {:induction false} FrameBack(m: Msg, data: seq<Byte>)
    requires |data| >= FIXED_LENGTH && data[..FIXED_LENGTH] == Frame(m)[..FIXED_LENGTH]
    ensures U32At(data, 20) == Checksum(Payload(m))
    ensures U16At(data, 24) == |WireGameId(m)| && U16At(data, 26) == |WireUserId(m)|
  {
    SameHead(m, data);
    BackFields(data, Checksum(Payload(m)), |WireGameId(m)|, |WireUserId(m)|);
  }

  // The fields that a buffer starting with the first 28 bytes of Frame(m) shows.
  lemma {:induction false} FrameFields(m: Msg, data: seq<Byte>)
    requires |data| >= FIXED_LENGTH && data[..FIXED_LENGTH] == Frame(m)[..FIXED_LENGTH]
    ensures data[0] == m.header.version && U16At(data, 1) == m.header.msgType && data[3] == m.header.flags
    ensures U32At(data, 4) == m.header.sequenceId && U64At(data, 8) == ToUnsigned(m.header.timestamp)
    ensures U32At(data, 16) == |WireBody(m)| && U32At(data, 20) == Checksum(Payload(m))
    ensures U16At(data, 24) == |WireGameId(m)| && U16At(data, 26) == |WireUserId(m)|
  {
    FrameFront(m, data);
    FrameBack(m, data);
  }

  lemma CoveredFrame(m: Msg, t: seq<Byte>)
    ensures Covered(Frame(m) + t) == Payload(m) + t
  {
    var data, front := Frame(m) + t, Front(m.header, |WireBody(m)|);
    var back := Back(WireGameId(m), WireUserId(m), WireBody(m));
    assert data[..CHECKSUM_OFFSET] == front;
    assert data[CHECKSUM_OFFSET + 4..] == back + t;
  }

  // ---------- Main results ----------

  // The texts in a buffer that starts with a frame.
  lemma TextFields(m: Msg, t: seq<Byte>)
    ensures var data, user := Frame(m) + t, FIXED_LENGTH + |WireGameId(m)|;
            var body := user + |WireUserId(m)|;
            && data[FIXED_LENGTH..user] == WireGameId(m) && data[user..body] == WireUserId(m)
            && data[body..|Frame(m)|] == WireBody(m)
  {
  }

  // A frame followed by further bytes t decodes, and then to the right message,
  // exactly when t does not change the checksum: the checksum is taken over the
  // whole buffer rather than over the frame.
  lemma TrailingBytes(m: Msg, t: seq<Byte>)
    ensures Parse(Frame(m) + t) ==
      if Checksum(Payload(m) + t) == Checksum(Payload(m)) then Complete(Received(m), |Frame(m)|)
      else Failed(BadChecksum(|Frame(m)|))
  {
    var f, data := Frame(m), Frame(m) + t;
    assert data[..FIXED_LENGTH] == f[..FIXED_LENGTH];
    FrameFields(m, data);
    CoveredFrame(m, t);
    TextFields(m, t);
    SignRoundTrip(m.header.timestamp);
  }

  lemma SignRoundTrip(x: I64)
    ensures ToSigned(ToUnsigned(x)) == x
  {
  }

  // Decoding an encoded message gives it back, with its lengths and checksum
  // filled in, and consumes the whole frame.
  lemma RoundTrip(m: Msg)
    ensures Parse(Frame(m)) == Complete(Received(m), |Frame(m)|)
  {
    assert Frame(m) + [] == Frame(m) && Payload(m) + [] == Payload(m);
    TrailingBytes(m, []);
  }

  // The identifiers and the body arrive whole exactly when they fit their length fields.
  lemma LosslessExactly(m: Msg)
    ensures Fits(m) <==>
      && Received(m).header.gameId == m.header.gameId
      && Received(m).header.userId == m.header.userId
      && Received(m).body == m.body
  {
    CutOff(m.header.gameId, 0x1_0000);
    CutOff(m.header.userId, 0x1_0000);
    CutOff(m.body, 0x1_0000_0000);
  }

  lemma CutOff(x: seq<Byte>, limit: nat)
    requires limit > 0
    ensures x[..|x| % limit] == x <==> |x| < limit
  {
    if x[..|x| % limit] == x { assert |x| % limit == |x|; }
  }

  // Bytes that decode as a whole are exactly the encoding of the result.
  lemma Canonical(data: seq<Byte>, m: Msg)
    requires Parse(data) == Complete(m, |data|)
    ensures Frame(m) == data && Received(m) == m && Fits(m)
  {
    CoveredOf(data, m);
    Read32(data, 20, m.header.checksum);
    FrontOf(data, m);
    BackOf(data, m);
    assert data == data[..20] + data[20..24] + data[24..];
  }

  lemma NothingCut(m: Msg)
    requires Fits(m)
    ensures WireGameId(m) == m.header.gameId && WireUserId(m) == m.header.userId && WireBody(m) == m.body
  {
  }

  lemma ParsedFits(data: seq<Byte>, m: Msg)
    requires Parse(data) == Complete(m, |data|)
    ensures Fits(m) && m.header.bodyLength == |m.body|
  {
  }

  lemma CoveredOf(data: seq<Byte>, m: Msg)
    requires Parse(data) == Complete(m, |data|)
    ensures WireGameId(m) == m.header.gameId && WireUserId(m) == m.header.userId && WireBody(m) == m.body
    ensures Covered(data) == Payload(m)
  {
    ParsedFits(data, m);
    NothingCut(m);
    FrontOf(data, m);
    BackOf(data, m);
  }

  lemma FrontOf(data: seq<Byte>, m: Msg)
    requires Parse(data) == Complete(m, |data|)
    ensures data[..20] == Front(m.header, m.header.bodyLength)
  {
    var h := m.header;
    Read16(data, 1, h.msgType);
    Read32(data, 4, h.sequenceId);
    Read64(data, 8, ToUnsigned(h.timestamp));
    Read32(data, 16, h.bodyLength);
    assert data[..20] == data[0..1] + data[1..3] + data[3..4] + data[4..8] + data[8..16] + data[16..20];
  }

  lemma BackOf(data: seq<Byte>, m: Msg)
    requires Parse(data) == Complete(m, |data|)
    ensures data[24..] == Back(m.header.gameId, m.header.userId, m.body)
  {
    Read16(data, 24, |m.header.gameId|);
    Read16(data, 26, |m.header.userId|);
    var user := FIXED_LENGTH + |m.header.gameId|;
    var body := user + |m.header.userId|;
    assert data[24..] == data[24..26] + data[26..28] + data[28..user] + data[user..body] + data[body..];
  }

  // Every strict prefix of a frame asks for more bytes.
  lemma StrictPrefix(m: Msg, k: nat)
    requires k < |Frame(m)|
    ensures Parse(Frame(m)[..k]).Failed? && Insufficient(Parse(Frame(m)[..k]).error)
  {
    var data := Frame(m)[..k];
    if k >= FIXED_LENGTH {
      assert data[..FIXED_LENGTH] == Frame(m)[..FIXED_LENGTH];
      FrameFields(m, data);
    }
  }

  // A buffer whose checksum field does not match the rest is not accepted.
  lemma MismatchFails(data: seq<Byte>)
    requires |data| >= FIXED_LENGTH && U32At(data, CHECKSUM_OFFSET) != Checksum(Covered(data))
    ensures Parse(data).Failed?
  {
  }

  // The two halves of a frame's checksum: the field, and what it covers.
  lemma ChecksumOfFrame(m: Msg)
    ensures Covered(Frame(m)) == Payload(m) && U32At(Frame(m), CHECKSUM_OFFSET) == Checksum(Payload(m))
  {
    var f := Frame(m);
    assert f + [] == f && Payload(m) + [] == Payload(m);
    CoveredFrame(m, []);
    FrameHead(m);
    Read32(f, 20, Checksum(Payload(m)));
  }

  lemma CoveredAt(data: seq<Byte>)
    requires |data| >= FIXED_LENGTH
    ensures |Covered(data)| == |data| - 4
    ensures forall k :: 0 <= k < |data| - 4 ==> Covered(data)[k] == data[if k < CHECKSUM_OFFSET then k else k + 4]
  {
  }

  // A burst outside the checksum field is one in what the checksum covers.
  lemma BurstCovered(data: seq<Byte>, i: nat, bytes: seq<Byte>) returns (j: nat)
    requires |data| >= FIXED_LENGTH && i + |bytes| <= |data|
    requires i + |bytes| <= CHECKSUM_OFFSET || i >= CHECKSUM_OFFSET + 4
    ensures j + |bytes| <= |Covered(data)| && Covered(data)[j..j + |bytes|] == data[i..i + |bytes|]
    ensures Covered(Splice(data, i, bytes)) == Splice(Covered(data), j, bytes)
    ensures U32At(Splice(data, i, bytes), CHECKSUM_OFFSET) == U32At(data, CHECKSUM_OFFSET)
  {
    j := if i + |bytes| <= CHECKSUM_OFFSET then i else i - 4;
    CoveredAt(data);
    CoveredAt(Splice(data, i, bytes));
    SpliceAt(data, i, bytes);
    SpliceAt(Covered(data), j, bytes);
  }

  // One inside it changes the field and nothing that is covered.
  lemma BurstField(data: seq<Byte>, i: nat, bytes: seq<Byte>)
    requires |data| >= FIXED_LENGTH && CHECKSUM_OFFSET <= i && i + |bytes| <= CHECKSUM_OFFSET + 4
    requires data[i..i + |bytes|] != bytes
    ensures Covered(Splice(data, i, bytes)) == Covered(data)
    ensures U32At(Splice(data, i, bytes), CHECKSUM_OFFSET) != U32At(data, CHECKSUM_OFFSET)
  {
    var r := Splice(data, i, bytes);
    SpliceAt(data, i, bytes);
    CoveredAt(data);
    CoveredAt(r);
    if U32At(r, CHECKSUM_OFFSET) == U32At(data, CHECKSUM_OFFSET) {
      Read32(data, 20, U32At(data, 20));
      Read32(r, 20, U32At(data, 20));
      forall k | 0 <= k < |bytes| ensures data[i + k] == bytes[k] {
        assert r[20..24][i + k - 20] == r[i + k] && data[20..24][i + k - 20] == data[i + k];
      }
    }
  }

  lemma BurstChecksum(s: seq<Byte>, i: nat, bytes: seq<Byte>)
    requires i + |bytes| <= |s| && |bytes| <= 4 && s[i..i + |bytes|] != bytes
    ensures Checksum(Splice(s, i, bytes)) != Checksum(s)
  {
    var was := s[i..i + |bytes|];
    assert s == s[..i] + was + s[i + |bytes|..];
    BurstMatters(s[..i], bytes, was, s[i + |bytes|..]);
  }

  // A frame with up to four consecutive bytes changed, either outside its checksum
  // field or inside it, is never accepted.
  lemma BurstCorrupted(m: Msg, i: nat, bytes: seq<Byte>)
    requires i + |bytes| <= |Frame(m)| && |bytes| <= 4 && Frame(m)[i..i + |bytes|] != bytes
    requires i + |bytes| <= CHECKSUM_OFFSET || i >= CHECKSUM_OFFSET + 4
          || (CHECKSUM_OFFSET <= i && i + |bytes| <= CHECKSUM_OFFSET + 4)
    ensures Parse(Splice(Frame(m), i, bytes)).Failed?
  {
    ChecksumOfFrame(m);
    if CHECKSUM_OFFSET <= i && i + |bytes| <= CHECKSUM_OFFSET + 4 {
      BurstField(Frame(m), i, bytes);
    } else {
      var j := BurstCovered(Frame(m), i, bytes);
      BurstChecksum(Payload(m), j, bytes);
    }
    MismatchFails(Splice(Frame(m), i, bytes));
  }

  // A frame with one byte changed, wherever that is, is never accepted.
  lemma OneByteCorrupted(m: Msg, i: nat, b: Byte)
    requires i < |Frame(m)| && Frame(m)[i] != b
    ensures Parse(Frame(m)[i := b]).Failed?
  {
    assert Frame(m)[i := b] == Splice(Frame(m), i, [b]);
    assert Frame(m)[i..i + 1][0] == Frame(m)[i];
    BurstCorrupted(m, i, [b]);
  }

  // Of all texts of one length of up to four bytes that can follow a frame in the
  // buffer, at most one lets it decode.
  lemma BurstTrailing(m: Msg, t: seq<Byte>, u: seq<Byte>)
    requires |t| == |u| <= 4 && t != u
    ensures Parse(Frame(m) + t).Failed? || Parse(Frame(m) + u).Failed?
  {
    TrailingBytes(m, t);
    TrailingBytes(m, u);
    BurstMatters(Payload(m), t, u, []);
    assert Payload(m) + t + [] == Payload(m) + t && Payload(m) + u + [] == Payload(m) + u;
  }
}
