// BinaryCodec: Encode fills a buffer through a moving offset, Decode walks one.
module Codec {
  import opened Wire
  import opened Frames
  import opened Buffers

  class Message {
    var header: Header
    var body: seq<Byte>

    constructor (header: Header, body: seq<Byte>)
      ensures Value() == Msg(header, body)
    {
      this.header, this.body := header, body;
    }

    function Value(): Msg
      reads this
    {
      Msg(header, body)
    }
  }

  method PutFront(buffer: array<Byte>, header: Header, bodyLen: U32) returns (offset: nat)
    requires buffer.Length >= FIXED_LENGTH
    modifies buffer
    ensures offset == CHECKSUM_OFFSET
    ensures buffer[..] == Splice(old(buffer[..]), 0, Front(header, bodyLen))
  {
    ghost var s := buffer[..];
    var version, msgType, flags := [header.version], Big16(header.msgType), [header.flags];
    var sequenceId, timestamp := Big32(header.sequenceId), Big64(ToUnsigned(header.timestamp));
    offset := Put(buffer, 0, version);
    offset := PutNext(buffer, s, 0, version, offset, msgType);
    offset := PutNext(buffer, s, 0, version + msgType, offset, flags);
    offset := PutNext(buffer, s, 0, version + msgType + flags, offset, sequenceId);
    offset := PutNext(buffer, s, 0, version + msgType + flags + sequenceId, offset, timestamp);
    offset := PutNext(buffer, s, 0, version + msgType + flags + sequenceId + timestamp, offset, Big32(bodyLen));
  }

  method PutBack(buffer: array<Byte>, start: nat, gameId: seq<Byte>, userId: seq<Byte>, body: seq<Byte>)
    requires |gameId| < 0x1_0000 && |userId| < 0x1_0000
    requires start + 4 + |gameId| + |userId| + |body| <= buffer.Length
    modifies buffer
    ensures buffer[..] == Splice(old(buffer[..]), start, Back(gameId, userId, body))
  {
    ghost var s := buffer[..];
    var gameIdLen, userIdLen := Big16(|gameId|), Big16(|userId|);
    var offset := Put(buffer, start, gameIdLen);
    offset := PutNext(buffer, s, start, gameIdLen, offset, userIdLen);
    offset := PutNext(buffer, s, start, gameIdLen + userIdLen, offset, gameId);
    offset := PutNext(buffer, s, start, gameIdLen + userIdLen + gameId, offset, userId);
    offset := PutNext(buffer, s, start, gameIdLen + userIdLen + gameId + userId, offset, body);
  }

  // A buffer s of the right length, once both parts of the frame are in it.
  lemma FrameOf(m: Msg, s: seq<Byte>, t: seq<Byte>)
    requires |s| == |Frame(m)|
    requires t == Splice(Splice(s, 0, Front(m.header, |WireBody(m)|)), CHECKSUM_OFFSET + 4,
                         Back(WireGameId(m), WireUserId(m), WireBody(m)))
    ensures t[..CHECKSUM_OFFSET] + t[CHECKSUM_OFFSET + 4..] == Payload(m)
    ensures Splice(t, CHECKSUM_OFFSET, Big32(Checksum(Payload(m)))) == Frame(m)
  {
    var front, back := Front(m.header, |WireBody(m)|), Back(WireGameId(m), WireUserId(m), WireBody(m));
    assert t[..CHECKSUM_OFFSET] == front && t[CHECKSUM_OFFSET + 4..] == back;
  }

  // Encode writes the frame of the message as it was, and then the checksum
  // into the message; the body length in the message stays as it was.
  method Encode(msg: Message) returns (buffer: array<Byte>)
    modifies msg`header
    ensures fresh(buffer) && buffer[..] == Frame(old(msg.Value()))
    ensures msg.header == old(msg.header).(checksum := Checksum(Payload(old(msg.Value()))))
  {
    ghost var m := msg.Value();
    var gameIdLen := |msg.header.gameId| % 0x1_0000;
    var userIdLen := |msg.header.userId| % 0x1_0000;
    var bodyLen := |msg.body| % 0x1_0000_0000;
    buffer := new Byte[FIXED_LENGTH + gameIdLen + userIdLen + bodyLen];
    ghost var zeros := buffer[..];

    // The checksum field is skipped and filled in at the end.
    var checksumOffset := PutFront(buffer, msg.header, bodyLen);
    PutBack(buffer, checksumOffset + 4,
            msg.header.gameId[..gameIdLen], msg.header.userId[..userIdLen], msg.body[..bodyLen]);

    FrameOf(m, zeros, buffer[..]);
    var checksum := Checksum(buffer[..checksumOffset] + buffer[checksumOffset + 4..]);
    var end := Put(buffer, checksumOffset, Big32(checksum));
    msg.header := msg.header.(checksum := checksum);
  }

  const EMPTY_HEADER := Header(0, 0, 0, 0, [], [], 0, 0, 0)

  // The part of Decode that reads the fixed header.
  method DecodeFixed(data: seq<Byte>) returns (header: Header, gameIdLen: U16, userIdLen: U16, offset: nat)
    requires |data| >= FIXED_LENGTH
    ensures offset == FIXED_LENGTH && gameIdLen == U16At(data, 24) && userIdLen == U16At(data, 26)
    ensures header == Header(data[0], U16At(data, 1), data[3], U32At(data, 4), [], [],
                             ToSigned(U64At(data, 8)), U32At(data, 16), U32At(data, CHECKSUM_OFFSET))
  {
    offset := 0;
    header := EMPTY_HEADER;
    header := header.(version := data[offset]);
    offset := offset + 1;
    header := header.(msgType := U16At(data, offset));
    offset := offset + 2;
    header := header.(flags := data[offset]);
    offset := offset + 1;
    header := header.(sequenceId := U32At(data, offset));
    offset := offset + 4;
    header := header.(timestamp := ToSigned(U64At(data, offset)));
    offset := offset + 8;
    header := header.(bodyLength := U32At(data, offset));
    offset := offset + 4;
    header := header.(checksum := U32At(data, offset));
    offset := offset + 4;
    gameIdLen := U16At(data, offset);
    offset := offset + 2;
    userIdLen := U16At(data, offset);
    offset := offset + 2;
  }

  // Decode stays inside the buffer whatever it holds, and is Parse.
  method Decode(data: seq<Byte>) returns (r: Decoded)
    ensures r == Parse(data)
  {
    if |data| < FIXED_LENGTH {
      return Failed(TooShort(0));
    }
    var header, gameIdLen, userIdLen, offset := DecodeFixed(data);

    if |data| < offset + gameIdLen {
      return Failed(NoGameId(28));
    }
    header := header.(gameId := data[offset..offset + gameIdLen]);
    offset := offset + gameIdLen;

    if |data| < offset + userIdLen {
      return Failed(NoUserId(offset));
    }
    header := header.(userId := data[offset..offset + userIdLen]);
    offset := offset + userIdLen;

    if |data| < offset + header.bodyLength {
      return Failed(NoBody(offset));
    }
    var body := data[offset..offset + header.bodyLength];

    var expected := Checksum(data[..CHECKSUM_OFFSET] + data[CHECKSUM_OFFSET + 4..]);
    if expected != header.checksum {
      return Failed(BadChecksum(offset + header.bodyLength));
    }
    return Complete(Msg(header, body), offset + header.bodyLength);
  }
}
