/** The length-prefixed wire format: one printer and two independent parsers. */
module Codec {
  import opened Words

  const MAX_FRAME_SIZE := 65536
  const MAX_PAYLOAD := MAX_FRAME_SIZE - 9

  datatype MessageType = HandshakeInit | HandshakeResp | DataPayload | Heartbeat | Close

  datatype FrameOver<A> = WireFrame(msgType: MessageType, nonce: u64, payload: seq<A>)

  type WireFrame = FrameOver<byte>

  datatype CodecError =
    | BufferTooShort(length: nat)
    | LengthMismatch(stated: nat, actual: int)
    | FrameTooShort(length: nat)
    | Oversized(length: nat)
    | UnknownType(tag: byte)
    | UnexpectedEof

  function TypeByte(t: MessageType): byte {
    match t
    case HandshakeInit => 1
    case HandshakeResp => 2
    case DataPayload => 3
    case Heartbeat => 4
    case Close => 5
  }

  function TypeFromByte(b: byte): Result<MessageType, CodecError> {
    if b == 1 then Success(HandshakeInit)
    else if b == 2 then Success(HandshakeResp)
    else if b == 3 then Success(DataPayload)
    else if b == 4 then Success(Heartbeat)
    else if b == 5 then Success(Close)
    else Failure(UnknownType(b))
  }

  /** The bytes on the wire. The length field holds the frame length cast to 32 bits. */
  function Serialize(f: WireFrame): (b: Bytes)
    ensures |b| == |f.payload| + 13
  {
    ToBE((1 + 8 + |f.payload|) % U32_SIZE, 4) + [TypeByte(f.msgType)] + ToBE(f.nonce, 8) + f.payload
  }

  function SerializeAll(fs: seq<WireFrame>): Bytes {
    if fs == [] then [] else Serialize(fs[0]) + SerializeAll(fs[1..])
  }

  /** `from_bytes`: a buffer holding one whole frame and nothing else. */
  function FromBytes(b: Bytes): Result<WireFrame, CodecError> {
    if |b| < 13 then Failure(BufferTooShort(|b|))
    else
      var frameLen := FromBE(b[..4]);
      if frameLen != |b| - 4 then Failure(LengthMismatch(frameLen, |b| - 4))
      else if frameLen < 9 then Failure(FrameTooShort(frameLen))
      else if frameLen > MAX_FRAME_SIZE then Failure(Oversized(frameLen))
      else Fields(b[4..])
  }

  /** Type, nonce and payload of a frame body. */
  function Fields(body: Bytes): Result<WireFrame, CodecError>
    requires |body| >= 9
  {
    match TypeFromByte(body[0])
    case Failure(e) => Failure(e)
    case Success(t) =>
      NonceFits(body);
      Success(WireFrame(t, FromBE(body[1..9]), body[9..]))
  }

  lemma NonceFits(body: Bytes)
    requires |body| >= 9
    ensures FromBE(body[1..9]) <= U64_MAX
  {
    BoundBE(body[1..9]);
    Widths();
  }

  /** `read_from` on the bytes a stream will still deliver: the outcome, and what is
      left unread. A short read uses up everything; a bad length leaves the body unread. */
  function ReadFrame(input: Bytes): (r: (Result<WireFrame, CodecError>, Bytes))
    ensures |r.1| <= |input|
    ensures r.0.Success? ==> |r.1| < |input|
  {
    if |input| < 4 then (Failure(UnexpectedEof), [])
    else
      var frameLen := FromBE(input[..4]);
      if frameLen < 9 then (Failure(FrameTooShort(frameLen)), input[4..])
      else if frameLen > MAX_FRAME_SIZE then (Failure(Oversized(frameLen)), input[4..])
      else if |input| - 4 < frameLen then (Failure(UnexpectedEof), [])
      else (Fields(input[4..4 + frameLen]), input[4 + frameLen..])
  }

  /** Repeated `read_from` until the first failure: the frames read, and the bytes that
      were left when the failing read began. */
  function ReadAll(input: Bytes): (seq<WireFrame>, Bytes)
    decreases |input|
  {
    var (r, rest) := ReadFrame(input);
    match r
    case Failure(_) => ([], input)
    case Success(f) =>
      var (fs, left) := ReadAll(rest);
      ([f] + fs, left)
  }

  predicate Fits<A>(f: FrameOver<A>) {
    |f.payload| <= MAX_PAYLOAD
  }

  // ---- Inverses ----

  lemma FieldsInverse(body: Bytes)
    requires |body| >= 9 && Fields(body).Success?
    ensures var f := Fields(body).value;
            body == [TypeByte(f.msgType)] + ToBE(f.nonce, 8) + f.payload
  {
    EncodeBE(body[1..9]);
    assert body == [body[0]] + body[1..9] + body[9..];
  }

  lemma FieldsOfSerialized(f: WireFrame)
    ensures Fields([TypeByte(f.msgType)] + ToBE(f.nonce, 8) + f.payload) == Success(f)
  {
    var body := [TypeByte(f.msgType)] + ToBE(f.nonce, 8) + f.payload;
    assert body[1..9] == ToBE(f.nonce, 8);
    DecodeBE(f.nonce, 8);
    Widths();
    assert body[9..] == f.payload;
  }

  lemma LengthField(f: WireFrame, rest: Bytes)
    ensures FromBE((Serialize(f) + rest)[..4]) == (9 + |f.payload|) % U32_SIZE
    ensures Serialize(f)[4..] == [TypeByte(f.msgType)] + ToBE(f.nonce, 8) + f.payload
  {
    var n := (9 + |f.payload|) % U32_SIZE;
    assert (Serialize(f) + rest)[..4] == ToBE(n, 4);
    DecodeBE(n, 4);
    Widths();
  }

  /** The numbers of the five types on the wire, and no others. */
  lemma TypeNumbers(b: byte)
    ensures TypeFromByte(b).Success? <==> 1 <= b <= 5
    ensures 1 <= b <= 5 ==>
              && TypeFromByte(b).value == [HandshakeInit, HandshakeResp, DataPayload, Heartbeat, Close][b as int - 1]
              && TypeByte(TypeFromByte(b).value) == b
  {
  }

  /** Byte for byte: four bytes of length, the most significant first, the number of the
      type, eight bytes of nonce, the most significant first, and the payload. */
  lemma WireLayout(f: WireFrame, i: nat)
    requires i < |Serialize(f)|
    ensures |Serialize(f)| == 13 + |f.payload|
    ensures Serialize(f)[i] as int ==
            if i < 4 then (9 + |f.payload|) % 0x1_0000_0000 / Pow256(3 - i) % 0x100
            else if i == 4 then
              (match f.msgType
               case HandshakeInit => 1
               case HandshakeResp => 2
               case DataPayload => 3
               case Heartbeat => 4
               case Close => 5)
            else if i < 13 then f.nonce / Pow256(12 - i) % 0x100
            else f.payload[i - 13] as int
  {
    hide ToBE, Pow256;
    if i < 4 {
      ByteBE((9 + |f.payload|) % U32_SIZE, 4, i);
    } else if 4 < i < 13 {
      ByteBE(f.nonce, 8, i - 5);
    }
  }

  /** Reading what was printed gives the frame back, whatever follows it in the stream,
      exactly when the payload is within the limit: the cast never hides a longer one. */
  lemma ReadInvertsSerialize(f: WireFrame, rest: Bytes)
    ensures ReadFrame(Serialize(f) + rest) == (Success(f), rest) <==> Fits(f)
  {
    hide Serialize, Fields, FromBE;
    var input := Serialize(f) + rest;
    LengthField(f, rest);
    if Fits(f) {
      var n := 9 + |f.payload|;
      assert input[4..4 + n] == Serialize(f)[4..];
      FieldsOfSerialized(f);
      assert input[4 + n..] == rest;
    } else if ReadFrame(input).0.Success? {
      ReadFits(input);
    }
  }

  lemma ReadFits(input: Bytes)
    requires ReadFrame(input).0.Success?
    ensures Fits(ReadFrame(input).0.value)
  {
  }

  /** Parsing a printed buffer gives the frame back exactly when it is within the limit,
      including lengths at which the 32-bit cast truncates. */
  lemma FromBytesInvertsSerialize(f: WireFrame)
    ensures FromBytes(Serialize(f)) == Success(f) <==> Fits(f)
    ensures FromBytes(Serialize(f)).Success? <==> Fits(f)
  {
    LengthField(f, []);
    assert Serialize(f) + [] == Serialize(f);
    FieldsOfSerialized(f);
  }

  /** Whatever buffer is parsed, printing the result gives the buffer back. */
  lemma SerializeInvertsFromBytes(b: Bytes)
    requires FromBytes(b).Success?
    ensures Serialize(FromBytes(b).value) == b
    ensures Fits(FromBytes(b).value)
  {
    hide ToBE, FromBE, TypeByte, TypeFromByte;
    FieldsInverse(b[4..]);
    EncodeBE(b[..4]);
    var f := FromBytes(b).value;
    assert 9 + |f.payload| == |b| - 4;
    assert b == b[..4] + b[4..];
    assert Serialize(f) == ToBE(9 + |f.payload|, 4) + ([TypeByte(f.msgType)] + ToBE(f.nonce, 8) + f.payload);
  }

  /** The two parsers agree: the stream reader yields f and stops n bytes in exactly when
      the buffer parser yields f on the first n bytes, and n is 4 plus the length field. */
  lemma ParsersAgree(input: Bytes, f: WireFrame, n: nat)
    requires n <= |input|
    ensures ReadFrame(input) == (Success(f), input[n..]) <==> FromBytes(input[..n]) == Success(f)
    ensures FromBytes(input[..n]) == Success(f) ==> n == 4 + FromBE(input[..4])
  {
    var b := input[..n];
    if FromBytes(b) == Success(f) {
      assert b[..4] == input[..4];
      assert b[4..] == input[4..n];
    }
    if ReadFrame(input) == (Success(f), input[n..]) {
      var m := 4 + FromBE(input[..4]);
      assert |input[n..]| == |input[m..]|;
      assert b[..4] == input[..4];
      assert b[4..] == input[4..n];
    }
  }

  /** A length field is refused, and nothing after it consumed, exactly when the length is
      below 9 or above 65536. */
  lemma LengthsRefused(n: nat, rest: Bytes)
    requires n < U32_SIZE
    ensures var outcome := ReadFrame(ToBE(n, 4) + rest);
            && (n < 9 <==> outcome == (Failure(FrameTooShort(n)), rest))
            && (n > 65536 <==> outcome == (Failure(Oversized(n)), rest))
  {
    hide ToBE, Fields;
    var input := ToBE(n, 4) + rest;
    assert input[..4] == ToBE(n, 4) && input[4..] == rest;
    DecodeBE(n, 4);
    Widths();
    if 9 <= n <= |rest| {
      FieldsErrors(input, n);
    }
  }

  lemma FieldsErrors(input: Bytes, n: nat)
    requires 9 <= n <= |input| - 4
    ensures Fields(input[4..4 + n]).Failure? ==> Fields(input[4..4 + n]).error.UnknownType?
  {
  }

  lemma OnlyTheTypeCanBeWrong(body: Bytes)
    requires |body| >= 9
    ensures Fields(body).Success? <==> 1 <= body[0] <= 5
    ensures Fields(body).Failure? ==> Fields(body) == Failure(UnknownType(body[0]))
  {
  }

  /** What the buffer parser makes of a length field n and the bytes after it. */
  lemma BufferOutcomes(n: nat, body: Bytes)
    requires n < U32_SIZE
    ensures var outcome := FromBytes(ToBE(n, 4) + body);
            && (outcome == Failure(BufferTooShort(4 + |body|)) <==> |body| < 9)
            && (outcome == Failure(LengthMismatch(n, |body|)) <==> |body| >= 9 && n != |body|)
            && (outcome == Failure(Oversized(n)) <==> |body| == n > 65536)
            && (outcome.Success? <==> 9 <= |body| == n <= 65536 && 1 <= body[0] <= 5)
            && (9 <= |body| == n <= 65536 && !(1 <= body[0] <= 5) ==> outcome == Failure(UnknownType(body[0])))
  {
    hide ToBE, FromBE, Fields;
    var input := ToBE(n, 4) + body;
    assert input[..4] == ToBE(n, 4) && input[4..] == body;
    DecodeBE(n, 4);
    Widths();
    if |body| >= 9 {
      OnlyTheTypeCanBeWrong(body);
    }
  }

  /** What the stream reader makes of an admissible length field and enough bytes after it. */
  lemma StreamOutcomes(n: nat, rest: Bytes)
    requires 9 <= n <= 65536 && n <= |rest|
    ensures var (outcome, left) := ReadFrame(ToBE(n, 4) + rest);
            && left == rest[n..]
            && (outcome.Success? <==> 1 <= rest[0] <= 5)
            && (outcome.Failure? ==> outcome == Failure(UnknownType(rest[0])))
  {
    hide ToBE, FromBE, Fields;
    var input := ToBE(n, 4) + rest;
    assert input[..4] == ToBE(n, 4);
    assert input[4..4 + n] == rest[..n] && input[4 + n..] == rest[n..];
    DecodeBE(n, 4);
    Widths();
    OnlyTheTypeCanBeWrong(rest[..n]);
  }

  /** A read that did not run out of bytes does not depend on what comes later; one that did
      is decided by some continuation. */
  lemma ReadIsIncremental(input: Bytes, more: Bytes)
    ensures ReadFrame(input).0 != Failure(UnexpectedEof) ==>
              ReadFrame(input + more) == (ReadFrame(input).0, ReadFrame(input).1 + more)
    ensures ReadFrame(input).0 == Failure(UnexpectedEof) ==>
              ReadFrame(input).1 == [] && exists later :: ReadFrame(input + later).0 != Failure(UnexpectedEof)
  {
    hide FromBE, Fields;
    if |input| >= 4 {
      FieldsNoEof(input, FromBE(input[..4]));
    }
    if ReadFrame(input).0 == Failure(UnexpectedEof) {
      var later: Bytes := seq(MAX_FRAME_SIZE + 4, i => 0);
      NoEofWithin(input + later);
    } else {
      var n := FromBE(input[..4]);
      assert (input + more)[..4] == input[..4];
      assert (input + more)[4..] == input[4..] + more;
      if 9 <= n <= |input| - 4 {
        assert (input + more)[4..4 + n] == input[4..4 + n];
        assert (input + more)[4 + n..] == input[4 + n..] + more;
      }
    }
  }

  lemma FieldsNoEof(input: Bytes, n: nat)
    requires |input| >= 4
    ensures 9 <= n <= |input| - 4 ==> Fields(input[4..4 + n]) != Failure(UnexpectedEof)
  {
  }

  lemma NoEofWithin(input: Bytes)
    requires |input| >= MAX_FRAME_SIZE + 4
    ensures ReadFrame(input).0 != Failure(UnexpectedEof)
  {
    hide FromBE, Fields;
    FieldsNoEof(input, FromBE(input[..4]));
  }

  // ---- Streams of frames ----

  ghost predicate AllFit(fs: seq<WireFrame>) {
    forall k | 0 <= k < |fs| :: Fits(fs[k])
  }

  lemma {:induction false} SerializeAllAppend(fs: seq<WireFrame>, gs: seq<WireFrame>)
    ensures SerializeAll(fs + gs) == SerializeAll(fs) + SerializeAll(gs)
  {
    if fs == [] {
      assert fs + gs == gs;
    } else {
      assert (fs + gs)[1..] == fs[1..] + gs;
      SerializeAllAppend(fs[1..], gs);
    }
  }

  lemma SerializeOne(f: WireFrame)
    ensures SerializeAll([f]) == Serialize(f)
  {
    assert SerializeAll([f]) == Serialize(f) + SerializeAll([]);
  }

  lemma {:induction false} ReadAllPrefix(fs: seq<WireFrame>, rest: Bytes)
    requires AllFit(fs)
    ensures ReadAll(SerializeAll(fs) + rest) == (fs + ReadAll(rest).0, ReadAll(rest).1)
  {
    hide Serialize, ReadFrame, Fits;
    if fs == [] {
      assert SerializeAll(fs) + rest == rest;
      assert fs + ReadAll(rest).0 == ReadAll(rest).0;
    } else {
      var tail := SerializeAll(fs[1..]) + rest;
      ReadInvertsSerialize(fs[0], tail);
      assert ReadAll(Serialize(fs[0]) + tail) == ([fs[0]] + ReadAll(tail).0, ReadAll(tail).1);
      ReadAllPrefix(fs[1..], rest);
      assert SerializeAll(fs) + rest == Serialize(fs[0]) + tail;
      assert [fs[0]] + (fs[1..] + ReadAll(rest).0) == fs + ReadAll(rest).0;
    }
  }

  /** Printing any list of frames and reading the stream to its end gives the same list
      and consumes every byte, exactly when every payload is within the limit. */
  lemma {:induction false} StreamRoundTrip(fs: seq<WireFrame>)
    ensures ReadAll(SerializeAll(fs)) == (fs, []) <==> AllFit(fs)
  {
    if AllFit(fs) {
      ReadAllPrefix(fs, []);
      assert SerializeAll(fs) + [] == SerializeAll(fs);
      assert fs + [] == fs;
    } else if ReadAll(SerializeAll(fs)) == (fs, []) {
      ReadAllFits(SerializeAll(fs));
    }
  }

  lemma {:induction false} ReadAllFits(input: Bytes)
    ensures AllFit(ReadAll(input).0)
    decreases |input|
  {
    if ReadFrame(input).0.Success? {
      ReadFits(input);
      ReadAllFits(ReadFrame(input).1);
    }
  }

  /** Conversely the frames read from any stream, printed again, are the bytes consumed. */
  lemma {:induction false} SerializeInvertsReadAll(input: Bytes)
    ensures SerializeAll(ReadAll(input).0) + ReadAll(input).1 == input
    decreases |input|
  {
    var (r, rest) := ReadFrame(input);
    if r.Success? {
      var n := 4 + FromBE(input[..4]);
      ParsersAgree(input, r.value, n);
      SerializeInvertsFromBytes(input[..n]);
      SerializeInvertsReadAll(rest);
      assert input == input[..n] + rest;
      var fs := ReadAll(input).0;
      assert fs[0] == r.value && fs[1..] == ReadAll(rest).0;
      assert SerializeAll(fs) + ReadAll(input).1
          == Serialize(fs[0]) + (SerializeAll(fs[1..]) + ReadAll(rest).1);
    }
  }

  /** The encoding is uniquely decodable and no frame is a proper prefix of another. */
  lemma {:induction false} UniquelyDecodable(fs: seq<WireFrame>, gs: seq<WireFrame>)
    requires AllFit(fs) && AllFit(gs)
    requires SerializeAll(fs) == SerializeAll(gs)
    ensures fs == gs
  {
    StreamRoundTrip(fs);
    StreamRoundTrip(gs);
  }

  lemma PrefixFree(f: WireFrame, g: WireFrame, rest: Bytes)
    requires Fits(f) && Fits(g)
    requires Serialize(g) == Serialize(f) + rest
    ensures f == g && rest == []
  {
    ReadInvertsSerialize(f, rest);
    ReadInvertsSerialize(g, []);
    assert Serialize(g) + [] == Serialize(g);
  }

  /** Without the limit a frame can be a prefix of another one: exactly when the extra
      payload is a multiple of 2^32 bytes, which the cast of the length field hides. */
  lemma CastHidesExtension(f: WireFrame, extra: Bytes)
    ensures Serialize(f.(payload := f.payload + extra)) == Serialize(f) + extra <==> |extra| % U32_SIZE == 0
  {
    var g := f.(payload := f.payload + extra);
    hide FromBE, ToBE;
    if |extra| % U32_SIZE == 0 {
      assert (9 + |f.payload|) % U32_SIZE == (9 + |g.payload|) % U32_SIZE;
      assert Serialize(g) == Serialize(f) + extra;
    } else {
      hide Serialize, FromBE;
      LengthField(g, []);
      LengthField(f, extra);
      assert Serialize(g) + [] == Serialize(g);
    }
  }

  // ---- Buffers and streams ----

  /** A growable output: the caller's buffer, or the sending side of a connection. */
  class ByteBuffer {
    var bytes: Bytes

    constructor ()
      ensures bytes == []
    {
      bytes := [];
    }

    method Append(b: Bytes)
      modifies this
      ensures bytes == old(bytes) + b
    {
      bytes := bytes + b;
    }
  }

  /** `serialize_into`: the buffer keeps what it held and gains the frame. */
  method SerializeInto(f: WireFrame, buffer: ByteBuffer)
    modifies buffer
    ensures buffer.bytes == old(buffer.bytes) + Serialize(f)
  {
    ghost var before := buffer.bytes;
    var totalFrameLen := 1 + 8 + |f.payload|;
    var lengthField := ToBE(totalFrameLen % U32_SIZE, 4);
    buffer.Append(lengthField);
    buffer.Append([TypeByte(f.msgType)]);
    var nonceField := ToBE(f.nonce, 8);
    buffer.Append(nonceField);
    buffer.Append(f.payload);
    assert buffer.bytes == before + (lengthField + [TypeByte(f.msgType)] + nonceField + f.payload);
  }

  function Flatten(chunks: seq<Bytes>): Bytes {
    if chunks == [] then [] else chunks[0] + Flatten(chunks[1..])
  }

  /** The receiving side of a connection: bytes arrive in chunks of any size. */
  class ByteStream {
    var chunks: seq<Bytes>

    ghost function Pending(): Bytes
      reads this
    {
      Flatten(chunks)
    }

    constructor (chunks: seq<Bytes>)
      ensures Pending() == Flatten(chunks)
    {
      this.chunks := chunks;
    }

    /** One read: at most n bytes, never past the first chunk. */
    method Read(n: nat) returns (b: Bytes)
      requires chunks != []
      modifies this
      ensures b + Pending() == old(Pending())
      ensures |b| <= n
      ensures |b| == n || |chunks| < |old(chunks)|
    {
      var chunk, later := chunks[0], chunks[1..];
      if |chunk| <= n {
        chunks := later;
        b := chunk;
      } else {
        chunks := [chunk[n..]] + later;
        b := chunk[..n];
        assert chunk == b + chunk[n..];
        assert chunks[0] == chunk[n..] && chunks[1..] == later;
      }
    }

    /** Fills a buffer of n bytes from as many chunks as it takes. At the end of the
        stream the read fails and the bytes it had taken are gone. */
    method ReadExact(n: nat) returns (r: Option<Bytes>)
      modifies this
      ensures r.Some? <==> n <= |old(Pending())|
      ensures r.Some? ==> r.value == old(Pending())[..n] && Pending() == old(Pending())[n..]
      ensures r.None? ==> Pending() == []
    {
      var got: Bytes := [];
      while |got| < n && chunks != []
        invariant |got| <= n
        invariant got + Pending() == old(Pending())
        decreases n - |got|, |chunks|
      {
        var b := Read(n - |got|);
        assert (got + b) + Pending() == got + (b + Pending());
        got := got + b;
      }
      if |got| < n {
        r := None;
      } else {
        r := Some(got);
      }
    }
  }

  /** `read_from`: what it returns and what it leaves depend on the bytes alone, not on
      how they were split into chunks. */
  method ReadFrom(stream: ByteStream) returns (r: Result<WireFrame, CodecError>)
    modifies stream
    ensures (r, stream.Pending()) == ReadFrame(old(stream.Pending()))
  {
    ghost var all := stream.Pending();
    var lenBuf := stream.ReadExact(4);
    if lenBuf.None? {
      return Failure(UnexpectedEof);
    }
    var frameLen := FromBE(lenBuf.value);
    if frameLen < 9 {
      return Failure(FrameTooShort(frameLen));
    }
    if frameLen > MAX_FRAME_SIZE {
      return Failure(Oversized(frameLen));
    }
    var rawData := stream.ReadExact(frameLen);
    if rawData.None? {
      return Failure(UnexpectedEof);
    }
    assert rawData.value == all[4..4 + frameLen];
    assert stream.Pending() == all[4 + frameLen..];
    r := Fields(rawData.value);
  }
}
