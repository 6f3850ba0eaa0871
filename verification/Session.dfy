/** The transport phase: what the server does with one frame, what the client does with
    one request and one reply, and the loops around them. */
module Session {
  import opened Words
  import opened Primitives
  import opened Codec
  import opened Cipher
  import opened Replay

  // ---- Traffic counters ----

  datatype Traffic = Traffic(bytesSent: nat, bytesReceived: nat, framesSent: nat, framesReceived: nat)
  {
    function RecordTx(bytes: nat): Traffic {
      this.(bytesSent := bytesSent + bytes, framesSent := framesSent + 1)
    }

    function RecordRx(bytes: nat): Traffic {
      this.(bytesReceived := bytesReceived + bytes, framesReceived := framesReceived + 1)
    }
  }

  const NO_TRAFFIC := Traffic(0, 0, 0, 0)

  // ---- Messages ----

  datatype Kind = Data | Beat

  datatype Message = Message(kind: Kind, text: Bytes)

  /** The associated data under which a kind of message is sealed. */
  function Label(kind: Kind): Bytes {
    match kind
    case Data => Ascii("tunnel-data")
    case Beat => Ascii("heartbeat")
  }

  function FrameType(kind: Kind): MessageType {
    match kind
    case Data => DataPayload
    case Beat => Heartbeat
  }

  /** A frame of a type that is decrypted. */
  predicate IsMessage(f: WireFrame) {
    f.msgType == DataPayload || f.msgType == Heartbeat
  }

  const PING := Message(Beat, Ascii("PING"))

  /** The server's answer: an echo with a prefix, or PONG. */
  function ReplyTo(lib: Library, m: Message): Message {
    match m.kind
    case Data => Message(Data, Ascii("Server mottok: ") + lib.lossyUtf8(m.text))
    case Beat => Message(Beat, Ascii("PONG"))
  }

  /** The labels and the fixed texts, as the bytes of the literals in the program. */
  lemma Literals()
    ensures Label(Data) == [0x74, 0x75, 0x6e, 0x6e, 0x65, 0x6c, 0x2d, 0x64, 0x61, 0x74, 0x61]
    ensures Label(Beat) == [0x68, 0x65, 0x61, 0x72, 0x74, 0x62, 0x65, 0x61, 0x74]
    ensures PING.text == [0x50, 0x49, 0x4e, 0x47]
  {
  }

  /** A heartbeat is answered with the four bytes PONG, a text with a prefix of 15 bytes and
      the text, repaired where it is not well-formed. */
  lemma ReplyBytes(lib: Library, m: Message)
    ensures m.kind == Beat ==> ReplyTo(lib, m) == Message(Beat, [0x50, 0x4f, 0x4e, 0x47])
    ensures m.kind == Data ==> ReplyTo(lib, m) == Message(Data,
              [0x53, 0x65, 0x72, 0x76, 0x65, 0x72, 0x20, 0x6d, 0x6f, 0x74, 0x74, 0x6f, 0x6b, 0x3a, 0x20]
              + lib.lossyUtf8(m.text))
  {
  }

  lemma ReplyKind(lib: Library, m: Message)
    ensures ReplyTo(lib, m).kind == m.kind
  {
  }

  function Replies(lib: Library, ms: seq<Message>): (rs: seq<Message>)
    ensures |rs| == |ms|
  {
    seq(|ms|, i requires 0 <= i < |ms| => ReplyTo(lib, ms[i]))
  }

  // ---- The server ----

  datatype SessionError =
    | Replayed(verdict: Verdict)
    | CipherFailed(error: CipherError)

  datatype ServerStatus = Running | Disconnected | PeerClosed | Failed(error: SessionError)

  datatype ServerState = Server(
    rx: Counter,
    tx: Counter,
    filter: Window,
    traffic: Traffic,
    delivered: seq<Message>,
    sent: seq<WireFrame>,
    status: ServerStatus)

  function NewServer(clientWriteKey: Bytes, serverWriteKey: Bytes): ServerState {
    Server(Counter(clientWriteKey, 0), Counter(serverWriteKey, 0), Empty(Clamp(REPLAY_WINDOW_SIZE)),
           NO_TRAFFIC, [], [], Running)
  }

  /** Decrypt one message and send the sealed answer to it. */
  function Answer(lib: Library, s: ServerState, f: WireFrame, kind: Kind): ServerState {
    var (rx, d) := DecryptStep(lib, s.rx, f.payload, Label(kind), f.nonce);
    match d
    case Failure(e) => s.(status := Failed(CipherFailed(e)))
    case Success(text) =>
      var m := Message(kind, text);
      var s1 := s.(rx := rx, delivered := s.delivered + [m]);
      var (tx, e) := EncryptStep(lib, s.tx, ReplyTo(lib, m).text, Label(kind));
      match e
      case Failure(err) => s1.(status := Failed(CipherFailed(err)))
      case Success(ciphertext) =>
        var reply := WireFrame(FrameType(kind), s.tx.nonce, ciphertext);
        s1.(tx := tx, traffic := s.traffic.RecordTx(|ciphertext| + 13), sent := s.sent + [reply])
  }

  /** The replay filter first, then the answer. */
  function Admit(lib: Library, s: ServerState, f: WireFrame, kind: Kind): ServerState {
    var (w, v) := Validate(s.filter, f.nonce);
    if v.Accepted? then Answer(lib, s.(filter := w), f, kind)
    else s.(filter := w, status := Failed(Replayed(v)))
  }

  /** One turn of the server loop on a frame that was read. */
  function ServerStep(lib: Library, s: ServerState, f: WireFrame): ServerState {
    var s0 := s.(traffic := s.traffic.RecordRx(|f.payload| + 13));
    match f.msgType
    case DataPayload => Admit(lib, s0, f, Data)
    case Heartbeat => Admit(lib, s0, f, Beat)
    case Close => s0.(status := PeerClosed)
    case HandshakeInit => s0
    case HandshakeResp => s0
  }

  /** The loop over the bytes of the connection, until it ends or a frame ends it. */
  function ServerLoop(lib: Library, s: ServerState, input: Bytes): ServerState
    decreases |input|
  {
    if !s.status.Running? then s
    else
      var (r, rest) := ReadFrame(input);
      match r
      case Failure(_) => s.(status := Disconnected)
      case Success(f) => ServerLoop(lib, ServerStep(lib, s, f), rest)
  }

  /** The same loop over frames already read. */
  function ServerFrames(lib: Library, s: ServerState, fs: seq<WireFrame>): ServerState
    decreases fs
  {
    if !s.status.Running? || fs == [] then s
    else ServerFrames(lib, ServerStep(lib, s, fs[0]), fs[1..])
  }

  /** On any bytes at all the loop does what it does on the frames they decode to, and
      ends with a disconnect if none of those frames ended it. */
  lemma {:induction false} LoopIsFold(lib: Library, s: ServerState, input: Bytes)
    ensures var end := ServerFrames(lib, s, ReadAll(input).0);
            ServerLoop(lib, s, input) == if end.status.Running? then end.(status := Disconnected) else end
    decreases |input|
  {
    hide ReadFrame, ServerStep;
    if s.status.Running? {
      var (r, rest) := ReadFrame(input);
      match r
      case Failure(_) =>
      case Success(f) =>
        LoopIsFold(lib, ServerStep(lib, s, f), rest);
        var fs := ReadAll(input).0;
        assert fs[0] == f && fs[1..] == ReadAll(rest).0;
    }
  }

  // ---- The client ----

  datatype ClientStatus = Idle | Awaiting(kind: Kind) | Ended | Broken

  datatype ClientState = Client(
    tx: Counter,
    rx: Counter,
    traffic: Traffic,
    requests: seq<Message>,
    sent: seq<WireFrame>,
    shown: seq<Message>,
    status: ClientStatus)

  function NewClient(clientWriteKey: Bytes, serverWriteKey: Bytes): ClientState {
    Client(Counter(clientWriteKey, 0), Counter(serverWriteKey, 0), NO_TRAFFIC, [], [], [], Idle)
  }

  /** Seal a request and send it; the client then waits for one reply. */
  function ClientSend(lib: Library, c: ClientState, m: Message): (ClientState, Option<WireFrame>) {
    var (tx, r) := EncryptStep(lib, c.tx, m.text, Label(m.kind));
    match r
    case Failure(_) => (c.(status := Broken), None)
    case Success(ciphertext) =>
      var f := WireFrame(FrameType(m.kind), c.tx.nonce, ciphertext);
      (c.(tx := tx, traffic := c.traffic.RecordTx(|ciphertext| + 13), requests := c.requests + [m],
          sent := c.sent + [f], status := Awaiting(m.kind)), Some(f))
  }

  /** Take the frame that was read as the reply: shown if it has the type asked for, a
      Close in place of data ends the session, anything else is passed over. */
  function ClientReceive(lib: Library, c: ClientState, f: WireFrame): ClientState
    requires c.status.Awaiting?
  {
    var kind := c.status.kind;
    var c0 := c.(traffic := c.traffic.RecordRx(|f.payload| + 13));
    if f.msgType == FrameType(kind) then
      var (rx, r) := DecryptStep(lib, c.rx, f.payload, Label(kind), f.nonce);
      match r
      case Failure(_) => c0.(status := Broken)
      case Success(text) => c0.(rx := rx, shown := c.shown + [Message(kind, text)], status := Idle)
    else if kind == Data && f.msgType == Close then c0.(status := Ended)
    else c0.(status := Idle)
  }

  function CloseFrame(c: ClientState): WireFrame {
    WireFrame(Close, c.tx.nonce, [])
  }

  function ClientQuit(c: ClientState): ClientState {
    c.(traffic := c.traffic.RecordTx(13), status := Ended)
  }

  /** A line typed at the prompt: one handled locally, the request to leave, or a message. */
  datatype Line = Local | Quit | Say(message: Message)

  /** The interactive loop on the lines typed and the bytes the server will send: the
      final state, the bytes sent and the bytes left unread. */
  function ClientLoop(lib: Library, c: ClientState, script: seq<Line>, incoming: Bytes)
    : (ClientState, Bytes, Bytes)
    decreases script
  {
    if script == [] || !c.status.Idle? then (c, [], incoming)
    else
      match script[0]
      case Local => ClientLoop(lib, c, script[1..], incoming)
      case Quit => (ClientQuit(c), Serialize(CloseFrame(c)), incoming)
      case Say(m) =>
        match ClientSend(lib, c, m)
        case (c1, None) => (c1, [], incoming)
        case (c1, Some(f)) =>
          match ReadFrame(incoming)
          case (Failure(_), rest) => (c1.(status := Broken), Serialize(f), rest)
          case (Success(reply), rest) =>
            var (end, out, left) := ClientLoop(lib, ClientReceive(lib, c1, reply), script[1..], rest);
            (end, Serialize(f) + out, left)
  }

  /** The same loop over replies already read. */
  function ClientFrames(lib: Library, c: ClientState, script: seq<Line>, replies: seq<WireFrame>): ClientState
    decreases script
  {
    if script == [] || !c.status.Idle? then c
    else
      match script[0]
      case Local => ClientFrames(lib, c, script[1..], replies)
      case Quit => ClientQuit(c)
      case Say(m) =>
        var (c1, sent) := ClientSend(lib, c, m);
        if sent.None? then c1
        else if replies == [] then c1.(status := Broken)
        else ClientFrames(lib, ClientReceive(lib, c1, replies[0]), script[1..], replies[1..])
  }

  /** On any bytes at all the client's loop does what it does on the frames they decode to. */
  lemma {:induction false} ClientLoopIsFold(lib: Library, c: ClientState, script: seq<Line>, incoming: Bytes)
    ensures ClientLoop(lib, c, script, incoming).0 == ClientFrames(lib, c, script, ReadAll(incoming).0)
    decreases script
  {
    hide ReadFrame, ClientReceive, Serialize, Label, BuildNonce;
    if script != [] && c.status.Idle? {
      match script[0]
      case Local => ClientLoopIsFold(lib, c, script[1..], incoming);
      case Quit =>
      case Say(m) =>
        var (c1, sent) := ClientSend(lib, c, m);
        var (r, rest) := ReadFrame(incoming);
        if sent.Some? && r.Success? {
          ClientLoopIsFold(lib, ClientReceive(lib, c1, r.value), script[1..], rest);
          var fs := ReadAll(incoming).0;
          assert fs[0] == r.value && fs[1..] == ReadAll(rest).0;
        }
    }
  }

  /** From its prompt the loop reads one frame for every request it makes, and breaks off at a
      request left without one, which happens only where the stream ran out of frames. */
  lemma {:induction false} OneFrameForEachRequest(
      lib: Library, c: ClientState, script: seq<Line>, incoming: Bytes, asked: nat)
    requires c.status.Idle? && |c.requests| == asked + c.traffic.framesReceived
    ensures var t := ClientLoop(lib, c, script, incoming).0;
            var unanswered := |t.requests| - asked - t.traffic.framesReceived;
            && 0 <= unanswered <= 1
            && !t.status.Awaiting?
            && (unanswered == 1 ==>
                 && t.status.Broken?
                 && t.traffic.framesReceived - c.traffic.framesReceived == |ReadAll(incoming).0|)
    decreases script
  {
    hide ReadFrame, Serialize, Label, BuildNonce;
    if script != [] {
      match script[0]
      case Local => OneFrameForEachRequest(lib, c, script[1..], incoming, asked);
      case Quit =>
      case Say(m) =>
        var (c1, sent) := ClientSend(lib, c, m);
        var (r, rest) := ReadFrame(incoming);
        if sent.Some? && r.Success? {
          var c2 := ClientReceive(lib, c1, r.value);
          if c2.status.Idle? {
            OneFrameForEachRequest(lib, c2, script[1..], rest, asked);
          } else {
            LoopStopped(lib, c2, script[1..], rest);
          }
        }
    }
  }

  lemma LoopStopped(lib: Library, c: ClientState, script: seq<Line>, incoming: Bytes)
    requires !c.status.Idle?
    ensures ClientLoop(lib, c, script, incoming) == (c, [], incoming)
  {
  }

  // ---- Sealed runs ----

  /** Message number i of one direction, as it travels. */
  function SealFrame(lib: Library, key: Bytes, i: u64, m: Message): WireFrame {
    WireFrame(FrameType(m.kind), i, lib.seal(key, BuildNonce(i), Label(m.kind), m.text))
  }

  /** The frames are the messages sealed under one key with counters 0, 1, 2 and so on. */
  ghost predicate SealedRun(lib: Library, key: Bytes, ms: seq<Message>, fs: seq<WireFrame>) {
    && |fs| == |ms| <= U64_MAX
    && forall i | 0 <= i < |ms| :: |ms[i].text| <= lib.sealLimit && fs[i] == SealFrame(lib, key, i, ms[i])
  }
}
