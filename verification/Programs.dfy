/** The server and the client as they are written: objects updated in place, streams read
    and written step by step, proved against the functions of module Peers. */
module Programs {
  import opened Words
  import opened Primitives
  import opened Codec
  import opened Cipher
  import opened Replay
  import opened Session
  import opened Handshake
  import opened Peers

  /** Traffic counters of one session. */
  class SessionMetrics {
    var bytesSent: nat
    var bytesReceived: nat
    var framesSent: nat
    var framesReceived: nat

    function State(): Traffic
      reads this
    {
      Traffic(bytesSent, bytesReceived, framesSent, framesReceived)
    }

    constructor ()
      ensures State() == NO_TRAFFIC
    {
      bytesSent, bytesReceived, framesSent, framesReceived := 0, 0, 0, 0;
    }

    method RecordTx(bytes: nat)
      modifies this
      ensures State() == old(State()).RecordTx(bytes)
    {
      bytesSent := bytesSent + bytes;
      framesSent := framesSent + 1;
    }

    method RecordRx(bytes: nat)
      modifies this
      ensures State() == old(State()).RecordRx(bytes)
    {
      bytesReceived := bytesReceived + bytes;
      framesReceived := framesReceived + 1;
    }
  }

  /** `write_to`. */
  method WriteTo(f: WireFrame, out: ByteBuffer)
    modifies out
    ensures out.bytes == old(out.bytes) + Serialize(f)
  {
    var buffer := new ByteBuffer();
    SerializeInto(f, buffer);
    out.Append(buffer.bytes);
  }

  // ---- The server ----

  /** What one frame added to the session, and how it left it. */
  datatype Outcome = Outcome(delivered: seq<Message>, replies: seq<WireFrame>, status: ServerStatus)

  /** The branch of the loop body for a data or heartbeat frame. */
  method AdmitFrame(lib: Library, filter: ReplayFilter, rx: CipherState, tx: CipherState, metrics: SessionMetrics,
                    out: ByteBuffer, f: WireFrame, kind: Kind, ghost s: ServerState) returns (r: Outcome)
    requires rx != tx && filter.Valid()
    requires s.filter == filter.State() && s.rx == rx.State() && s.tx == tx.State() && s.traffic == metrics.State()
    requires s.status.Running?
    modifies filter, rx, tx, metrics, out
    ensures filter.Valid()
    ensures Admit(lib, s, f, kind) == Server(rx.State(), tx.State(), filter.State(), metrics.State(),
                                             s.delivered + r.delivered, s.sent + r.replies, r.status)
    ensures out.bytes == old(out.bytes) + SerializeAll(r.replies)
  {
    hide ReplayFilter.Valid, Validate, Label, BuildNonce, ReplyTo, Serialize;
    var verdict := filter.ValidateAndRecord(f.nonce);
    if !verdict.Accepted? {
      return Outcome([], [], Failed(Replayed(verdict)));
    }
    var decrypted := rx.Decrypt(lib, f.payload, Label(kind), f.nonce);
    if decrypted.Failure? {
      return Outcome([], [], Failed(CipherFailed(decrypted.error)));
    }
    var m := Message(kind, decrypted.value);
    var reply := ReplyTo(lib, m);
    var replyNonce := tx.nonce;
    var encrypted := tx.Encrypt(lib, reply.text, Label(kind));
    if encrypted.Failure? {
      return Outcome([m], [], Failed(CipherFailed(encrypted.error)));
    }
    var replyFrame := WireFrame(FrameType(kind), replyNonce, encrypted.value);
    metrics.RecordTx(|replyFrame.payload| + 13);
    WriteTo(replyFrame, out);
    SerializeOne(replyFrame);
    r := Outcome([m], [replyFrame], Running);
  }

  /** The loop body, once a frame has been read. */
  method HandleFrame(lib: Library, filter: ReplayFilter, rx: CipherState, tx: CipherState, metrics: SessionMetrics,
                     out: ByteBuffer, f: WireFrame, ghost s: ServerState) returns (r: Outcome)
    requires rx != tx && filter.Valid()
    requires s.filter == filter.State() && s.rx == rx.State() && s.tx == tx.State() && s.traffic == metrics.State()
    requires s.status.Running?
    modifies filter, rx, tx, metrics, out
    ensures filter.Valid()
    ensures ServerStep(lib, s, f) == Server(rx.State(), tx.State(), filter.State(), metrics.State(),
                                            s.delivered + r.delivered, s.sent + r.replies, r.status)
    ensures out.bytes == old(out.bytes) + SerializeAll(r.replies)
  {
    hide ReplayFilter.Valid, Admit;
    metrics.RecordRx(|f.payload| + 13);
    ghost var s0 := s.(traffic := s.traffic.RecordRx(|f.payload| + 13));
    match f.msgType
    case DataPayload => r := AdmitFrame(lib, filter, rx, tx, metrics, out, f, Data, s0);
    case Heartbeat => r := AdmitFrame(lib, filter, rx, tx, metrics, out, f, Beat, s0);
    case Close => r := Outcome([], [], PeerClosed);
    case _ => r := Outcome([], [], Running);
  }

  lemma LoopReads(lib: Library, s: ServerState, input: Bytes)
    requires s.status.Running?
    ensures var (r, rest) := ReadFrame(input);
            ServerLoop(lib, s, input) == if r.Success? then ServerLoop(lib, ServerStep(lib, s, r.value), rest)
                                         else s.(status := Disconnected)
  {
  }

  lemma LoopEnds(lib: Library, s: ServerState, input: Bytes)
    requires !s.status.Running?
    ensures ServerLoop(lib, s, input) == s
  {
  }

  /** The transport loop of the server, from fresh keys to the end of the connection. */
  method ServeTransport(lib: Library, keys: Keys<byte>, stream: ByteStream, out: ByteBuffer) returns (end: ServerState)
    modifies stream, out
    ensures end == ServerLoop(lib, NewServer(keys.clientWrite, keys.serverWrite), old(stream.Pending()))
    ensures out.bytes == old(out.bytes) + SerializeAll(end.sent)
  {
    hide ReplayFilter.Valid, Empty, ReadFrame, ServerStep, ServerLoop, SerializeAll;
    var rx := new CipherState.WithNonce(keys.clientWrite, 0);
    var tx := new CipherState.WithNonce(keys.serverWrite, 0);
    var filter := new ReplayFilter.WithWindowSize(REPLAY_WINDOW_SIZE);
    var metrics := new SessionMetrics();
    end := Server(rx.State(), tx.State(), filter.State(), metrics.State(), [], [], Running);
    NothingSent();
    while end.status.Running?
      invariant rx != tx && filter.Valid()
      invariant fresh(rx) && fresh(tx) && fresh(filter) && fresh(metrics)
      invariant end.rx == rx.State() && end.tx == tx.State() && end.filter == filter.State()
      invariant end.traffic == metrics.State()
      invariant ServerLoop(lib, end, stream.Pending())
             == ServerLoop(lib, NewServer(keys.clientWrite, keys.serverWrite), old(stream.Pending()))
      invariant out.bytes == old(out.bytes) + SerializeAll(end.sent)
      decreases end.status.Running?, |stream.Pending()|
    {
      LoopReads(lib, end, stream.Pending());
      var frame := ReadFrom(stream);
      if frame.Failure? {
        end := end.(status := Disconnected);
        LoopEnds(lib, end, stream.Pending());
      } else {
        var r := HandleFrame(lib, filter, rx, tx, metrics, out, frame.value, end);
        SerializeAllAppend(end.sent, r.replies);
        end := Server(rx.State(), tx.State(), filter.State(), metrics.State(),
                      end.delivered + r.delivered, end.sent + r.replies, r.status);
      }
    }
    LoopEnds(lib, end, stream.Pending());
  }

  lemma NothingSent()
    ensures SerializeAll([]) == []
  {
  }

  /** The responder's side of the handshake, up to the frame it sends. */
  method Respond(lib: Library, s: ServerSide<byte>, stream: ByteStream, out: ByteBuffer)
      returns (r: Result<Keys<byte>, HandshakeError>)
    modifies stream, out
    ensures var (init, rest) := ReadFrame(old(stream.Pending()));
            && stream.Pending() == rest
            && match init
               case Failure(e) => r == Failure(NoFrame(e)) && out.bytes == old(out.bytes)
               case Success(f) =>
                 match ServerHello(lib, s, f)
                 case Failure(e) => r == Failure(e) && out.bytes == old(out.bytes)
                 case Success((resp, keys)) => r == Success(keys) && out.bytes == old(out.bytes) + Serialize(resp)
  {
    hide ReadFrame, Serialize, BuildNonce, Transcript, DeriveKeys;
    var initFrame := ReadFrom(stream);
    if initFrame.Failure? {
      return Failure(NoFrame(initFrame.error));
    }
    var init := initFrame.value;
    if init.msgType != HandshakeInit {
      return Failure(WrongType(init.msgType));
    }
    if |init.payload| < KEY_LEN + 16 {
      return Failure(PayloadTooShort);
    }
    var clientEphemeral := init.payload[..KEY_LEN];
    var initCiphertext := init.payload[KEY_LEN..];

    var dhStatic := lib.dh(s.identity.privateKey, clientEphemeral);
    var h1 := lib.sha256(Transcript(s.prologue, clientEphemeral, s.identity.publicKey, None));
    var initCipher := new CipherState.WithNonce(DeriveKeys(lib, dhStatic, h1).clientWrite, 0);
    var checked := initCipher.Decrypt(lib, initCiphertext, h1, 0);
    if checked.Failure? {
      return Failure(Refused(checked.error));
    }

    var dhEphemeral := lib.dh(s.ephemeral.privateKey, clientEphemeral);
    var combinedSecret := dhStatic + dhEphemeral;
    var h2 := lib.sha256(Transcript(s.prologue, clientEphemeral, s.identity.publicKey, Some(s.ephemeral.publicKey)));
    var keys := DeriveKeys(lib, combinedSecret, h2);

    var respCipher := new CipherState.WithNonce(DeriveKeys(lib, dhEphemeral, h2).serverWrite, 0);
    var respCiphertext := respCipher.Encrypt(lib, ACK, h2);
    if respCiphertext.Failure? {
      return Failure(Refused(respCiphertext.error));
    }
    var respPayload := s.ephemeral.publicKey + respCiphertext.value;
    WriteTo(WireFrame(HandshakeResp, 0, respPayload), out);
    r := Success(keys);
  }

  /** One connection, from its first byte to its end. */
  method HandleClient(lib: Library, s: ServerSide<byte>, stream: ByteStream, out: ByteBuffer)
      returns (r: Result<ServerState, HandshakeError>)
    modifies stream, out
    ensures r == ServerSession(lib, s, old(stream.Pending())).0
    ensures out.bytes == old(out.bytes) + ServerSession(lib, s, old(stream.Pending())).1
  {
    hide ReadFrame, Serialize, SerializeAll, ServerHello, ServerLoop;
    var keys := Respond(lib, s, stream, out);
    if keys.Failure? {
      return Failure(keys.error);
    }
    var end := ServeTransport(lib, keys.value, stream, out);
    r := Success(end);
  }

  // ---- The client ----

  /** The initiator's side of the handshake. */
  method PerformHandshake(lib: Library, c: ClientSide<byte>, stream: ByteStream, out: ByteBuffer)
      returns (r: Result<Keys<byte>, HandshakeError>)
    modifies stream, out
    ensures match ClientHello(lib, c)
            case Failure(e) =>
              r == Failure(e) && out.bytes == old(out.bytes) && stream.Pending() == old(stream.Pending())
            case Success(init) =>
              var (resp, rest) := ReadFrame(old(stream.Pending()));
              && out.bytes == old(out.bytes) + Serialize(init)
              && stream.Pending() == rest
              && r == match resp
                      case Failure(e) => Failure(NoFrame(e))
                      case Success(f) => ClientFinish(lib, c, f)
  {
    hide ReadFrame, Serialize, BuildNonce, Transcript, DeriveKeys, Flatten;
    var dhStatic := lib.dh(c.ephemeral.privateKey, c.serverPublic);
    var h1 := lib.sha256(Transcript(c.prologue, c.ephemeral.publicKey, c.serverPublic, None));
    var initCipher := new CipherState.WithNonce(DeriveKeys(lib, dhStatic, h1).clientWrite, 0);
    var initCiphertext := initCipher.Encrypt(lib, INIT, h1);
    if initCiphertext.Failure? {
      return Failure(Refused(initCiphertext.error));
    }
    WriteTo(WireFrame(HandshakeInit, 0, c.ephemeral.publicKey + initCiphertext.value), out);

    var respFrame := ReadFrom(stream);
    if respFrame.Failure? {
      return Failure(NoFrame(respFrame.error));
    }
    var resp := respFrame.value;
    if resp.msgType != HandshakeResp {
      return Failure(WrongType(resp.msgType));
    }
    if |resp.payload| < KEY_LEN + 16 {
      return Failure(PayloadTooShort);
    }
    var serverEphemeral := resp.payload[..KEY_LEN];
    var respCiphertext := resp.payload[KEY_LEN..];

    var dhEphemeral := lib.dh(c.ephemeral.privateKey, serverEphemeral);
    var h2 := lib.sha256(Transcript(c.prologue, c.ephemeral.publicKey, c.serverPublic, Some(serverEphemeral)));
    var respCipher := new CipherState.WithNonce(DeriveKeys(lib, dhEphemeral, h2).serverWrite, 0);
    var respAck := respCipher.Decrypt(lib, respCiphertext, h2, 0);
    if respAck.Failure? {
      return Failure(Refused(respAck.error));
    }
    if respAck.value != ACK {
      return Failure(BadAcknowledgement);
    }
    var combinedSecret := dhStatic + dhEphemeral;
    r := Success(DeriveKeys(lib, combinedSecret, h2));
  }

  /** The client after a request of its own and whatever the stream then delivers. */
  function AfterRequest(lib: Library, c: ClientState, m: Message, incoming: Bytes): (ClientState, Bytes, Bytes) {
    match ClientSend(lib, c, m)
    case (c1, None) => (c1, [], incoming)
    case (c1, Some(f)) =>
      match ReadFrame(incoming)
      case (Failure(_), rest) => (c1.(status := Broken), Serialize(f), rest)
      case (Success(reply), rest) => (ClientReceive(lib, c1, reply), Serialize(f), rest)
  }

  /** What one line added to the session at the client, and how it left it. */
  datatype Progress =
    Progress(requests: seq<Message>, sent: seq<WireFrame>, shown: seq<Message>, status: ClientStatus)

  /** One request and the wait for its reply. */
  method Request(lib: Library, tx: CipherState, rx: CipherState, metrics: SessionMetrics,
                 stream: ByteStream, out: ByteBuffer, m: Message, ghost c: ClientState) returns (r: Progress)
    requires tx != rx && c.status.Idle?
    requires c.tx == tx.State() && c.rx == rx.State() && c.traffic == metrics.State()
    modifies tx, rx, metrics, stream, out
    ensures var (end, bytes, rest) := AfterRequest(lib, c, m, old(stream.Pending()));
            && end == Client(tx.State(), rx.State(), metrics.State(),
                             c.requests + r.requests, c.sent + r.sent, c.shown + r.shown, r.status)
            && out.bytes == old(out.bytes) + bytes && stream.Pending() == rest
  {
    hide ReadFrame, Serialize, BuildNonce, Label, Flatten;
    var txNonce := tx.nonce;
    var encrypted := tx.Encrypt(lib, m.text, Label(m.kind));
    if encrypted.Failure? {
      return Progress([], [], [], Broken);
    }
    var frame := WireFrame(FrameType(m.kind), txNonce, encrypted.value);
    metrics.RecordTx(|frame.payload| + 13);
    WriteTo(frame, out);

    var reply := ReadFrom(stream);
    if reply.Failure? {
      return Progress([m], [frame], [], Broken);
    }
    var f := reply.value;
    metrics.RecordRx(|f.payload| + 13);
    if f.msgType == FrameType(m.kind) {
      var decrypted := rx.Decrypt(lib, f.payload, Label(m.kind), f.nonce);
      if decrypted.Failure? {
        return Progress([m], [frame], [], Broken);
      }
      r := Progress([m], [frame], [Message(m.kind, decrypted.value)], Idle);
    } else if m.kind == Data && f.msgType == Close {
      r := Progress([m], [frame], [], Ended);
    } else {
      r := Progress([m], [frame], [], Idle);
    }
  }

  lemma LoopLine(lib: Library, c: ClientState, script: seq<Line>, incoming: Bytes)
    requires script != [] && c.status.Idle?
    ensures ClientLoop(lib, c, script, incoming) ==
            match script[0]
            case Local => ClientLoop(lib, c, script[1..], incoming)
            case Quit => (ClientQuit(c), Serialize(CloseFrame(c)), incoming)
            case Say(m) =>
              var (c1, bytes, rest) := AfterRequest(lib, c, m, incoming);
              var (end, out, left) := ClientLoop(lib, c1, script[1..], rest);
              (end, bytes + out, left)
  {
    hide ReadFrame, Serialize, ClientSend, ClientReceive;
    match script[0]
    case Local =>
    case Quit =>
    case Say(m) =>
      var (c1, bytes, rest) := AfterRequest(lib, c, m, incoming);
      if ClientSend(lib, c, m).1.None? {
        SendFails(lib, c, m);
      } else if ReadFrame(incoming).0.Success? {
        return;
      }
      LoopDone(lib, c1, script[1..], rest);
      assert bytes + [] == bytes;
  }

  lemma SendFails(lib: Library, c: ClientState, m: Message)
    requires ClientSend(lib, c, m).1.None?
    ensures ClientSend(lib, c, m).0.status.Broken?
  {
  }

  /** The interactive loop over the lines typed. */
  method Converse(lib: Library, keys: Keys<byte>, script: seq<Line>, stream: ByteStream, out: ByteBuffer)
      returns (c: ClientState)
    modifies stream, out
    ensures var (end, bytes, left) :=
              ClientLoop(lib, NewClient(keys.clientWrite, keys.serverWrite), script, old(stream.Pending()));
            c == end && out.bytes == old(out.bytes) + bytes && stream.Pending() == left
  {
    hide ReadFrame, Serialize, ClientLoop, AfterRequest, Flatten;
    var tx := new CipherState.WithNonce(keys.clientWrite, 0);
    var rx := new CipherState.WithNonce(keys.serverWrite, 0);
    var metrics := new SessionMetrics();
    c := Client(tx.State(), rx.State(), metrics.State(), [], [], [], Idle);
    ghost var goal := ClientLoop(lib, c, script, stream.Pending());
    var i := 0;
    while i < |script| && c.status.Idle?
      invariant 0 <= i <= |script|
      invariant tx != rx && fresh(tx) && fresh(rx) && fresh(metrics)
      invariant c.tx == tx.State() && c.rx == rx.State() && c.traffic == metrics.State()
      invariant var (end, bytes, left) := ClientLoop(lib, c, script[i..], stream.Pending());
                goal.0 == end && old(out.bytes) + goal.1 == out.bytes + bytes && goal.2 == left
    {
      LoopLine(lib, c, script[i..], stream.Pending());
      assert script[i..][1..] == script[i + 1..];
      match script[i] {
        case Local =>
        case Quit =>
          var closeFrame := WireFrame(Close, tx.nonce, []);
          metrics.RecordTx(|closeFrame.payload| + 13);
          WriteTo(closeFrame, out);
          c := Client(tx.State(), rx.State(), metrics.State(), c.requests, c.sent, c.shown, Ended);
          LoopDone(lib, c, script[i + 1..], stream.Pending());
        case Say(m) =>
          var r := Request(lib, tx, rx, metrics, stream, out, m, c);
          c := Client(tx.State(), rx.State(), metrics.State(),
                      c.requests + r.requests, c.sent + r.sent, c.shown + r.shown, r.status);
      }
      i := i + 1;
    }
    LoopDone(lib, c, script[i..], stream.Pending());
  }

  lemma LoopDone(lib: Library, c: ClientState, script: seq<Line>, incoming: Bytes)
    requires script == [] || !c.status.Idle?
    ensures ClientLoop(lib, c, script, incoming) == (c, [], incoming)
  {
  }

  /** An interactive session, from the handshake to the last line. */
  method InteractiveSession(lib: Library, c: ClientSide<byte>, script: seq<Line>, stream: ByteStream, out: ByteBuffer)
      returns (r: Result<ClientState, HandshakeError>)
    modifies stream, out
    ensures var (end, bytes, left) := ClientSession(lib, c, script, old(stream.Pending()));
            r == end && out.bytes == old(out.bytes) + bytes && stream.Pending() == left
  {
    hide ReadFrame, Serialize, ClientHello, ClientFinish, ClientLoop, Flatten;
    var keys := PerformHandshake(lib, c, stream, out);
    if keys.Failure? {
      return Failure(keys.error);
    }
    var end := Converse(lib, keys.value, script, stream, out);
    r := Success(end);
  }
}
