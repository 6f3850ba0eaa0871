/** The two programs: the server's handling of one connection and the client's interactive
    session, as they run over their streams, and the session they make together. */
module Peers {
  import opened Words
  import opened Primitives
  import opened Codec
  import opened Cipher
  import opened Replay
  import opened Session
  import opened Handshake
  import opened Echo
  import opened Live
  import opened Hostile

  // ---- As functions of the bytes received ----

  /** The whole of `handle_client_with_prologue`: how it ended and the bytes it sent. */
  function ServerSession(lib: Library, s: ServerSide<byte>, input: Bytes)
    : (Result<ServerState, HandshakeError>, Bytes)
  {
    match ReadFrame(input)
    case (Failure(e), _) => (Failure(NoFrame(e)), [])
    case (Success(init), rest) =>
      match ServerHello(lib, s, init)
      case Failure(e) => (Failure(e), [])
      case Success((resp, keys)) =>
        var end := ServerLoop(lib, NewServer(keys.clientWrite, keys.serverWrite), rest);
        (Success(end), Serialize(resp) + SerializeAll(end.sent))
  }

  /** The whole of `start_interactive_session` on the lines typed: how it ended, the bytes
      it sent and the bytes it left unread. */
  function ClientSession(lib: Library, c: ClientSide<byte>, script: seq<Line>, incoming: Bytes)
    : (Result<ClientState, HandshakeError>, Bytes, Bytes)
  {
    match ClientHello(lib, c)
    case Failure(e) => (Failure(e), [], incoming)
    case Success(init) =>
      match ReadFrame(incoming)
      case (Failure(e), rest) => (Failure(NoFrame(e)), Serialize(init), rest)
      case (Success(resp), rest) =>
        match ClientFinish(lib, c, resp)
        case Failure(e) => (Failure(e), Serialize(init), rest)
        case Success(keys) =>
          var (end, out, left) := ClientLoop(lib, NewClient(keys.clientWrite, keys.serverWrite), script, rest);
          (Success(end), Serialize(init) + out, left)
  }

  /** Each program sends exactly the bytes the other one reads. Peers that were stuck waiting
      for each other would satisfy this too, with what they had sent so far. */
  ghost predicate Joined(lib: Library, c: ClientSide<byte>, s: ServerSide<byte>, script: seq<Line>, up: Bytes,
                         down: Bytes)
  {
    ClientSession(lib, c, script, down).1 == up && ServerSession(lib, s, up).1 == down
  }

  /** Both accepted the handshake with paired keys, every message was delivered and its reply
      shown, nothing is left unread, and all four counters are the number of messages. */
  ghost predicate Completed(lib: Library, c: ClientSide<byte>, s: ServerSide<byte>, script: seq<Line>, up: Bytes,
                            down: Bytes)
  {
    && ClientSession(lib, c, script, down).0.Success? && ServerSession(lib, s, up).0.Success?
    && ClientSession(lib, c, script, down).2 == []
    && var cc, ss := ClientSession(lib, c, script, down).0.value, ServerSession(lib, s, up).0.value;
       && cc.shown == Replies(lib, Says(script)) && ss.delivered == Says(script)
       && cc.tx.nonce == cc.rx.nonce == ss.rx.nonce == ss.tx.nonce == |Says(script)|
       && cc.tx.key == ss.rx.key && cc.rx.key == ss.tx.key
       && cc.status == (if Leaves(script) then Ended else Idle)
       && ss.status == (if Leaves(script) then PeerClosed else Disconnected)
  }

  lemma {:induction false} SessionCompletes(lib: Library, c: ClientSide<byte>, s: ServerSide<byte>, script: seq<Line>)
      returns (up: Bytes, down: Bytes)
    requires lib.Lawful() && WellMade(lib, c, s)
    requires c.prologue == s.prologue && c.serverPublic == s.identity.publicKey
    requires |Says(script)| <= U64_MAX && AllEchoable(lib, Says(script))
    ensures Joined(lib, c, s, script, up, down) && Completed(lib, c, s, script, up, down)
  {
    HandshakeAgreement(lib, c, s);
    var init := ClientHello(lib, c).value;
    var (resp, keys) := ServerHello(lib, s, init).value;
    var ck, sk := keys.clientWrite, keys.serverWrite;
    up := Serialize(init) + Upstream(lib, ck, 0, script);
    down := Serialize(resp) + Downstream(lib, sk, 0, script);
    hide WellMade, ClientHello, ServerHello, ClientFinish, Serialize, ReadFrame, ClientLoop, ServerLoop,
      Upstream, Downstream, AllEchoable, Echoable, Says, Leaves, Replies, SerializeAll, NewClient, NewServer;
    EchoEndToEnd(lib, ck, sk, script);
    KeysKept(lib, ck, sk, script);
    ReadInvertsSerialize(init, Upstream(lib, ck, 0, script));
    ReadInvertsSerialize(resp, Downstream(lib, sk, 0, script));
  }

  /** Handshake and script together. With the same prologue, the right server key and lines
      within the limit, the two programs joined to each other have exactly one session: the
      completed one. They cannot get stuck. */
  lemma {:induction false} WholeSession(lib: Library, c: ClientSide<byte>, s: ServerSide<byte>, script: seq<Line>)
      returns (up: Bytes, down: Bytes)
    requires lib.Lawful() && WellMade(lib, c, s)
    requires c.prologue == s.prologue && c.serverPublic == s.identity.publicKey
    requires |Says(script)| <= U64_MAX && AllEchoable(lib, Says(script))
    ensures Completed(lib, c, s, script, up, down)
    ensures forall up', down' :: Joined(lib, c, s, script, up', down') <==> up' == up && down' == down
  {
    up, down := SessionCompletes(lib, c, s, script);
    OnlySession(lib, c, s, script, up, down);
    hide Joined, Completed, WellMade, AllEchoable, Says, ClientHello, ServerHello, Serialize, Upstream, Downstream;
    forall up', down' | Joined(lib, c, s, script, up', down')
      ensures up' == up && down' == down
    {
      OnlySession(lib, c, s, script, up', down');
    }
  }

  /** The streams of two joined programs begin with the two handshake frames, and the rest is
      what the two loops make of each other. */
  lemma {:induction false} OnlySession(lib: Library, c: ClientSide<byte>, s: ServerSide<byte>, script: seq<Line>,
                                       up: Bytes, down: Bytes)
    requires lib.Lawful() && WellMade(lib, c, s)
    requires c.prologue == s.prologue && c.serverPublic == s.identity.publicKey
    requires |Says(script)| <= U64_MAX && AllEchoable(lib, Says(script))
    requires Joined(lib, c, s, script, up, down)
    ensures var init := ClientHello(lib, c);
            init.Success? &&
            var answer := ServerHello(lib, s, init.value);
            answer.Success? &&
            var (resp, keys) := answer.value;
            && up == Serialize(init.value) + Upstream(lib, keys.clientWrite, 0, script)
            && down == Serialize(resp) + Downstream(lib, keys.serverWrite, 0, script)
  {
    HandshakeAgreement(lib, c, s);
    var init := ClientHello(lib, c).value;
    var (resp, keys) := ServerHello(lib, s, init).value;
    var ck, sk := keys.clientWrite, keys.serverWrite;
    hide WellMade, ClientHello, ServerHello, ClientFinish, Serialize, ReadFrame,
      ClientLoop, ServerLoop, Upstream, Downstream, AllEchoable, Says, SerializeAll, NewClient, NewServer,
      ClientSession, ServerSession;
    var out := ClientSpeaksFirst(lib, c, script, down);
    ServerAnswersFirst(lib, s, init, out);
    var sent := SerializeAll(ServerLoop(lib, NewServer(ck, sk), out).sent);
    ReadInvertsSerialize(resp, sent);
    FreshLoops(lib, ck, sk, script, out, sent);
  }

  lemma ClientSpeaksFirst(lib: Library, c: ClientSide<byte>, script: seq<Line>, down: Bytes) returns (out: Bytes)
    requires ClientHello(lib, c).Success?
    ensures ClientSession(lib, c, script, down).1 == Serialize(ClientHello(lib, c).value) + out
    ensures var (r, rest) := ReadFrame(down);
            r.Success? && ClientFinish(lib, c, r.value).Success? ==>
              var k := ClientFinish(lib, c, r.value).value;
              out == ClientLoop(lib, NewClient(k.clientWrite, k.serverWrite), script, rest).1
  {
    hide ClientHello, ClientFinish, Serialize, ReadFrame, ClientLoop, NewClient;
    var (r, rest) := ReadFrame(down);
    AppendNothing(Serialize(ClientHello(lib, c).value));
    out := [];
    if r.Success? && ClientFinish(lib, c, r.value).Success? {
      var k := ClientFinish(lib, c, r.value).value;
      out := ClientLoop(lib, NewClient(k.clientWrite, k.serverWrite), script, rest).1;
    }
  }

  lemma ServerAnswersFirst(lib: Library, s: ServerSide<byte>, init: WireFrame, out: Bytes)
    requires Fits(init) && ServerHello(lib, s, init).Success?
    ensures var (resp, keys) := ServerHello(lib, s, init).value;
            var sent := ServerLoop(lib, NewServer(keys.clientWrite, keys.serverWrite), out).sent;
            ServerSession(lib, s, Serialize(init) + out).1 == Serialize(resp) + SerializeAll(sent)
  {
    hide ServerHello, Serialize, ReadFrame, ServerLoop, NewServer, SerializeAll;
    ReadInvertsSerialize(init, out);
  }

  lemma FreshLoops(lib: Library, ck: Bytes, sk: Bytes, script: seq<Line>, up: Bytes, down: Bytes)
    requires lib.AeadLaws() && |Says(script)| <= U64_MAX && AllEchoable(lib, Says(script))
    requires ClientLoop(lib, NewClient(ck, sk), script, down).1 == up
    requires SerializeAll(ServerLoop(lib, NewServer(ck, sk), up).sent) == down
    ensures up == Upstream(lib, ck, 0, script) && down == Downstream(lib, sk, 0, script)
  {
    hide ClientLoop, ServerLoop, SerializeAll, Upstream, Downstream, AllEchoable, Says, InOrder, Empty;
    var s := NewServer(ck, sk);
    NewServerCoupled(ck, sk);
    assert ServerLoop(lib, s, up).sent[0..] == ServerLoop(lib, s, up).sent;
    OnlyTheseStreams(lib, ck, sk, NewClient(ck, sk), s, 0, script, up, down);
  }

  /** Both peers at the start of transport, each with the keys it derived for itself: the
      server from the first frame it was given, the client from the answer it was given. */
  function Started(lib: Library, c: ClientSide<byte>, s: ServerSide<byte>, init: WireFrame, resp: WireFrame): System
    requires ServerHello(lib, s, init).Success? && ClientFinish(lib, c, resp).Success?
  {
    var theirs, ours := ServerHello(lib, s, init).value.1, ClientFinish(lib, c, resp).value;
    System(NewClient(ours.clientWrite, ours.serverWrite), NewServer(theirs.clientWrite, theirs.serverWrite))
  }

  /** What the two ends of an unforged run have in common. */
  ghost predicate DeliveredInOrder(lib: Library, w: System) {
    && w.server.delivered <= w.client.requests
    && w.client.shown <= Replies(lib, w.client.requests)
    && w.server.rx.nonce <= w.client.tx.nonce && w.client.rx.nonce <= w.server.tx.nonce
  }

  /** Let a client accept any answer, whoever made it, and a server any first frame. If both
      saw the same transcript they hold the same keys, and whatever an unforging network
      then does, messages and replies are delivered in order. `FreeTerms.KeysSharedExactly`
      shows that without the same transcript no key is shared. */
  lemma {:induction false} SessionOnSharedTranscript(
      lib: Library, c: ClientSide<byte>, s: ServerSide<byte>, init: WireFrame, resp: WireFrame, events: seq<Event>)
    requires lib.Lawful() && WellMade(lib, c, s)
    requires ServerHello(lib, s, init).Success? && ClientFinish(lib, c, resp).Success?
    requires SameTranscript(c, s, init.payload[..KEY_LEN], resp.payload[..KEY_LEN])
    requires UnforgedRun(lib, Started(lib, c, s, init, resp), events)
    ensures ClientFinish(lib, c, resp).value == ServerHello(lib, s, init).value.1
    ensures DeliveredInOrder(lib, Exec(lib, Started(lib, c, s, init, resp), events))
  {
    SameTranscriptSameKeys(lib, c, s, init, resp);
    var keys := ServerHello(lib, s, init).value.1;
    assert Started(lib, c, s, init, resp) == NewSystem(keys.clientWrite, keys.serverWrite);
    hide ServerHello, ClientFinish, Transcript, Exec, UnforgedRun;
    HostileDelivery(lib, keys.clientWrite, keys.serverWrite, events);
  }

  lemma SameTranscriptSameKeys(lib: Library, c: ClientSide<byte>, s: ServerSide<byte>, init: WireFrame, resp: WireFrame)
    requires lib.Lawful() && WellMade(lib, c, s)
    requires ServerHello(lib, s, init).Success? && ClientFinish(lib, c, resp).Success?
    requires SameTranscript(c, s, init.payload[..KEY_LEN], resp.payload[..KEY_LEN])
    ensures ClientFinish(lib, c, resp).value == ServerHello(lib, s, init).value.1
  {
    ServerHelloForm(lib, s, init);
    ClientFinishForm(lib, c, resp);
    SharedSecrets(lib, c, s);
  }

  /** When the answer's ciphertext came from a server run, with any frame before it and any
      ephemeral key in front of it, acceptance itself shows the transcript to be shared, unless
      the run exhibits a hash collision or a ciphertext that opens in a second context. */
  lemma {:induction false} SessionOnServersAnswer(
      lib: Library, c: ClientSide<byte>, s: ServerSide<byte>, init: WireFrame, claimed: Bytes, nonce: u64,
      resp: WireFrame, events: seq<Event>)
    requires lib.Lawful() && WellMade(lib, c, s) && |claimed| == KEY_LEN
    requires ServerHello(lib, s, init).Success?
    requires |ServerHello(lib, s, init).value.0.payload| >= KEY_LEN
    requires resp == Redirected(ServerHello(lib, s, init).value.0, claimed, nonce)
    requires ClientFinish(lib, c, resp).Success?
    requires !Collision(lib,
               Transcript(s.prologue, init.payload[..KEY_LEN], s.identity.publicKey, Some(s.ephemeral.publicKey)),
               Transcript(c.prologue, c.ephemeral.publicKey, c.serverPublic, Some(claimed)))
    requires !OpensElsewhere(lib, RespContext(lib, s, init.payload[..KEY_LEN]), ACK, FinishContext(lib, c, claimed))
    requires UnforgedRun(lib, Started(lib, c, s, init, resp), events)
    ensures SameTranscript(c, s, init.payload[..KEY_LEN], claimed)
    ensures DeliveredInOrder(lib, Exec(lib, Started(lib, c, s, init, resp), events))
  {
    AckBinding(lib, c, s, init, claimed, nonce);
    assert resp.payload[..KEY_LEN] == claimed;
    SessionOnSharedTranscript(lib, c, s, init, resp, events);
  }

  /** The answer as the network passes it on: any nonce field and any ephemeral key in front
      of the server's ciphertext. */
  function Redirected(resp: WireFrame, claimed: Bytes, nonce: u64): WireFrame
    requires |resp.payload| >= KEY_LEN
  {
    WireFrame(HandshakeResp, nonce, claimed + resp.payload[KEY_LEN..])
  }

  lemma {:induction false} KeysKept(lib: Library, ck: Bytes, sk: Bytes, script: seq<Line>)
    requires lib.AeadLaws() && |Says(script)| <= U64_MAX && AllEchoable(lib, Says(script))
    ensures var c := ClientLoop(lib, NewClient(ck, sk), script, Downstream(lib, sk, 0, script)).0;
            var s := ServerLoop(lib, NewServer(ck, sk), Upstream(lib, ck, 0, script));
            c.tx.key == ck && c.rx.key == sk && s.rx.key == ck && s.tx.key == sk
  {
    ClientKeepsKeys(lib, NewClient(ck, sk), script, Downstream(lib, sk, 0, script));
    ServerKeepsKeys(lib, NewServer(ck, sk), Upstream(lib, ck, 0, script));
  }

  lemma {:induction false} ClientKeepsKeys(lib: Library, c: ClientState, script: seq<Line>, incoming: Bytes)
    ensures var t := ClientLoop(lib, c, script, incoming).0;
            t.tx.key == c.tx.key && t.rx.key == c.rx.key
    decreases script
  {
    hide ReadFrame, Serialize, Label, BuildNonce;
    if script != [] && c.status.Idle? {
      match script[0]
      case Local => ClientKeepsKeys(lib, c, script[1..], incoming);
      case Quit =>
      case Say(m) =>
        var (c1, sent) := ClientSend(lib, c, m);
        var (r, rest) := ReadFrame(incoming);
        if sent.Some? && r.Success? {
          ClientKeepsKeys(lib, ClientReceive(lib, c1, r.value), script[1..], rest);
        }
    }
  }

  lemma StepKeepsKeys(lib: Library, s: ServerState, f: WireFrame)
    ensures ServerStep(lib, s, f).rx.key == s.rx.key && ServerStep(lib, s, f).tx.key == s.tx.key
  {
    hide Validate, Label, BuildNonce, ReplyTo;
  }

  lemma {:induction false} ServerKeepsKeys(lib: Library, s: ServerState, input: Bytes)
    ensures ServerLoop(lib, s, input).rx.key == s.rx.key && ServerLoop(lib, s, input).tx.key == s.tx.key
    decreases |input|
  {
    hide ReadFrame, ServerStep;
    var (r, rest) := ReadFrame(input);
    if s.status.Running? && r.Success? {
      StepKeepsKeys(lib, s, r.value);
      ServerKeepsKeys(lib, ServerStep(lib, s, r.value), rest);
    }
  }
}
