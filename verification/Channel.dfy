/** The two peers joined by two first-in first-out byte channels, acting in any order. */
module Channel {
  import opened Words
  import opened Primitives
  import opened Codec
  import opened Cipher
  import opened Replay
  import opened Session
  import opened Live
  import opened Echo

  datatype World = World(client: ClientState, server: ServerState, toServer: Bytes, toClient: Bytes)

  /** The user enters a line, the server takes a turn, or the client takes its reply. */
  datatype Act = Enter(line: Line) | Serve | Receive

  /** One act; an act that cannot happen now leaves the world as it is. */
  function Turn(lib: Library, w: World, a: Act): World {
    match a
    case Enter(line) => if w.client.status.Idle? then EnterLine(lib, w, line) else w
    case Serve => if w.server.status.Running? && w.toServer != [] then ServeOne(lib, w) else w
    case Receive => if w.client.status.Awaiting? && w.toClient != [] then ReceiveOne(lib, w) else w
  }

  function EnterLine(lib: Library, w: World, line: Line): World {
    match line
    case Local => w
    case Quit => w.(client := ClientQuit(w.client), toServer := w.toServer + Serialize(CloseFrame(w.client)))
    case Say(m) =>
      match ClientSend(lib, w.client, m)
      case (c, None) => w.(client := c)
      case (c, Some(f)) => w.(client := c, toServer := w.toServer + Serialize(f))
  }

  function ServeOne(lib: Library, w: World): World {
    match ReadFrame(w.toServer)
    case (Failure(_), rest) => w.(server := w.server.(status := Disconnected), toServer := rest)
    case (Success(f), rest) =>
      var s := ServerStep(lib, w.server, f);
      w.(server := s, toServer := rest, toClient := w.toClient + SerializeAll(NewFrames(w.server, s)))
  }

  /** The frames sent by the step from s to t. */
  function NewFrames(s: ServerState, t: ServerState): seq<WireFrame> {
    if |s.sent| <= |t.sent| then t.sent[|s.sent|..] else []
  }

  function ReceiveOne(lib: Library, w: World): World
    requires w.client.status.Awaiting?
  {
    match ReadFrame(w.toClient)
    case (Failure(_), rest) => w.(client := w.client.(status := Broken), toClient := rest)
    case (Success(f), rest) => w.(client := ClientReceive(lib, w.client, f), toClient := rest)
  }

  function Play(lib: Library, w: World, acts: seq<Act>): World
    decreases acts
  {
    if acts == [] then w else Play(lib, Turn(lib, w, acts[0]), acts[1..])
  }

  function NewWorld(ck: Bytes, sk: Bytes): World {
    World(NewClient(ck, sk), NewServer(ck, sk), [], [])
  }

  /** A turn of the server is a turn of its loop on the bytes in the channel, whatever they are. */
  lemma ServeIsALoopTurn(lib: Library, w: World)
    requires w.server.status.Running?
    ensures var t := ServeOne(lib, w);
            ServerLoop(lib, w.server, w.toServer) == ServerLoop(lib, t.server, t.toServer)
  {
    hide ReadFrame, ServerStep;
  }

  /** A line entered and the reply then taken are a turn of the client's loop, whatever bytes
      have arrived by then. */
  lemma ExchangeIsALoopTurn(lib: Library, w: World, script: seq<Line>, incoming: Bytes)
    requires w.client.status.Idle? && script != [] && script[0].Say?
    requires ClientSend(lib, w.client, script[0].message).1.Some?
    ensures var asked := EnterLine(lib, w, script[0]);
            asked.client.status.Awaiting? &&
            var t := ReceiveOne(lib, asked.(toClient := incoming));
            var (end, out, left) := ClientLoop(lib, t.client, script[1..], t.toClient);
            && ClientLoop(lib, w.client, script, incoming).0 == end
            && ClientLoop(lib, w.client, script, incoming).2 == left
            && w.toServer + ClientLoop(lib, w.client, script, incoming).1 == asked.toServer + out
  {
    hide ReadFrame, ClientReceive, Serialize, Label, BuildNonce;
    var asked := EnterLine(lib, w, script[0]);
    var t := ReceiveOne(lib, asked.(toClient := incoming));
    if ReadFrame(incoming).0.Failure? {
      LoopStopped(lib, t.client, script[1..], t.toClient);
    }
  }

  // ---- The states of an honest world ----

  /** Nothing under way: n messages were asked, answered and shown. */
  ghost predicate Quiet(lib: Library, ck: Bytes, sk: Bytes, w: World, n: nat) {
    && ServerAt(w.server, ck, sk, n)
    && w.client.tx == Counter(ck, n) && w.client.rx == Counter(sk, n)
    && (w.client.status.Idle? || (w.client.status.Broken? && n == U64_MAX))
    && w.toServer == [] && w.toClient == []
  }

  /** Request number n is on its way. */
  ghost predicate RequestUnderway(lib: Library, ck: Bytes, sk: Bytes, w: World, n: nat, m: Message) {
    && n < U64_MAX && ServerAt(w.server, ck, sk, n)
    && w.client.tx == Counter(ck, n + 1) && w.client.rx == Counter(sk, n)
    && w.client.status == Awaiting(m.kind)
    && w.toServer == Serialize(SealFrame(lib, ck, n, m)) && w.toClient == []
  }

  /** The answer to request number n is on its way. */
  ghost predicate ReplyUnderway(lib: Library, ck: Bytes, sk: Bytes, w: World, n: nat, m: Message) {
    && n < U64_MAX && ServerAt(w.server, ck, sk, n + 1)
    && w.client.tx == Counter(ck, n + 1) && w.client.rx == Counter(sk, n)
    && w.client.status == Awaiting(m.kind)
    && w.toServer == [] && w.toClient == Serialize(SealFrame(lib, sk, n, ReplyTo(lib, m)))
  }

  /** The client left: its Close is on its way, or was read. */
  ghost predicate Leaving(w: World, n: nat) {
    && n <= U64_MAX && w.client.status.Ended? && w.toClient == []
    && (if w.toServer == [] then w.server.status.PeerClosed?
        else w.server.status.Running? && w.toServer == Serialize(WireFrame(Close, n, [])))
  }

  datatype Phase = AtRest | Going(message: Message) | Coming(message: Message) | Over

  ghost predicate InPhase(lib: Library, ck: Bytes, sk: Bytes, w: World, p: Phase, n: nat) {
    match p
    case AtRest => Quiet(lib, ck, sk, w, n)
    case Going(m) => Echoable(lib, m) && RequestUnderway(lib, ck, sk, w, n, m)
    case Coming(m) => Echoable(lib, m) && ReplyUnderway(lib, ck, sk, w, n, m)
    case Over => Leaving(w, n)
  }

  /** What the two peers have asked, delivered and shown in each phase. */
  ghost predicate InStep(lib: Library, w: World, p: Phase, n: nat) {
    && |w.client.shown| == n
    && match p
       case Going(m) =>
         w.client.requests == w.server.delivered + [m] && w.client.shown == Replies(lib, w.server.delivered)
       case Coming(m) =>
         && w.client.requests == w.server.delivered
         && Replies(lib, w.server.delivered) == w.client.shown + [ReplyTo(lib, m)]
       case _ => w.client.requests == w.server.delivered && w.client.shown == Replies(lib, w.server.delivered)
  }

  /** Sent and not yet received, in bytes and in frames, equals what the channel holds. */
  ghost predicate Conserved(w: World) {
    && w.client.traffic.bytesSent == w.server.traffic.bytesReceived + |w.toServer|
    && w.client.traffic.framesSent == w.server.traffic.framesReceived + |ReadAll(w.toServer).0|
    && w.server.traffic.bytesSent == w.client.traffic.bytesReceived + |w.toClient|
    && w.server.traffic.framesSent == w.client.traffic.framesReceived + |ReadAll(w.toClient).0|
    && ReadAll(w.toServer).1 == ReadAll(w.toClient).1 == []
  }

  ghost predicate Honest(lib: Library, ck: Bytes, sk: Bytes, w: World, p: Phase, n: nat) {
    InPhase(lib, ck, sk, w, p, n) && InStep(lib, w, p, n) && Conserved(w)
  }

  /** The user only says what fits. */
  ghost predicate Sensible(lib: Library, a: Act) {
    a.Enter? && a.line.Say? ==> Echoable(lib, a.line.message)
  }

  lemma OneFrame(f: WireFrame)
    requires Fits(f)
    ensures ReadAll(Serialize(f)) == ([f], [])
    ensures ReadFrame(Serialize(f)) == (Success(f), [])
    ensures Serialize(f) != [] && |Serialize(f)| == |f.payload| + 13
  {
    ReadInvertsSerialize(f, []);
    assert Serialize(f) + [] == Serialize(f);
    StreamRoundTrip([f]);
    SerializeOne(f);
    assert AllFit([f]);
  }

  lemma EmptyChannel()
    ensures ReadAll([]) == ([], [])
  {
  }

  lemma EnterKeeps(lib: Library, ck: Bytes, sk: Bytes, w: World, n: nat, line: Line) returns (p: Phase)
    requires lib.AeadLaws() && Honest(lib, ck, sk, w, AtRest, n) && w.client.status.Idle?
    requires Sensible(lib, Enter(line))
    ensures Honest(lib, ck, sk, EnterLine(lib, w, line), p, n)
  {
    hide Echoable, ReplyTo, InOrder, Serialize, ReadAll, SealFrame;
    EmptyChannel();
    match line
    case Local => p := AtRest;
    case Quit =>
      OneFrame(CloseFrame(w.client));
      assert [] + Serialize(CloseFrame(w.client)) == Serialize(CloseFrame(w.client));
      p := Over;
    case Say(m) =>
      if n == U64_MAX {
        Exhausted(lib, w.client, m);
        p := AtRest;
      } else {
        HonestFramesFit(lib, ck, sk, n, m);
        HonestSizes(lib, m);
        AskHonest(lib, ck, sk, w.client, n, m);
        var f := SealFrame(lib, ck, n, m);
        OneFrame(f);
        assert [] + Serialize(f) == Serialize(f);
        p := Going(m);
      }
  }

  lemma Exhausted(lib: Library, c: ClientState, m: Message)
    requires c.tx.nonce == U64_MAX
    ensures ClientSend(lib, c, m) == (c.(status := Broken), None)
  {
  }

  lemma RepliesAppend(lib: Library, ms: seq<Message>, m: Message)
    ensures Replies(lib, ms + [m]) == Replies(lib, ms) + [ReplyTo(lib, m)]
  {
  }

  lemma ServeKeeps(lib: Library, ck: Bytes, sk: Bytes, w: World, n: nat, m: Message)
    requires lib.AeadLaws() && Honest(lib, ck, sk, w, Going(m), n)
    ensures Honest(lib, ck, sk, ServeOne(lib, w), Coming(m), n)
  {
    hide Echoable, ReplyTo, ServerAt, Serialize, ReadAll, ReadFrame, SealFrame, ServerStep, Validate;
    var f, g := SealFrame(lib, ck, n, m), SealFrame(lib, sk, n, ReplyTo(lib, m));
    HonestFramesFit(lib, ck, sk, n, m);
    OneFrame(f);
    OneFrame(g);
    EmptyChannel();
    HonestSizes(lib, m);
    ServeHonest(lib, ck, sk, w.server, n, m);
    var t := Answered(lib, w.server, sk, n, m);
    assert NewFrames(w.server, t) == [g];
    SerializeOne(g);
    assert [] + Serialize(g) == Serialize(g);
    RepliesAppend(lib, w.server.delivered, m);
  }

  lemma ReceiveKeeps(lib: Library, ck: Bytes, sk: Bytes, w: World, n: nat, m: Message)
    requires lib.AeadLaws() && Honest(lib, ck, sk, w, Coming(m), n)
    ensures Honest(lib, ck, sk, ReceiveOne(lib, w), AtRest, n + 1)
  {
    hide Echoable, ReplyTo, ServerAt, Serialize, ReadAll, ReadFrame, SealFrame, ClientReceive;
    var r := ReplyTo(lib, m);
    var g := SealFrame(lib, sk, n, r);
    HonestFramesFit(lib, ck, sk, n, m);
    HonestSizes(lib, m);
    OneFrame(g);
    EmptyChannel();
    HearHonest(lib, sk, w.client, n, r);
  }

  lemma CloseKeeps(lib: Library, ck: Bytes, sk: Bytes, w: World, n: nat)
    requires Honest(lib, ck, sk, w, Over, n) && w.toServer != [] && w.server.status.Running?
    ensures Honest(lib, ck, sk, ServeOne(lib, w), Over, n)
  {
    hide Serialize, ReadAll, ReadFrame, ReplyTo;
    OneFrame(WireFrame(Close, n, []));
    EmptyChannel();
  }

  lemma TurnKeeps(lib: Library, ck: Bytes, sk: Bytes, w: World, p: Phase, n: nat, a: Act)
      returns (p': Phase, n': nat)
    requires lib.AeadLaws() && Honest(lib, ck, sk, w, p, n) && Sensible(lib, a)
    ensures Honest(lib, ck, sk, Turn(lib, w, a), p', n')
  {
    hide Sensible, EnterLine, ServeOne, ReceiveOne, InStep, Conserved, Serialize, SealFrame;
    p', n' := p, n;
    if Turn(lib, w, a) != w {
      match a
      case Enter(line) =>
        if p.AtRest? {
          p' := EnterKeeps(lib, ck, sk, w, n, line);
        }
      case Serve =>
        if p.Going? {
          ServeKeeps(lib, ck, sk, w, n, p.message);
          p' := Coming(p.message);
        } else if p.Over? {
          CloseKeeps(lib, ck, sk, w, n);
        }
      case Receive =>
        if p.Coming? {
          ReceiveKeeps(lib, ck, sk, w, n, p.message);
          p', n' := AtRest, n + 1;
        }
    }
  }

  lemma {:induction false} PlayKeeps(lib: Library, ck: Bytes, sk: Bytes, w: World, p: Phase, n: nat, acts: seq<Act>)
      returns (p': Phase, n': nat)
    requires lib.AeadLaws() && Honest(lib, ck, sk, w, p, n)
    requires forall k | 0 <= k < |acts| :: Sensible(lib, acts[k])
    ensures Honest(lib, ck, sk, Play(lib, w, acts), p', n')
    decreases acts
  {
    hide Sensible, Turn, Honest;
    if acts == [] {
      p', n' := p, n;
    } else {
      var p1, n1 := TurnKeeps(lib, ck, sk, w, p, n, acts[0]);
      p', n' := PlayKeeps(lib, ck, sk, Turn(lib, w, acts[0]), p1, n1, acts[1..]);
    }
  }

  lemma NewWorldHonest(lib: Library, ck: Bytes, sk: Bytes)
    ensures Honest(lib, ck, sk, NewWorld(ck, sk), AtRest, 0)
  {
    hide InOrder, Empty;
    NewServerCoupled(ck, sk);
    EmptyChannel();
  }

  lemma HonestSummary(lib: Library, ck: Bytes, sk: Bytes, w: World, p: Phase, n: nat)
    requires Honest(lib, ck, sk, w, p, n)
    ensures Conserved(w)
    ensures w.server.delivered <= w.client.requests
    ensures w.client.shown <= Replies(lib, w.server.delivered)
    ensures |w.client.requests| <= |w.client.shown| + 1
    ensures w.server.status.Running? || w.server.status.PeerClosed?
    ensures w.client.status.Broken? ==> w.client.tx.nonce == U64_MAX
    ensures w.server.status.PeerClosed? ==>
              w.client.status.Ended? && w.server.delivered == w.client.requests
              && w.client.shown == Replies(lib, w.client.requests)
  {
    hide InOrder, Echoable, Conserved, Serialize, SealFrame, ReplyTo;
  }

  /** At every point of every interleaving, with messages within the limit: in each
      direction the bytes and frames counted by the sender are those counted by the
      receiver plus what is still in the channel; the session is never broken off except
      by an exhausted counter; what is shown is the replies to the first requests; and a clean
      end is the client's own, after everything it asked was delivered and answered. */
  lemma {:induction false} TrafficConservation(lib: Library, ck: Bytes, sk: Bytes, acts: seq<Act>)
    requires lib.AeadLaws()
    requires forall k | 0 <= k < |acts| :: Sensible(lib, acts[k])
    ensures var w := Play(lib, NewWorld(ck, sk), acts);
            && w.client.traffic.bytesSent == w.server.traffic.bytesReceived + |w.toServer|
            && w.server.traffic.bytesSent == w.client.traffic.bytesReceived + |w.toClient|
            && w.client.traffic.framesSent == w.server.traffic.framesReceived + |ReadAll(w.toServer).0|
            && w.server.traffic.framesSent == w.client.traffic.framesReceived + |ReadAll(w.toClient).0|
            && ReadAll(w.toServer).1 == ReadAll(w.toClient).1 == []
            && w.server.delivered <= w.client.requests
            && w.client.shown <= Replies(lib, w.server.delivered)
            && |w.client.requests| <= |w.client.shown| + 1
            && (w.server.status.Running? || w.server.status.PeerClosed?)
            && (w.client.status.Broken? ==> w.client.tx.nonce == U64_MAX)
            && (w.server.status.PeerClosed? ==>
                  && w.client.status.Ended? && w.server.delivered == w.client.requests
                  && w.client.shown == Replies(lib, w.client.requests))
  {
    hide Sensible, Honest, ReadAll, Play, Replies;
    NewWorldHonest(lib, ck, sk);
    var p, n := PlayKeeps(lib, ck, sk, NewWorld(ck, sk), AtRest, 0, acts);
    HonestSummary(lib, ck, sk, Play(lib, NewWorld(ck, sk), acts), p, n);
  }

  // ---- The exact limit of an exchange ----

  /** The acts of an exchange of m. */
  function Exchange(m: Message): seq<Act> {
    [Enter(Say(m)), Serve, Receive]
  }

  /** From w to t an exchange of m came off: both peers are ready for the next one, nothing
      is left in the channels, and the reply to m is what the client now shows last. */
  ghost predicate CameOff(lib: Library, w: World, t: World, m: Message) {
    && t.client.status.Idle? && t.server.status.Running?
    && t.toServer == [] && t.toClient == []
    && t.client.shown == w.client.shown + [ReplyTo(lib, m)]
  }

  lemma {:induction false} PlayAppend(lib: Library, w: World, acts: seq<Act>, more: seq<Act>)
    ensures Play(lib, w, acts + more) == Play(lib, Play(lib, w, acts), more)
    decreases acts
  {
    hide Turn;
    if acts == [] {
      assert acts + more == more;
    } else {
      assert (acts + more)[1..] == acts[1..] + more;
      PlayAppend(lib, Turn(lib, w, acts[0]), acts[1..], more);
    }
  }

  lemma PlayExchange(lib: Library, w: World, m: Message)
    ensures Play(lib, w, Exchange(m)) == Turn(lib, Turn(lib, Turn(lib, w, Enter(Say(m))), Serve), Receive)
  {
    hide Turn;
    var w1 := Turn(lib, w, Enter(Say(m)));
    var w2 := Turn(lib, w1, Serve);
    assert Exchange(m)[1..] == [Serve, Receive] && [Serve, Receive][1..] == [Receive] && [Receive][1..] == [];
    assert Play(lib, w2, [Receive]) == Turn(lib, w2, Receive);
    assert Play(lib, w1, [Serve, Receive]) == Turn(lib, w2, Receive);
  }

  lemma ReadsWhole(b: Bytes)
    requires ReadFrame(b).0.Success? && ReadFrame(b).1 == []
    ensures FromBytes(b).Success?
  {
    assert b[..|b|] == b && b[|b|..] == [];
    ParsersAgree(b, ReadFrame(b).0.value, |b|);
  }

  /** A channel holding one frame that is too long cannot be read to its end. */
  lemma TooLongNeverRead(f: WireFrame)
    requires !Fits(f)
    ensures ReadFrame(Serialize(f)).0.Failure? || ReadFrame(Serialize(f)).1 != []
  {
    var b := Serialize(f);
    FromBytesInvertsSerialize(f);
    if ReadFrame(b).0.Success? && ReadFrame(b).1 == [] {
      ReadsWhole(b);
    }
  }

  /** After the first act of an exchange the request is on its way. */
  lemma SayText(lib: Library, ck: Bytes, sk: Bytes, w: World, n: nat, m: Message)
    requires lib.AeadLaws() && Quiet(lib, ck, sk, w, n) && w.client.status.Idle? && n < U64_MAX
    requires |m.text| <= lib.sealLimit
    ensures Turn(lib, w, Enter(Say(m)))
         == World(Asked(lib, w.client, ck, n, m), w.server, Serialize(SealFrame(lib, ck, n, m)), [])
    ensures |Serialize(SealFrame(lib, ck, n, m))| == |m.text| + TAG_LEN + 13
  {
    hide InOrder, Label, BuildNonce, SealFrame, Serialize;
    AskHonest(lib, ck, sk, w.client, n, m);
    var b := Serialize(SealFrame(lib, ck, n, m));
    assert [] + b == b;
    SealedSize(lib, ck, n, m);
  }

  lemma SealedSize(lib: Library, key: Bytes, n: u64, m: Message)
    requires lib.AeadLaws() && |m.text| <= lib.sealLimit
    ensures |SealFrame(lib, key, n, m).payload| == |m.text| + TAG_LEN
  {
    SealThenOpen(lib, key, BuildNonce(n), Label(m.kind), m.text);
  }

  lemma ServeText(lib: Library, ck: Bytes, sk: Bytes, w: World, n: nat, m: Message)
    requires lib.AeadLaws() && ServerAt(w.server, ck, sk, n) && n < U64_MAX
    requires |m.text| <= lib.sealLimit && |ReplyTo(lib, m).text| <= lib.sealLimit
    requires Fits(SealFrame(lib, ck, n, m))
    requires w.toServer == Serialize(SealFrame(lib, ck, n, m)) && w.toClient == []
    ensures Turn(lib, w, Serve)
         == World(w.client, Answered(lib, w.server, sk, n, m), [], Serialize(SealFrame(lib, sk, n, ReplyTo(lib, m))))
    ensures ServerAt(Turn(lib, w, Serve).server, ck, sk, n + 1)
  {
    hide ReplyTo, InOrder, Serialize, ReadFrame, SealFrame, ServerStep, Validate, ReadAll;
    var f, g := SealFrame(lib, ck, n, m), SealFrame(lib, sk, n, ReplyTo(lib, m));
    OneFrame(f);
    ServeHonest(lib, ck, sk, w.server, n, m);
    assert NewFrames(w.server, Answered(lib, w.server, sk, n, m)) == [g];
    SerializeOne(g);
    assert [] + Serialize(g) == Serialize(g);
  }

  lemma HearText(lib: Library, sk: Bytes, w: World, n: nat, r: Message)
    requires lib.AeadLaws() && n < U64_MAX && |r.text| <= lib.sealLimit
    requires w.client.status == Awaiting(r.kind) && w.client.rx == Counter(sk, n)
    requires Fits(SealFrame(lib, sk, n, r)) && w.toClient == Serialize(SealFrame(lib, sk, n, r))
    ensures Turn(lib, w, Receive) == w.(client := Heard(lib, w.client, n, r), toClient := [])
  {
    hide Serialize, ReadFrame, SealFrame, ClientReceive, ReadAll;
    OneFrame(SealFrame(lib, sk, n, r));
    HearHonest(lib, sk, w.client, n, r);
  }

  /** The reply to a text is longer by the prefix. */
  lemma EchoLength(lib: Library, m: Message)
    requires m.kind.Data? && FromClient(lib, m)
    ensures |ReplyTo(lib, m).text| == |m.text| + 15 && ReplyTo(lib, m).kind.Data?
  {
    assert |Ascii("Server mottok: ")| == 15;
  }

  lemma ShortTextComesOff(lib: Library, ck: Bytes, sk: Bytes, w: World, n: nat, m: Message)
    requires lib.AeadLaws() && Quiet(lib, ck, sk, w, n) && w.client.status.Idle? && n < U64_MAX
    requires m.kind.Data? && FromClient(lib, m) && |m.text| <= MAX_TEXT
    ensures CameOff(lib, w, Turn(lib, Turn(lib, Turn(lib, w, Enter(Say(m))), Serve), Receive), m)
  {
    hide ReplyTo, InOrder, SealFrame, Serialize, Turn, FromClient, Validate;
    var r := ReplyTo(lib, m);
    EchoLength(lib, m);
    SealedSize(lib, ck, n, m);
    SealedSize(lib, sk, n, r);
    SayText(lib, ck, sk, w, n, m);
    var w1 := Turn(lib, w, Enter(Say(m)));
    ServeText(lib, ck, sk, w1, n, m);
    var w2 := Turn(lib, w1, Serve);
    HearText(lib, sk, w2, n, r);
  }

  /** A request that is too long leaves the server disconnected or the channel dirty. */
  lemma BadServe(lib: Library, w: World, f: WireFrame)
    requires !Fits(f) && w.toServer == Serialize(f) && w.server.status.Running?
    ensures var t := Turn(lib, w, Serve); t.toServer != [] || !t.server.status.Running?
  {
    hide ServerStep, ReadFrame, Serialize, NewFrames, SerializeAll;
    TooLongNeverRead(f);
    assert |Serialize(f)| >= 13;
  }

  /** A reply that is too long is not shown, or leaves the channel dirty. */
  lemma BadReceive(lib: Library, w: World, f: WireFrame)
    requires !Fits(f) && w.toClient == Serialize(f) && w.client.status.Awaiting?
    ensures Turn(lib, w, Receive).toClient != [] || Turn(lib, w, Receive).client.shown == w.client.shown
  {
    hide ReadFrame, Serialize, ClientReceive;
    TooLongNeverRead(f);
    assert |Serialize(f)| >= 13;
  }

  /** A reply that cannot be sealed fails the session on the server. */
  lemma UnsealableReply(lib: Library, ck: Bytes, s: ServerState, n: nat, m: Message)
    requires lib.AeadLaws() && n <= U64_MAX && s.rx == Counter(ck, n) && s.status.Running?
    requires |m.text| <= lib.sealLimit && |ReplyTo(lib, m).text| > lib.sealLimit
    ensures ServerStep(lib, s, SealFrame(lib, ck, n, m)).status.Failed?
  {
    hide Validate, Label, BuildNonce, ReplyTo;
    SealThenOpen(lib, ck, BuildNonce(n), Label(m.kind), m.text);
  }

  lemma FailedServe(lib: Library, ck: Bytes, w: World, n: nat, m: Message)
    requires lib.AeadLaws() && n <= U64_MAX && w.server.rx == Counter(ck, n) && w.server.status.Running?
    requires |m.text| <= lib.sealLimit && |ReplyTo(lib, m).text| > lib.sealLimit
    requires Fits(SealFrame(lib, ck, n, m)) && w.toServer == Serialize(SealFrame(lib, ck, n, m))
    ensures Turn(lib, w, Serve).server.status.Failed?
  {
    UnsealableReply(lib, ck, w.server, n, m);
    hide ServerStep, ReadFrame, Serialize, NewFrames, SerializeAll, SealFrame, ReplyTo, ReadAll;
    OneFrame(SealFrame(lib, ck, n, m));
  }

  lemma ReceiveLeavesServer(lib: Library, w: World)
    ensures Turn(lib, w, Receive).server == w.server && Turn(lib, w, Receive).toServer == w.toServer
  {
    hide ReadFrame, ClientReceive;
  }

  lemma UnsealableText(lib: Library, w: World, m: Message)
    requires w.client.status.Idle? && w.toServer == [] && |m.text| > lib.sealLimit
    ensures Turn(lib, Turn(lib, Turn(lib, w, Enter(Say(m))), Serve), Receive).client.status.Broken?
  {
  }

  lemma LongTextFails(lib: Library, ck: Bytes, sk: Bytes, w: World, n: nat, m: Message)
    requires lib.AeadLaws() && Quiet(lib, ck, sk, w, n) && w.client.status.Idle? && n < U64_MAX
    requires m.kind.Data? && FromClient(lib, m) && |m.text| > MAX_TEXT
    ensures !CameOff(lib, w, Turn(lib, Turn(lib, Turn(lib, w, Enter(Say(m))), Serve), Receive), m)
  {
    hide ReplyTo, InOrder, SealFrame, Serialize, FromClient, Turn, Validate;
    var r := ReplyTo(lib, m);
    EchoLength(lib, m);
    if |m.text| > lib.sealLimit {
      UnsealableText(lib, w, m);
    } else {
      SealedSize(lib, ck, n, m);
      SayText(lib, ck, sk, w, n, m);
      var w1 := Turn(lib, w, Enter(Say(m)));
      ReceiveLeavesServer(lib, Turn(lib, w1, Serve));
      if !Fits(SealFrame(lib, ck, n, m)) {
        BadServe(lib, w1, SealFrame(lib, ck, n, m));
      } else if |r.text| > lib.sealLimit {
        FailedServe(lib, ck, w1, n, m);
      } else {
        SealedSize(lib, sk, n, r);
        ServeText(lib, ck, sk, w1, n, m);
        BadReceive(lib, Turn(lib, w1, Serve), SealFrame(lib, sk, n, r));
      }
    }
  }

  lemma QuietLimit(lib: Library, ck: Bytes, sk: Bytes, w: World, n: nat, m: Message)
    requires lib.AeadLaws() && Quiet(lib, ck, sk, w, n) && w.client.status.Idle? && n < U64_MAX
    requires m.kind.Data? && FromClient(lib, m)
    ensures CameOff(lib, w, Play(lib, w, Exchange(m)), m) <==> |m.text| <= MAX_TEXT
  {
    hide CameOff, Quiet, FromClient, Turn;
    PlayExchange(lib, w, m);
    if |m.text| <= MAX_TEXT {
      ShortTextComesOff(lib, ck, sk, w, n, m);
    } else {
      LongTextFails(lib, ck, sk, w, n, m);
    }
  }

  /** After any honest session that left the client at its prompt with a counter to spare,
      an exchange of text comes off exactly when the text is at most 65496 bytes: a request
      15 bytes longer still travels, but the frame of its echo is one the client's reader
      refuses. */
  lemma {:induction false} EchoLimit(lib: Library, ck: Bytes, sk: Bytes, acts: seq<Act>, m: Message)
    requires lib.AeadLaws()
    requires forall k | 0 <= k < |acts| :: Sensible(lib, acts[k])
    requires var c := Play(lib, NewWorld(ck, sk), acts).client; c.status.Idle? && c.tx.nonce < U64_MAX
    requires m.kind.Data? && FromClient(lib, m)
    ensures CameOff(lib, Play(lib, NewWorld(ck, sk), acts), Play(lib, NewWorld(ck, sk), acts + Exchange(m)), m)
       <==> |m.text| <= 65496
  {
    hide Sensible, Play, CameOff, FromClient, InStep, Conserved, InOrder, Echoable, SealFrame, ReplyTo;
    NewWorldHonest(lib, ck, sk);
    var w := Play(lib, NewWorld(ck, sk), acts);
    var p, n := PlayKeeps(lib, ck, sk, NewWorld(ck, sk), AtRest, 0, acts);
    QuietLimit(lib, ck, sk, w, n, m);
    PlayAppend(lib, NewWorld(ck, sk), acts, Exchange(m));
  }
}
