/** An honest session end to end: the client's loop fed with the server's bytes and the
    server's loop fed with the client's. */
module Echo {
  import opened Words
  import opened Primitives
  import opened Codec
  import opened Cipher
  import opened Replay
  import opened Session
  import opened Live

  /** The longest text whose echo still fits a frame: prefix, tag and header taken off. */
  const MAX_TEXT := MAX_PAYLOAD - TAG_LEN - 15

  /** A message the client can make: PING, or text (a `&str`, hence well-formed). */
  predicate FromClient(lib: Library, m: Message) {
    match m.kind
    case Data => lib.ValidText(m.text)
    case Beat => m == PING
  }

  predicate Echoable(lib: Library, m: Message) {
    FromClient(lib, m) && (m.kind == Data ==> |m.text| <= MAX_TEXT)
  }

  lemma EchoableSizes(lib: Library, m: Message)
    requires Echoable(lib, m)
    ensures |m.text| <= MAX_TEXT
    ensures ReplyTo(lib, m).kind == m.kind
    ensures |ReplyTo(lib, m).text| <= MAX_TEXT + 15
    ensures m.kind == Data ==> ReplyTo(lib, m).text == Ascii("Server mottok: ") + m.text
  {
    assert |Ascii("Server mottok: ")| == 15 && |Ascii("PING")| == 4 && |Ascii("PONG")| == 4;
  }

  // ---- One exchange ----

  /** The server after n honest exchanges. */
  ghost predicate ServerAt(s: ServerState, ck: Bytes, sk: Bytes, n: nat) {
    && n <= U64_MAX
    && s.rx == Counter(ck, n) && s.tx == Counter(sk, n)
    && InOrder(s.filter, n)
    && s.status.Running?
  }

  /** What the server becomes when it answers message number n honestly. */
  function Answered(lib: Library, s: ServerState, sk: Bytes, n: u64, m: Message): ServerState
    requires n < U64_MAX
  {
    s.(rx := s.rx.(nonce := n + 1), tx := s.tx.(nonce := n + 1), filter := Validate(s.filter, n).0,
       delivered := s.delivered + [m], sent := s.sent + [SealFrame(lib, sk, n, ReplyTo(lib, m))],
       traffic := s.traffic.RecordRx(|m.text| + TAG_LEN + 13).RecordTx(|ReplyTo(lib, m).text| + TAG_LEN + 13))
  }

  lemma AnswerHonest(lib: Library, ck: Bytes, sk: Bytes, s: ServerState, n: nat, m: Message, r: Message)
    requires n < U64_MAX && s.rx == Counter(ck, n) && s.tx == Counter(sk, n)
    requires r == ReplyTo(lib, m) && r.kind == m.kind
    requires |m.text| <= lib.sealLimit && |r.text| <= lib.sealLimit
    requires lib.AeadLaws()
    ensures Answer(lib, s, SealFrame(lib, ck, n, m), m.kind)
         == s.(rx := Counter(ck, n + 1), tx := Counter(sk, n + 1), delivered := s.delivered + [m],
               sent := s.sent + [SealFrame(lib, sk, n, r)], traffic := s.traffic.RecordTx(|r.text| + TAG_LEN + 13))
  {
    hide Label, BuildNonce, ReplyTo;
    SealThenOpen(lib, ck, BuildNonce(n), Label(m.kind), m.text);
    SealThenOpen(lib, sk, BuildNonce(n), Label(m.kind), r.text);
  }

  lemma ServeHonest(lib: Library, ck: Bytes, sk: Bytes, s: ServerState, n: nat, m: Message)
    requires lib.AeadLaws() && ServerAt(s, ck, sk, n) && n < U64_MAX
    requires |m.text| <= lib.sealLimit && |ReplyTo(lib, m).text| <= lib.sealLimit
    ensures ServerStep(lib, s, SealFrame(lib, ck, n, m)) == Answered(lib, s, sk, n, m)
    ensures ServerAt(Answered(lib, s, sk, n, m), ck, sk, n + 1)
  {
    hide Represents, Validate, Label, BuildNonce, ReplyTo, Answer;
    ReplyKind(lib, m);
    SealThenOpen(lib, ck, BuildNonce(n), Label(m.kind), m.text);
    InOrderVerdict(s.filter, n, n);
    var s1 := s.(traffic := s.traffic.RecordRx(|m.text| + TAG_LEN + 13), filter := Validate(s.filter, n).0);
    AnswerHonest(lib, ck, sk, s1, n, m, ReplyTo(lib, m));
  }

  /** The client after n honest exchanges. */
  ghost predicate ClientAt(c: ClientState, ck: Bytes, sk: Bytes, n: nat) {
    && n <= U64_MAX
    && c.tx == Counter(ck, n) && c.rx == Counter(sk, n)
    && c.status.Idle?
  }

  function Asked(lib: Library, c: ClientState, ck: Bytes, n: u64, m: Message): ClientState
    requires n < U64_MAX
  {
    c.(tx := c.tx.(nonce := n + 1), requests := c.requests + [m], sent := c.sent + [SealFrame(lib, ck, n, m)],
       traffic := c.traffic.RecordTx(|m.text| + TAG_LEN + 13), status := Awaiting(m.kind))
  }

  function Heard(lib: Library, c: ClientState, n: u64, r: Message): ClientState
    requires n < U64_MAX
  {
    c.(rx := c.rx.(nonce := n + 1), shown := c.shown + [r],
       traffic := c.traffic.RecordRx(|r.text| + TAG_LEN + 13), status := Idle)
  }

  lemma AskHonest(lib: Library, ck: Bytes, sk: Bytes, c: ClientState, n: nat, m: Message)
    requires lib.AeadLaws() && ClientAt(c, ck, sk, n) && n < U64_MAX && |m.text| <= lib.sealLimit
    ensures ClientSend(lib, c, m) == (Asked(lib, c, ck, n, m), Some(SealFrame(lib, ck, n, m)))
  {
    hide Label, BuildNonce;
    SealThenOpen(lib, ck, BuildNonce(n), Label(m.kind), m.text);
  }

  lemma HearHonest(lib: Library, sk: Bytes, c: ClientState, n: nat, r: Message)
    requires lib.AeadLaws() && n < U64_MAX && |r.text| <= lib.sealLimit
    requires c.status == Awaiting(r.kind) && c.rx == Counter(sk, n)
    ensures ClientReceive(lib, c, SealFrame(lib, sk, n, r)) == Heard(lib, c, n, r)
  {
    hide Label, BuildNonce;
    SealThenOpen(lib, sk, BuildNonce(n), Label(r.kind), r.text);
  }

  lemma HonestFramesFit(lib: Library, ck: Bytes, sk: Bytes, n: u64, m: Message)
    requires lib.AeadLaws() && Echoable(lib, m)
    ensures Fits(SealFrame(lib, ck, n, m)) && |Serialize(SealFrame(lib, ck, n, m))| == |m.text| + TAG_LEN + 13
    ensures var r := ReplyTo(lib, m);
            Fits(SealFrame(lib, sk, n, r)) && |Serialize(SealFrame(lib, sk, n, r))| == |r.text| + TAG_LEN + 13
  {
    EchoableSizes(lib, m);
    var r := ReplyTo(lib, m);
    SealThenOpen(lib, ck, BuildNonce(n), Label(m.kind), m.text);
    SealThenOpen(lib, sk, BuildNonce(n), Label(r.kind), r.text);
  }

  // ---- Scripts ----

  /** The messages of a script, up to the line that leaves. */
  function Says(script: seq<Line>): seq<Message> {
    if script == [] || script[0].Quit? then []
    else if script[0].Local? then Says(script[1..])
    else [script[0].message] + Says(script[1..])
  }

  predicate Leaves(script: seq<Line>)
    decreases script
  {
    script != [] && (script[0].Quit? || Leaves(script[1..]))
  }

  ghost predicate AllEchoable(lib: Library, ms: seq<Message>) {
    forall i | 0 <= i < |ms| :: Echoable(lib, ms[i])
  }

  /** Messages n, n+1, .. of one direction as frames. */
  function SealFrom(lib: Library, key: Bytes, n: nat, ms: seq<Message>): seq<WireFrame>
    requires n + |ms| <= U64_MAX
    decreases ms
  {
    if ms == [] then [] else [SealFrame(lib, key, n, ms[0])] + SealFrom(lib, key, n + 1, ms[1..])
  }

  /** What the client puts on the wire from exchange n on, and what comes back. */
  function Upstream(lib: Library, ck: Bytes, n: nat, script: seq<Line>): Bytes
    requires n + |Says(script)| <= U64_MAX
  {
    SerializeAll(SealFrom(lib, ck, n, Says(script)))
    + if Leaves(script) then Serialize(WireFrame(Close, n + |Says(script)|, [])) else []
  }

  function Downstream(lib: Library, sk: Bytes, n: nat, script: seq<Line>): Bytes
    requires n + |Says(script)| <= U64_MAX
  {
    SerializeAll(SealFrom(lib, sk, n, Replies(lib, Says(script))))
  }

  lemma RepliesHead(lib: Library, ms: seq<Message>)
    requires ms != []
    ensures Replies(lib, ms)[0] == ReplyTo(lib, ms[0])
    ensures Replies(lib, ms)[1..] == Replies(lib, ms[1..])
  {
  }

  lemma SerializeHead(lib: Library, key: Bytes, n: nat, ms: seq<Message>, tail: Bytes)
    requires n + |ms| <= U64_MAX && ms != []
    ensures SerializeAll(SealFrom(lib, key, n, ms)) + tail
         == Serialize(SealFrame(lib, key, n, ms[0])) + (SerializeAll(SealFrom(lib, key, n + 1, ms[1..])) + tail)
  {
    var fs := SealFrom(lib, key, n, ms);
    assert fs[0] == SealFrame(lib, key, n, ms[0]) && fs[1..] == SealFrom(lib, key, n + 1, ms[1..]);
  }

  // ---- The two loops ----

  /** What the server's state has gained over s after answering ms. */
  ghost predicate ServedAll(lib: Library, sk: Bytes, s: ServerState, n: nat, ms: seq<Message>, t: ServerState)
    requires n + |ms| <= U64_MAX
  {
    && t.delivered == s.delivered + ms
    && t.sent == s.sent + SealFrom(lib, sk, n, Replies(lib, ms))
  }

  lemma LoopStep(lib: Library, s: ServerState, f: WireFrame, rest: Bytes)
    requires s.status.Running? && ReadFrame(Serialize(f) + rest) == (Success(f), rest)
    ensures ServerLoop(lib, s, Serialize(f) + rest) == ServerLoop(lib, ServerStep(lib, s, f), rest)
  {
    hide ReadFrame, Serialize, ServerStep;
  }

  lemma {:induction false} ServerHonest(lib: Library, ck: Bytes, sk: Bytes, s: ServerState, n: nat,
                                        ms: seq<Message>, tail: Bytes) returns (t: ServerState)
    requires lib.AeadLaws() && ServerAt(s, ck, sk, n) && n + |ms| <= U64_MAX && AllEchoable(lib, ms)
    ensures ServerLoop(lib, s, SerializeAll(SealFrom(lib, ck, n, ms)) + tail) == ServerLoop(lib, t, tail)
    ensures ServerAt(t, ck, sk, n + |ms|) && ServedAll(lib, sk, s, n, ms, t)
    decreases ms
  {
    hide InOrder, Echoable, SealFrame, ServerStep, ReadFrame, Serialize, ReplyTo, ServerLoop, Validate;
    if ms == [] {
      t := s;
      assert SerializeAll(SealFrom(lib, ck, n, ms)) + tail == tail;
      assert SealFrom(lib, sk, n, Replies(lib, ms)) == [];
    } else {
      var m := ms[0];
      var rest := SerializeAll(SealFrom(lib, ck, n + 1, ms[1..])) + tail;
      var f := SealFrame(lib, ck, n, m);
      SerializeHead(lib, ck, n, ms, tail);
      HonestFramesFit(lib, ck, sk, n, m);
      ReadInvertsSerialize(f, rest);
      HonestSizes(lib, m);
      ServeHonest(lib, ck, sk, s, n, m);
      var s1 := Answered(lib, s, sk, n, m);
      LoopStep(lib, s, f, rest);
      t := ServerHonest(lib, ck, sk, s1, n + 1, ms[1..], tail);
      RepliesHead(lib, ms);
    }
  }

  lemma SaysHead(lib: Library, script: seq<Line>)
    requires script != [] && script[0].Say?
    ensures Says(script) != [] && Says(script)[0] == script[0].message && Says(script)[1..] == Says(script[1..])
    ensures Leaves(script) == Leaves(script[1..])
  {
  }

  /** The client's loop with a reply waiting for every request it is going to make. */
  lemma {:induction false} ClientHonest(lib: Library, ck: Bytes, sk: Bytes, c: ClientState, n: nat,
                                        script: seq<Line>, tail: Bytes) returns (t: ClientState)
    requires lib.AeadLaws() && ClientAt(c, ck, sk, n) && n + |Says(script)| <= U64_MAX
    requires AllEchoable(lib, Says(script))
    ensures ClientLoop(lib, c, script, Downstream(lib, sk, n, script) + tail) == (t, Upstream(lib, ck, n, script), tail)
    ensures t.requests == c.requests + Says(script) && t.shown == c.shown + Replies(lib, Says(script))
    ensures t.tx == Counter(ck, n + |Says(script)|) && t.rx == Counter(sk, n + |Says(script)|)
    ensures t.status == if Leaves(script) then Ended else Idle
    decreases script
  {
    hide Echoable, SealFrame, ClientSend, ClientReceive, ReadFrame, Serialize, ReplyTo;
    var ms := Says(script);
    if script == [] {
      assert Downstream(lib, sk, n, script) + tail == tail;
      t := c;
    } else if script[0].Quit? {
      assert ms == [] && Downstream(lib, sk, n, script) + tail == tail;
      assert Upstream(lib, ck, n, script) == Serialize(CloseFrame(c));
      t := ClientQuit(c);
    } else if script[0].Local? {
      t := ClientHonest(lib, ck, sk, c, n, script[1..], tail);
      assert Upstream(lib, ck, n, script) == Upstream(lib, ck, n, script[1..]);
    } else {
      t := ClientExchange(lib, ck, sk, c, n, script, tail);
    }
  }

  lemma {:induction false} ClientExchange(lib: Library, ck: Bytes, sk: Bytes, c: ClientState, n: nat,
                                          script: seq<Line>, tail: Bytes) returns (t: ClientState)
    requires script != [] && script[0].Say?
    requires lib.AeadLaws() && ClientAt(c, ck, sk, n) && n + |Says(script)| <= U64_MAX
    requires AllEchoable(lib, Says(script))
    ensures ClientLoop(lib, c, script, Downstream(lib, sk, n, script) + tail) == (t, Upstream(lib, ck, n, script), tail)
    ensures t.requests == c.requests + Says(script) && t.shown == c.shown + Replies(lib, Says(script))
    ensures t.tx == Counter(ck, n + |Says(script)|) && t.rx == Counter(sk, n + |Says(script)|)
    ensures t.status == if Leaves(script) then Ended else Idle
    decreases script, 0
  {
    hide Echoable, SealFrame, ClientSend, ClientReceive, ReadFrame, Serialize, ReplyTo, ClientLoop,
      SealFrom, SerializeAll, Says, Leaves;
    var ms := Says(script);
    SaysHead(lib, script);
    RepliesHead(lib, ms);
    var m, r := ms[0], ReplyTo(lib, ms[0]);
    var later := Downstream(lib, sk, n + 1, script[1..]) + tail;
    var f, g := SealFrame(lib, ck, n, m), SealFrame(lib, sk, n, r);
    SerializeHead(lib, sk, n, Replies(lib, ms), tail);
    HonestFramesFit(lib, ck, sk, n, m);
    HonestSizes(lib, m);
    AskHonest(lib, ck, sk, c, n, m);
    ReadInvertsSerialize(g, later);
    HearHonest(lib, sk, Asked(lib, c, ck, n, m), n, r);
    var c1 := Heard(lib, Asked(lib, c, ck, n, m), n, r);
    t := ClientHonest(lib, ck, sk, c1, n + 1, script[1..], tail);
    ClientTurn(lib, c, script, f, g, later);
    var close := if Leaves(script) then Serialize(WireFrame(Close, n + |ms|, [])) else [];
    SerializeHead(lib, ck, n, ms, close);
  }

  lemma HonestSizes(lib: Library, m: Message)
    requires lib.AeadLaws() && Echoable(lib, m)
    ensures |m.text| <= lib.sealLimit && |ReplyTo(lib, m).text| <= lib.sealLimit
    ensures ReplyTo(lib, m).kind == m.kind
  {
    EchoableSizes(lib, m);
  }

  /** One turn of the client's loop around a request and the reply to it. */
  lemma ClientTurn(lib: Library, c: ClientState, script: seq<Line>, f: WireFrame, g: WireFrame, later: Bytes)
    requires script != [] && script[0].Say? && c.status.Idle?
    requires ClientSend(lib, c, script[0].message).1 == Some(f)
    requires ClientSend(lib, c, script[0].message).0.status.Awaiting?
    requires ReadFrame(Serialize(g) + later) == (Success(g), later)
    ensures var c2 := ClientReceive(lib, ClientSend(lib, c, script[0].message).0, g);
            var (end, out, left) := ClientLoop(lib, c2, script[1..], later);
            ClientLoop(lib, c, script, Serialize(g) + later) == (end, Serialize(f) + out, left)
  {
    hide ClientSend, ClientReceive, ReadFrame, Serialize;
  }

  /** For every script of pings and text lines within the limit, feed the client's loop the
      bytes the server's loop sends and the server's loop the bytes the client's loop
      sends: every read, replay check and decryption succeeds on both sides, the client
      shows exactly the replies in order and leaves nothing unread, and after k exchanges
      all four counters are k. */
  lemma {:induction false} EchoEndToEnd(lib: Library, ck: Bytes, sk: Bytes, script: seq<Line>)
    requires lib.AeadLaws() && |Says(script)| <= U64_MAX && AllEchoable(lib, Says(script))
    ensures var up, down := Upstream(lib, ck, 0, script), Downstream(lib, sk, 0, script);
            var (c, out, unread) := ClientLoop(lib, NewClient(ck, sk), script, down);
            var s := ServerLoop(lib, NewServer(ck, sk), up);
            && out == up && SerializeAll(s.sent) == down && unread == []
            && c.requests == s.delivered == Says(script)
            && c.shown == Replies(lib, Says(script))
            && c.tx.nonce == c.rx.nonce == s.rx.nonce == s.tx.nonce == |Says(script)|
            && c.status == (if Leaves(script) then Ended else Idle)
            && s.status == (if Leaves(script) then PeerClosed else Disconnected)
  {
    hide Echoable, ReplyTo, InOrder, ServerLoop, ClientLoop, SealFrom, SerializeAll, Serialize, Says, Leaves;
    var ms := Says(script);
    var down := Downstream(lib, sk, 0, script);
    assert down + [] == down;
    var c := ClientHonest(lib, ck, sk, NewClient(ck, sk), 0, script, []);
    NewServerCoupled(ck, sk);
    var close := if Leaves(script) then Serialize(WireFrame(Close, |ms|, [])) else [];
    var t := ServerHonest(lib, ck, sk, NewServer(ck, sk), 0, ms, close);
    assert t.sent == SealFrom(lib, sk, 0, Replies(lib, ms));
    ServerEnds(lib, t, WireFrame(Close, |ms|, []), Leaves(script));
  }

  lemma ServerEnds(lib: Library, t: ServerState, f: WireFrame, leaves: bool)
    requires t.status.Running? && f.msgType.Close? && f.payload == []
    ensures var end := ServerLoop(lib, t, if leaves then Serialize(f) else []);
            && end.status == (if leaves then PeerClosed else Disconnected)
            && end.rx == t.rx && end.tx == t.tx && end.sent == t.sent && end.delivered == t.delivered
  {
    hide Serialize, ReadFrame;
    if leaves {
      ReadInvertsSerialize(f, []);
      assert Serialize(f) + [] == Serialize(f);
      LoopStep(lib, t, f, []);
    } else {
      NothingToRead();
    }
  }

  lemma NothingToRead()
    ensures ReadFrame([]).0.Failure?
  {
  }

  // ---- No other pair of streams ----

  /** From these states on, each loop sends exactly the bytes the other one reads. Two peers
      that were stuck, each waiting for the other, would be such a pair of streams too: a
      loop at the end of its input sends nothing more. */
  ghost predicate FeedEachOther(lib: Library, c: ClientState, s: ServerState, script: seq<Line>, up: Bytes,
                                down: Bytes)
  {
    && ClientLoop(lib, c, script, down).1 == up
    && s.sent <= ServerLoop(lib, s, up).sent
    && SerializeAll(ServerLoop(lib, s, up).sent[|s.sent|..]) == down
  }

  lemma {:induction false} SentGrows(lib: Library, s: ServerState, input: Bytes)
    ensures s.sent <= ServerLoop(lib, s, input).sent
    decreases |input|
  {
    hide ReadFrame, ServerStep;
    if s.status.Running? {
      var (r, rest) := ReadFrame(input);
      if r.Success? {
        StepSends(lib, s, r.value);
        SentGrows(lib, ServerStep(lib, s, r.value), rest);
      }
    }
  }

  lemma StepSends(lib: Library, s: ServerState, f: WireFrame)
    ensures s.sent <= ServerStep(lib, s, f).sent
  {
    hide Validate, Label, BuildNonce, ReplyTo;
  }

  lemma NothingMore(lib: Library, s: ServerState)
    requires s.status.Running?
    ensures ServerLoop(lib, s, []) == s.(status := Disconnected)
  {
    NothingToRead();
  }

  /** What the client does first with a message does not depend on what it will read. */
  lemma FirstSends(lib: Library, c: ClientState, script: seq<Line>, down: Bytes, c1: ClientState, f: WireFrame)
      returns (out: Bytes)
    requires script != [] && script[0].Say? && c.status.Idle?
    requires ClientSend(lib, c, script[0].message) == (c1, Some(f)) && c1.status.Awaiting?
    ensures ClientLoop(lib, c, script, down).1 == Serialize(f) + out
    ensures var (r, rest) := ReadFrame(down);
            r.Success? ==> out == ClientLoop(lib, ClientReceive(lib, c1, r.value), script[1..], rest).1
  {
    hide ClientSend, ClientReceive, ReadFrame, Serialize;
    var (r, rest) := ReadFrame(down);
    out := if r.Success? then ClientLoop(lib, ClientReceive(lib, c1, r.value), script[1..], rest).1 else [];
    if r.Failure? {
      assert Serialize(f) + [] == Serialize(f);
    }
  }

  /** The server's answer comes first in what it sends. */
  lemma FirstAnswers(lib: Library, ck: Bytes, sk: Bytes, s: ServerState, n: nat, m: Message, out: Bytes)
      returns (s1: ServerState)
    requires lib.AeadLaws() && ServerAt(s, ck, sk, n) && n < U64_MAX && Echoable(lib, m)
    ensures ServerAt(s1, ck, sk, n + 1)
    ensures var f, g := SealFrame(lib, ck, n, m), SealFrame(lib, sk, n, ReplyTo(lib, m));
            var end := ServerLoop(lib, s1, out);
            && ServerLoop(lib, s, Serialize(f) + out) == end
            && s.sent <= end.sent && s1.sent <= end.sent
            && SerializeAll(end.sent[|s.sent|..]) == Serialize(g) + SerializeAll(end.sent[|s1.sent|..])
  {
    hide InOrder, Echoable, SealFrame, ServerStep, ReadFrame, Serialize, ReplyTo, ServerLoop, Validate;
    HonestFramesFit(lib, ck, sk, n, m);
    HonestSizes(lib, m);
    var f := SealFrame(lib, ck, n, m);
    ReadInvertsSerialize(f, out);
    ServeHonest(lib, ck, sk, s, n, m);
    LoopStep(lib, s, f, out);
    s1 := Answered(lib, s, sk, n, m);
    SentGrows(lib, s1, out);
    var end := ServerLoop(lib, s1, out);
    assert end.sent[|s.sent|..][0] == SealFrame(lib, sk, n, ReplyTo(lib, m));
    assert end.sent[|s.sent|..][1..] == end.sent[|s1.sent|..];
  }

  /** The streams of the honest session are the only ones the two loops can make of each
      other. */
  lemma {:induction false} OnlyTheseStreams(lib: Library, ck: Bytes, sk: Bytes, c: ClientState, s: ServerState, n: nat,
                                            script: seq<Line>, up: Bytes, down: Bytes)
    requires lib.AeadLaws() && ClientAt(c, ck, sk, n) && ServerAt(s, ck, sk, n)
    requires n + |Says(script)| <= U64_MAX && AllEchoable(lib, Says(script))
    requires FeedEachOther(lib, c, s, script, up, down)
    ensures up == Upstream(lib, ck, n, script) && down == Downstream(lib, sk, n, script)
    decreases script
  {
    hide InOrder, Echoable, SealFrame, ReadFrame, Serialize, ReplyTo, ServerLoop;
    if script == [] {
      NothingMore(lib, s);
    } else if script[0].Local? {
      OnlyTheseStreams(lib, ck, sk, c, s, n, script[1..], up, down);
      assert Upstream(lib, ck, n, script) == Upstream(lib, ck, n, script[1..]);
    } else if script[0].Quit? {
      ServerEnds(lib, s, CloseFrame(c), true);
    } else {
      OnlyThisExchange(lib, ck, sk, c, s, n, script, up, down);
    }
  }

  lemma {:induction false} OnlyThisExchange(lib: Library, ck: Bytes, sk: Bytes, c: ClientState, s: ServerState, n: nat,
                                            script: seq<Line>, up: Bytes, down: Bytes)
    requires script != [] && script[0].Say?
    requires lib.AeadLaws() && ClientAt(c, ck, sk, n) && ServerAt(s, ck, sk, n)
    requires n + |Says(script)| <= U64_MAX && AllEchoable(lib, Says(script))
    requires FeedEachOther(lib, c, s, script, up, down)
    ensures up == Upstream(lib, ck, n, script) && down == Downstream(lib, sk, n, script)
    decreases script, 0
  {
    hide InOrder, Echoable, SealFrame, ClientSend, ClientReceive, ReadFrame, Serialize, ReplyTo, ClientLoop, ServerLoop,
      SealFrom, SerializeAll, Says, Leaves;
    var ms := Says(script);
    SaysHead(lib, script);
    RepliesHead(lib, ms);
    var m, r := ms[0], ReplyTo(lib, ms[0]);
    var f, g := SealFrame(lib, ck, n, m), SealFrame(lib, sk, n, r);
    HonestSizes(lib, m);
    HonestFramesFit(lib, ck, sk, n, m);
    AskHonest(lib, ck, sk, c, n, m);
    var c1 := Asked(lib, c, ck, n, m);
    var out := FirstSends(lib, c, script, down, c1, f);
    var s1 := FirstAnswers(lib, ck, sk, s, n, m, out);
    var rest := SerializeAll(ServerLoop(lib, s1, out).sent[|s1.sent|..]);
    ReadInvertsSerialize(g, rest);
    HearHonest(lib, sk, c1, n, r);
    OnlyTheseStreams(lib, ck, sk, Heard(lib, c1, n, r), s1, n + 1, script[1..], out, rest);
    var close := if Leaves(script) then Serialize(WireFrame(Close, n + |ms|, [])) else [];
    SerializeHead(lib, ck, n, ms, close);
    SerializeHead(lib, sk, n, Replies(lib, ms), []);
    AppendNothing(SerializeAll(SealFrom(lib, sk, n, Replies(lib, ms))));
    AppendNothing(SerializeAll(SealFrom(lib, sk, n + 1, Replies(lib, ms[1..]))));
  }

  lemma AppendNothing(b: Bytes)
    ensures b + [] == b
  {
  }
}
