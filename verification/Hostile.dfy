/** A session over a network that may drop, duplicate, reorder, alter or invent frames,
    interleaved with the two peers in any way. */
module Hostile {
  import opened Words
  import opened Primitives
  import opened Codec
  import opened Cipher
  import opened Replay
  import opened Session

  datatype System = System(client: ClientState, server: ServerState)

  /** Either peer acts, or the network hands one of them any frame it likes. */
  datatype Event =
    | Ask(message: Message)
    | Leave
    | ToServer(frame: WireFrame)
    | ToClient(frame: WireFrame)

  function Step(lib: Library, s: System, e: Event): System {
    match e
    case Ask(m) => if s.client.status.Idle? then s.(client := ClientSend(lib, s.client, m).0) else s
    case Leave => if s.client.status.Idle? then s.(client := ClientQuit(s.client)) else s
    case ToServer(f) => if s.server.status.Running? then s.(server := ServerStep(lib, s.server, f)) else s
    case ToClient(f) => if s.client.status.Awaiting? then s.(client := ClientReceive(lib, s.client, f)) else s
  }

  function Exec(lib: Library, s: System, events: seq<Event>): System
    decreases events
  {
    if events == [] then s else Exec(lib, Step(lib, s, events[0]), events[1..])
  }

  /** The associated data of the two kinds of frame, byte for byte: "tunnel-data" and "heartbeat". */
  const TUNNEL_DATA: Bytes := [0x74, 0x75, 0x6e, 0x6e, 0x65, 0x6c, 0x2d, 0x64, 0x61, 0x74, 0x61]
  const HEARTBEAT: Bytes := [0x68, 0x65, 0x61, 0x72, 0x74, 0x62, 0x65, 0x61, 0x74]

  /** A peer's `encrypt` returned this ciphertext for this nonce and this associated data. */
  predicate Returned(sent: seq<WireFrame>, nonce: u64, ad: Bytes, ciphertext: Bytes) {
    exists i | 0 <= i < |sent| ::
      && BuildNonce(sent[i].nonce) == BuildNonce(nonce)
      && sent[i].payload == ciphertext
      && ad == if sent[i].msgType == DataPayload then TUNNEL_DATA else HEARTBEAT
  }

  /** Nobody but a peer seals under that peer's write key. The type byte of the frame does not
      matter: only what the ciphertext opens under does. */
  predicate Authentic(lib: Library, key: Bytes, sent: seq<WireFrame>, f: WireFrame) {
    && (lib.open(key, BuildNonce(f.nonce), TUNNEL_DATA, f.payload).Some? ==>
          Returned(sent, f.nonce, TUNNEL_DATA, f.payload))
    && (lib.open(key, BuildNonce(f.nonce), HEARTBEAT, f.payload).Some? ==>
          Returned(sent, f.nonce, HEARTBEAT, f.payload))
  }

  predicate Unforged(lib: Library, s: System, e: Event) {
    match e
    case ToServer(f) => IsMessage(f) ==> Authentic(lib, s.server.rx.key, s.client.sent, f)
    case ToClient(f) => IsMessage(f) ==> Authentic(lib, s.client.rx.key, s.server.sent, f)
    case _ => true
  }

  predicate UnforgedRun(lib: Library, s: System, events: seq<Event>)
    decreases events
  {
    events == [] || (Unforged(lib, s, events[0]) && UnforgedRun(lib, Step(lib, s, events[0]), events[1..]))
  }

  // ---- One direction ----

  lemma FrameTypeInjective(a: Kind, b: Kind)
    requires FrameType(a) == FrameType(b)
    ensures a == b
  {
  }

  /** The label under which a kind is opened tells which frames were sealed under it. */
  lemma LabelTells(kind: Kind, f: WireFrame, sealedAs: Kind)
    requires f.msgType == FrameType(sealedAs)
    requires Label(kind) == if f.msgType == DataPayload then TUNNEL_DATA else HEARTBEAT
    ensures sealedAs == kind
  {
    Literals();
    assert |TUNNEL_DATA| != |HEARTBEAT|;
  }

  /** What opens under the label of a kind was returned for that label. */
  lemma OpenedWasReturned(lib: Library, key: Bytes, sent: seq<WireFrame>, f: WireFrame, kind: Kind)
    requires Authentic(lib, key, sent, f)
    requires lib.open(key, BuildNonce(f.nonce), Label(kind), f.payload).Some?
    ensures Returned(sent, f.nonce, Label(kind), f.payload)
  {
    Literals();
    hide BuildNonce, Returned;
  }

  /** A ciphertext with number n opens under the label of message number n alone. */
  lemma OpensForItsKind(lib: Library, key: Bytes, ms: seq<Message>, fs: seq<WireFrame>, n: u64, f: WireFrame,
                        kind: Kind)
    requires SealedRun(lib, key, ms, fs) && Authentic(lib, key, fs, f) && f.nonce == n
    requires lib.open(key, BuildNonce(n), Label(kind), f.payload).Some?
    ensures n < |ms| && ms[n].kind == kind && fs[n].payload == f.payload
  {
    OpenedWasReturned(lib, key, fs, f, kind);
    hide Label, BuildNonce;
    var i :| && 0 <= i < |fs|
             && BuildNonce(fs[i].nonce) == BuildNonce(f.nonce)
             && fs[i].payload == f.payload
             && Label(kind) == if fs[i].msgType == DataPayload then TUNNEL_DATA else HEARTBEAT;
    NonceInjective(fs[i].nonce, f.nonce);
    LabelTells(kind, fs[i], ms[i].kind);
  }

  /** A ciphertext that opens at counter n is message number n, text and kind: the kind of the
      label it opens under, whatever the type byte says. */
  lemma NextInRun(lib: Library, key: Bytes, ms: seq<Message>, fs: seq<WireFrame>, n: u64, f: WireFrame, kind: Kind)
    requires lib.AeadLaws() && SealedRun(lib, key, ms, fs) && Authentic(lib, key, fs, f)
    requires DecryptStep(lib, Counter(key, n), f.payload, Label(kind), f.nonce).1.Success?
    ensures n < |ms|
    ensures ms[n] == Message(kind, DecryptStep(lib, Counter(key, n), f.payload, Label(kind), f.nonce).1.value)
  {
    hide Label, BuildNonce, Authentic;
    OpensForItsKind(lib, key, ms, fs, n, f, kind);
    SealThenOpen(lib, key, BuildNonce(n), Label(kind), ms[n].text);
  }

  lemma DecryptAdvances(lib: Library, c: Counter, ct: Bytes, ad: Bytes, n: u64)
    ensures var (c', r) := DecryptStep(lib, c, ct, ad, n);
            if r.Success? && c.nonce < U64_MAX then c' == Counter(c.key, c.nonce + 1)
            else r.Failure? ==> c' == c
  {
  }

  lemma RunGrows(lib: Library, key: Bytes, ms: seq<Message>, fs: seq<WireFrame>, m: Message)
    requires SealedRun(lib, key, ms, fs) && |ms| < U64_MAX && |m.text| <= lib.sealLimit
    ensures SealedRun(lib, key, ms + [m], fs + [SealFrame(lib, key, |ms|, m)])
  {
    hide Label, BuildNonce;
  }

  // ---- The whole system ----

  ghost predicate ClientSends(lib: Library, ck: Bytes, c: ClientState) {
    && SealedRun(lib, ck, c.requests, c.sent)
    && c.tx == Counter(ck, |c.requests|)
  }

  ghost predicate ClientInv(lib: Library, ck: Bytes, sk: Bytes, c: ClientState) {
    && ClientSends(lib, ck, c)
    && |c.shown| <= U64_MAX
    && c.rx == Counter(sk, |c.shown|)
  }

  ghost predicate ServerInv(lib: Library, ck: Bytes, sk: Bytes, s: ServerState) {
    && |s.sent| <= |s.delivered| <= U64_MAX
    && s.rx == Counter(ck, |s.delivered|)
    && SealedRun(lib, sk, Replies(lib, s.delivered[..|s.sent|]), s.sent)
    && s.tx == Counter(sk, |s.sent|)
    && (s.status.Running? ==> |s.sent| == |s.delivered|)
  }

  ghost predicate Inv(lib: Library, ck: Bytes, sk: Bytes, s: System) {
    && ClientInv(lib, ck, sk, s.client)
    && ServerInv(lib, ck, sk, s.server)
    && s.server.delivered <= s.client.requests
    && |s.client.shown| <= |s.server.sent|
    && s.client.shown <= Replies(lib, s.server.delivered)
  }

  lemma AskKeeps(lib: Library, ck: Bytes, c: ClientState, m: Message)
    requires ClientSends(lib, ck, c)
    ensures var c' := ClientSend(lib, c, m).0;
            && ClientSends(lib, ck, c')
            && c.requests <= c'.requests && c'.shown == c.shown && c'.rx == c.rx
  {
    hide Label, BuildNonce, SealedRun;
    if ClientSend(lib, c, m).1.Some? {
      RunLength(lib, ck, c.requests, c.sent);
      RunGrows(lib, ck, c.requests, c.sent, m);
    }
  }

  lemma RunLength(lib: Library, key: Bytes, ms: seq<Message>, fs: seq<WireFrame>)
    requires SealedRun(lib, key, ms, fs)
    ensures |fs| == |ms| <= U64_MAX
  {
  }

  /** A reply out of the server's run. */
  lemma HearKeeps(lib: Library, ck: Bytes, sk: Bytes, answered: seq<Message>, fs: seq<WireFrame>,
                  c: ClientState, f: WireFrame)
    requires lib.AeadLaws() && SealedRun(lib, sk, answered, fs)
    requires ClientInv(lib, ck, sk, c) && c.status.Awaiting? && c.shown <= answered
    requires IsMessage(f) ==> Authentic(lib, sk, fs, f)
    ensures var t := ClientReceive(lib, c, f);
            ClientInv(lib, ck, sk, t) && t.shown <= answered
            && t.requests == c.requests && t.sent == c.sent
  {
    hide Label, BuildNonce, SealedRun, ReplyTo, Authentic;
    var kind := c.status.kind;
    var r := DecryptStep(lib, c.rx, f.payload, Label(kind), f.nonce).1;
    DecryptAdvances(lib, c.rx, f.payload, Label(kind), f.nonce);
    if f.msgType == FrameType(kind) && r.Success? {
      NextInRun(lib, sk, answered, fs, |c.shown|, f, kind);
      RunLength(lib, sk, answered, fs);
    }
  }

  lemma ReceiveKeeps(lib: Library, ck: Bytes, sk: Bytes, s: System, f: WireFrame)
    requires lib.AeadLaws() && Inv(lib, ck, sk, s) && s.client.status.Awaiting?
    requires Unforged(lib, s, ToClient(f))
    ensures Inv(lib, ck, sk, s.(client := ClientReceive(lib, s.client, f)))
  {
    hide ClientInv, Authentic, SealedRun, ReplyTo, ClientReceive;
    var answered := Replies(lib, s.server.delivered[..|s.server.sent|]);
    assert s.client.rx.key == sk by { ReadsUnder(lib, ck, sk, s.client); }
    HearKeeps(lib, ck, sk, answered, s.server.sent, s.client, f);
  }

  lemma ReadsUnder(lib: Library, ck: Bytes, sk: Bytes, c: ClientState)
    requires ClientInv(lib, ck, sk, c)
    ensures c.rx.key == sk
  {
  }

  /** An answer to the next message of the client's run. */
  lemma AnswerKeeps(lib: Library, ck: Bytes, sk: Bytes, requests: seq<Message>, fs: seq<WireFrame>,
                    s: ServerState, f: WireFrame, kind: Kind)
    requires lib.AeadLaws() && SealedRun(lib, ck, requests, fs)
    requires ServerInv(lib, ck, sk, s) && s.status.Running? && s.delivered <= requests
    requires f.msgType == FrameType(kind)
    requires Authentic(lib, ck, fs, f)
    ensures var t := Answer(lib, s, f, kind);
            && ServerInv(lib, ck, sk, t)
            && s.delivered <= t.delivered <= requests
            && |s.sent| <= |t.sent|
  {
    hide Label, BuildNonce, SealedRun, ReplyTo, Authentic;
    var r := DecryptStep(lib, s.rx, f.payload, Label(kind), f.nonce).1;
    DecryptAdvances(lib, s.rx, f.payload, Label(kind), f.nonce);
    RunLength(lib, ck, requests, fs);
    if r.Success? {
      NextInRun(lib, ck, requests, fs, |s.delivered|, f, kind);
      var m := Message(kind, r.value);
      var t := Answer(lib, s, f, kind);
      assert s.delivered[..|s.sent|] == s.delivered == t.delivered[..|s.sent|];
      if t.status.Running? {
        assert t.delivered[..|t.sent|] == t.delivered;
        assert Replies(lib, t.delivered) == Replies(lib, s.delivered) + [ReplyTo(lib, m)];
        ReplyKind(lib, m);
        RunGrows(lib, sk, Replies(lib, s.delivered), s.sent, ReplyTo(lib, m));
      }
    }
  }

  /** Any frame, when only frames of the client's run open. */
  lemma TakeKeeps(lib: Library, ck: Bytes, sk: Bytes, requests: seq<Message>, fs: seq<WireFrame>,
                  s: ServerState, f: WireFrame)
    requires lib.AeadLaws() && SealedRun(lib, ck, requests, fs)
    requires ServerInv(lib, ck, sk, s) && s.status.Running? && s.delivered <= requests
    requires IsMessage(f) ==> Authentic(lib, ck, fs, f)
    ensures var t := ServerStep(lib, s, f);
            && ServerInv(lib, ck, sk, t)
            && s.delivered <= t.delivered <= requests
            && |s.sent| <= |t.sent|
  {
    hide Label, BuildNonce, SealedRun, ReplyTo, Answer, Validate, Authentic;
    if f.msgType == DataPayload || f.msgType == Heartbeat {
      var kind := if f.msgType == DataPayload then Data else Beat;
      var w := Validate(s.filter, f.nonce).0;
      var s1 := s.(traffic := s.traffic.RecordRx(|f.payload| + 13), filter := w);
      AnswerKeeps(lib, ck, sk, requests, fs, s1, f, kind);
    }
  }

  lemma ServeKeeps(lib: Library, ck: Bytes, sk: Bytes, s: System, f: WireFrame)
    requires lib.AeadLaws() && Inv(lib, ck, sk, s) && s.server.status.Running?
    requires Unforged(lib, s, ToServer(f))
    ensures Inv(lib, ck, sk, s.(server := ServerStep(lib, s.server, f)))
  {
    hide SealedRun, ReplyTo, ServerStep, Authentic;
    TakeKeeps(lib, ck, sk, s.client.requests, s.client.sent, s.server, f);
    assert Replies(lib, s.server.delivered) <= Replies(lib, ServerStep(lib, s.server, f).delivered);
  }

  lemma StepKeeps(lib: Library, ck: Bytes, sk: Bytes, s: System, e: Event)
    requires lib.AeadLaws() && Inv(lib, ck, sk, s) && Unforged(lib, s, e)
    ensures Inv(lib, ck, sk, Step(lib, s, e))
  {
    hide ServerStep, ClientSend, ClientReceive, Unforged, ClientInv, ServerInv;
    match e
    case Ask(m) => SayKeeps(lib, ck, sk, s.client, m);
    case Leave => LeaveKeeps(lib, ck, sk, s.client);
    case ToServer(f) => if s.server.status.Running? { ServeKeeps(lib, ck, sk, s, f); }
    case ToClient(f) => if s.client.status.Awaiting? { ReceiveKeeps(lib, ck, sk, s, f); }
  }

  lemma SayKeeps(lib: Library, ck: Bytes, sk: Bytes, c: ClientState, m: Message)
    requires ClientInv(lib, ck, sk, c)
    ensures var c' := ClientSend(lib, c, m).0;
            ClientInv(lib, ck, sk, c') && c.requests <= c'.requests && c'.shown == c.shown
  {
    hide ClientSends, ClientSend;
    AskKeeps(lib, ck, c, m);
  }

  lemma LeaveKeeps(lib: Library, ck: Bytes, sk: Bytes, c: ClientState)
    requires ClientInv(lib, ck, sk, c)
    ensures ClientInv(lib, ck, sk, ClientQuit(c))
  {
    hide SealedRun;
  }

  lemma {:induction false} ExecKeeps(lib: Library, ck: Bytes, sk: Bytes, s: System, events: seq<Event>)
    requires lib.AeadLaws() && Inv(lib, ck, sk, s) && UnforgedRun(lib, s, events)
    ensures Inv(lib, ck, sk, Exec(lib, s, events))
    decreases events
  {
    hide Inv, Step, Unforged;
    if events != [] {
      StepKeeps(lib, ck, sk, s, events[0]);
      ExecKeeps(lib, ck, sk, Step(lib, s, events[0]), events[1..]);
    }
  }

  function NewSystem(ck: Bytes, sk: Bytes): System {
    System(NewClient(ck, sk), NewServer(ck, sk))
  }

  lemma StartsInv(lib: Library, ck: Bytes, sk: Bytes)
    ensures Inv(lib, ck, sk, NewSystem(ck, sk))
  {
    hide Empty;
    assert Replies(lib, NewSystem(ck, sk).server.delivered[..0]) == [];
  }

  /** Whatever the network does, short of forging a ciphertext: the server has decrypted a
      prefix of the messages the client encrypted, kinds included; what the client shows
      is, in order, the right reply to each of its first messages; and no receiving
      counter passes the sending one, so the unchecked increment never overflows. */
  lemma {:induction false} HostileDelivery(lib: Library, ck: Bytes, sk: Bytes, events: seq<Event>)
    requires lib.AeadLaws() && UnforgedRun(lib, NewSystem(ck, sk), events)
    ensures var s := Exec(lib, NewSystem(ck, sk), events);
            && s.server.delivered <= s.client.requests
            && s.client.shown <= Replies(lib, s.client.requests)
            && |s.client.shown| <= |s.server.delivered|
            && |s.server.delivered| == s.server.rx.nonce <= s.client.tx.nonce == |s.client.requests|
            && |s.client.shown| == s.client.rx.nonce <= s.server.tx.nonce == |s.server.sent|
  {
    var s0 := NewSystem(ck, sk);
    StartsInv(lib, ck, sk);
    ExecKeeps(lib, ck, sk, s0, events);
    var s := Exec(lib, s0, events);
    assert Replies(lib, s.server.delivered) <= Replies(lib, s.client.requests);
    RunLength(lib, ck, s.client.requests, s.client.sent);
  }

  lemma {:induction false} ExecAppend(lib: Library, s: System, events: seq<Event>, e: Event)
    ensures Exec(lib, s, events + [e]) == Step(lib, Exec(lib, s, events), e)
    decreases events
  {
    hide Step;
    if events == [] {
      assert [e][1..] == [];
    } else {
      assert (events + [e])[1..] == events[1..] + [e];
      ExecAppend(lib, Step(lib, s, events[0]), events[1..], e);
    }
  }

  lemma {:induction false} UnforgedPrefix(lib: Library, s: System, events: seq<Event>, e: Event)
    requires UnforgedRun(lib, s, events + [e])
    ensures UnforgedRun(lib, s, events)
    decreases events
  {
    hide Step, Unforged;
    if events != [] {
      assert (events + [e])[1..] == events[1..] + [e];
      UnforgedPrefix(lib, Step(lib, s, events[0]), events[1..], e);
    }
  }

  // ---- Frames under another type ----

  /** A sent frame with its type byte changed between data and heartbeat. */
  function Relabelled(f: WireFrame): WireFrame {
    f.(msgType := if f.msgType == DataPayload then Heartbeat else DataPayload)
  }

  lemma RelabelledStaysShut(lib: Library, key: Bytes, ms: seq<Message>, fs: seq<WireFrame>, i: nat, kind: Kind)
    requires SealedRun(lib, key, ms, fs) && i < |fs| && FrameType(kind) == Relabelled(fs[i]).msgType
    requires Authentic(lib, key, fs, Relabelled(fs[i]))
    ensures lib.open(key, BuildNonce(fs[i].nonce), Label(kind), fs[i].payload).None?
  {
    hide Label, BuildNonce, Authentic;
    if lib.open(key, BuildNonce(fs[i].nonce), Label(kind), fs[i].payload).Some? {
      OpensForItsKind(lib, key, ms, fs, i, Relabelled(fs[i]), kind);
    }
  }

  /** Kinds cannot be exchanged on the way: whatever happened before, a frame of the client
      handed over under the other type fails the session, and nothing is delivered. */
  lemma {:induction false} RelabelledFrameRefused(lib: Library, ck: Bytes, sk: Bytes, events: seq<Event>, i: nat)
    requires lib.AeadLaws()
    requires i < |Exec(lib, NewSystem(ck, sk), events).client.sent|
    requires var f := Relabelled(Exec(lib, NewSystem(ck, sk), events).client.sent[i]);
             UnforgedRun(lib, NewSystem(ck, sk), events + [ToServer(f)])
    requires Exec(lib, NewSystem(ck, sk), events).server.status.Running?
    ensures var s := Exec(lib, NewSystem(ck, sk), events);
            var t := ServerStep(lib, s.server, Relabelled(s.client.sent[i]));
            t.status.Failed? && t.delivered == s.server.delivered && t.sent == s.server.sent
  {
    var s0 := NewSystem(ck, sk);
    var s := Exec(lib, s0, events);
    var f := Relabelled(s.client.sent[i]);
    LastUnforged(lib, s0, events, ToServer(f));
    UnforgedPrefix(lib, s0, events, ToServer(f));
    StartsInv(lib, ck, sk);
    ExecKeeps(lib, ck, sk, s0, events);
    var kind := if f.msgType == DataPayload then Data else Beat;
    RelabelledStaysShut(lib, ck, s.client.requests, s.client.sent, i, kind);
    hide Label, BuildNonce, Exec, UnforgedRun, Validate, ReplyTo, SealedRun, Authentic;
  }

  lemma {:induction false} LastUnforged(lib: Library, s: System, events: seq<Event>, e: Event)
    requires UnforgedRun(lib, s, events + [e])
    ensures Unforged(lib, Exec(lib, s, events), e)
    decreases events
  {
    hide Step, Unforged;
    if events == [] {
      assert (events + [e])[0] == e;
    } else {
      assert (events + [e])[1..] == events[1..] + [e];
      LastUnforged(lib, Step(lib, s, events[0]), events[1..], e);
    }
  }

  // ---- Which request a shown reply answers ----

  /** The client, waiting for a reply, is handed a frame of another type. */
  predicate PassesOver(s: System, e: Event) {
    e.ToClient? && s.client.status.Awaiting? && e.frame.msgType != FrameType(s.client.status.kind)
  }

  function PassedOver(lib: Library, s: System, events: seq<Event>): (n: nat)
    decreases events
  {
    if events == [] then 0
    else (if PassesOver(s, events[0]) then 1 else 0) + PassedOver(lib, Step(lib, s, events[0]), events[1..])
  }

  /** While the client is in session, its requests are the replies shown, the frames passed
      over, and the request it waits for. */
  ghost predicate Lag(c: ClientState, d: nat) {
    && (c.status.Idle? ==> |c.requests| == |c.shown| + d)
    && (c.status.Awaiting? ==> |c.requests| == |c.shown| + d + 1)
  }

  lemma StepKeepsLag(lib: Library, s: System, e: Event, d: nat)
    requires Lag(s.client, d)
    ensures Lag(Step(lib, s, e).client, d + if PassesOver(s, e) then 1 else 0)
  {
    hide ServerStep, Label, BuildNonce;
  }

  lemma {:induction false} RunKeepsLag(lib: Library, s: System, events: seq<Event>, d: nat)
    requires Lag(s.client, d)
    ensures Lag(Exec(lib, s, events).client, d + PassedOver(lib, s, events))
    decreases events
  {
    hide Step, PassesOver, Lag;
    if events != [] {
      StepKeepsLag(lib, s, events[0], d);
      RunKeepsLag(lib, Step(lib, s, events[0]), events[1..], d + if PassesOver(s, events[0]) then 1 else 0);
    }
  }

  /** Whenever a frame handed to the client makes it show a reply, that reply is the right one
      to a request that lies as many requests before the one waited for as frames of another
      type were passed over earlier: it answers the request waited for exactly when none was. */
  lemma {:induction false} ShownReplyAnswers(lib: Library, ck: Bytes, sk: Bytes, events: seq<Event>, f: WireFrame)
    requires lib.AeadLaws() && UnforgedRun(lib, NewSystem(ck, sk), events + [ToClient(f)])
    requires |Exec(lib, NewSystem(ck, sk), events + [ToClient(f)]).client.shown|
           > |Exec(lib, NewSystem(ck, sk), events).client.shown|
    ensures var c := Exec(lib, NewSystem(ck, sk), events).client;
            var shown := Exec(lib, NewSystem(ck, sk), events + [ToClient(f)]).client.shown;
            var behind := PassedOver(lib, NewSystem(ck, sk), events);
            && c.status.Awaiting?
            && 0 <= |c.requests| - 1 - behind
            && shown == c.shown + [ReplyTo(lib, c.requests[|c.requests| - 1 - behind])]
  {
    var s0 := NewSystem(ck, sk);
    ExecAppend(lib, s0, events, ToClient(f));
    RunKeepsLag(lib, s0, events, 0);
    var s := Exec(lib, s0, events);
    ShowsOne(lib, s, f);
    hide Step, Exec, UnforgedRun, PassedOver, ReplyTo;
    HostileDelivery(lib, ck, sk, events + [ToClient(f)]);
  }

  lemma ShowsOne(lib: Library, s: System, f: WireFrame)
    requires |Step(lib, s, ToClient(f)).client.shown| > |s.client.shown|
    ensures s.client.status.Awaiting?
    ensures var c := Step(lib, s, ToClient(f)).client;
            c.requests == s.client.requests && |c.shown| == |s.client.shown| + 1
            && c.shown[..|s.client.shown|] == s.client.shown
  {
    hide Label, BuildNonce;
  }

  // ---- The end of a session ----

  /** A Close frame is not authenticated: any nonce field and any payload will do, nothing is
      forged, and the server has ended cleanly without the message the client had sent. */
  lemma CloseNeedsNoKey(lib: Library, ck: Bytes, sk: Bytes, m: Message, n: u64, junk: Bytes)
    requires |m.text| <= lib.sealLimit
    ensures var events := [Ask(m), ToServer(WireFrame(Close, n, junk))];
            var s := Exec(lib, NewSystem(ck, sk), events);
            && UnforgedRun(lib, NewSystem(ck, sk), events)
            && s.server.status.PeerClosed? && s.server.delivered == []
            && s.client.requests == [m] && s.client.status == Awaiting(m.kind)
  {
    hide Label, BuildNonce, Empty;
    var events := [Ask(m), ToServer(WireFrame(Close, n, junk))];
    var s0 := NewSystem(ck, sk);
    var s1 := Step(lib, s0, events[0]);
    assert events[1..] == [events[1]] && events[1..][1..] == [];
    assert Exec(lib, s0, events) == Exec(lib, s1, events[1..]);
    assert Exec(lib, s1, events[1..]) == Exec(lib, Step(lib, s1, events[1]), []);
    assert UnforgedRun(lib, s1, events[1..]) by {
      assert Unforged(lib, s1, events[1]);
      assert UnforgedRun(lib, Step(lib, s1, events[1]), []);
    }
  }

  /** Event k hands a frame of type Close, of whatever content, to a running server. */
  ghost predicate ClosesAt(lib: Library, s: System, events: seq<Event>, k: nat) {
    && k < |events|
    && events[k].ToServer? && events[k].frame.msgType == Close
    && Exec(lib, s, events[..k]).server.status.Running?
  }

  lemma {:induction false} StoppedServerStays(lib: Library, s: System, events: seq<Event>)
    requires !s.server.status.Running?
    ensures Exec(lib, s, events).server == s.server
    decreases events
  {
    hide ServerStep, ClientSend, ClientReceive;
    if events != [] {
      StoppedServerStays(lib, Step(lib, s, events[0]), events[1..]);
    }
  }

  lemma StepCloses(lib: Library, s: System, e: Event)
    requires s.server.status.Running?
    ensures Step(lib, s, e).server.status.PeerClosed? <==> e.ToServer? && e.frame.msgType == Close
  {
    hide Validate, Label, BuildNonce, ReplyTo;
  }

  /** A session on any network, forgeries included, ends cleanly if and only if a frame of type
      Close was handed to the server while it ran. */
  lemma {:induction false} ClosesExactly(lib: Library, s: System, events: seq<Event>)
    requires s.server.status.Running?
    ensures Exec(lib, s, events).server.status.PeerClosed? <==> exists k :: ClosesAt(lib, s, events, k)
    decreases events
  {
    hide Step;
    if events != [] {
      var t := Step(lib, s, events[0]);
      StepCloses(lib, s, events[0]);
      assert Exec(lib, s, events[..0]) == s;
      forall k: nat | k < |events| - 1
        ensures ClosesAt(lib, s, events, k + 1) <==> ClosesAt(lib, t, events[1..], k)
      {
        assert events[..k + 1][0] == events[0] && events[..k + 1][1..] == events[1..][..k];
      }
      if t.server.status.Running? {
        ClosesExactly(lib, t, events[1..]);
        if k: nat :| ClosesAt(lib, s, events, k) {
          assert ClosesAt(lib, t, events[1..], k - 1);
        }
        if k: nat :| ClosesAt(lib, t, events[1..], k) {
          assert ClosesAt(lib, s, events, k + 1);
        }
      } else {
        StoppedServerStays(lib, t, events[1..]);
        forall k: nat | 1 <= k <= |events|
          ensures !Exec(lib, s, events[..k]).server.status.Running?
        {
          assert events[..k][0] == events[0] && events[..k][1..] == events[1..k];
          StoppedServerStays(lib, t, events[1..k]);
        }
        if t.server.status.PeerClosed? {
          assert ClosesAt(lib, s, events, 0);
        }
      }
    }
  }

  // ---- The end of a session at the client ----

  /** The user leaves, or a Close frame is taken in place of data. */
  ghost predicate EndsNow(c: ClientState, e: Event) {
    || (e.Leave? && c.status.Idle?)
    || (e.ToClient? && c.status == Awaiting(Data) && e.frame.msgType == Close)
  }

  /** A request that cannot be sealed, or a reply of the type waited for that has another
      number or does not open. */
  ghost predicate BreaksNow(lib: Library, c: ClientState, e: Event) {
    || (e.Ask? && c.status.Idle? && (c.tx.nonce == U64_MAX || |e.message.text| > lib.sealLimit))
    || (&& e.ToClient? && c.status.Awaiting?
        && e.frame.msgType == (if c.status.kind == Data then DataPayload else Heartbeat)
        && (|| e.frame.nonce != c.rx.nonce
            || lib.open(c.rx.key, BuildNonce(e.frame.nonce),
                 if c.status.kind == Data then TUNNEL_DATA else HEARTBEAT, e.frame.payload).None?))
  }

  ghost predicate InSession(c: ClientState) {
    c.status.Idle? || c.status.Awaiting?
  }

  lemma StepEnds(lib: Library, s: System, e: Event)
    requires InSession(s.client)
    ensures Step(lib, s, e).client.status.Ended? <==> EndsNow(s.client, e)
    ensures Step(lib, s, e).client.status.Broken? <==> BreaksNow(lib, s.client, e)
  {
    Literals();
    hide ServerStep, Label, BuildNonce;
  }

  lemma {:induction false} StoppedClientStays(lib: Library, s: System, events: seq<Event>)
    requires !InSession(s.client)
    ensures Exec(lib, s, events).client == s.client
    decreases events
  {
    hide ServerStep, ClientSend, ClientReceive;
    if events != [] {
      StoppedClientStays(lib, Step(lib, s, events[0]), events[1..]);
    }
  }

  ghost predicate EndsAt(lib: Library, s: System, events: seq<Event>, k: nat) {
    k < |events| && EndsNow(Exec(lib, s, events[..k]).client, events[k])
  }

  ghost predicate BreaksAt(lib: Library, s: System, events: seq<Event>, k: nat) {
    k < |events| && BreaksNow(lib, Exec(lib, s, events[..k]).client, events[k])
  }

  lemma ShiftEnds(lib: Library, s: System, events: seq<Event>, k: nat)
    requires k + 1 < |events|
    ensures EndsAt(lib, s, events, k + 1) <==> EndsAt(lib, Step(lib, s, events[0]), events[1..], k)
    ensures BreaksAt(lib, s, events, k + 1) <==> BreaksAt(lib, Step(lib, s, events[0]), events[1..], k)
  {
    hide Step, EndsNow, BreaksNow;
    assert events[..k + 1][0] == events[0] && events[..k + 1][1..] == events[1..][..k];
  }

  /** On any network, forgeries included: the client has ended if and only if its user left or a
      Close frame was handed to it while it waited for data; it has broken off if and only
      if a request could not be sealed or a reply of the type waited for did not open. */
  lemma {:induction false} ClientEndsExactly(lib: Library, s: System, events: seq<Event>)
    requires InSession(s.client)
    ensures Exec(lib, s, events).client.status.Ended? <==> exists k :: EndsAt(lib, s, events, k)
    ensures Exec(lib, s, events).client.status.Broken? <==> exists k :: BreaksAt(lib, s, events, k)
    decreases events
  {
    hide Step, EndsNow, BreaksNow;
    if events != [] {
      var t := Step(lib, s, events[0]);
      StepEnds(lib, s, events[0]);
      assert Exec(lib, s, events[..0]) == s;
      assert EndsAt(lib, s, events, 0) <==> EndsNow(s.client, events[0]);
      assert BreaksAt(lib, s, events, 0) <==> BreaksNow(lib, s.client, events[0]);
      if InSession(t.client) {
        ClientEndsExactly(lib, t, events[1..]);
        NoneAtFirst(lib, s, events);
      } else {
        StoppedClientStays(lib, t, events[1..]);
        NoneLater(lib, s, events);
      }
    }
  }

  /** When the first event changes nothing, what happens happens in the rest. */
  lemma {:induction false} NoneAtFirst(lib: Library, s: System, events: seq<Event>)
    requires events != [] && !EndsAt(lib, s, events, 0) && !BreaksAt(lib, s, events, 0)
    ensures var t := Step(lib, s, events[0]);
            && ((exists k :: EndsAt(lib, s, events, k)) <==> (exists k :: EndsAt(lib, t, events[1..], k)))
            && ((exists k :: BreaksAt(lib, s, events, k)) <==> (exists k :: BreaksAt(lib, t, events[1..], k)))
  {
    var t := Step(lib, s, events[0]);
    forall k: nat | k + 1 < |events|
      ensures EndsAt(lib, s, events, k + 1) <==> EndsAt(lib, t, events[1..], k)
      ensures BreaksAt(lib, s, events, k + 1) <==> BreaksAt(lib, t, events[1..], k)
    {
      ShiftEnds(lib, s, events, k);
    }
    hide Step, EndsNow, BreaksNow;
    if k: nat :| EndsAt(lib, s, events, k) {
      assert EndsAt(lib, t, events[1..], k - 1);
    }
    if k: nat :| EndsAt(lib, t, events[1..], k) {
      assert EndsAt(lib, s, events, k + 1);
    }
    if k: nat :| BreaksAt(lib, s, events, k) {
      assert BreaksAt(lib, t, events[1..], k - 1);
    }
    if k: nat :| BreaksAt(lib, t, events[1..], k) {
      assert BreaksAt(lib, s, events, k + 1);
    }
  }

  lemma {:induction false} NoneLater(lib: Library, s: System, events: seq<Event>)
    requires events != [] && !InSession(Step(lib, s, events[0]).client)
    ensures forall k: nat | 1 <= k :: !EndsAt(lib, s, events, k) && !BreaksAt(lib, s, events, k)
  {
    var t := Step(lib, s, events[0]);
    forall k: nat | 1 <= k < |events|
      ensures !InSession(Exec(lib, s, events[..k]).client)
    {
      assert events[..k][0] == events[0] && events[..k][1..] == events[1..k];
      StoppedClientStays(lib, t, events[1..k]);
    }
    hide Step, Exec;
  }

  /** Every frame taken while a reply is awaited is counted with its length on the wire. One of
      another type, unless it is a Close in place of data, is passed over: the client is
      back at its prompt, and neither its counters nor what it has shown have changed. */
  lemma OtherTypesPassOver(lib: Library, c: ClientState, f: WireFrame)
    requires c.status.Awaiting?
    ensures var t := ClientReceive(lib, c, f);
            && t.traffic == c.traffic.(bytesReceived := c.traffic.bytesReceived + |Serialize(f)|,
                                       framesReceived := c.traffic.framesReceived + 1)
            && (f.msgType != (if c.status.kind == Data then DataPayload else Heartbeat)
                && !(c.status.kind == Data && f.msgType == Close) ==>
                  t == c.(traffic := t.traffic, status := Idle))
  {
    hide Label, BuildNonce;
  }
}
