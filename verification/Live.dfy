/** What holds in a live server session, whatever frames arrive. */
module Live {
  import opened Words
  import opened Primitives
  import opened Codec
  import opened Cipher
  import opened Replay
  import opened Bitmap
  import opened Session

  /** The numbers 0, 1, .., n-1. */
  ghost function Below(n: nat): (s: set<int>)
    ensures forall i :: i in s <==> 0 <= i < n
    ensures |s| == n
  {
    if n == 0 then {} else Below(n - 1) + {n - 1}
  }

  function Min(a: int, b: int): int {
    if a < b then a else b
  }

  /** The window after exactly 0, 1, .., n-1 were accepted in a session. */
  ghost predicate InOrder(w: Window, n: nat) {
    && w.size == 128
    && Represents(w, Below(n))
    && w.totalRejected == 0
  }

  /** n messages were accepted, decrypted and answered, and every counter agrees. */
  ghost predicate Coupled(s: ServerState, n: nat) {
    && s.rx.nonce == s.tx.nonce == s.filter.totalAccepted == s.traffic.framesSent == n
    && |s.delivered| == |s.sent| == n
    && InOrder(s.filter, n)
  }

  /** The bitmap of such a window is min(n, 128) low ones. */
  lemma LowOnes(w: Window, n: nat)
    requires InOrder(w, n)
    ensures w.totalAccepted == n
    ensures Bits(w.bitmap) == Below(Min(n, 128))
    ensures n > 0 ==> w.lastSeq == n - 1
  {
    hide Bit;
    if n > 0 {
      assert n - 1 in Below(n);
      forall i: nat | i < 128
        ensures i in Bits(w.bitmap) <==> i < n
      {
        assert i in Bits(w.bitmap) <==> w.lastSeq - i in Below(n);
      }
    } else {
      BitsZero();
    }
    BitsRange(w.bitmap);
  }

  /** The filter lets number k pass exactly when it is not among the first n. */
  lemma InOrderVerdict(w: Window, n: nat, k: u64)
    requires InOrder(w, n)
    ensures Validate(w, k).1.Accepted? <==> k >= n
    ensures k == n ==> InOrder(Validate(w, k).0, n + 1) && Validate(w, k).0.totalAccepted == n + 1
  {
    hide Validate;
    ValidateStep(w, Below(n), k);
    assert Admissible(128, Below(n), k) <==> k >= n;
    assert Below(n) + {n} == Below(n + 1);
    if k >= n {
      AcceptedKeepsRejected(w, k);
    }
  }

  lemma NewServerCoupled(ck: Bytes, sk: Bytes)
    ensures Coupled(NewServer(ck, sk), 0)
  {
    hide Represents;
    EmptyRepresents(128);
    assert Below(0) == {};
  }

  function CountMessages(fs: seq<WireFrame>): nat {
    if fs == [] then 0 else (if IsMessage(fs[0]) then 1 else 0) + CountMessages(fs[1..])
  }

  /** An answer that does not fail moves every counter on by one. */
  lemma AnswerAdvances(lib: Library, s: ServerState, f: WireFrame, kind: Kind, n: nat)
    requires s.rx.nonce == s.tx.nonce == s.traffic.framesSent == |s.delivered| == |s.sent| == n
    requires s.status.Running?
    ensures var t := Answer(lib, s, f, kind);
            && t.filter == s.filter && t.traffic.framesReceived == s.traffic.framesReceived
            && (t.status.Failed? || t.status.Running?)
            && (t.status.Running? ==>
                 && f.nonce == n && n < U64_MAX
                 && t.rx.nonce == t.tx.nonce == t.traffic.framesSent == |t.delivered| == |t.sent| == n + 1)
  {
  }

  /** A frame that leaves the session running was the next in order, and was answered. */
  lemma AdmitKeepsCoupling(lib: Library, s: ServerState, f: WireFrame, kind: Kind, n: nat)
    requires Coupled(s, n) && s.status.Running?
    ensures var t := Admit(lib, s, f, kind);
            && (t.status.Failed? || t.status.Running?)
            && t.traffic.framesReceived == s.traffic.framesReceived
            && (t.status.Running? ==> n < U64_MAX && Coupled(t, n + 1))
  {
    hide InOrder, Validate, Answer;
    InOrderVerdict(s.filter, n, f.nonce);
    var w := Validate(s.filter, f.nonce).0;
    AnswerAdvances(lib, s.(filter := w), f, kind, n);
  }

  lemma StepKeepsCoupling(lib: Library, s: ServerState, f: WireFrame, n: nat)
    requires Coupled(s, n) && s.status.Running?
    ensures var t := ServerStep(lib, s, f);
            && !t.status.Disconnected?
            && t.traffic.framesReceived == s.traffic.framesReceived + 1
            && (!t.status.Failed? ==>
                 if IsMessage(f) then t.status.Running? && n < U64_MAX && Coupled(t, n + 1) else Coupled(t, n))
  {
    hide Represents, Admit;
    var s0 := s.(traffic := s.traffic.RecordRx(|f.payload| + 13));
    assert Coupled(s0, n);
    if IsMessage(f) {
      AdmitKeepsCoupling(lib, s0, f, if f.msgType == DataPayload then Data else Beat, n);
    }
  }

  lemma {:induction false} FramesKeepCoupling(lib: Library, s: ServerState, fs: seq<WireFrame>, n: nat)
    requires Coupled(s, n) && s.status.Running? && n <= U64_MAX
    ensures var t := ServerFrames(lib, s, fs);
            !t.status.Failed? ==>
              && Coupled(t, |t.delivered|) && |t.delivered| <= U64_MAX
              && (t.status.Running? ==>
                   && |t.delivered| == n + CountMessages(fs)
                   && t.traffic.framesReceived == s.traffic.framesReceived + |fs|)
    decreases fs
  {
    hide Represents, ServerStep, IsMessage;
    if fs != [] {
      StepKeepsCoupling(lib, s, fs[0], n);
      var t := ServerStep(lib, s, fs[0]);
      if t.status.Running? {
        FramesKeepCoupling(lib, t, fs[1..], if IsMessage(fs[0]) then n + 1 else n);
      }
    }
  }

  /** Whatever frames a new session is given, at every head of its loop, and after a clean
      end, both counters, the filter and the metrics agree on the number n of messages:
      exactly 0..n-1 were accepted, none was refused, and the bitmap is min(n, 128) low
      ones. While it runs, n is the number of data and heartbeat frames read. */
  lemma {:induction false} LiveSessionCoupling(lib: Library, ck: Bytes, sk: Bytes, fs: seq<WireFrame>)
    ensures var t := ServerFrames(lib, NewServer(ck, sk), fs);
            var n := |t.delivered|;
            !t.status.Failed? ==>
              && t.rx.nonce == t.tx.nonce == t.filter.totalAccepted == t.traffic.framesSent == |t.sent| == n
              && t.filter.totalRejected == 0
              && Represents(t.filter, Below(n))
              && Bits(t.filter.bitmap) == Below(Min(n, 128))
              && (t.status.Running? ==> n == CountMessages(fs) && t.traffic.framesReceived == |fs|)
  {
    hide Represents, Bits;
    NewServerCoupled(ck, sk);
    FramesKeepCoupling(lib, NewServer(ck, sk), fs, 0);
    var t := ServerFrames(lib, NewServer(ck, sk), fs);
    if !t.status.Failed? {
      LowOnes(t.filter, |t.delivered|);
    }
  }

  lemma OnlyTheNextSurvives(lib: Library, s: ServerState, f: WireFrame, n: nat)
    requires Coupled(s, n) && s.status.Running? && IsMessage(f)
    ensures var kind := if f.msgType == DataPayload then Data else Beat;
            var text := lib.open(s.rx.key, BuildNonce(f.nonce), Label(kind), f.payload);
            ServerStep(lib, s, f).status.Running? <==>
              && f.nonce == n && n < U64_MAX
              && text.Some? && |ReplyTo(lib, Message(kind, text.value)).text| <= lib.sealLimit
  {
    hide Represents, Validate, Label, ReplyTo, BuildNonce;
    InOrderVerdict(s.filter, n, f.nonce);
  }

  /** After any frames that left a session running with n messages, a data or heartbeat frame
      keeps it running exactly when it carries number n, opens, and leaves a counter and
      room for the answer. Arrival out of order, which the window alone would allow, ends it. */
  lemma {:induction false} OnlyTheNextFrameSurvives(lib: Library, ck: Bytes, sk: Bytes, fs: seq<WireFrame>,
                                                    f: WireFrame)
    requires ServerFrames(lib, NewServer(ck, sk), fs).status.Running? && IsMessage(f)
    ensures var s := ServerFrames(lib, NewServer(ck, sk), fs);
            var n := |s.delivered|;
            var kind := if f.msgType == DataPayload then Data else Beat;
            var text := lib.open(s.rx.key, BuildNonce(f.nonce), Label(kind), f.payload);
            ServerStep(lib, s, f).status.Running? <==>
              && f.nonce == n && n < U64_MAX
              && text.Some? && |ReplyTo(lib, Message(kind, text.value)).text| <= lib.sealLimit
  {
    hide InOrder, ServerStep, ReplyTo, Label;
    NewServerCoupled(ck, sk);
    FramesKeepCoupling(lib, NewServer(ck, sk), fs, 0);
    var s := ServerFrames(lib, NewServer(ck, sk), fs);
    OnlyTheNextSurvives(lib, s, f, |s.delivered|);
  }

  /** The text of a message frame, when the server can open it. */
  function Opened(lib: Library, s: ServerState, f: WireFrame, kind: Kind): Option<Bytes> {
    lib.open(s.rx.key, BuildNonce(f.nonce), Label(kind), f.payload)
  }

  /** A counter and room for the answer are left. */
  predicate CanAnswer(lib: Library, s: ServerState, m: Message) {
    s.tx.nonce < U64_MAX && |ReplyTo(lib, m).text| <= lib.sealLimit
  }

  lemma AnswerDecided(lib: Library, s: ServerState, f: WireFrame, kind: Kind)
    requires s.status.Running?
    ensures var t := Answer(lib, s, f, kind);
            var text := Opened(lib, s, f, kind);
            var opens := f.nonce == s.rx.nonce && text.Some?;
            var answered := opens && CanAnswer(lib, s, Message(kind, text.value));
            && t.traffic.framesReceived == s.traffic.framesReceived
            && t.traffic.bytesReceived == s.traffic.bytesReceived
            && t.delivered == s.delivered + (if opens then [Message(kind, text.value)] else [])
            && |t.sent| == |s.sent| + (if answered then 1 else 0)
            && t.status.PeerClosed? == t.status.Disconnected? == false
            && (t.status.Failed? <==> !answered)
  {
    hide Label, ReplyTo, BuildNonce;
  }

  lemma AdmitDecided(lib: Library, s: ServerState, f: WireFrame, kind: Kind, n: nat)
    requires Coupled(s, n) && s.status.Running?
    ensures var t := Admit(lib, s, f, kind);
            var text := Opened(lib, s, f, kind);
            var opens := f.nonce == n && text.Some?;
            var answered := opens && CanAnswer(lib, s, Message(kind, text.value));
            && t.traffic.framesReceived == s.traffic.framesReceived
            && t.traffic.bytesReceived == s.traffic.bytesReceived
            && t.delivered == s.delivered + (if opens then [Message(kind, text.value)] else [])
            && |t.sent| == n + (if answered then 1 else 0)
            && t.status.PeerClosed? == t.status.Disconnected? == false
            && (t.status.Failed? <==> !answered)
  {
    hide Represents, Validate, Label, ReplyTo, BuildNonce, Answer;
    InOrderVerdict(s.filter, n, f.nonce);
    AnswerDecided(lib, s.(filter := Validate(s.filter, f.nonce).0), f, kind);
    assert s.delivered + [] == s.delivered;
  }

  /** What a running server makes of any frame at all, after any frames that left it running
      with n messages. It is counted. A Close ends the session; a handshake type changes
      nothing else. A data or heartbeat frame is delivered exactly when it carries number n
      and opens, and answered exactly when a counter and room for the answer are left too. */
  lemma {:induction false} EveryFrameDecided(lib: Library, ck: Bytes, sk: Bytes, fs: seq<WireFrame>, f: WireFrame)
    requires ServerFrames(lib, NewServer(ck, sk), fs).status.Running?
    ensures var s := ServerFrames(lib, NewServer(ck, sk), fs);
            var t := ServerStep(lib, s, f);
            var n := |s.delivered|;
            var kind := if f.msgType == DataPayload then Data else Beat;
            var text := Opened(lib, s, f, kind);
            var opens := IsMessage(f) && f.nonce == n && text.Some?;
            var answered := opens && CanAnswer(lib, s, Message(kind, text.value));
            && t.traffic.framesReceived == s.traffic.framesReceived + 1
            && t.traffic.bytesReceived == s.traffic.bytesReceived + |Serialize(f)|
            && t.delivered == s.delivered + (if opens then [Message(kind, text.value)] else [])
            && |t.sent| == n + (if answered then 1 else 0)
            && (t.status.PeerClosed? <==> f.msgType == Close)
            && (t.status.Failed? <==> IsMessage(f) && !answered)
            && (f.msgType == HandshakeInit || f.msgType == HandshakeResp ==> t == s.(traffic := t.traffic))
  {
    NewServerCoupled(ck, sk);
    FramesKeepCoupling(lib, NewServer(ck, sk), fs, 0);
    hide ServerFrames, Opened, CanAnswer, InOrder, Admit, Serialize;
    var s := ServerFrames(lib, NewServer(ck, sk), fs);
    var s0 := s.(traffic := s.traffic.RecordRx(|f.payload| + 13));
    var kind := if f.msgType == DataPayload then Data else Beat;
    AdmitDecided(lib, s0, f, kind, |s.delivered|);
    SameView(lib, s, s0, f, kind);
    assert s.delivered + [] == s.delivered;
  }

  lemma FilterNamesRefusal(w: Window, n: nat, k: u64)
    requires InOrder(w, n)
    ensures k >= n ==> Validate(w, k).1 == Accepted
    ensures k < n ==> Validate(w, k).1 == if n - k <= 128 then AlreadySeen(k) else TooOld(k, 128)
  {
    hide Validate, Represents;
    InOrderVerdict(w, n, k);
    RefusalsExplained(w, Below(n), k);
    LastInOrder(w, n);
  }

  lemma LastInOrder(w: Window, n: nat)
    requires InOrder(w, n)
    ensures w.initialized <==> n > 0
    ensures n > 0 ==> w.lastSeq == n - 1
  {
    if n > 0 {
      assert n - 1 in Below(n);
    }
  }

  lemma AnswerNamesFailure(lib: Library, s: ServerState, f: WireFrame, kind: Kind)
    ensures f.nonce != s.rx.nonce ==>
              Answer(lib, s, f, kind).status == Failed(CipherFailed(NonceOrder(s.rx.nonce, f.nonce)))
    ensures f.nonce == s.rx.nonce && Opened(lib, s, f, kind).None? ==>
              Answer(lib, s, f, kind).status == Failed(CipherFailed(AeadFailed))
  {
    hide Label, ReplyTo, BuildNonce;
  }

  lemma AdmitNamesFailure(lib: Library, s: ServerState, f: WireFrame, kind: Kind, n: nat)
    requires Coupled(s, n) && s.status.Running?
    ensures var t := Admit(lib, s, f, kind);
            && (f.nonce < n ==> t.status == Failed(Replayed(
                  if n - f.nonce <= 128 then AlreadySeen(f.nonce) else TooOld(f.nonce, 128))))
            && (f.nonce > n ==> t.status == Failed(CipherFailed(NonceOrder(n, f.nonce))))
            && (f.nonce == n && Opened(lib, s, f, kind).None? ==> t.status == Failed(CipherFailed(AeadFailed)))
  {
    FilterNamesRefusal(s.filter, n, f.nonce);
    hide InOrder, Validate, Answer;
    AnswerNamesFailure(lib, s.(filter := Validate(s.filter, f.nonce).0), f, kind);
  }

  /** A number already passed fails the session as a replay, seen or too old; one that lies ahead
      passes the filter and is refused by the cipher, naming the number expected; the right
      number with a ciphertext that does not open fails the decryption. */
  lemma {:induction false} FailuresNamed(lib: Library, ck: Bytes, sk: Bytes, fs: seq<WireFrame>, f: WireFrame)
    requires ServerFrames(lib, NewServer(ck, sk), fs).status.Running? && IsMessage(f)
    ensures var s := ServerFrames(lib, NewServer(ck, sk), fs);
            var status := ServerStep(lib, s, f).status;
            var n := |s.delivered|;
            && (f.nonce < n ==> status == Failed(Replayed(
                  if n - f.nonce <= 128 then AlreadySeen(f.nonce) else TooOld(f.nonce, 128))))
            && (f.nonce > n ==> status == Failed(CipherFailed(NonceOrder(n, f.nonce))))
            && (f.nonce == n && Opened(lib, s, f, if f.msgType == DataPayload then Data else Beat).None? ==>
                  status == Failed(CipherFailed(AeadFailed)))
  {
    NewServerCoupled(ck, sk);
    FramesKeepCoupling(lib, NewServer(ck, sk), fs, 0);
    hide ServerFrames, Opened, InOrder, Admit;
    var s := ServerFrames(lib, NewServer(ck, sk), fs);
    var s0 := s.(traffic := s.traffic.RecordRx(|f.payload| + 13));
    var kind := if f.msgType == DataPayload then Data else Beat;
    AdmitNamesFailure(lib, s0, f, kind, |s.delivered|);
    SameView(lib, s, s0, f, kind);
  }

  lemma SameView(lib: Library, s: ServerState, s0: ServerState, f: WireFrame, kind: Kind)
    requires s0 == s.(traffic := s0.traffic)
    ensures Opened(lib, s0, f, kind) == Opened(lib, s, f, kind)
    ensures forall m :: CanAnswer(lib, s0, m) == CanAnswer(lib, s, m)
  {
  }

  /** The metrics count wire bytes: whatever frames arrive, bytes and frames sent are those
      of the replies as serialised, and bytes received those of the frames taken in. */
  lemma {:induction false} MetricsCountWireBytes(lib: Library, s: ServerState, fs: seq<WireFrame>)
    requires s.traffic.bytesSent == |SerializeAll(s.sent)| && s.traffic.framesSent == |s.sent|
    ensures var t := ServerFrames(lib, s, fs);
            && t.traffic.bytesSent == |SerializeAll(t.sent)| && t.traffic.framesSent == |t.sent|
            && s.traffic.framesReceived <= t.traffic.framesReceived <= s.traffic.framesReceived + |fs|
            && t.traffic.bytesReceived - s.traffic.bytesReceived
               == |SerializeAll(fs[..t.traffic.framesReceived - s.traffic.framesReceived])|
    decreases fs
  {
    hide ServerStep, Serialize;
    if s.status.Running? && fs != [] {
      var s1 := ServerStep(lib, s, fs[0]);
      StepCountsWireBytes(lib, s, fs[0]);
      MetricsCountWireBytes(lib, s1, fs[1..]);
      var k := ServerFrames(lib, s1, fs[1..]).traffic.framesReceived - s1.traffic.framesReceived;
      assert fs[..k + 1][0] == fs[0] && fs[..k + 1][1..] == fs[1..][..k];
    }
  }

  lemma StepCountsWireBytes(lib: Library, s: ServerState, f: WireFrame)
    requires s.traffic.bytesSent == |SerializeAll(s.sent)| && s.traffic.framesSent == |s.sent|
    ensures var t := ServerStep(lib, s, f);
            && t.traffic.bytesSent == |SerializeAll(t.sent)| && t.traffic.framesSent == |t.sent|
            && t.traffic.framesReceived == s.traffic.framesReceived + 1
            && t.traffic.bytesReceived == s.traffic.bytesReceived + |Serialize(f)|
  {
    hide Validate, Label, ReplyTo, BuildNonce, SerializeAll, ToBE;
    var t := ServerStep(lib, s, f);
    if |t.sent| > |s.sent| {
      var g := t.sent[|s.sent|];
      assert t.sent == s.sent + [g];
      SerializeAllAppend(s.sent, [g]);
      SerializeOne(g);
    }
  }

  // ---- The filter changes nothing ----

  /** The server loop without the replay filter: strict counter order alone. */
  function StrictStep(lib: Library, s: ServerState, f: WireFrame): ServerState {
    var s0 := s.(traffic := s.traffic.RecordRx(|f.payload| + 13));
    match f.msgType
    case DataPayload => Answer(lib, s0, f, Data)
    case Heartbeat => Answer(lib, s0, f, Beat)
    case Close => s0.(status := PeerClosed)
    case HandshakeInit => s0
    case HandshakeResp => s0
  }

  function StrictFrames(lib: Library, s: ServerState, fs: seq<WireFrame>): ServerState
    decreases fs
  {
    if !s.status.Running? || fs == [] then s
    else StrictFrames(lib, StrictStep(lib, s, fs[0]), fs[1..])
  }

  /** Equal but for the filter's own state and the text of an error. */
  ghost predicate SameToThePeer(a: ServerState, b: ServerState) {
    && a.rx == b.rx && a.tx == b.tx && a.traffic == b.traffic
    && a.delivered == b.delivered && a.sent == b.sent
    && (a.status == b.status || (a.status.Failed? && b.status.Failed?))
  }

  lemma AdmitIsTransparent(lib: Library, s: ServerState, b: ServerState, f: WireFrame, kind: Kind, n: nat)
    requires Coupled(s, n) && s.status.Running? && SameToThePeer(s, b)
    ensures SameToThePeer(Admit(lib, s, f, kind), Answer(lib, b, f, kind))
  {
    hide Represents, Validate, Label, ReplyTo, BuildNonce;
    InOrderVerdict(s.filter, n, f.nonce);
  }

  lemma {:induction false} FramesAreTransparent(
      lib: Library, s: ServerState, b: ServerState, fs: seq<WireFrame>, n: nat)
    requires Coupled(s, n) && s.status.Running? && SameToThePeer(s, b)
    ensures SameToThePeer(ServerFrames(lib, s, fs), StrictFrames(lib, b, fs))
    decreases fs
  {
    hide Represents, Validate, Label, ReplyTo, BuildNonce, Answer, Admit;
    if fs != [] {
      var f := fs[0];
      var s0 := s.(traffic := s.traffic.RecordRx(|f.payload| + 13));
      var b0 := b.(traffic := b.traffic.RecordRx(|f.payload| + 13));
      if IsMessage(f) {
        AdmitIsTransparent(lib, s0, b0, f, if f.msgType == DataPayload then Data else Beat, n);
      }
      StepKeepsCoupling(lib, s, f, n);
      if ServerStep(lib, s, f).status.Running? {
        var n' := if IsMessage(f) then n + 1 else n;
        FramesAreTransparent(lib, ServerStep(lib, s, f), StrictStep(lib, b, f), fs[1..], n');
      }
    }
  }

  /** For every sequence of frames, the loop with the replay filter and the loop with the
      strict counter alone deliver the same plaintexts, send the same replies, count the
      same traffic and stop at the same frame. */
  lemma {:induction false} FilterTransparency(lib: Library, ck: Bytes, sk: Bytes, fs: seq<WireFrame>)
    ensures SameToThePeer(
              ServerFrames(lib, NewServer(ck, sk), fs), StrictFrames(lib, NewServer(ck, sk), fs))
  {
    NewServerCoupled(ck, sk);
    FramesAreTransparent(lib, NewServer(ck, sk), NewServer(ck, sk), fs, 0);
  }
}
