/** The handshake: one message each way, a transcript hash over an unframed concatenation,
    and the transport keys both sides derive. Strings are over any alphabet. */
module Handshake {
  import opened Words
  import opened Primitives
  import opened Codec
  import opened Cipher

  datatype HandshakeError =
    | NoFrame(reason: CodecError)
    | WrongType(received: MessageType)
    | PayloadTooShort
    | Refused(error: CipherError)
    | BadAcknowledgement

  datatype KeyPair<A> = KeyPair(privateKey: seq<A>, publicKey: seq<A>)

  /** A pair as the constructors make it: the public half is computed from the private. */
  function PairFrom<A(!new)>(lib: LibraryOver<A>, privateKey: seq<A>): KeyPair<A> {
    KeyPair(privateKey, lib.pub(privateKey))
  }

  /** What a client knows when it connects, and its fresh ephemeral pair. */
  datatype ClientSide<A> = ClientSide(prologue: seq<A>, serverPublic: seq<A>, ephemeral: KeyPair<A>)

  /** What the server knows, and its fresh ephemeral pair. */
  datatype ServerSide<A> = ServerSide(prologue: seq<A>, identity: KeyPair<A>, ephemeral: KeyPair<A>)

  datatype Keys<A> = Keys(clientWrite: seq<A>, serverWrite: seq<A>)

  const INIT: Bytes := Ascii("HANDSHAKE_INIT_CLIENT")
  const ACK: Bytes := Ascii("HANDSHAKE_COMPLETE_ACK")
  const CLIENT_KEY_INFO: Bytes := Ascii("noise-tunnel-client-write-key-v1")
  const SERVER_KEY_INFO: Bytes := Ascii("noise-tunnel-server-write-key-v1")

  /** What `hash_handshake_state` feeds the hash: the fields with nothing between them. */
  function Transcript<A>(prologue: seq<A>, clientEphemeral: seq<A>, serverPublic: seq<A>,
                         serverEphemeral: Option<seq<A>>): seq<A>
  {
    prologue + clientEphemeral + serverPublic + (if serverEphemeral.Some? then serverEphemeral.value else [])
  }

  function DeriveKeys<A(!new)>(lib: LibraryOver<A>, secret: seq<A>, salt: seq<A>): Keys<A> {
    Keys(lib.hkdf(salt, secret, CLIENT_KEY_INFO), lib.hkdf(salt, secret, SERVER_KEY_INFO))
  }

  /** The first frame of the client. */
  function ClientHello<A(!new)>(lib: LibraryOver<A>, c: ClientSide<A>): Result<FrameOver<A>, HandshakeError> {
    var dhStatic := lib.dh(c.ephemeral.privateKey, c.serverPublic);
    var h1 := lib.sha256(Transcript(c.prologue, c.ephemeral.publicKey, c.serverPublic, None));
    var key := DeriveKeys(lib, dhStatic, h1).clientWrite;
    match EncryptStep(lib, Counter(key, 0), INIT, h1).1
    case Failure(e) => Failure(Refused(e))
    case Success(ciphertext) => Success(WireFrame(HandshakeInit, 0, c.ephemeral.publicKey + ciphertext))
  }

  /** The server's answer to a first frame, and the transport keys it will use. */
  function ServerHello<A(!new)>(lib: LibraryOver<A>, s: ServerSide<A>, init: FrameOver<A>)
    : Result<(FrameOver<A>, Keys<A>), HandshakeError>
  {
    if init.msgType != HandshakeInit then Failure(WrongType(init.msgType))
    else if |init.payload| < KEY_LEN + 16 then Failure(PayloadTooShort)
    else
      var clientEphemeral, initCiphertext := init.payload[..KEY_LEN], init.payload[KEY_LEN..];
      var dhStatic := lib.dh(s.identity.privateKey, clientEphemeral);
      var h1 := lib.sha256(Transcript(s.prologue, clientEphemeral, s.identity.publicKey, None));
      var initKey := DeriveKeys(lib, dhStatic, h1).clientWrite;
      match DecryptStep(lib, Counter(initKey, 0), initCiphertext, h1, 0).1
      case Failure(e) => Failure(Refused(e))
      case Success(_) =>
        var dhEphemeral := lib.dh(s.ephemeral.privateKey, clientEphemeral);
        var h2 := lib.sha256(
          Transcript(s.prologue, clientEphemeral, s.identity.publicKey, Some(s.ephemeral.publicKey)));
        var keys := DeriveKeys(lib, dhStatic + dhEphemeral, h2);
        var respKey := DeriveKeys(lib, dhEphemeral, h2).serverWrite;
        match EncryptStep(lib, Counter(respKey, 0), ACK, h2).1
        case Failure(e) => Failure(Refused(e))
        case Success(ciphertext) =>
          Success((WireFrame(HandshakeResp, 0, s.ephemeral.publicKey + ciphertext), keys))
  }

  /** What the client makes of the server's answer. */
  function ClientFinish<A(!new)>(lib: LibraryOver<A>, c: ClientSide<A>, resp: FrameOver<A>)
    : Result<Keys<A>, HandshakeError>
  {
    if resp.msgType != HandshakeResp then Failure(WrongType(resp.msgType))
    else if |resp.payload| < KEY_LEN + 16 then Failure(PayloadTooShort)
    else
      var serverEphemeral, respCiphertext := resp.payload[..KEY_LEN], resp.payload[KEY_LEN..];
      var dhStatic := lib.dh(c.ephemeral.privateKey, c.serverPublic);
      var dhEphemeral := lib.dh(c.ephemeral.privateKey, serverEphemeral);
      var h2 := lib.sha256(Transcript(c.prologue, c.ephemeral.publicKey, c.serverPublic, Some(serverEphemeral)));
      var respKey := DeriveKeys(lib, dhEphemeral, h2).serverWrite;
      match DecryptStep(lib, Counter(respKey, 0), respCiphertext, h2, 0).1
      case Failure(e) => Failure(Refused(e))
      case Success(ack) =>
        if ack != ACK then Failure(BadAcknowledgement)
        else Success(DeriveKeys(lib, dhStatic + dhEphemeral, h2))
  }

  // ---- The transcript ----

  /** With the optional field present on both sides or absent on both, the concatenation
      determines its fields: the three keys have a fixed length and the prologue is the rest. */
  lemma TranscriptInjective<A>(p: seq<A>, ce: seq<A>, sp: seq<A>, se: Option<seq<A>>,
                            p': seq<A>, ce': seq<A>, sp': seq<A>, se': Option<seq<A>>)
    requires |ce| == |sp| == |ce'| == |sp'| == KEY_LEN
    requires se.Some? <==> se'.Some?
    requires se.Some? ==> |se.value| == |se'.value| == KEY_LEN
    ensures Transcript(p, ce, sp, se) == Transcript(p', ce', sp', se')
      <==> p == p' && ce == ce' && sp == sp' && se == se'
  {
    var x, y := Transcript(p, ce, sp, se), Transcript(p', ce', sp', se');
    if x == y {
      assert |p| == |p'|;
      var n := |p|;
      assert x[..n] == p && y[..n] == p';
      assert x[n..n + KEY_LEN] == ce && y[n..n + KEY_LEN] == ce';
      assert x[n + KEY_LEN..n + 2 * KEY_LEN] == sp && y[n + KEY_LEN..n + 2 * KEY_LEN] == sp';
      assert se.Some? ==> x[n + 2 * KEY_LEN..] == se.value && y[n + 2 * KEY_LEN..] == se'.value;
    }
  }

  /** Across the two forms it does not: a transcript with four fields is also one with
      three, exactly when the shorter one's prologue has swallowed the client's key. */
  lemma TranscriptFormsOverlap<A>(p: seq<A>, ce: seq<A>, sp: seq<A>, se: seq<A>, p': seq<A>, ce': seq<A>, sp': seq<A>)
    requires |ce| == |sp| == |se| == |ce'| == |sp'| == KEY_LEN
    ensures Transcript(p, ce, sp, Some(se)) == Transcript(p', ce', sp', None)
      <==> p' == p + ce && ce' == sp && sp' == se
  {
    assert Transcript(p, ce, sp, Some(se)) == Transcript(p + ce, sp, se, None);
    TranscriptInjective(p + ce, sp, se, None, p', ce', sp', None);
  }

  // ---- Agreement ----

  ghost predicate WellMade<A(!new)>(lib: LibraryOver<A>, c: ClientSide<A>, s: ServerSide<A>) {
    && c.ephemeral == PairFrom(lib, c.ephemeral.privateKey)
    && s.ephemeral == PairFrom(lib, s.ephemeral.privateKey)
    && s.identity == PairFrom(lib, s.identity.privateKey)
    && |c.serverPublic| == KEY_LEN
  }

  lemma SealZero<A(!new)>(lib: LibraryOver<A>, key: seq<A>, p: Bytes, ad: seq<A>)
    requires lib.AeadLaws() && |p| <= 0x1_0000
    ensures EncryptStep(lib, Counter(key, 0), p, ad).1 == Success(lib.seal(key, BuildNonce(0), ad, p))
    ensures |lib.seal(key, BuildNonce(0), ad, p)| == |p| + TAG_LEN
    ensures DecryptStep(lib, Counter(key, 0), lib.seal(key, BuildNonce(0), ad, p), ad, 0).1 == Success(p)
  {
    SealThenOpen(lib, key, BuildNonce(0), ad, p);
  }

  lemma HelloForm<A(!new)>(lib: LibraryOver<A>, c: ClientSide<A>)
    requires lib.Lawful() && c.ephemeral == PairFrom(lib, c.ephemeral.privateKey)
    ensures var h1 := lib.sha256(Transcript(c.prologue, c.ephemeral.publicKey, c.serverPublic, None));
            var key := DeriveKeys(lib, lib.dh(c.ephemeral.privateKey, c.serverPublic), h1).clientWrite;
            var hello := ClientHello(lib, c);
            && hello.Success? && hello.value.msgType == HandshakeInit && hello.value.nonce == 0
            && |hello.value.payload| == KEY_LEN + 21 + TAG_LEN
            && hello.value.payload[..KEY_LEN] == c.ephemeral.publicKey
            && hello.value.payload[KEY_LEN..] == lib.seal(key, BuildNonce(0), h1, INIT)
  {
    SharedSecret(lib, c.ephemeral.privateKey, c.ephemeral.privateKey);
    hide DeriveKeys, Transcript, BuildNonce;
    var h1 := lib.sha256(Transcript(c.prologue, c.ephemeral.publicKey, c.serverPublic, None));
    var key := DeriveKeys(lib, lib.dh(c.ephemeral.privateKey, c.serverPublic), h1).clientWrite;
    SealZero(lib, key, INIT, h1);
  }

  /** The keys and hash with which the server opens a first frame and seals its answer. */
  function InitContext<A(!new)>(lib: LibraryOver<A>, s: ServerSide<A>, clientEphemeral: seq<A>): (seq<A>, seq<A>) {
    var h1 := lib.sha256(Transcript(s.prologue, clientEphemeral, s.identity.publicKey, None));
    (DeriveKeys(lib, lib.dh(s.identity.privateKey, clientEphemeral), h1).clientWrite, h1)
  }

  function RespContext<A(!new)>(lib: LibraryOver<A>, s: ServerSide<A>, clientEphemeral: seq<A>): (seq<A>, seq<A>) {
    var h2 := lib.sha256(Transcript(s.prologue, clientEphemeral, s.identity.publicKey, Some(s.ephemeral.publicKey)));
    (DeriveKeys(lib, lib.dh(s.ephemeral.privateKey, clientEphemeral), h2).serverWrite, h2)
  }

  function TransportKeys<A(!new)>(lib: LibraryOver<A>, s: ServerSide<A>, clientEphemeral: seq<A>): Keys<A> {
    var h2 := lib.sha256(Transcript(s.prologue, clientEphemeral, s.identity.publicKey, Some(s.ephemeral.publicKey)));
    var dhStatic := lib.dh(s.identity.privateKey, clientEphemeral);
    var dhEphemeral := lib.dh(s.ephemeral.privateKey, clientEphemeral);
    DeriveKeys(lib, dhStatic + dhEphemeral, h2)
  }

  /** The server accepts a first frame exactly when its ciphertext opens in the server's own
      context, and then answers with the sealed acknowledgement. */
  lemma ServerHelloForm<A(!new)>(lib: LibraryOver<A>, s: ServerSide<A>, init: FrameOver<A>)
    requires lib.Lawful() && s.ephemeral == PairFrom(lib, s.ephemeral.privateKey)
    requires init.msgType == HandshakeInit && |init.payload| >= KEY_LEN + 16
    ensures var ce, ct := init.payload[..KEY_LEN], init.payload[KEY_LEN..];
            var (k1, h1) := InitContext(lib, s, ce);
            var (k2, h2) := RespContext(lib, s, ce);
            ServerHello(lib, s, init) ==
            if lib.open(k1, BuildNonce(0), h1, ct).Some?
            then Success((WireFrame(HandshakeResp, 0, s.ephemeral.publicKey + lib.seal(k2, BuildNonce(0), h2, ACK)),
                          TransportKeys(lib, s, ce)))
            else Failure(Refused(AeadFailed))
  {
    hide DeriveKeys, Transcript, BuildNonce;
    var (k2, h2) := RespContext(lib, s, init.payload[..KEY_LEN]);
    SealZero(lib, k2, ACK, h2);
  }

  /** The client accepts exactly when the ciphertext opens, in its own context, to the
      acknowledgement. */
  lemma ClientFinishForm<A(!new)>(lib: LibraryOver<A>, c: ClientSide<A>, resp: FrameOver<A>)
    requires lib.Lawful() && resp.msgType == HandshakeResp && |resp.payload| >= KEY_LEN + 16
    ensures var se, ct := resp.payload[..KEY_LEN], resp.payload[KEY_LEN..];
            var h2 := lib.sha256(Transcript(c.prologue, c.ephemeral.publicKey, c.serverPublic, Some(se)));
            var k := DeriveKeys(lib, lib.dh(c.ephemeral.privateKey, se), h2).serverWrite;
            && (ClientFinish(lib, c, resp).Success? <==> lib.open(k, BuildNonce(0), h2, ct) == Some(ACK))
            && (ClientFinish(lib, c, resp).Success? ==>
                 ClientFinish(lib, c, resp).value == DeriveKeys(lib,
                   lib.dh(c.ephemeral.privateKey, c.serverPublic) + lib.dh(c.ephemeral.privateKey, se), h2))
  {
    hide DeriveKeys, Transcript, BuildNonce;
  }

  /** In every untampered run with the same prologue and the right server key both sides
      accept, on frames that fit the wire, and hold the same pair of transport keys. */
  lemma HandshakeAgreement<A(!new)>(lib: LibraryOver<A>, c: ClientSide<A>, s: ServerSide<A>)
    requires lib.Lawful() && WellMade(lib, c, s)
    requires c.prologue == s.prologue && c.serverPublic == s.identity.publicKey
    ensures var init := ClientHello(lib, c);
            && init.Success? && Fits(init.value) && init.value.nonce == 0
            && var answer := ServerHello(lib, s, init.value);
               && answer.Success? && Fits(answer.value.0) && answer.value.0.nonce == 0
               && ClientFinish(lib, c, answer.value.0) == Success(answer.value.1)
  {
    HelloForm(lib, c);
    var init := ClientHello(lib, c).value;
    ServerHelloForm(lib, s, init);
    SharedSecrets(lib, c, s);
    var ce := c.ephemeral.publicKey;
    var (k1, h1) := InitContext(lib, s, ce);
    var (k2, h2) := RespContext(lib, s, ce);
    hide DeriveKeys, Transcript, BuildNonce, ServerHello, ClientFinish, ClientHello;
    SealZero(lib, k1, INIT, h1);
    SealZero(lib, k2, ACK, h2);
    SealThenOpen(lib, k1, BuildNonce(0), h1, INIT);
    SealThenOpen(lib, k2, BuildNonce(0), h2, ACK);
    var resp := ServerHello(lib, s, init).value.0;
    assert resp.payload[..KEY_LEN] == s.ephemeral.publicKey;
    assert resp.payload[KEY_LEN..] == lib.seal(k2, BuildNonce(0), h2, ACK);
    ClientFinishForm(lib, c, resp);
  }

  lemma SharedSecrets<A(!new)>(lib: LibraryOver<A>, c: ClientSide<A>, s: ServerSide<A>)
    requires lib.DhLaws() && WellMade(lib, c, s)
    ensures lib.dh(s.identity.privateKey, c.ephemeral.publicKey) == lib.dh(c.ephemeral.privateKey, s.identity.publicKey)
    ensures lib.dh(s.ephemeral.privateKey, c.ephemeral.publicKey)
         == lib.dh(c.ephemeral.privateKey, s.ephemeral.publicKey)
    ensures |c.ephemeral.publicKey| == |s.identity.publicKey| == |s.ephemeral.publicKey| == KEY_LEN
  {
    SharedSecret(lib, s.identity.privateKey, c.ephemeral.privateKey);
    SharedSecret(lib, s.ephemeral.privateKey, c.ephemeral.privateKey);
  }

  // ---- Binding ----

  /** Two different inputs with the same hash. */
  ghost predicate Collision<A(!new)>(lib: LibraryOver<A>, x: seq<A>, y: seq<A>) {
    x != y && lib.sha256(x) == lib.sha256(y)
  }

  /** A ciphertext sealed in one context that opens in a different one. */
  ghost predicate OpensElsewhere<A(!new)>(
      lib: LibraryOver<A>, sealed: (seq<A>, seq<A>), plaintext: Bytes, other: (seq<A>, seq<A>))
  {
    sealed != other &&
    lib.open(other.0, BuildNonce(0), other.1, lib.seal(sealed.0, BuildNonce(0), sealed.1, plaintext)).Some?
  }

  function HelloContext<A(!new)>(lib: LibraryOver<A>, c: ClientSide<A>): (seq<A>, seq<A>) {
    var h1 := lib.sha256(Transcript(c.prologue, c.ephemeral.publicKey, c.serverPublic, None));
    (DeriveKeys(lib, lib.dh(c.ephemeral.privateKey, c.serverPublic), h1).clientWrite, h1)
  }

  /** The context in which a client opens an answer that names the ephemeral key se. */
  function FinishContext<A(!new)>(lib: LibraryOver<A>, c: ClientSide<A>, se: seq<A>): (seq<A>, seq<A>) {
    var h2 := lib.sha256(Transcript(c.prologue, c.ephemeral.publicKey, c.serverPublic, Some(se)));
    (DeriveKeys(lib, lib.dh(c.ephemeral.privateKey, se), h2).serverWrite, h2)
  }

  /** Both sides saw the same prologue, client key and server key. */
  ghost predicate SameInit<A>(c: ClientSide<A>, s: ServerSide<A>, clientEphemeral: seq<A>) {
    c.prologue == s.prologue && clientEphemeral == c.ephemeral.publicKey && c.serverPublic == s.identity.publicKey
  }

  /** And the same ephemeral key of the server. */
  ghost predicate SameTranscript<A>(c: ClientSide<A>, s: ServerSide<A>, clientEphemeral: seq<A>,
                                    serverEphemeral: seq<A>)
  {
    SameInit(c, s, clientEphemeral) && serverEphemeral == s.ephemeral.publicKey
  }

  // The two binding lemmas hold for every lawful library, byte strings included, where hash
  // values and keys of fixed length must collide somewhere. So they are reductions: they name
  // the collision, or the context other than the sealer's own in which the acceptance took
  // place. For a library where neither exists module FreeTerms turns them into equivalences.

  /** The client's ciphertext, behind any ephemeral key and nonce field the network chooses, is
      accepted by a server when prologue, client key and server key are the same on both
      sides; accepted otherwise, it exhibits a hash collision or opens in a second context. */
  lemma InitBinding<A(!new)>(lib: LibraryOver<A>, c: ClientSide<A>, s: ServerSide<A>, claimed: seq<A>, nonce: u64)
    requires lib.Lawful() && WellMade(lib, c, s) && |claimed| == KEY_LEN
    ensures var hello := ClientHello(lib, c);
            var same := SameInit(c, s, claimed);
            && hello.Success? && |hello.value.payload| >= KEY_LEN
            && var accepted := ServerHello(lib, s,
                 WireFrame(HandshakeInit, nonce, claimed + hello.value.payload[KEY_LEN..])).Success?;
               && (same ==> accepted)
               && (accepted && !same ==>
                    || Collision(lib,
                         Transcript(c.prologue, c.ephemeral.publicKey, c.serverPublic, None),
                         Transcript(s.prologue, claimed, s.identity.publicKey, None))
                    || OpensElsewhere(lib, HelloContext(lib, c), INIT, InitContext(lib, s, claimed)))
  {
    HelloForm(lib, c);
    var ct := ClientHello(lib, c).value.payload[KEY_LEN..];
    var frame := WireFrame(HandshakeInit, nonce, claimed + ct);
    assert frame.payload[..KEY_LEN] == claimed && frame.payload[KEY_LEN..] == ct;
    ServerHelloForm(lib, s, frame);
    SharedSecrets(lib, c, s);
    TranscriptInjective(c.prologue, c.ephemeral.publicKey, c.serverPublic, None,
                        s.prologue, claimed, s.identity.publicKey, None);
    hide DeriveKeys, Transcript, BuildNonce, ServerHello, ClientHello;
    var (k, h) := HelloContext(lib, c);
    SealZero(lib, k, INIT, h);
    SealThenOpen(lib, k, BuildNonce(0), h, INIT);
  }

  /** The acknowledgement of an honest server run, behind any ephemeral key and nonce field the
      network chooses, is accepted by a client when both sides saw the same prologue, both
      ephemeral keys and server key, and then both hold the same transport keys; accepted
      otherwise, it exhibits a hash collision or opens in a second context. */
  lemma AckBinding<A(!new)>(lib: LibraryOver<A>, c: ClientSide<A>, s: ServerSide<A>, init: FrameOver<A>,
                               claimed: seq<A>, nonce: u64)
    requires lib.Lawful() && WellMade(lib, c, s) && |claimed| == KEY_LEN
    requires ServerHello(lib, s, init).Success?
    ensures var (resp, keys) := ServerHello(lib, s, init).value;
            var ce := init.payload[..KEY_LEN];
            var same := SameTranscript(c, s, ce, claimed);
            && |resp.payload| >= KEY_LEN
            && var result := ClientFinish(lib, c, WireFrame(HandshakeResp, nonce, claimed + resp.payload[KEY_LEN..]));
               && (same ==> result == Success(keys))
               && (result.Success? && !same ==>
                    || Collision(lib,
                         Transcript(s.prologue, ce, s.identity.publicKey, Some(s.ephemeral.publicKey)),
                         Transcript(c.prologue, c.ephemeral.publicKey, c.serverPublic, Some(claimed)))
                    || OpensElsewhere(lib, RespContext(lib, s, ce), ACK, FinishContext(lib, c, claimed)))
  {
    ServerHelloForm(lib, s, init);
    var ce := init.payload[..KEY_LEN];
    var (k, h) := RespContext(lib, s, ce);
    var sealed := lib.seal(k, BuildNonce(0), h, ACK);
    SharedSecrets(lib, c, s);
    TranscriptInjective(s.prologue, ce, s.identity.publicKey, Some(s.ephemeral.publicKey),
                        c.prologue, c.ephemeral.publicKey, c.serverPublic, Some(claimed));
    var resp := ServerHello(lib, s, init).value.0;
    hide DeriveKeys, Transcript, BuildNonce, ServerHello, ClientFinish;
    assert resp.payload[KEY_LEN..] == sealed;
    var frame := WireFrame(HandshakeResp, nonce, claimed + sealed);
    assert frame.payload[..KEY_LEN] == claimed && frame.payload[KEY_LEN..] == sealed;
    SealZero(lib, k, ACK, h);
    SealThenOpen(lib, k, BuildNonce(0), h, ACK);
    ClientFinishForm(lib, c, frame);
  }

  // ---- What an acceptance proves ----

  // The fixed texts, as the bytes of the literals in the program.
  lemma InitText()
    ensures INIT == [0x48, 0x41, 0x4e, 0x44, 0x53, 0x48, 0x41, 0x4b, 0x45, 0x5f, 0x49, 0x4e, 0x49, 0x54, 0x5f,
                     0x43, 0x4c, 0x49, 0x45, 0x4e, 0x54]
  {
  }

  lemma AckText()
    ensures ACK == [0x48, 0x41, 0x4e, 0x44, 0x53, 0x48, 0x41, 0x4b, 0x45, 0x5f, 0x43, 0x4f, 0x4d, 0x50, 0x4c,
                    0x45, 0x54, 0x45, 0x5f, 0x41, 0x43, 0x4b]
  {
  }

  lemma ClientKeyInfo()
    ensures CLIENT_KEY_INFO == [0x6e, 0x6f, 0x69, 0x73, 0x65, 0x2d, 0x74, 0x75, 0x6e, 0x6e, 0x65, 0x6c, 0x2d,
                                0x63, 0x6c, 0x69, 0x65, 0x6e, 0x74, 0x2d, 0x77, 0x72, 0x69, 0x74, 0x65, 0x2d,
                                0x6b, 0x65, 0x79, 0x2d, 0x76, 0x31]
  {
  }

  lemma ServerKeyInfo()
    ensures SERVER_KEY_INFO == [0x6e, 0x6f, 0x69, 0x73, 0x65, 0x2d, 0x74, 0x75, 0x6e, 0x6e, 0x65, 0x6c, 0x2d,
                                0x73, 0x65, 0x72, 0x76, 0x65, 0x72, 0x2d, 0x77, 0x72, 0x69, 0x74, 0x65, 0x2d,
                                0x6b, 0x65, 0x79, 0x2d, 0x76, 0x31]
  {
  }

  /** What an accepted first frame is: of type HandshakeInit, at least 48 bytes long, any
      ephemeral key, and a ciphertext that opens, with counter 0, under the client's key
      derived from the exchange with the server's static key. Every other frame is refused,
      with the first of three reasons that applies. */
  lemma AcceptedHellos<A(!new)>(lib: LibraryOver<A>, s: ServerSide<A>, init: FrameOver<A>)
    requires lib.Lawful() && s.ephemeral == PairFrom(lib, s.ephemeral.privateKey)
    ensures var result := ServerHello(lib, s, init);
            && (result.Success? <==>
                  && init.msgType == HandshakeInit && |init.payload| >= 48
                  && var (k, h1) := InitContext(lib, s, init.payload[..KEY_LEN]);
                     lib.open(k, BuildNonce(0), h1, init.payload[KEY_LEN..]).Some?)
            && (result == Failure(WrongType(init.msgType)) <==> init.msgType != HandshakeInit)
            && (result == Failure(PayloadTooShort) <==> init.msgType == HandshakeInit && |init.payload| < 48)
  {
    hide DeriveKeys, Transcript, BuildNonce;
    if init.msgType == HandshakeInit && |init.payload| >= KEY_LEN + 16 {
      ServerHelloForm(lib, s, init);
    }
  }

  /** Both sides derive a pair of keys by the extract-and-expand of section 2 of RFC 5869, with
      the transcript hash as salt: what the answer and the first message are sealed under. */
  lemma KeysOfContext<A(!new)>(lib: LibraryOver<A>, s: ServerSide<A>, ce: seq<A>)
    ensures var h1 := lib.sha256(s.prologue + ce + s.identity.publicKey);
            var h2 := lib.sha256(s.prologue + ce + s.identity.publicKey + s.ephemeral.publicKey);
            var dhStatic, dhEphemeral := lib.dh(s.identity.privateKey, ce), lib.dh(s.ephemeral.privateKey, ce);
            && InitContext(lib, s, ce) == (lib.hkdf(h1, dhStatic, CLIENT_KEY_INFO), h1)
            && RespContext(lib, s, ce) == (lib.hkdf(h2, dhEphemeral, SERVER_KEY_INFO), h2)
            && TransportKeys(lib, s, ce) ==
                 Keys(lib.hkdf(h2, dhStatic + dhEphemeral, CLIENT_KEY_INFO),
                      lib.hkdf(h2, dhStatic + dhEphemeral, SERVER_KEY_INFO))
  {
    assert s.prologue + ce + s.identity.publicKey + [] == s.prologue + ce + s.identity.publicKey;
  }

  /** What an accepted answer is: any ephemeral key, followed by the acknowledgement sealed
      under a key derived from the two ephemeral keys and the public transcript alone. */
  lemma AcceptedAnswers<A(!new)>(lib: LibraryOver<A>, c: ClientSide<A>, resp: FrameOver<A>)
    requires lib.Lawful()
    ensures ClientFinish(lib, c, resp).Success? <==>
              && resp.msgType == HandshakeResp && |resp.payload| >= KEY_LEN
              && var (k, h2) := FinishContext(lib, c, resp.payload[..KEY_LEN]);
                 resp.payload[KEY_LEN..] == lib.seal(k, BuildNonce(0), h2, ACK)
    ensures ClientFinish(lib, c, resp) == Failure(WrongType(resp.msgType)) <==> resp.msgType != HandshakeResp
    ensures ClientFinish(lib, c, resp) == Failure(PayloadTooShort) <==>
              resp.msgType == HandshakeResp && |resp.payload| < 48
  {
    if resp.msgType == HandshakeResp && |resp.payload| >= KEY_LEN {
      var (k, h2) := FinishContext(lib, c, resp.payload[..KEY_LEN]);
      hide DeriveKeys, Transcript, BuildNonce;
      SealThenOpen(lib, k, BuildNonce(0), h2, ACK);
      assert lib.OpensOnlySealed(k, BuildNonce(0), h2, resp.payload[KEY_LEN..], ACK);
      if |resp.payload| >= KEY_LEN + 16 {
        ClientFinishForm(lib, c, resp);
      }
    }
  }

  /** An answer put together from a first frame, the public values and a fresh key pair. */
  function OwnAnswer<A(!new)>(lib: LibraryOver<A>, c: ClientSide<A>, privateKey: seq<A>): FrameOver<A> {
    var h2 := lib.sha256(Transcript(c.prologue, c.ephemeral.publicKey, c.serverPublic, Some(lib.pub(privateKey))));
    var key := DeriveKeys(lib, lib.dh(privateKey, c.ephemeral.publicKey), h2).serverWrite;
    WireFrame(HandshakeResp, 0, lib.pub(privateKey) + lib.seal(key, BuildNonce(0), h2, ACK))
  }

  /** Accepting an answer does not authenticate the server: for every client and every key
      pair, an answer made without the server's private key is accepted. The transport keys
      the client then holds do depend on its exchange with the server's static key. */
  lemma AnswerNeedsNoStaticKey<A(!new)>(lib: LibraryOver<A>, c: ClientSide<A>, privateKey: seq<A>)
    requires lib.Lawful() && c.ephemeral == PairFrom(lib, c.ephemeral.privateKey)
    ensures var h2 := lib.sha256(
              Transcript(c.prologue, c.ephemeral.publicKey, c.serverPublic, Some(lib.pub(privateKey))));
            ClientFinish(lib, c, OwnAnswer(lib, c, privateKey)) == Success(DeriveKeys(lib,
              lib.dh(c.ephemeral.privateKey, c.serverPublic) + lib.dh(privateKey, c.ephemeral.publicKey), h2))
  {
    SharedSecret(lib, privateKey, c.ephemeral.privateKey);
    var resp := OwnAnswer(lib, c, privateKey);
    hide DeriveKeys, Transcript, BuildNonce, ClientFinish;
    var (k, h2) := FinishContext(lib, c, lib.pub(privateKey));
    var sealed := lib.seal(k, BuildNonce(0), h2, ACK);
    assert resp.payload[..KEY_LEN] == lib.pub(privateKey) && resp.payload[KEY_LEN..] == sealed;
    SealThenOpen(lib, k, BuildNonce(0), h2, ACK);
    ClientFinishForm(lib, c, resp);
  }
}
