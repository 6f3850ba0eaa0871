/** The handshake over free terms: a lawful library in which a hash, a derived key and a
    ciphertext remember what they were made from. Strings are over an alphabet of ordinary
    letters and of the parts of such values, so that they can be concatenated and cut like
    bytes, and the lengths are the real ones. The protocol is the one of module Handshake;
    what that module reduces to a collision or a second context is unconditional here. */
module FreeTerms {
  import opened Words
  import opened Primitives
  import opened Codec
  import opened Cipher
  import opened Handshake

  datatype Symbol = Letter(value: byte) | Part(term: Term, index: nat)

  type Str = seq<Symbol>

  datatype Term =
    | Name(id: nat)                         // a freshly drawn private key
    | Public(secret: Str)
    | Shared(publics: set<Term>)            // an exchange between the owners of two public keys
    | Raw(secret: Str, point: Str)          // an exchange with a string that is nobody's public key
    | Digest(input: Str)
    | Derived(salt: Str, secret: Str, info: Bytes)
    | Sealed(key: Str, nonce: Bytes, ad: Str, plaintext: Bytes)

  /** A term of n symbols written out. */
  function Whole(t: Term, n: nat): (s: Str)
    ensures |s| == n
  {
    seq(n, i requires 0 <= i < n => Part(t, i))
  }

  lemma WholeInjective(t: Term, u: Term, n: nat, m: nat)
    requires n > 0
    ensures Whole(t, n) == Whole(u, m) <==> t == u && n == m
  {
    if Whole(t, n) == Whole(u, m) {
      assert Whole(t, n)[0] == Whole(u, m)[0];
    }
  }

  function Pub(secret: Str): Str {
    Whole(Public(secret), KEY_LEN)
  }

  function Dh(secret: Str, point: Str): Str {
    if point != [] && point[0].Part? && point[0].term.Public? && point == Pub(point[0].term.secret)
    then Whole(Shared({Public(secret), point[0].term}), KEY_LEN)
    else Whole(Raw(secret, point), KEY_LEN)
  }

  function Sha(input: Str): Str {
    Whole(Digest(input), KEY_LEN)
  }

  function Kdf(salt: Str, secret: Str, info: Bytes): Str {
    Whole(Derived(salt, secret, info), KEY_LEN)
  }

  function Seal(key: Str, nonce: Bytes, ad: Str, plaintext: Bytes): Str {
    Whole(Sealed(key, nonce, ad, plaintext), |plaintext| + TAG_LEN)
  }

  const SEAL_LIMIT: nat := 0x40_0000_0000 - 64

  function Open(key: Str, nonce: Bytes, ad: Str, ciphertext: Str): Option<Bytes> {
    if ciphertext != [] && ciphertext[0].Part? && ciphertext[0].term.Sealed? then
      var p := ciphertext[0].term.plaintext;
      if |p| <= SEAL_LIMIT && ciphertext == Seal(key, nonce, ad, p) then Some(p) else None
    else None
  }

  const FREE: LibraryOver<Symbol> := Library(SEAL_LIMIT, Seal, Open, Dh, Pub, Sha, Kdf, (text: Bytes) => text)

  // ---- A lawful library without collisions ----

  /** The free library obeys the laws. */
  lemma FreeIsLawful()
    ensures FREE.Lawful()
  {
    forall k, n, a, c, p
      ensures FREE.OpensOnlySealed(k, n, a, c, p)
    {
      if c == Seal(k, n, a, p) {
        assert c[0] == Part(Sealed(k, n, a, p), 0);
      }
    }
    forall a, b
      ensures FREE.Agrees(a, b)
    {
      assert Pub(b)[0] == Part(Public(b), 0) && Pub(a)[0] == Part(Public(a), 0);
      assert {Public(a), Public(b)} == {Public(b), Public(a)};
    }
  }

  /** Different inputs have different hashes. */
  lemma NoCollision(x: Str, y: Str)
    ensures !Collision(FREE, x, y)
  {
    WholeInjective(Digest(x), Digest(y), KEY_LEN, KEY_LEN);
  }

  /** A ciphertext opens with the key, nonce and label it was sealed with, and no others. */
  lemma OpensOnlyWhereSealed(k: Str, n: Bytes, a: Str, p: Bytes, k': Str, n': Bytes, a': Str)
    requires |p| <= SEAL_LIMIT
    ensures FREE.open(k', n', a', FREE.seal(k, n, a, p)) == if (k, n, a) == (k', n', a') then Some(p) else None
  {
    var c := Seal(k, n, a, p);
    assert c[0] == Part(Sealed(k, n, a, p), 0);
    WholeInjective(Sealed(k', n', a', p), Sealed(k, n, a, p), |p| + TAG_LEN, |p| + TAG_LEN);
  }

  lemma NothingOpensElsewhere(sealed: (Str, Str), p: Bytes, other: (Str, Str))
    requires |p| <= SEAL_LIMIT
    ensures !OpensElsewhere(FREE, sealed, p, other)
  {
    OpensOnlyWhereSealed(sealed.0, BuildNonce(0), sealed.1, p, other.0, BuildNonce(0), other.1);
  }

  // ---- Binding ----

  /** A server accepts an honest client's first ciphertext, behind any ephemeral key, if and
      only if prologue, client key and server key are the same on both sides. */
  lemma InitAcceptedExactly(c: ClientSide<Symbol>, s: ServerSide<Symbol>, claimed: Str, nonce: u64)
    requires WellMade(FREE, c, s) && |claimed| == KEY_LEN
    ensures var hello := ClientHello(FREE, c);
            && hello.Success? && |hello.value.payload| >= KEY_LEN
            && (ServerHello(FREE, s, WireFrame(HandshakeInit, nonce, claimed + hello.value.payload[KEY_LEN..])).Success?
                <==> SameInit(c, s, claimed))
  {
    FreeIsLawful();
    hide ClientHello, ServerHello, WellMade, Collision, OpensElsewhere, Transcript, HelloContext, InitContext;
    InitBinding(FREE, c, s, claimed, nonce);
    NoCollision(Transcript(c.prologue, c.ephemeral.publicKey, c.serverPublic, None),
                Transcript(s.prologue, claimed, s.identity.publicKey, None));
    NothingOpensElsewhere(HelloContext(FREE, c), INIT, InitContext(FREE, s, claimed));
  }

  /** A client accepts an honest server run's acknowledgement, behind any ephemeral key, if
      and only if prologue, both ephemeral keys and server key are the same on both sides,
      and then both hold the same transport keys. */
  lemma AckAcceptedExactly(c: ClientSide<Symbol>, s: ServerSide<Symbol>, init: FrameOver<Symbol>, claimed: Str,
                           nonce: u64)
    requires WellMade(FREE, c, s) && |claimed| == KEY_LEN
    requires ServerHello(FREE, s, init).Success?
    ensures var (resp, keys) := ServerHello(FREE, s, init).value;
            && |resp.payload| >= KEY_LEN
            && var result := ClientFinish(FREE, c, WireFrame(HandshakeResp, nonce, claimed + resp.payload[KEY_LEN..]));
               && (result.Success? <==> SameTranscript(c, s, init.payload[..KEY_LEN], claimed))
               && (result.Success? ==> result.value == keys)
  {
    FreeIsLawful();
    AckBinding(FREE, c, s, init, claimed, nonce);
    var ce := init.payload[..KEY_LEN];
    NoCollision(Transcript(s.prologue, ce, s.identity.publicKey, Some(s.ephemeral.publicKey)),
                Transcript(c.prologue, c.ephemeral.publicKey, c.serverPublic, Some(claimed)));
    NothingOpensElsewhere(RespContext(FREE, s, ce), ACK, FinishContext(FREE, c, claimed));
  }

  /** A client's own first ciphertext, sent back to it as an answer behind any ephemeral key,
      is never accepted: the two transcripts differ in length. */
  lemma ReflectionRefused(c: ClientSide<Symbol>, claimed: Str, nonce: u64)
    requires c.ephemeral == PairFrom(FREE, c.ephemeral.privateKey) && |claimed| == KEY_LEN
    ensures ClientHello(FREE, c).Success? && |ClientHello(FREE, c).value.payload| >= KEY_LEN
    ensures ClientFinish(FREE, c,
              WireFrame(HandshakeResp, nonce, claimed + ClientHello(FREE, c).value.payload[KEY_LEN..])).Failure?
  {
    FreeIsLawful();
    HelloForm(FREE, c);
    var ct := ClientHello(FREE, c).value.payload[KEY_LEN..];
    var frame := WireFrame(HandshakeResp, nonce, claimed + ct);
    assert frame.payload[..KEY_LEN] == claimed && frame.payload[KEY_LEN..] == ct;
    ClientFinishForm(FREE, c, frame);
    var (k, h1) := HelloContext(FREE, c);
    var (k', h2) := FinishContext(FREE, c, claimed);
    OpensOnlyWhereSealed(k, BuildNonce(0), h1, INIT, k', BuildNonce(0), h2);
    NoCollision(Transcript(c.prologue, c.ephemeral.publicKey, c.serverPublic, None),
                Transcript(c.prologue, c.ephemeral.publicKey, c.serverPublic, Some(claimed)));
  }

  // ---- Which acceptances are authentic ----

  /** Let a client accept any answer at all, whoever made it. It holds the transport keys of
      a given server run if and only if its transcript is that run's; otherwise it shares
      neither of the two keys with it. */
  lemma KeysSharedExactly(c: ClientSide<Symbol>, s: ServerSide<Symbol>, init: FrameOver<Symbol>,
                          resp: FrameOver<Symbol>)
    requires WellMade(FREE, c, s)
    requires ServerHello(FREE, s, init).Success? && ClientFinish(FREE, c, resp).Success?
    ensures var ours, theirs := ClientFinish(FREE, c, resp).value, ServerHello(FREE, s, init).value.1;
            var same := SameTranscript(c, s, init.payload[..KEY_LEN], resp.payload[..KEY_LEN]);
            && (ours == theirs <==> same)
            && (ours.clientWrite == theirs.clientWrite <==> same)
            && (ours.serverWrite == theirs.serverWrite <==> same)
  {
    FreeIsLawful();
    ServerHelloForm(FREE, s, init);
    ClientFinishForm(FREE, c, resp);
    SharedSecrets(FREE, c, s);
    var ce, se := init.payload[..KEY_LEN], resp.payload[..KEY_LEN];
    var mine := Transcript(c.prologue, c.ephemeral.publicKey, c.serverPublic, Some(se));
    var its := Transcript(s.prologue, ce, s.identity.publicKey, Some(s.ephemeral.publicKey));
    TranscriptInjective(c.prologue, c.ephemeral.publicKey, c.serverPublic, Some(se),
                        s.prologue, ce, s.identity.publicKey, Some(s.ephemeral.publicKey));
    NoCollision(mine, its);
    var secret := FREE.dh(c.ephemeral.privateKey, c.serverPublic) + FREE.dh(c.ephemeral.privateKey, se);
    var secret' := FREE.dh(s.identity.privateKey, ce) + FREE.dh(s.ephemeral.privateKey, ce);
    if !SameTranscript(c, s, ce, se) {
      KeysDependOnSalt(secret, Sha(mine), secret', Sha(its));
    }
  }

  lemma KeysDependOnSalt(secret: Str, salt: Str, secret': Str, salt': Str)
    requires salt != salt'
    ensures DeriveKeys(FREE, secret, salt).clientWrite != DeriveKeys(FREE, secret', salt').clientWrite
    ensures DeriveKeys(FREE, secret, salt).serverWrite != DeriveKeys(FREE, secret', salt').serverWrite
  {
    WholeInjective(Derived(salt, secret, CLIENT_KEY_INFO), Derived(salt', secret', CLIENT_KEY_INFO), KEY_LEN, KEY_LEN);
    WholeInjective(Derived(salt, secret, SERVER_KEY_INFO), Derived(salt', secret', SERVER_KEY_INFO), KEY_LEN, KEY_LEN);
  }

  /** So it is not the accepted answer but the first message after it that authenticates a
      run: what the run seals opens at the client, and what the client seals opens at the
      run, at the same counter and under the same label, if and only if their transcripts
      are the same. */
  lemma FirstMessageAuthenticates(c: ClientSide<Symbol>, s: ServerSide<Symbol>, init: FrameOver<Symbol>,
                                  resp: FrameOver<Symbol>, i: u64, ad: Str, text: Bytes)
    requires WellMade(FREE, c, s) && |text| <= SEAL_LIMIT
    requires ServerHello(FREE, s, init).Success? && ClientFinish(FREE, c, resp).Success?
    ensures var ours, theirs := ClientFinish(FREE, c, resp).value, ServerHello(FREE, s, init).value.1;
            var same := SameTranscript(c, s, init.payload[..KEY_LEN], resp.payload[..KEY_LEN]);
            var down := FREE.seal(theirs.serverWrite, BuildNonce(i), ad, text);
            var up := FREE.seal(ours.clientWrite, BuildNonce(i), ad, text);
            && DecryptStep(FREE, Counter(ours.serverWrite, i), down, ad, i).1 ==
                 (if same then Success(text) else Failure(AeadFailed))
            && DecryptStep(FREE, Counter(theirs.clientWrite, i), up, ad, i).1 ==
                 (if same then Success(text) else Failure(AeadFailed))
  {
    KeysSharedExactly(c, s, init, resp);
    var ours, theirs := ClientFinish(FREE, c, resp).value, ServerHello(FREE, s, init).value.1;
    hide ClientFinish, ServerHello, WellMade, BuildNonce;
    OpensOnlyWhereSealed(theirs.serverWrite, BuildNonce(i), ad, text, ours.serverWrite, BuildNonce(i), ad);
    OpensOnlyWhereSealed(ours.clientWrite, BuildNonce(i), ad, text, theirs.clientWrite, BuildNonce(i), ad);
  }
}
