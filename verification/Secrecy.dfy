/** What a network without the private keys can make, and so what the first message that
    opens after a handshake proves. Free terms, as in module FreeTerms. */
module Secrecy {
  import opened Words
  import opened Primitives
  import opened Codec
  import opened Cipher
  import opened Handshake
  import opened FreeTerms

  /** The private keys the network does not have, and the ciphertexts it has been shown. */
  datatype Network = Network(secrets: set<nat>, seen: set<Term>)

  /** The network can make a term: from parts it can make, or because it was shown it. Every
      public key is shown to it. There is no rule for taking terms apart: an opened
      ciphertext yields letters, which it has anyway. */
  ghost predicate Makes(w: Network, t: Term)
    decreases t
  {
    match t
    case Name(id) => id !in w.secrets
    case Public(_) => true
    case Shared(publics) => exists p | p in publics :: p.Public? && Writes(w, p.secret)
    case Raw(x, y) => Writes(w, x) && Writes(w, y)
    case Digest(x) => Writes(w, x)
    case Derived(x, y, _) => Writes(w, x) && Writes(w, y)
    case Sealed(x, _, y, _) => t in w.seen || (Writes(w, x) && Writes(w, y))
  }

  ghost predicate Has(w: Network, a: Symbol)
    decreases a
  {
    a.Part? ==> Makes(w, a.term)
  }

  /** It can make a string when it can make every term a part of which occurs in it. */
  ghost predicate Writes(w: Network, x: Str)
    decreases x
  {
    forall i | 0 <= i < |x| :: Has(w, x[i])
  }

  lemma WritesWhole(w: Network, t: Term, n: nat)
    requires n > 0
    ensures Writes(w, Whole(t, n)) <==> Makes(w, t)
  {
    assert Whole(t, n)[0] == Part(t, 0);
    if Makes(w, t) {
      forall i | 0 <= i < n
        ensures Has(w, Whole(t, n)[i])
      {
      }
    } else {
      assert !Has(w, Whole(t, n)[0]);
    }
  }

  lemma WritesConcat(w: Network, x: Str, y: Str)
    ensures Writes(w, x + y) <==> Writes(w, x) && Writes(w, y)
  {
    if Writes(w, x + y) {
      assert forall i | 0 <= i < |x| :: (x + y)[i] == x[i];
      assert forall i | 0 <= i < |y| :: (x + y)[|x| + i] == y[i];
    }
  }

  /** Nothing is kept from the network but the secrets: what it can make is closed under
      every library call, and under joining and cutting strings. */
  lemma NetworkIsClosed(w: Network, x: Str, y: Str, z: Str, bytes: Bytes, nonce: Bytes, n: nat)
    requires Writes(w, x) && Writes(w, y) && n <= |x|
    ensures Writes(w, FREE.pub(z)) && Writes(w, FREE.dh(x, FREE.pub(z))) && Writes(w, FREE.dh(x, y))
    ensures Writes(w, FREE.sha256(x)) && Writes(w, FREE.hkdf(x, y, bytes)) && Writes(w, FREE.seal(x, nonce, y, bytes))
    ensures Writes(w, x + y) && Writes(w, x[..n]) && Writes(w, x[n..])
  {
    WritesConcat(w, x, y);
    assert x == x[..n] + x[n..];
    WritesConcat(w, x[..n], x[n..]);
    WritesWhole(w, Public(z), KEY_LEN);
    WritesWhole(w, Digest(x), KEY_LEN);
    WritesWhole(w, Derived(x, y, bytes), KEY_LEN);
    WritesWhole(w, Sealed(x, nonce, y, bytes), |bytes| + TAG_LEN);
    WritesDh(w, x, y);
    WritesDh(w, x, Pub(z));
  }

  lemma WritesDh(w: Network, x: Str, y: Str)
    requires Writes(w, x) && Writes(w, y)
    ensures Writes(w, Dh(x, y))
  {
    WritesWhole(w, Raw(x, y), KEY_LEN);
    if y != [] && y[0].Part? && y[0].term.Public? {
      var t := Shared({Public(x), y[0].term});
      assert Public(x) in t.publics;
      WritesWhole(w, t, KEY_LEN);
    }
  }

  // ---- Accepted answers ----

  /** A freshly drawn private key. */
  function Private(id: nat): Str {
    Whole(Name(id), KEY_LEN)
  }

  /** Neither the client's ephemeral nor the server's static private key is the network's. */
  ghost predicate Kept(w: Network, c: ClientSide<Symbol>, i: nat, j: nat) {
    && c.ephemeral == PairFrom(FREE, Private(i)) && i in w.secrets
    && c.serverPublic == FREE.pub(Private(j)) && j in w.secrets
  }

  /** Even then the network can make an answer that the client accepts, with any key pair of
      its own. */
  lemma NetworkCanAnswer(w: Network, c: ClientSide<Symbol>, i: nat, j: nat, e: nat)
    requires Kept(w, c, i, j) && Writes(w, c.prologue) && e !in w.secrets
    ensures Writes(w, OwnAnswer(FREE, c, Private(e)).payload)
    ensures ClientFinish(FREE, c, OwnAnswer(FREE, c, Private(e))).Success?
  {
    FreeIsLawful();
    AnswerNeedsNoStaticKey(FREE, c, Private(e));
    var mine, theirs, server := Private(e), c.ephemeral.publicKey, c.serverPublic;
    WritesWhole(w, Name(e), KEY_LEN);
    WritesWhole(w, Public(Private(i)), KEY_LEN);
    WritesWhole(w, Public(Private(j)), KEY_LEN);
    WritesWhole(w, Public(mine), KEY_LEN);
    WritesConcat(w, c.prologue, theirs);
    WritesConcat(w, c.prologue + theirs, server);
    WritesConcat(w, c.prologue + theirs + server, Pub(mine));
    var transcript := Transcript(c.prologue, theirs, server, Some(Pub(mine)));
    WritesWhole(w, Digest(transcript), KEY_LEN);
    WritesDh(w, mine, theirs);
    WritesWhole(w, Derived(Sha(transcript), Dh(mine, theirs), SERVER_KEY_INFO), KEY_LEN);
    var key := Kdf(Sha(transcript), Dh(mine, theirs), SERVER_KEY_INFO);
    WritesWhole(w, Sealed(key, BuildNonce(0), Sha(transcript), ACK), |ACK| + TAG_LEN);
    WritesConcat(w, Pub(mine), Seal(key, BuildNonce(0), Sha(transcript), ACK));
  }

  /** Whatever answer was accepted, the network cannot make either transport key. */
  lemma TransportKeysStaySecret(w: Network, c: ClientSide<Symbol>, i: nat, j: nat, resp: FrameOver<Symbol>)
    requires Kept(w, c, i, j) && ClientFinish(FREE, c, resp).Success?
    ensures !Writes(w, ClientFinish(FREE, c, resp).value.clientWrite)
    ensures !Writes(w, ClientFinish(FREE, c, resp).value.serverWrite)
  {
    FreeIsLawful();
    ClientFinishForm(FREE, c, resp);
    var se := resp.payload[..KEY_LEN];
    var h2 := FREE.sha256(Transcript(c.prologue, c.ephemeral.publicKey, c.serverPublic, Some(se)));
    var dhStatic, dhEphemeral := Dh(Private(i), Pub(Private(j))), Dh(Private(i), se);
    StaticSecret(w, i, j);
    WritesConcat(w, dhStatic, dhEphemeral);
    WritesWhole(w, Derived(h2, dhStatic + dhEphemeral, CLIENT_KEY_INFO), KEY_LEN);
    WritesWhole(w, Derived(h2, dhStatic + dhEphemeral, SERVER_KEY_INFO), KEY_LEN);
  }

  lemma StaticSecret(w: Network, i: nat, j: nat)
    requires i in w.secrets && j in w.secrets
    ensures !Writes(w, Dh(Private(i), Pub(Private(j))))
  {
    assert Pub(Private(j))[0] == Part(Public(Private(j)), 0);
    var t := Shared({Public(Private(i)), Public(Private(j))});
    WritesWhole(w, Name(i), KEY_LEN);
    WritesWhole(w, Name(j), KEY_LEN);
    WritesWhole(w, t, KEY_LEN);
  }

  // ---- The first reply ----

  /** The places where the two programs seal something. */
  datatype Origin =
    | Hello(c: ClientSide<Symbol>)
    | Acknowledgement(s: ServerSide<Symbol>, clientEphemeral: Str)
    | Reply(s: ServerSide<Symbol>, init: FrameOver<Symbol>)
    | Demand(c: ClientSide<Symbol>, resp: FrameOver<Symbol>)

  ghost predicate HonestServer(s: ServerSide<Symbol>) {
    && s.identity == PairFrom(FREE, s.identity.privateKey)
    && s.ephemeral == PairFrom(FREE, s.ephemeral.privateKey)
  }

  /** A ciphertext sealed there, whatever its counter, label and text. */
  ghost predicate SealedAt(t: Term, o: Origin) {
    t.Sealed? &&
    match o
    case Hello(c) => t.key == HelloContext(FREE, c).0
    case Acknowledgement(s, ce) => t.key == RespContext(FREE, s, ce).0
    case Reply(s, init) =>
      && HonestServer(s) && ServerHello(FREE, s, init).Success?
      && t.key == ServerHello(FREE, s, init).value.1.serverWrite
    case Demand(c, resp) =>
      && ClientFinish(FREE, c, resp).Success?
      && t.key == ClientFinish(FREE, c, resp).value.clientWrite
  }

  /** The network was shown only what clients and servers, any number of them, sealed. */
  ghost predicate ShownByPeers(w: Network) {
    forall t | t in w.seen :: exists o :: SealedAt(t, o)
  }

  /** A client's keys are derived with two labels from 64 bytes of secret. */
  lemma ClientKeysForm(c: ClientSide<Symbol>, resp: FrameOver<Symbol>) returns (salt: Str, secret: Str)
    requires ClientFinish(FREE, c, resp).Success?
    ensures |secret| == 2 * KEY_LEN
    ensures ClientFinish(FREE, c, resp).value.clientWrite == Kdf(salt, secret, CLIENT_KEY_INFO)
    ensures ClientFinish(FREE, c, resp).value.serverWrite == Kdf(salt, secret, SERVER_KEY_INFO)
  {
    FreeIsLawful();
    ClientFinishForm(FREE, c, resp);
    var se := resp.payload[..KEY_LEN];
    salt := FREE.sha256(Transcript(c.prologue, c.ephemeral.publicKey, c.serverPublic, Some(se)));
    secret := FREE.dh(c.ephemeral.privateKey, c.serverPublic) + FREE.dh(c.ephemeral.privateKey, se);
  }

  lemma KeysFromDifferentSources(salt: Str, secret: Str, info: Bytes, salt': Str, secret': Str, info': Bytes)
    requires |secret| != |secret'| || info != info'
    ensures Kdf(salt, secret, info) != Kdf(salt', secret', info')
  {
    WholeInjective(Derived(salt, secret, info), Derived(salt', secret', info'), KEY_LEN, KEY_LEN);
  }

  lemma LabelsDiffer()
    ensures CLIENT_KEY_INFO != SERVER_KEY_INFO
  {
    assert CLIENT_KEY_INFO[13] == 'c' as int as byte && SERVER_KEY_INFO[13] == 's' as int as byte;
  }

  /** Only a server's transport replies are sealed under a key with which a client reads. */
  lemma OnlyRepliesReadable(c: ClientSide<Symbol>, resp: FrameOver<Symbol>, t: Term, o: Origin)
    requires ClientFinish(FREE, c, resp).Success? && SealedAt(t, o)
    requires t.key == ClientFinish(FREE, c, resp).value.serverWrite
    ensures o.Reply?
  {
    var salt, secret := ClientKeysForm(c, resp);
    LabelsDiffer();
    hide ClientFinish, Transcript, Ascii;
    match o
    case Reply(_, _) =>
    case Hello(c') =>
      var h1 := HelloContext(FREE, c').1;
      var secret' := FREE.dh(c'.ephemeral.privateKey, c'.serverPublic);
      KeysFromDifferentSources(salt, secret, SERVER_KEY_INFO, h1, secret', CLIENT_KEY_INFO);
    case Acknowledgement(s, ce) =>
      var h2 := RespContext(FREE, s, ce).1;
      KeysFromDifferentSources(salt, secret, SERVER_KEY_INFO, h2, FREE.dh(s.ephemeral.privateKey, ce), SERVER_KEY_INFO);
    case Demand(c', resp') =>
      var salt', secret' := ClientKeysForm(c', resp');
      KeysFromDifferentSources(salt, secret, SERVER_KEY_INFO, salt', secret', CLIENT_KEY_INFO);
  }

  /** Let a client have accepted any answer. As soon as a ciphertext that the network can make
      opens as a reply, at any counter and under any label, a server run sealed it that has
      the same prologue, ephemeral keys and static key and holds the same transport keys. */
  lemma FirstReplyAuthenticates(w: Network, c: ClientSide<Symbol>, i: nat, j: nat, resp: FrameOver<Symbol>,
                                n: u64, ad: Str, ciphertext: Str)
      returns (s: ServerSide<Symbol>, init: FrameOver<Symbol>)
    requires Kept(w, c, i, j) && ShownByPeers(w) && ClientFinish(FREE, c, resp).Success?
    requires Writes(w, ciphertext)
    requires DecryptStep(FREE, Counter(ClientFinish(FREE, c, resp).value.serverWrite, n), ciphertext, ad, n).1.Success?
    ensures HonestServer(s) && s.identity.publicKey == c.serverPublic
    ensures ServerHello(FREE, s, init).Success?
    ensures SameTranscript(c, s, init.payload[..KEY_LEN], resp.payload[..KEY_LEN])
    ensures var keys := ClientFinish(FREE, c, resp).value;
            var text := DecryptStep(FREE, Counter(keys.serverWrite, n), ciphertext, ad, n).1.value;
            && ServerHello(FREE, s, init).value.1 == keys
            && Sealed(keys.serverWrite, BuildNonce(n), ad, text) in w.seen
            && SealedAt(Sealed(keys.serverWrite, BuildNonce(n), ad, text), Reply(s, init))
  {
    var keys := ClientFinish(FREE, c, resp).value;
    var t := ciphertext[0].term;
    TransportKeysStaySecret(w, c, i, j, resp);
    SealWasShown(w, keys.serverWrite, n, ad, ciphertext);
    var o :| SealedAt(t, o);
    OnlyRepliesReadable(c, resp, t, o);
    s, init := o.s, o.init;
    WholeInjective(Public(Private(j)), Public(Private(j)), KEY_LEN, KEY_LEN);
    KeysSharedExactly(c, s, init, resp);
  }

  /** A ciphertext that opens under a key the network cannot make was shown to it. */
  lemma SealWasShown(w: Network, key: Str, n: u64, ad: Str, ciphertext: Str)
    requires Writes(w, ciphertext) && !Writes(w, key)
    requires DecryptStep(FREE, Counter(key, n), ciphertext, ad, n).1.Success?
    ensures ciphertext != [] && ciphertext[0].Part? && ciphertext[0].term.Sealed?
    ensures ciphertext[0].term in w.seen
    ensures var text := DecryptStep(FREE, Counter(key, n), ciphertext, ad, n).1.value;
            ciphertext[0].term == Sealed(key, BuildNonce(n), ad, text)
  {
    var p := DecryptStep(FREE, Counter(key, n), ciphertext, ad, n).1.value;
    assert ciphertext == Seal(key, BuildNonce(n), ad, p);
    assert ciphertext[0] == Part(Sealed(key, BuildNonce(n), ad, p), 0);
    assert Has(w, ciphertext[0]);
    assert Makes(w, Sealed(key, BuildNonce(n), ad, p));
  }
}
