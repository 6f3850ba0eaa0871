/** The nonce-counting cipher: `encrypt` checks its counter, `decrypt` does not. */
module Cipher {
  import opened Words
  import opened Primitives

  datatype CipherError =
    | AeadFailed
    | NonceOverflow
    | NonceOrder(expected: u64, received: u64)

  /** The state of a cipher, as a value. */
  datatype CounterOver<A> = Counter(key: seq<A>, nonce: u64)

  type Counter = CounterOver<byte>

  /** The 12-byte AEAD nonce: the counter, little-endian, padded with zeros. */
  function BuildNonce(counter: u64): (n: Bytes)
    ensures |n| == NONCE_LEN
  {
    ToLE(counter, 8) + [0, 0, 0, 0]
  }

  /** `encrypt`. The AEAD runs before the counter is checked, but a ciphertext is returned
      only when the counter could move on. */
  function EncryptStep<A(!new)>(lib: LibraryOver<A>, c: CounterOver<A>, plaintext: Bytes, ad: seq<A>)
    : (CounterOver<A>, Result<seq<A>, CipherError>)
  {
    if |plaintext| > lib.sealLimit then (c, Failure(AeadFailed))
    else
      var ciphertext := lib.seal(c.key, BuildNonce(c.nonce), ad, plaintext);
      if c.nonce == U64_MAX then (c, Failure(NonceOverflow))
      else (c.(nonce := c.nonce + 1), Success(ciphertext))
  }

  /** `decrypt`. The increment is unchecked: it wraps, as a release build does. */
  function DecryptStep<A(!new)>(lib: LibraryOver<A>, c: CounterOver<A>, ciphertext: seq<A>, ad: seq<A>, expected: u64)
    : (CounterOver<A>, Result<Bytes, CipherError>)
  {
    if expected != c.nonce then (c, Failure(NonceOrder(c.nonce, expected)))
    else
      match lib.open(c.key, BuildNonce(expected), ad, ciphertext)
      case None => (c, Failure(AeadFailed))
      case Some(plaintext) => (c.(nonce := (c.nonce + 1) % (U64_MAX + 1)), Success(plaintext))
  }

  /** When a call fails, and with which error: a text that cannot be sealed comes before an
      exhausted counter, and a wrong number before a ciphertext that does not open. The
      error names the counter first and the number received second. */
  lemma FailuresExplained<A(!new)>(lib: LibraryOver<A>, c: CounterOver<A>, p: Bytes, ct: seq<A>, ad: seq<A>, n: u64)
    ensures EncryptStep(lib, c, p, ad).1 == Failure(AeadFailed) <==> |p| > lib.sealLimit
    ensures EncryptStep(lib, c, p, ad).1 == Failure(NonceOverflow) <==> |p| <= lib.sealLimit && c.nonce == U64_MAX
    ensures DecryptStep(lib, c, ct, ad, n).1 == Failure(NonceOrder(c.nonce, n)) <==> n != c.nonce
    ensures DecryptStep(lib, c, ct, ad, n).1 == Failure(AeadFailed) <==>
              n == c.nonce && lib.open(c.key, BuildNonce(n), ad, ct).None?
  {
  }

  function RemainingNonces(c: Counter): u64 {
    U64_MAX - c.nonce
  }

  lemma NonceInjective(a: u64, b: u64)
    requires BuildNonce(a) == BuildNonce(b)
    ensures a == b
  {
    assert BuildNonce(a)[..8] == ToLE(a, 8) && BuildNonce(b)[..8] == ToLE(b, 8);
    Widths();
    InjectiveLE(a, b, 8);
  }

  /** Byte for byte: eight bytes of the counter, the least significant first, then four zeros. */
  lemma NonceBytes(counter: u64, i: nat)
    requires i < NONCE_LEN
    ensures BuildNonce(counter)[i] as int == if i < 8 then counter / Pow256(i) % 0x100 else 0
  {
    if i < 8 {
      ByteLE(counter, 8, i);
      assert BuildNonce(counter)[i] == ToLE(counter, 8)[i];
    }
  }

  // ---- Capacity of one key ----

  datatype Request = Request(plaintext: Bytes, ad: Bytes)

  /** A ciphertext that left the cipher, with the nonce bytes it was sealed under. */
  datatype Emission = Emission(nonce: Bytes, ad: Bytes, plaintext: Bytes, ciphertext: Bytes)

  /** A run of `encrypt` calls: the final state and every ciphertext returned. */
  function EncryptRun(lib: Library, c: Counter, requests: seq<Request>): (Counter, seq<Emission>)
    decreases requests
  {
    if requests == [] then (c, [])
    else
      var q := requests[0];
      var (c', r) := EncryptStep(lib, c, q.plaintext, q.ad);
      var (end, rest) := EncryptRun(lib, c', requests[1..]);
      if r.Success? then (end, [Emission(BuildNonce(c.nonce), q.ad, q.plaintext, r.value)] + rest) else (end, rest)
  }

  function Sealable(lib: Library, requests: seq<Request>): (n: nat)
    ensures n <= |requests|
  {
    if requests == [] then 0
    else (if |requests[0].plaintext| <= lib.sealLimit then 1 else 0) + Sealable(lib, requests[1..])
  }

  /** From any start the run returns one ciphertext for each sealable request until the
      remaining nonces are used up, the i-th under counter start + i. */
  lemma {:induction false} EncryptRunUsesCounters(lib: Library, c: Counter, requests: seq<Request>)
    ensures var (end, out) := EncryptRun(lib, c, requests);
            var wanted, left := Sealable(lib, requests), RemainingNonces(c);
            && |out| == (if wanted <= left then wanted else left)
            && end == Counter(c.key, c.nonce + |out|)
            && forall i | 0 <= i < |out| ::
                 && out[i].nonce == BuildNonce(c.nonce + i)
                 && out[i].ciphertext == lib.seal(c.key, out[i].nonce, out[i].ad, out[i].plaintext)
    decreases requests
  {
    hide BuildNonce;
    if requests != [] {
      var (c', r) := EncryptStep(lib, c, requests[0].plaintext, requests[0].ad);
      EncryptRunUsesCounters(lib, c', requests[1..]);
    }
  }

  /** One key never seals more than `remaining_nonces` messages, never two under the same
      12-byte nonce, and an exhausted cipher refuses every call and stays as it is. */
  lemma {:induction false} NonceCapacity(lib: Library, key: Bytes, start: u64, requests: seq<Request>)
    ensures var (end, out) := EncryptRun(lib, Counter(key, start), requests);
            && |out| <= U64_MAX - start
            && (forall i, j | 0 <= i < j < |out| :: out[i].nonce != out[j].nonce)
            && (|out| == U64_MAX - start ==>
                  forall p, ad :: EncryptStep(lib, end, p, ad).1.Failure? && EncryptStep(lib, end, p, ad).0 == end)
  {
    EncryptRunUsesCounters(lib, Counter(key, start), requests);
    var out := EncryptRun(lib, Counter(key, start), requests).1;
    forall i, j | 0 <= i < j < |out|
      ensures out[i].nonce != out[j].nonce
    {
      if out[i].nonce == out[j].nonce {
        NonceInjective(start + i, start + j);
      }
    }
  }

  // ---- A sender and a receiver on one key ----

  datatype PairEvent =
    | Send(plaintext: Bytes, ad: Bytes)
    | Deliver(ciphertext: Bytes, ad: Bytes, nonce: u64)

  /** A sending and a receiving cipher, what the sender emitted and what the receiver
      opened. `wrapped` records whether the unchecked increment ever overflowed. */
  datatype Pair = Pair(tx: Counter, rx: Counter, emitted: seq<Emission>, received: seq<Request>, wrapped: bool)

  function PairStep(lib: Library, s: Pair, e: PairEvent): Pair {
    match e
    case Send(p, ad) =>
      var (tx, r) := EncryptStep(lib, s.tx, p, ad);
      if r.Success?
      then s.(tx := tx, emitted := s.emitted + [Emission(BuildNonce(s.tx.nonce), ad, p, r.value)])
      else s.(tx := tx)
    case Deliver(c, ad, n) =>
      var (rx, r) := DecryptStep(lib, s.rx, c, ad, n);
      if r.Success?
      then s.(rx := rx, received := s.received + [Request(r.value, ad)], wrapped := s.wrapped || s.rx.nonce == U64_MAX)
      else s.(rx := rx)
  }

  function PairRun(lib: Library, s: Pair, events: seq<PairEvent>): Pair
    decreases events
  {
    if events == [] then s else PairRun(lib, PairStep(lib, s, events[0]), events[1..])
  }

  /** Only the sender's `encrypt` makes ciphertexts under the key: whatever opens was
      returned by it, for that nonce and that associated data. */
  ghost predicate Genuine(lib: Library, s: Pair, e: PairEvent) {
    e.Deliver? && lib.open(s.rx.key, BuildNonce(e.nonce), e.ad, e.ciphertext).Some? ==>
      exists m | m in s.emitted :: m.nonce == BuildNonce(e.nonce) && m.ad == e.ad && m.ciphertext == e.ciphertext
  }

  ghost predicate GenuineRun(lib: Library, s: Pair, events: seq<PairEvent>)
    decreases events
  {
    events == [] || (Genuine(lib, s, events[0]) && GenuineRun(lib, PairStep(lib, s, events[0]), events[1..]))
  }

  ghost predicate PairInv(lib: Library, key: Bytes, s: Pair) {
    && |s.received| <= |s.emitted| <= U64_MAX
    && s.tx == Counter(key, |s.emitted|) && s.rx == Counter(key, |s.received|)
    && !s.wrapped
    && (forall i | 0 <= i < |s.emitted| ::
          var m := s.emitted[i];
          && m.nonce == BuildNonce(i)
          && |m.plaintext| <= lib.sealLimit
          && m.ciphertext == lib.seal(key, m.nonce, m.ad, m.plaintext))
    && (forall i | 0 <= i < |s.received| :: s.received[i] == Request(s.emitted[i].plaintext, s.emitted[i].ad))
  }

  /** What opens at the receiver is the message at its counter. */
  lemma OpenedInOrder(lib: Library, key: Bytes, s: Pair, e: PairEvent)
    requires lib.AeadLaws() && PairInv(lib, key, s) && Genuine(lib, s, e)
    requires e.Deliver? && DecryptStep(lib, s.rx, e.ciphertext, e.ad, e.nonce).1.Success?
    ensures |s.received| < |s.emitted|
    ensures var m := s.emitted[|s.received|];
            m.ad == e.ad && DecryptStep(lib, s.rx, e.ciphertext, e.ad, e.nonce).1.value == m.plaintext
  {
    hide BuildNonce;
    var m :| m in s.emitted && m.nonce == BuildNonce(e.nonce) && m.ad == e.ad && m.ciphertext == e.ciphertext;
    var i :| 0 <= i < |s.emitted| && s.emitted[i] == m;
    NonceInjective(i, e.nonce);
    SealThenOpen(lib, key, m.nonce, m.ad, m.plaintext);
  }

  lemma PairStepKeeps(lib: Library, key: Bytes, s: Pair, e: PairEvent)
    requires lib.AeadLaws() && PairInv(lib, key, s) && Genuine(lib, s, e)
    ensures PairInv(lib, key, PairStep(lib, s, e))
  {
    hide BuildNonce;
    match e
    case Send(p, ad) =>
    case Deliver(c, ad, n) =>
      if DecryptStep(lib, s.rx, c, ad, n).1.Success? {
        OpenedInOrder(lib, key, s, e);
        hide Genuine;
        var t := PairStep(lib, s, e);
        assert t.rx.nonce == |t.received|;
      }
  }

  lemma {:induction false} PairRunKeeps(lib: Library, key: Bytes, s: Pair, events: seq<PairEvent>)
    requires lib.AeadLaws() && PairInv(lib, key, s) && GenuineRun(lib, s, events)
    ensures PairInv(lib, key, PairRun(lib, s, events))
    decreases events
  {
    hide PairInv, PairStep, Genuine;
    if events != [] {
      PairStepKeeps(lib, key, s, events[0]);
      PairRunKeeps(lib, key, PairStep(lib, s, events[0]), events[1..]);
    }
  }

  /** Paired peers, both starting at counter 0, with any interleaving and any deliveries:
      the receiver opens a prefix of what was sealed, in order; its counter never passes
      the sender's, so the unchecked increment never overflows. */
  lemma {:induction false} PairedPeers(lib: Library, key: Bytes, events: seq<PairEvent>)
    requires lib.AeadLaws()
    requires GenuineRun(lib, Pair(Counter(key, 0), Counter(key, 0), [], [], false), events)
    ensures var s := PairRun(lib, Pair(Counter(key, 0), Counter(key, 0), [], [], false), events);
            && |s.received| == s.rx.nonce <= s.tx.nonce == |s.emitted| <= U64_MAX
            && (forall i | 0 <= i < |s.received| :: s.received[i] == Request(s.emitted[i].plaintext, s.emitted[i].ad))
            && !s.wrapped
  {
    PairRunKeeps(lib, key, Pair(Counter(key, 0), Counter(key, 0), [], [], false), events);
  }

  // ---- The unchecked increment ----

  /** Whatever a receiver is handed, forged or not: its counter is the number of ciphertexts it
      has opened, modulo 2^64, and the increment has overflowed if and only if it opened more
      than `remaining_nonces` allowed at the start. */
  lemma {:induction false} OverflowsExactly(lib: Library, s: Pair, start: u64, events: seq<PairEvent>)
    requires s.rx.nonce == (start + |s.received|) % (U64_MAX + 1)
    requires s.wrapped <==> |s.received| > U64_MAX - start
    ensures var t := PairRun(lib, s, events);
            && t.rx.nonce == (start + |t.received|) % (U64_MAX + 1)
            && (t.wrapped <==> |t.received| > U64_MAX - start)
    decreases events
  {
    hide PairStep;
    if events != [] {
      OverflowStep(lib, s, start, events[0]);
      OverflowsExactly(lib, PairStep(lib, s, events[0]), start, events[1..]);
    }
  }

  lemma CountsOn(a: nat, r: u64)
    requires r == a % (U64_MAX + 1)
    ensures (r + 1) % (U64_MAX + 1) == (a + 1) % (U64_MAX + 1)
    ensures a <= U64_MAX ==> r == a
  {
  }

  lemma OverflowStep(lib: Library, s: Pair, start: u64, e: PairEvent)
    requires s.rx.nonce == (start + |s.received|) % (U64_MAX + 1)
    requires s.wrapped <==> |s.received| > U64_MAX - start
    ensures var t := PairStep(lib, s, e);
            && t.rx.nonce == (start + |t.received|) % (U64_MAX + 1)
            && (t.wrapped <==> |t.received| > U64_MAX - start)
  {
    hide BuildNonce;
    CountsOn(start + |s.received|, s.rx.nonce);
    match e
    case Send(_, _) =>
    case Deliver(ciphertext, ad, n) =>
      if DecryptStep(lib, s.rx, ciphertext, ad, n).1.Success? {
        assert start + |PairStep(lib, s, e).received| == start + |s.received| + 1;
      }
  }

  /** The input that shows it: a ciphertext sealed under the last counter opens at a receiver
      that has reached it, no error is raised, and the counter is 0 again. `encrypt` never
      returns such a ciphertext. */
  lemma LastCounterOverflows(lib: Library, key: Bytes, p: Bytes, ad: Bytes)
    requires lib.AeadLaws() && |p| <= lib.sealLimit
    ensures DecryptStep(lib, Counter(key, U64_MAX), lib.seal(key, BuildNonce(U64_MAX), ad, p), ad, U64_MAX)
         == (Counter(key, 0), Success(p))
    ensures EncryptStep(lib, Counter(key, U64_MAX), p, ad) == (Counter(key, U64_MAX), Failure(NonceOverflow))
  {
    SealThenOpen(lib, key, BuildNonce(U64_MAX), ad, p);
  }

  /** A decryption that succeeds moves the counter up by one exactly when there is a next one. */
  lemma DecryptMoves(lib: Library, c: Counter, ciphertext: Bytes, ad: Bytes, n: u64)
    requires DecryptStep(lib, c, ciphertext, ad, n).1.Success?
    ensures DecryptStep(lib, c, ciphertext, ad, n).0.nonce == c.nonce + 1 <==> c.nonce < U64_MAX
  {
  }

  /** The cipher itself. */
  class CipherState {
    var key: Bytes
    var nonce: u64

    function State(): Counter
      reads this
    {
      Counter(key, nonce)
    }

    constructor WithNonce(key: Bytes, nonce: u64)
      ensures State() == Counter(key, nonce)
    {
      this.key, this.nonce := key, nonce;
    }

    /** A ciphertext is returned exactly when a nonce is left and the message can be sealed;
        it is sealed under the counter before the call, which then moves on by one. */
    method Encrypt(lib: Library, plaintext: Bytes, ad: Bytes) returns (r: Result<Bytes, CipherError>)
      modifies this
      ensures r.Success? <==> old(nonce) < U64_MAX && |plaintext| <= lib.sealLimit
      ensures r.Success? ==> r.value == lib.seal(key, BuildNonce(old(nonce)), ad, plaintext)
      ensures key == old(key) && nonce == if r.Success? then old(nonce) + 1 else old(nonce)
      ensures (State(), r) == EncryptStep(lib, old(State()), plaintext, ad)
    {
      var nonceArr := BuildNonce(nonce);
      if |plaintext| > lib.sealLimit {
        return Failure(AeadFailed);
      }
      var ciphertext := lib.seal(key, nonceArr, ad, plaintext);
      if nonce == U64_MAX {
        return Failure(NonceOverflow);
      }
      nonce := nonce + 1;
      r := Success(ciphertext);
    }

    /** A failed call leaves the cipher as it was. */
    method Decrypt(lib: Library, ciphertext: Bytes, ad: Bytes, expected: u64) returns (r: Result<Bytes, CipherError>)
      modifies this
      ensures r.Success? ==> expected == old(nonce)
      ensures r.Failure? ==> State() == old(State())
      ensures (State(), r) == DecryptStep(lib, old(State()), ciphertext, ad, expected)
    {
      if expected != nonce {
        return Failure(NonceOrder(nonce, expected));
      }
      var nonceArr := BuildNonce(expected);
      var plaintext := lib.open(key, nonceArr, ad, ciphertext);
      if plaintext.None? {
        return Failure(AeadFailed);
      }
      nonce := (nonce + 1) % (U64_MAX + 1);
      r := Success(plaintext.value);
    }

    method Rekey(newKey: Bytes)
      modifies this
      ensures State() == Counter(newKey, 0)
    {
      key := newKey;
      nonce := 0;
    }
  }
}
