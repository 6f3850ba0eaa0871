/** The cryptographic library and the text conversion, as the functions a caller sees.
    They are parameters: every theorem holds for any functions that obey the laws. Strings
    are over any alphabet; the program's own is bytes, and module FreeTerms supplies another. */
module Primitives {
  import opened Words

  const KEY_LEN := 32
  const NONCE_LEN := 12
  const TAG_LEN := 16

  datatype LibraryOver<!A(!new)> = Library(
    sealLimit: nat,                                       // longest plaintext the AEAD takes
    seal: (seq<A>, Bytes, seq<A>, Bytes) -> seq<A>,       // key, nonce, associated data, plaintext
    open: (seq<A>, Bytes, seq<A>, seq<A>) -> Option<Bytes>,
    dh: (seq<A>, seq<A>) -> seq<A>,                       // private key, public key
    pub: seq<A> -> seq<A>,
    sha256: seq<A> -> seq<A>,
    hkdf: (seq<A>, seq<A>, Bytes) -> seq<A>,              // salt, input key material, info
    lossyUtf8: Bytes -> Bytes)
  {
    ghost predicate SealsWithTag(k: seq<A>, n: Bytes, a: seq<A>, p: Bytes) {
      |seal(k, n, a, p)| == |p| + TAG_LEN
    }

    ghost predicate OpensOnlySealed(k: seq<A>, n: Bytes, a: seq<A>, c: seq<A>, p: Bytes) {
      open(k, n, a, c) == Some(p) <==> |p| <= sealLimit && c == seal(k, n, a, p)
    }

    /** Section 2.8 of RFC 8439: a 16-byte tag, and opening undoes sealing and nothing else. */
    ghost predicate AeadLaws() {
      && sealLimit >= 0x1_0000
      && (forall k, n, a, p :: SealsWithTag(k, n, a, p))
      && (forall k, n, a, c, p :: OpensOnlySealed(k, n, a, c, p))
    }

    ghost predicate Agrees(a: seq<A>, b: seq<A>) {
      && dh(a, pub(b)) == dh(b, pub(a))
      && |pub(a)| == |pub(b)| == KEY_LEN
    }

    /** Section 6.1 of RFC 7748: both sides of an exchange compute the same secret. */
    ghost predicate DhLaws() {
      forall a, b :: Agrees(a, b)
    }

    ghost predicate Lawful() {
      AeadLaws() && DhLaws()
    }

    /** Text that the lossy conversion leaves alone: well-formed UTF-8. */
    predicate ValidText(text: Bytes) {
      lossyUtf8(text) == text
    }
  }

  type Library = LibraryOver<byte>

  lemma SealThenOpen<A(!new)>(lib: LibraryOver<A>, k: seq<A>, n: Bytes, a: seq<A>, p: Bytes)
    requires lib.AeadLaws() && |p| <= lib.sealLimit
    ensures lib.open(k, n, a, lib.seal(k, n, a, p)) == Some(p)
    ensures |lib.seal(k, n, a, p)| == |p| + TAG_LEN
  {
    assert lib.SealsWithTag(k, n, a, p);
    assert lib.OpensOnlySealed(k, n, a, lib.seal(k, n, a, p), p);
  }

  lemma SharedSecret<A(!new)>(lib: LibraryOver<A>, a: seq<A>, b: seq<A>)
    requires lib.DhLaws()
    ensures lib.dh(a, lib.pub(b)) == lib.dh(b, lib.pub(a))
    ensures |lib.pub(a)| == |lib.pub(b)| == KEY_LEN
  {
    assert lib.Agrees(a, b);
  }

  /** The laws are consistent: some library obeys them all. */
  lemma LawsHaveModel() returns (lib: Library)
    ensures lib.Lawful()
  {
    var tag: Bytes := seq(TAG_LEN, i => 0);
    var block: Bytes := seq(KEY_LEN, i => 0);
    lib := Library(
      0x1_0000,
      (k: Bytes, n: Bytes, a: Bytes, p: Bytes) => p + tag,
      (k: Bytes, n: Bytes, a: Bytes, c: Bytes) =>
        if TAG_LEN <= |c| <= 0x1_0000 + TAG_LEN && c[|c| - TAG_LEN..] == tag
        then Some(c[..|c| - TAG_LEN]) else None,
      (a: Bytes, b: Bytes) => block,
      (a: Bytes) => block,
      (b: Bytes) => block,
      (salt: Bytes, ikm: Bytes, info: Bytes) => block,
      (t: Bytes) => t);
    forall k, n, a, c, p
      ensures lib.OpensOnlySealed(k, n, a, c, p)
    {
      if lib.open(k, n, a, c) == Some(p) {
        assert c == c[..|c| - TAG_LEN] + c[|c| - TAG_LEN..];
      }
      if c == p + tag {
        assert c[..|c| - TAG_LEN] == p && c[|c| - TAG_LEN..] == tag;
      }
    }
  }
}
