/** Machine words and byte strings: the big-endian fields of the wire format and
    the little-endian counter inside an AEAD nonce. */
module Words {

  newtype byte = x: int | 0 <= x < 0x100

  type Bytes = seq<byte>

  const U32_SIZE: int := 0x1_0000_0000
  const U64_MAX: int := 0xFFFF_FFFF_FFFF_FFFF

  type u64 = x: int | 0 <= x <= U64_MAX

  datatype Option<+T> = None | Some(value: T)

  datatype Result<+T, +E> = Success(value: T) | Failure(error: E)

  /** The bytes of an ASCII literal. */
  function Ascii(s: string): (b: Bytes)
    ensures |b| == |s|
  {
    seq(|s|, i requires 0 <= i < |s| => (s[i] as int % 0x100) as byte)
  }

  function Pow256(k: nat): (p: nat)
    ensures p >= 1
  {
    if k == 0 then 1 else 0x100 * Pow256(k - 1)
  }

  /** The k low bytes of v, most significant first. */
  function ToBE(v: nat, k: nat): (b: Bytes)
    ensures |b| == k
  {
    if k == 0 then [] else ToBE(v / 0x100, k - 1) + [(v % 0x100) as byte]
  }

  function FromBE(b: Bytes): nat
  {
    if b == [] then 0 else FromBE(b[..|b| - 1]) * 0x100 + b[|b| - 1] as int
  }

  /** The k low bytes of v, least significant first. */
  function ToLE(v: nat, k: nat): (b: Bytes)
    ensures |b| == k
  {
    if k == 0 then [] else [(v % 0x100) as byte] + ToLE(v / 0x100, k - 1)
  }

  lemma {:induction false} SplitMod(v: nat, p: nat)
    requires p >= 1
    ensures (v / 0x100) % p * 0x100 + v % 0x100 == v % (0x100 * p)
  {
    var q, r := (v / 0x100) / p, (v / 0x100) % p;
    assert v / 0x100 == q * p + r;
    var m := r * 0x100 + v % 0x100;
    assert v == q * (0x100 * p) + m by {
      assert (q * p) * 0x100 == q * (0x100 * p);
    }
    assert 0 <= m < 0x100 * p by {
      assert r <= p - 1;
      assert r * 0x100 <= (p - 1) * 0x100;
    }
    ModUnique(v, 0x100 * p, q, m);
  }

  lemma ModUnique(v: int, d: int, q: int, m: int)
    requires d > 0 && v == q * d + m && 0 <= m < d
    ensures v % d == m
  {
    var q', m' := v / d, v % d;
    assert v == q' * d + m';
    QuotientUnique(d, q, m, q', m');
  }

  lemma QuotientUnique(d: int, q: int, m: int, q': int, m': int)
    requires 0 <= m < d && 0 <= m' < d
    requires q * d + m == q' * d + m'
    ensures m == m'
  {
    var e := q - q';
    assert e * d == m' - m;
    assert e >= 1 ==> e * d >= d;
    assert e <= -1 ==> e * d <= -d;
    assert e == 0;
  }

  /** Reading back a big-endian field gives the value truncated to its width. */
  lemma {:induction false} DecodeBE(v: nat, k: nat)
    ensures FromBE(ToBE(v, k)) == v % Pow256(k)
  {
    if k > 0 {
      var b := ToBE(v, k);
      assert b[..|b| - 1] == ToBE(v / 0x100, k - 1);
      DecodeBE(v / 0x100, k - 1);
      SplitMod(v, Pow256(k - 1));
    }
  }

  lemma {:induction false} BoundBE(b: Bytes)
    ensures FromBE(b) < Pow256(|b|)
  {
    if b != [] {
      BoundBE(b[..|b| - 1]);
    }
  }

  /** Every byte string is the big-endian form of the number it denotes. */
  lemma {:induction false} EncodeBE(b: Bytes)
    ensures ToBE(FromBE(b), |b|) == b
  {
    if b != [] {
      EncodeBE(b[..|b| - 1]);
      assert b == b[..|b| - 1] + [b[|b| - 1]];
    }
  }

  lemma {:induction false} DivDiv(v: nat, p: nat)
    requires p >= 1
    ensures v / 0x100 / p == v / (0x100 * p)
  {
    var q := v / 0x100 / p;
    SplitMod(v, p);
    var m := v % (0x100 * p);
    assert v == q * (0x100 * p) + m by {
      assert v / 0x100 == q * p + v / 0x100 % p;
      assert (q * p) * 0x100 == q * (0x100 * p);
    }
    SameQuotient(0x100 * p, q, v / (0x100 * p), m);
  }

  lemma SameQuotient(d: int, q: int, q': int, m: int)
    requires d > 0 && q * d + m == q' * d + m
    ensures q == q'
  {
    assert (q - q') * d == 0;
  }

  /** Byte i of a big-endian field of k bytes is the one worth 256 to the power k-1-i. */
  lemma {:induction false} ByteBE(v: nat, k: nat, i: nat)
    requires i < k
    ensures ToBE(v, k)[i] as int == v / Pow256(k - 1 - i) % 0x100
  {
    if i < k - 1 {
      ByteBE(v / 0x100, k - 1, i);
      DivDiv(v, Pow256(k - 2 - i));
    }
  }

  /** Byte i of a little-endian field is the one worth 256 to the power i. */
  lemma {:induction false} ByteLE(v: nat, k: nat, i: nat)
    requires i < k
    ensures ToLE(v, k)[i] as int == v / Pow256(i) % 0x100
  {
    if i > 0 {
      ByteLE(v / 0x100, k - 1, i - 1);
      DivDiv(v, Pow256(i - 1));
    }
  }

  lemma Widths()
    ensures Pow256(4) == U32_SIZE
    ensures Pow256(8) == U64_MAX + 1
  {
    assert Pow256(2) == 0x100 * Pow256(1) == 0x1_0000;
    assert Pow256(4) == 0x100 * Pow256(3) == 0x100 * (0x100 * Pow256(2));
    assert Pow256(6) == 0x100 * Pow256(5) == 0x100 * (0x100 * Pow256(4));
    assert Pow256(8) == 0x100 * Pow256(7) == 0x100 * (0x100 * Pow256(6));
  }

  lemma {:induction false} InjectiveLE(v: nat, w: nat, k: nat)
    requires v < Pow256(k) && w < Pow256(k)
    requires ToLE(v, k) == ToLE(w, k)
    ensures v == w
  {
    if k > 0 {
      var b, c := ToLE(v, k), ToLE(w, k);
      assert b[0] == c[0];
      assert b[1..] == ToLE(v / 0x100, k - 1) && c[1..] == ToLE(w / 0x100, k - 1);
      InjectiveLE(v / 0x100, w / 0x100, k - 1);
    }
  }
}
