/** The 128-bit word of the replay window, read as a set of bit positions.
    The one-bit shift, `|` and `&` are the machine's own on `bv128`; a shift by a
    variable amount is written as that many one-bit shifts, and `ShlMachine` proves that it
    is the machine's shift. */
module Bitmap {

  const TOP: bv128 := 0x8000_0000_0000_0000_0000_0000_0000_0000

  function Double(b: bv128): bv128 {
    b << 1
  }

  function Or(b: bv128, m: bv128): bv128 {
    b | m
  }

  function And(b: bv128, m: bv128): bv128 {
    b & m
  }

  predicate Meets(b: bv128, m: bv128) {
    And(b, m) != 0
  }

  /** `b << d`: bits pushed past position 127 are lost. */
  function Shl(b: bv128, d: nat): bv128 {
    if d == 0 then b else Double(Shl(b, d - 1))
  }

  /** The test of bit i: the word masked with `1 << i`. */
  predicate Bit(b: bv128, i: nat)
    requires i < 128
  {
    Meets(b, Shl(1, i))
  }

  /** The positions of the bits that are set. */
  function Bits(b: bv128): set<nat> {
    set i: nat | i < 128 && Bit(b, i)
  }

  // ---- One word at a time: facts about the machine operations alone ----

  predicate OneHot(m: bv128) {
    m != 0 && And(m, m - 1) == 0
  }

  lemma Halves(b: bv128)
    ensures (b << 1) << 1 == b << 2 && (b << 2) << 2 == b << 4 && (b << 4) << 4 == b << 8
    ensures (b << 8) << 8 == b << 16 && (b << 16) << 16 == b << 32 && (b << 32) << 32 == b << 64
    ensures (b << 64) << 64 == 0
  {
  }

  /** The machine's `b << w`. */
  function MachineShl(b: bv128, w: bv128): bv128
    requires w < 128
  {
    b << w
  }

  // One bit of the shift amount at a time.
  lemma Stage64(b: bv128, w: bv128)
    requires 64 <= w < 128
    ensures w - 64 < 64 && (w - 64) as nat + 64 == w as nat
    ensures MachineShl(b, w - 64) << 64 == MachineShl(b, w)
  {
  }

  lemma Stage32(b: bv128, w: bv128)
    requires 32 <= w < 64
    ensures w - 32 < 32 && (w - 32) as nat + 32 == w as nat
    ensures MachineShl(b, w - 32) << 32 == MachineShl(b, w)
  {
  }

  lemma Stage16(b: bv128, w: bv128)
    requires 16 <= w < 32
    ensures w - 16 < 16 && (w - 16) as nat + 16 == w as nat
    ensures MachineShl(b, w - 16) << 16 == MachineShl(b, w)
  {
  }

  lemma Stage8(b: bv128, w: bv128)
    requires 8 <= w < 16
    ensures w - 8 < 8 && (w - 8) as nat + 8 == w as nat
    ensures MachineShl(b, w - 8) << 8 == MachineShl(b, w)
  {
  }

  lemma Stage4(b: bv128, w: bv128)
    requires 4 <= w < 8
    ensures w - 4 < 4 && (w - 4) as nat + 4 == w as nat
    ensures MachineShl(b, w - 4) << 4 == MachineShl(b, w)
  {
  }

  lemma Stage2(b: bv128, w: bv128)
    requires 2 <= w < 4
    ensures w - 2 < 2 && (w - 2) as nat + 2 == w as nat
    ensures MachineShl(b, w - 2) << 2 == MachineShl(b, w)
  {
  }

  lemma OneHotDouble(m: bv128)
    requires OneHot(m) && Double(m) != 0
    ensures OneHot(Double(m))
  {
  }

  lemma OneHotMeet(m: bv128, k: bv128)
    requires OneHot(m) && OneHot(k) && m != k
    ensures !Meets(m, k)
  {
  }

  lemma OrMask(b: bv128, m: bv128)
    requires m != 0
    ensures Meets(Or(b, m), m)
  {
  }

  lemma OrOther(b: bv128, m: bv128, k: bv128)
    requires !Meets(m, k)
    ensures Meets(Or(b, m), k) == Meets(b, k)
  {
    assert m & k == 0;
    MaskedOr(b, m, k);
  }

  lemma MaskedOr(b: bv128, m: bv128, k: bv128)
    requires m & k == 0
    ensures (b | m) & k == b & k
  {
  }

  lemma DoubleTest(b: bv128, m: bv128)
    requires OneHot(m) && Double(m) != 0
    ensures Meets(Double(b), Double(m)) == Meets(b, m)
    ensures !Meets(Double(b), 1)
  {
    hide And, Double, OneHot;
    OneHotAnd(b, m);
    DoubleAnd(b, m);
  }

  lemma OneHotAnd(b: bv128, m: bv128)
    requires OneHot(m)
    ensures And(b, m) == 0 || And(b, m) == m
  {
  }

  lemma DoubleAnd(b: bv128, m: bv128)
    ensures And(Double(b), Double(m)) == Double(And(b, m))
    ensures And(Double(b), 1) == 0
    ensures Double(0) == 0
  {
  }

  lemma SameUnderDouble(u: bv128, v: bv128)
    requires Double(u) == Double(v)
    requires Meets(u, TOP) == Meets(v, TOP)
    ensures u == v
  {
  }

  // ---- Shifts by a variable amount ----

  lemma {:induction false} ShlAdd(b: bv128, i: nat, j: nat)
    ensures Shl(Shl(b, i), j) == Shl(b, i + j)
    decreases j
  {
    hide Double;
    if j > 0 {
      ShlAdd(b, i, j - 1);
    }
  }

  lemma {:induction false} ShlZero(d: nat)
    ensures Shl(0, d) == 0
  {
    if d > 0 {
      ShlZero(d - 1);
    }
  }

  lemma Shl1(b: bv128)
    ensures Shl(b, 1) == b << 1
  {
    assert Shl(b, 1) == Double(Shl(b, 0));
  }

  lemma Shl2(b: bv128)
    ensures Shl(b, 2) == b << 2
  {
    hide *;
    Shl1(b); Shl1(b << 1); ShlAdd(b, 1, 1); Halves(b);
  }

  lemma Shl4(b: bv128)
    ensures Shl(b, 4) == b << 4
  {
    hide *;
    Shl2(b); Shl2(b << 2); ShlAdd(b, 2, 2); Halves(b);
  }

  lemma Shl8(b: bv128)
    ensures Shl(b, 8) == b << 8
  {
    hide *;
    Shl4(b); Shl4(b << 4); ShlAdd(b, 4, 4); Halves(b);
  }

  lemma Shl16(b: bv128)
    ensures Shl(b, 16) == b << 16
  {
    hide *;
    Shl8(b); Shl8(b << 8); ShlAdd(b, 8, 8); Halves(b);
  }

  lemma Shl32(b: bv128)
    ensures Shl(b, 32) == b << 32
  {
    hide *;
    Shl16(b); Shl16(b << 16); ShlAdd(b, 16, 16); Halves(b);
  }

  lemma Shl64(b: bv128)
    ensures Shl(b, 64) == b << 64
  {
    hide *;
    Shl32(b); Shl32(b << 32); ShlAdd(b, 32, 32); Halves(b);
  }

  // The iterated shift is the machine's, for amounts of one bit, two bits, and so on.
  lemma Amounts1(b: bv128, w: bv128)
    requires w < 2
    ensures Shl(b, w as nat) == MachineShl(b, w)
  {
    if w == 0 {
      assert w as nat == 0;
    } else {
      assert w == 1 && w as nat == 1;
      Shl1(b);
    }
  }

  lemma Amounts2(b: bv128, w: bv128)
    requires w < 4
    ensures Shl(b, w as nat) == MachineShl(b, w)
  {
    hide *;
    if w < 2 {
      Amounts1(b, w);
    } else {
      Stage2(b, w);
      Amounts1(b, w - 2);
      Shl2(MachineShl(b, w - 2));
      ShlAdd(b, (w - 2) as nat, 2);
    }
  }

  lemma Amounts3(b: bv128, w: bv128)
    requires w < 8
    ensures Shl(b, w as nat) == MachineShl(b, w)
  {
    hide *;
    if w < 4 {
      Amounts2(b, w);
    } else {
      Stage4(b, w);
      Amounts2(b, w - 4);
      Shl4(MachineShl(b, w - 4));
      ShlAdd(b, (w - 4) as nat, 4);
    }
  }

  lemma Amounts4(b: bv128, w: bv128)
    requires w < 16
    ensures Shl(b, w as nat) == MachineShl(b, w)
  {
    hide *;
    if w < 8 {
      Amounts3(b, w);
    } else {
      Stage8(b, w);
      Amounts3(b, w - 8);
      Shl8(MachineShl(b, w - 8));
      ShlAdd(b, (w - 8) as nat, 8);
    }
  }

  lemma Amounts5(b: bv128, w: bv128)
    requires w < 32
    ensures Shl(b, w as nat) == MachineShl(b, w)
  {
    hide *;
    if w < 16 {
      Amounts4(b, w);
    } else {
      Stage16(b, w);
      Amounts4(b, w - 16);
      Shl16(MachineShl(b, w - 16));
      ShlAdd(b, (w - 16) as nat, 16);
    }
  }

  lemma Amounts6(b: bv128, w: bv128)
    requires w < 64
    ensures Shl(b, w as nat) == MachineShl(b, w)
  {
    hide *;
    if w < 32 {
      Amounts5(b, w);
    } else {
      Stage32(b, w);
      Amounts5(b, w - 32);
      Shl32(MachineShl(b, w - 32));
      ShlAdd(b, (w - 32) as nat, 32);
    }
  }

  /** For every amount below the width the iterated shift is the machine's own. */
  lemma ShlMachine(b: bv128, w: bv128)
    requires w < 128
    ensures Shl(b, w as nat) == MachineShl(b, w)
  {
    hide *;
    if w < 64 {
      Amounts6(b, w);
    } else {
      Stage64(b, w);
      Amounts6(b, w - 64);
      Shl64(MachineShl(b, w - 64));
      ShlAdd(b, (w - 64) as nat, 64);
    }
  }

  /** A shift by the full width clears the word. */
  lemma ShlFull(b: bv128)
    ensures Shl(b, 128) == 0
  {
    hide *;
    Shl64(b); Shl64(b << 64); ShlAdd(b, 64, 64); Halves(b);
  }

  /** A shift of one by a step less than the width still holds a bit. */
  lemma ShlTop()
    ensures Shl(1, 127) == TOP
  {
    hide Shl, Double;
    ShlMachine(1, 127);
  }

  lemma MaskNonZero(i: nat)
    requires i < 128
    ensures Shl(1, i) != 0
  {
    ShlAdd(1, i, 127 - i);
    ShlTop();
    ShlZero(127 - i);
  }

  lemma {:induction false} MaskOneHot(i: nat)
    requires i < 128
    ensures OneHot(Shl(1, i))
  {
    if i > 0 {
      MaskOneHot(i - 1);
      MaskNonZero(i);
      OneHotDouble(Shl(1, i - 1));
    }
  }

  lemma MasksDisjoint(i: nat, j: nat)
    requires i < 128 && j < 128 && i != j
    ensures !Meets(Shl(1, i), Shl(1, j))
  {
    hide *;
    MaskOneHot(i);
    MaskOneHot(j);
    if i < j { MasksDistinct(i, j); } else { MasksDistinct(j, i); }
    OneHotMeet(Shl(1, i), Shl(1, j));
  }

  lemma MasksDistinct(i: nat, j: nat)
    requires i < j < 128
    ensures Shl(1, i) != Shl(1, j)
  {
    hide *;
    ShlAdd(1, i, 128 - j);
    ShlAdd(1, j, 128 - j);
    ShlFull(1);
    MaskNonZero(i + (128 - j));
  }

  // ---- The word as a set of positions ----

  /** Setting a bit adds its position and nothing else. */
  lemma BitsOr(b: bv128, d: nat)
    requires d < 128
    ensures Bits(Or(b, Shl(1, d))) == Bits(b) + {d}
  {
    hide Meets, Or, Double;
    forall i: nat | i < 128
      ensures Bit(Or(b, Shl(1, d)), i) <==> i == d || Bit(b, i)
    {
      if i == d {
        MaskNonZero(d);
        OrMask(b, Shl(1, d));
      } else {
        MasksDisjoint(d, i);
        OrOther(b, Shl(1, d), Shl(1, i));
      }
    }
  }

  lemma BitDouble(b: bv128, i: nat)
    requires i < 128
    ensures Bit(Double(b), i) <==> i >= 1 && Bit(b, i - 1)
  {
    hide Meets, Double, OneHot;
    if i == 0 {
      MaskOneHot(0);
      MaskNonZero(1);
      assert Shl(1, 1) == Double(Shl(1, 0));
      DoubleTest(b, Shl(1, 0));
    } else {
      MaskOneHot(i - 1);
      MaskNonZero(i);
      DoubleTest(b, Shl(1, i - 1));
    }
  }

  lemma {:induction false} BitShl(b: bv128, d: nat, i: nat)
    requires i < 128
    ensures Bit(Shl(b, d), i) <==> i >= d && Bit(b, i - d)
    decreases d
  {
    hide Meets, Double, Bit;
    if d > 0 {
      BitDouble(Shl(b, d - 1), i);
      if i >= 1 {
        BitShl(b, d - 1, i - 1);
      }
    }
  }

  /** A left shift moves every position up and drops those past 127. */
  lemma BitsShl(b: bv128, d: nat, i: nat)
    requires i < 128
    ensures i in Bits(Shl(b, d)) <==> i >= d && i - d in Bits(b)
  {
    hide Meets, Double, Bit, Shl;
    BitShl(b, d, i);
  }

  lemma BitsOne()
    ensures Bits(1) == {0}
  {
    BitsZero();
    BitsOr(0, 0);
    assert Or(0, Shl(1, 0)) == 1;
  }

  lemma BitsZero()
    ensures Bits(0) == {}
  {
    forall i: nat | i < 128
      ensures !Bit(0, i)
    {
      ZeroMeets(Shl(1, i));
    }
  }

  lemma ZeroMeets(m: bv128)
    ensures !Meets(0, m)
  {
  }

  /** Words with the same positions agree once all but k low bits are shifted out. */
  lemma {:induction false} LowBitsAgree(a: bv128, b: bv128, k: nat)
    requires k <= 128
    requires Bits(a) == Bits(b)
    ensures Shl(a, 128 - k) == Shl(b, 128 - k)
  {
    hide Meets, Double, Bit;
    if k == 0 {
      ShlFull(a);
      ShlFull(b);
    } else {
      LowBitsAgree(a, b, k - 1);
      BitShl(a, 128 - k, 127);
      BitShl(b, 128 - k, 127);
      assert k - 1 in Bits(a) <==> k - 1 in Bits(b);
      TopBit(Shl(a, 128 - k));
      TopBit(Shl(b, 128 - k));
      SameUnderDouble(Shl(a, 128 - k), Shl(b, 128 - k));
    }
  }

  lemma TopBit(d: bv128)
    ensures Bit(d, 127) == Meets(d, TOP)
  {
    hide Meets;
    ShlTop();
  }

  /** A word is determined by its set of positions. */
  lemma BitsInjective(a: bv128, b: bv128)
    requires Bits(a) == Bits(b)
    ensures a == b
  {
    LowBitsAgree(a, b, 128);
  }
}
