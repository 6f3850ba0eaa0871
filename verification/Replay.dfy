/** The anti-replay window: a 128-bit word, the highest number accepted and three
    counters standing in for the set of every sequence number accepted so far. */
module Replay {
  import opened Words
  import opened Bitmap

  const REPLAY_WINDOW_SIZE: u64 := 128

  type WindowSize = x: int | 1 <= x <= 128 witness 1

  datatype Verdict =
    | Accepted
    | TooOld(number: u64, window: int)
    | AlreadySeen(number: u64)

  /** The state of a filter, as a value. */
  datatype Window = Window(
    size: WindowSize,
    bitmap: bv128,
    lastSeq: u64,
    initialized: bool,
    totalSeen: nat,
    totalAccepted: nat,
    totalRejected: nat)

  function Clamp(requested: u64): WindowSize {
    if requested < 1 then 1 else if requested > 128 then 128 else requested
  }

  function Distance(a: int, b: int): int {
    if a < b then b - a else a - b
  }

  /** The size is the admissible one nearest to the one asked for. */
  lemma ClampIsNearest(requested: u64, other: WindowSize)
    ensures 1 <= requested <= 128 ==> Clamp(requested) == requested
    ensures Distance(Clamp(requested), requested) <= Distance(other, requested)
  {
  }

  function Empty(size: WindowSize): Window {
    Window(size, 0, 0, false, 0, 0, 0)
  }

  /** One call of `validate_and_record`. */
  function Validate(w: Window, n: u64): (Window, Verdict) {
    var v := w.(totalSeen := w.totalSeen + 1);
    if !w.initialized then
      (v.(lastSeq := n, bitmap := 1, initialized := true, totalAccepted := w.totalAccepted + 1), Accepted)
    else if n > w.lastSeq then
      var diff := n - w.lastSeq;
      var word := if diff < w.size then Or(Shl(w.bitmap, diff), 1) else 1;
      (v.(bitmap := word, lastSeq := n, totalAccepted := w.totalAccepted + 1), Accepted)
    else
      var diff := w.lastSeq - n;
      if diff >= w.size then
        (v.(totalRejected := w.totalRejected + 1), TooOld(n, w.size))
      else if Bit(w.bitmap, diff) then
        (v.(totalRejected := w.totalRejected + 1), AlreadySeen(n))
      else
        (v.(bitmap := Or(w.bitmap, Shl(1, diff)), totalAccepted := w.totalAccepted + 1), Accepted)
  }

  predicate HasSeen(w: Window, n: u64) {
    if !w.initialized || n > w.lastSeq then false
    else if w.lastSeq - n >= w.size then true
    else Bit(w.bitmap, w.lastSeq - n)
  }

  function MinValidSeq(w: Window): u64 {
    if !w.initialized || w.lastSeq < w.size - 1 then 0 else w.lastSeq - (w.size - 1)
  }

  // ---- The simple filter that the window stands for ----

  /** A filter that remembers every accepted number: n is admitted when it is new and
      no accepted number lies `size` or more ahead of it. */
  ghost predicate Admissible(size: int, accepted: set<int>, n: int) {
    n !in accepted && forall x | x in accepted :: x - n < size
  }

  /** The window state w is a faithful cache of the set `accepted`. Every bit that is
      set is true, up to position 127; only bits below the window size are complete. */
  ghost predicate Represents(w: Window, accepted: set<int>) {
    && (w.initialized <==> accepted != {})
    && (w.initialized ==> w.lastSeq in accepted)
    && (!w.initialized ==> w.lastSeq == 0 && w.bitmap == 0)
    && (forall x | x in accepted :: 0 <= x <= w.lastSeq)
    && (forall i | i in Bits(w.bitmap) :: w.lastSeq - i in accepted)
    && (forall i: nat | i < w.size && w.lastSeq - i in accepted :: i in Bits(w.bitmap))
    && w.totalAccepted == |accepted|
    && w.totalSeen == w.totalAccepted + w.totalRejected
  }

  lemma EmptyRepresents(size: WindowSize)
    ensures Represents(Empty(size), {})
  {
    BitsZero();
  }

  /** The word after the window slides forward to n. */
  lemma SlideForward(w: Window, accepted: set<int>, n: u64)
    requires Represents(w, accepted) && w.initialized && n > w.lastSeq
    ensures Represents(Validate(w, n).0, accepted + {n})
  {
    hide Bits, Bit, Shl, Or;
    var diff := n - w.lastSeq;
    var w' := Validate(w, n).0;
    BitsOne();
    if diff < w.size {
      var shifted := Shl(w.bitmap, diff);
      ShlOne();
      BitsOr(shifted, 0);
      forall i | i in Bits(w'.bitmap)
        ensures n - i in accepted + {n}
      {
        BitsRange(w'.bitmap);
        if i != 0 { BitsShl(w.bitmap, diff, i); }
      }
      forall i: nat | i < w.size && n - i in accepted + {n}
        ensures i in Bits(w'.bitmap)
      {
        if i != 0 {
          BitsShl(w.bitmap, diff, i);
          assert w.lastSeq - (i - diff) in accepted;
        }
      }
    }
  }

  lemma ShlOne()
    ensures Shl(1, 0) == 1
  {
  }

  lemma BitsRange(b: bv128)
    ensures forall i | i in Bits(b) :: 0 <= i < 128
  {
  }

  /** A number inside the window is judged by its bit. */
  lemma BitTells(w: Window, accepted: set<int>, n: u64)
    requires Represents(w, accepted) && w.initialized
    requires n <= w.lastSeq && w.lastSeq - n < w.size
    ensures Bit(w.bitmap, w.lastSeq - n) <==> n in accepted
  {
    hide Shl, Meets;
    var diff := w.lastSeq - n;
    assert diff in Bits(w.bitmap) <==> n in accepted;
  }

  /** Recording it sets that bit. */
  lemma RecordLate(w: Window, accepted: set<int>, n: u64)
    requires Represents(w, accepted) && w.initialized
    requires n <= w.lastSeq && w.lastSeq - n < w.size
    ensures Bit(w.bitmap, w.lastSeq - n) <==> n in accepted
    ensures n !in accepted ==> Represents(Validate(w, n).0, accepted + {n})
  {
    hide Bits, Bit, Shl, Or;
    BitTells(w, accepted, n);
    BitsOr(w.bitmap, w.lastSeq - n);
    BitsRange(w.bitmap);
  }

  /** One call decides as the simple filter does and keeps the cache faithful. */
  lemma ValidateStep(w: Window, accepted: set<int>, n: u64)
    requires Represents(w, accepted)
    ensures Validate(w, n).1.Accepted? <==> Admissible(w.size, accepted, n)
    ensures Represents(Validate(w, n).0, if Validate(w, n).1.Accepted? then accepted + {n} else accepted)
    ensures Validate(w, n).0.size == w.size
  {
    hide Bits, Bit, Shl, Or, Meets;
    if !w.initialized {
      BitsOne();
    } else if n > w.lastSeq {
      SlideForward(w, accepted, n);
    } else if w.lastSeq - n < w.size {
      RecordLate(w, accepted, n);
    }
  }

  /** A refusal names its reason: the number lies below the window, or is in it and was
      accepted before. */
  lemma RefusalsExplained(w: Window, accepted: set<int>, n: u64)
    requires Represents(w, accepted)
    ensures Validate(w, n).1 == TooOld(n, w.size) <==> n < MinValidSeq(w)
    ensures Validate(w, n).1 == AlreadySeen(n) <==> n >= MinValidSeq(w) && n in accepted
  {
    hide Bits, Bit, Shl, Or;
    ValidateStep(w, accepted, n);
    if w.initialized && n <= w.lastSeq && w.lastSeq - n < w.size {
      RecordLate(w, accepted, n);
    }
  }

  // ---- Whole histories ----

  datatype Op = Offer(number: u64) | Reset

  /** The window after a history of calls, and for each call whether a number was accepted. */
  function Run(w: Window, ops: seq<Op>): (r: (Window, seq<bool>))
    ensures |r.1| == |ops|
    decreases ops
  {
    if ops == [] then (w, [])
    else
      match ops[0]
      case Offer(n) =>
        var (w', v) := Validate(w, n);
        var (end, flags) := Run(w', ops[1..]);
        (end, [v.Accepted?] + flags)
      case Reset =>
        var (end, flags) := Run(Empty(w.size), ops[1..]);
        (end, [false] + flags)
  }

  /** The same history on the filter that remembers the whole set. */
  ghost function SetRun(size: int, accepted: set<int>, ops: seq<Op>): (r: (set<int>, seq<bool>))
    ensures |r.1| == |ops|
    decreases ops
  {
    if ops == [] then (accepted, [])
    else
      match ops[0]
      case Offer(n) =>
        var ok := Admissible(size, accepted, n);
        var (end, flags) := SetRun(size, if ok then accepted + {n} else accepted, ops[1..]);
        (end, [ok] + flags)
      case Reset =>
        var (end, flags) := SetRun(size, {}, ops[1..]);
        (end, [false] + flags)
  }

  lemma {:induction false} RunFollowsSet(w: Window, accepted: set<int>, ops: seq<Op>)
    requires Represents(w, accepted)
    ensures Run(w, ops).1 == SetRun(w.size, accepted, ops).1
    ensures Represents(Run(w, ops).0, SetRun(w.size, accepted, ops).0)
    ensures Run(w, ops).0.size == w.size
    decreases ops
  {
    hide Represents, Validate, Admissible;
    if ops != [] {
      match ops[0]
      case Offer(n) =>
        ValidateStep(w, accepted, n);
        var (w', v) := Validate(w, n);
        RunFollowsSet(w', if v.Accepted? then accepted + {n} else accepted, ops[1..]);
      case Reset =>
        EmptyRepresents(w.size);
        RunFollowsSet(Empty(w.size), {}, ops[1..]);
    }
  }

  /** Whatever calls are made on a new filter, the bitmap decides exactly as a filter
      that remembers every accepted number, and so does the next call after them. */
  lemma {:induction false} BitmapRefinesSet(requested: u64, ops: seq<Op>, n: u64)
    ensures var size := Clamp(requested);
            var (w, flags) := Run(Empty(size), ops);
            var (accepted, expected) := SetRun(size, {}, ops);
            && flags == expected
            && Represents(w, accepted)
            && (Validate(w, n).1.Accepted? <==> Admissible(size, accepted, n))
            && (HasSeen(w, n) <==> !Validate(w, n).1.Accepted?)
  {
    hide Represents, Validate, Admissible, HasSeen;
    var size := Clamp(requested);
    EmptyRepresents(size);
    RunFollowsSet(Empty(size), {}, ops);
    ValidateStep(Run(Empty(size), ops).0, SetRun(size, {}, ops).0, n);
    HasSeenIsRefusal(Run(Empty(size), ops).0, n);
  }

  lemma OfferCounted(w: Window, n: u64)
    ensures var t := Validate(w, n).0;
            && t.totalSeen == w.totalSeen + 1
            && t.totalAccepted == w.totalAccepted + (if Validate(w, n).1.Accepted? then 1 else 0)
            && t.totalRejected == w.totalRejected + (if Validate(w, n).1.Accepted? then 0 else 1)
  {
    hide Bit, Bits, Shl, Or, Meets, Double;
  }

  /** Between resets every offer is counted once, as accepted or as rejected. */
  lemma {:induction false} EveryOfferCounted(w: Window, ops: seq<Op>)
    requires NoReset(ops)
    ensures var (t, flags) := Run(w, ops);
            && t.totalSeen == w.totalSeen + |ops|
            && t.totalAccepted - w.totalAccepted + t.totalRejected - w.totalRejected == |ops|
    decreases ops
  {
    hide Validate;
    if ops != [] {
      OfferCounted(w, ops[0].number);
      EveryOfferCounted(Validate(w, ops[0].number).0, ops[1..]);
    }
  }

  /** A reset leaves nothing of the history before it: what follows runs as on a new filter. */
  lemma {:induction false} ResetForgets(w: Window, before: seq<Op>, after: seq<Op>)
    ensures var whole := Run(w, before + [Reset] + after);
            var anew := Run(Empty(w.size), after);
            whole.0 == anew.0 && whole.1[|before| + 1..] == anew.1
    decreases before
  {
    hide Validate;
    var ops := before + [Reset] + after;
    if before == [] {
      assert ops[0] == Reset && ops[1..] == after;
    } else {
      assert ops[0] == before[0] && ops[1..] == before[1..] + [Reset] + after;
      match before[0]
      case Offer(n) =>
        KeepsSize(w, n);
        ResetForgets(Validate(w, n).0, before[1..], after);
      case Reset => ResetForgets(Empty(w.size), before[1..], after);
    }
  }

  lemma KeepsSize(w: Window, n: u64)
    ensures Validate(w, n).0.size == w.size
  {
  }

  lemma HasSeenIsRefusal(w: Window, n: u64)
    ensures HasSeen(w, n) <==> !Validate(w, n).1.Accepted?
  {
    hide Bit, Shl, Or;
  }

  /** `has_seen` and `min_valid_seq` describe the accepted set: a number is refused
      exactly when it was accepted before or lies below the lowest valid number. */
  lemma QueriesDescribeSet(w: Window, accepted: set<int>, n: u64)
    requires Represents(w, accepted)
    ensures HasSeen(w, n) <==> n in accepted || n < MinValidSeq(w)
    ensures Admissible(w.size, accepted, n) <==> n !in accepted && n >= MinValidSeq(w)
  {
    if w.initialized && n <= w.lastSeq && w.lastSeq - n < w.size {
      assert w.lastSeq - n in Bits(w.bitmap) <==> n in accepted;
    }
  }

  ghost predicate NoReset(ops: seq<Op>) {
    forall k | 0 <= k < |ops| :: ops[k].Offer?
  }

  lemma {:induction false} SetGrows(size: int, accepted: set<int>, ops: seq<Op>)
    requires NoReset(ops)
    ensures accepted <= SetRun(size, accepted, ops).0
    ensures forall k | 0 <= k < |ops| && SetRun(size, accepted, ops).1[k] :: ops[k].number !in accepted
    decreases ops
  {
    if ops != [] {
      var ok := Admissible(size, accepted, ops[0].number);
      SetGrows(size, if ok then accepted + {ops[0].number} else accepted, ops[1..]);
    }
  }

  lemma {:induction false} SetNeverTwice(size: int, accepted: set<int>, ops: seq<Op>, i: nat, j: nat)
    requires NoReset(ops) && i < j < |ops|
    requires SetRun(size, accepted, ops).1[i] && SetRun(size, accepted, ops).1[j]
    ensures ops[i].number != ops[j].number
    decreases ops
  {
    var ok := Admissible(size, accepted, ops[0].number);
    var next := if ok then accepted + {ops[0].number} else accepted;
    if i == 0 {
      SetGrows(size, next, ops[1..]);
    } else {
      SetNeverTwice(size, next, ops[1..], i - 1, j - 1);
    }
  }

  /** Between resets no sequence number is accepted twice. */
  lemma {:induction false} NeverAcceptedTwice(requested: u64, ops: seq<Op>, i: nat, j: nat)
    requires NoReset(ops) && i < j < |ops|
    requires Run(Empty(Clamp(requested)), ops).1[i] && Run(Empty(Clamp(requested)), ops).1[j]
    ensures ops[i].number != ops[j].number
  {
    EmptyRepresents(Clamp(requested));
    RunFollowsSet(Empty(Clamp(requested)), {}, ops);
    SetNeverTwice(Clamp(requested), {}, ops, i, j);
  }

  // ---- Two filters of different sizes on one history ----

  /** What the narrow filter forgot is out of its reach for good. */
  ghost predicate Narrower(w: Window, accepted: set<int>, v: Window, more: set<int>) {
    && Represents(w, accepted) && Represents(v, more)
    && w.size <= v.size
    && accepted <= more
    && w.lastSeq == v.lastSeq && w.initialized == v.initialized
    && forall x | x in more && x !in accepted :: w.lastSeq - x >= w.size
  }

  lemma NarrowerStep(w: Window, accepted: set<int>, v: Window, more: set<int>, n: u64)
    requires Narrower(w, accepted, v, more)
    ensures Validate(w, n).1.Accepted? ==> Validate(v, n).1.Accepted?
    ensures Narrower(
              Validate(w, n).0, if Validate(w, n).1.Accepted? then accepted + {n} else accepted,
              Validate(v, n).0, if Validate(v, n).1.Accepted? then more + {n} else more)
  {
    hide Bits, Bit, Shl, Or;
    ValidateStep(w, accepted, n);
    ValidateStep(v, more, n);
    if Validate(w, n).1.Accepted? && w.initialized {
      assert w.lastSeq - n < w.size;
      assert Admissible(v.size, more, n);
    }
  }

  lemma {:induction false} NarrowerRun(w: Window, accepted: set<int>, v: Window, more: set<int>, ops: seq<Op>)
    requires Narrower(w, accepted, v, more)
    ensures forall k | 0 <= k < |ops| && Run(w, ops).1[k] :: Run(v, ops).1[k]
    ensures Run(w, ops).0.lastSeq == Run(v, ops).0.lastSeq
    decreases ops
  {
    hide Represents, Validate, Admissible;
    if ops != [] {
      match ops[0]
      case Offer(n) =>
        NarrowerStep(w, accepted, v, more, n);
        var (w', a) := Validate(w, n);
        var (v', b) := Validate(v, n);
        NarrowerRun(
          w', if a.Accepted? then accepted + {n} else accepted,
          v', if b.Accepted? then more + {n} else more, ops[1..]);
      case Reset =>
        EmptyRepresents(w.size);
        EmptyRepresents(v.size);
        NarrowerRun(Empty(w.size), {}, Empty(v.size), {}, ops[1..]);
    }
  }

  /** On any common history a wider window accepts at every step where a narrower one
      does, and both always report the same highest number. */
  lemma {:induction false} WiderWindowAcceptsMore(narrow: WindowSize, wide: WindowSize, ops: seq<Op>)
    requires narrow <= wide
    ensures forall k | 0 <= k < |ops| && Run(Empty(narrow), ops).1[k] :: Run(Empty(wide), ops).1[k]
    ensures Run(Empty(narrow), ops).0.lastSeq == Run(Empty(wide), ops).0.lastSeq
  {
    EmptyRepresents(narrow);
    EmptyRepresents(wide);
    NarrowerRun(Empty(narrow), {}, Empty(wide), {}, ops);
  }

  // ---- Arrival order inside the window ----

  ghost function Offers(ns: seq<u64>): (ops: seq<Op>)
    ensures |ops| == |ns|
  {
    seq(|ns|, i requires 0 <= i < |ns| => Offer(ns[i]))
  }

  ghost predicate Distinct(ns: seq<u64>) {
    forall i, j | 0 <= i < j < |ns| :: ns[i] != ns[j]
  }

  ghost predicate Within(size: int, numbers: set<int>) {
    forall x, y | x in numbers && y in numbers :: x - y < size
  }

  ghost function Elements(ns: seq<u64>): set<int> {
    set n | n in ns
  }

  lemma {:induction false} CloseNumbersAccepted(w: Window, accepted: set<int>, ns: seq<u64>)
    requires Represents(w, accepted)
    requires Distinct(ns) && accepted !! Elements(ns)
    requires Within(w.size, accepted + Elements(ns))
    ensures forall k | 0 <= k < |ns| :: Run(w, Offers(ns)).1[k]
    ensures Represents(Run(w, Offers(ns)).0, accepted + Elements(ns))
    ensures Run(w, Offers(ns)).0.size == w.size
    ensures Run(w, Offers(ns)).0.totalRejected == w.totalRejected
    decreases ns
  {
    hide Represents;
    if ns == [] {
      assert accepted + Elements(ns) == accepted;
    } else {
      var n, rest := ns[0], ns[1..];
      hide Validate;
      ValidateStep(w, accepted, n);
      assert n in Elements(ns) && Elements(ns) == {n} + Elements(rest);
      assert Offers(ns)[1..] == Offers(rest);
      assert accepted + {n} + Elements(rest) == accepted + Elements(ns);
      AcceptedKeepsRejected(w, n);
      CloseNumbersAccepted(Validate(w, n).0, accepted + {n}, rest);
    }
  }

  lemma AcceptedKeepsRejected(w: Window, n: u64)
    requires Validate(w, n).1.Accepted?
    ensures Validate(w, n).0.totalRejected == w.totalRejected
  {
  }

  lemma SameSetSameWindow(w: Window, v: Window, accepted: set<int>)
    requires Represents(w, accepted) && Represents(v, accepted)
    requires w.size == v.size && w.totalRejected == v.totalRejected
    requires Within(w.size, accepted)
    ensures w == v
  {
    assert w.lastSeq == v.lastSeq;
    assert Bits(w.bitmap) == Bits(v.bitmap) by {
      assert forall i | i in Bits(w.bitmap) :: w.lastSeq - i in accepted && i < w.size;
      assert forall i | i in Bits(v.bitmap) :: v.lastSeq - i in accepted && i < v.size;
    }
    BitsInjective(w.bitmap, v.bitmap);
  }

  /** Distinct numbers that all lie within one window are accepted in whatever order
      they arrive, and every order ends in the same state: the same highest number, the
      same bitmap, the same counters, hence the same answer to every later question. */
  lemma {:induction false} ArrivalOrderIrrelevant(size: WindowSize, a: seq<u64>, b: seq<u64>)
    requires multiset(a) == multiset(b)
    requires Distinct(a) && Within(size, Elements(a))
    ensures forall k | 0 <= k < |a| :: Run(Empty(size), Offers(a)).1[k]
    ensures forall k | 0 <= k < |b| :: Run(Empty(size), Offers(b)).1[k]
    ensures Run(Empty(size), Offers(a)).0 == Run(Empty(size), Offers(b)).0
  {
    PermutationFacts(a, b);
    EmptyRepresents(size);
    CloseNumbersAccepted(Empty(size), {}, a);
    CloseNumbersAccepted(Empty(size), {}, b);
    assert {} + Elements(a) == Elements(a) == Elements(b) == {} + Elements(b);
    SameSetSameWindow(Run(Empty(size), Offers(a)).0, Run(Empty(size), Offers(b)).0, Elements(a));
  }

  lemma PermutationFacts(a: seq<u64>, b: seq<u64>)
    requires multiset(a) == multiset(b) && Distinct(a)
    ensures Distinct(b)
    ensures Elements(a) == Elements(b)
  {
    forall x
      ensures x in a <==> x in b
    {
      assert x in multiset(a) <==> x in multiset(b);
    }
    forall i, j | 0 <= i < j < |b|
      ensures b[i] != b[j]
    {
      if b[i] == b[j] {
        CountTwice(b, i, j);
        assert multiset(a)[b[i]] >= 2;
        var p :| 0 <= p < |a| && a[p] == b[i];
        CountOnce(a, p);
        assert false;
      }
    }
  }

  lemma CountTwice(s: seq<u64>, i: nat, j: nat)
    requires i < j < |s| && s[i] == s[j]
    ensures multiset(s)[s[i]] >= 2
  {
    assert s == s[..j] + s[j..];
    assert s[i] in s[..j] by { assert s[..j][i] == s[i]; }
    assert s[i] in s[j..] by { assert s[j..][0] == s[i]; }
    assert multiset(s) == multiset(s[..j]) + multiset(s[j..]);
  }

  lemma CountOnce(s: seq<u64>, p: nat)
    requires Distinct(s) && p < |s|
    ensures multiset(s)[s[p]] == 1
  {
    assert s == s[..p] + [s[p]] + s[p + 1..];
    assert s[p] !in s[..p] && s[p] !in s[p + 1..];
    assert multiset(s) == multiset(s[..p]) + multiset{s[p]} + multiset(s[p + 1..]);
  }

  // ---- The filter itself ----

  /** The filter that a session owns, updated in place. */
  class ReplayFilter {
    var windowSize: WindowSize
    var bitmap: bv128
    var lastSeq: u64
    var initialized: bool
    var totalSeen: nat
    var totalAccepted: nat
    var totalRejected: nat

    /** Every number accepted since construction or the last reset. */
    ghost var accepted: set<int>

    function State(): Window
      reads this
    {
      Window(windowSize, bitmap, lastSeq, initialized, totalSeen, totalAccepted, totalRejected)
    }

    ghost predicate Valid()
      reads this
    {
      Represents(State(), accepted)
    }

    constructor WithWindowSize(requested: u64)
      ensures Valid() && accepted == {}
      ensures State() == Empty(Clamp(requested))
    {
      windowSize := Clamp(requested);
      bitmap, lastSeq, initialized := 0, 0, false;
      totalSeen, totalAccepted, totalRejected := 0, 0, 0;
      accepted := {};
      new;
      EstablishEmpty();
    }

    lemma EstablishEmpty()
      requires State() == Empty(windowSize) && accepted == {}
      ensures Valid()
    {
      hide Represents;
      EmptyRepresents(windowSize);
    }

    /** Accepts n exactly when it is new and inside or ahead of the window. */
    method ValidateAndRecord(n: u64) returns (verdict: Verdict)
      requires Valid()
      modifies this
      ensures Valid()
      ensures verdict.Accepted? <==> Admissible(windowSize, old(accepted), n)
      ensures accepted == if verdict.Accepted? then old(accepted) + {n} else old(accepted)
      ensures (State(), verdict) == Validate(old(State()), n)
    {
      hide Represents, Admissible, Bits, Shl, Or, Meets;
      ValidateStep(State(), accepted, n);
      totalSeen := totalSeen + 1;
      if !initialized {
        lastSeq, bitmap, initialized := n, 1, true;
        totalAccepted := totalAccepted + 1;
        verdict := Accepted;
      } else if n > lastSeq {
        var diff := n - lastSeq;
        if diff < windowSize {
          bitmap := Shl(bitmap, diff);
          bitmap := Or(bitmap, 1);
        } else {
          bitmap := 1;
        }
        lastSeq := n;
        totalAccepted := totalAccepted + 1;
        verdict := Accepted;
      } else {
        var diff := lastSeq - n;
        if diff >= windowSize {
          totalRejected := totalRejected + 1;
          return TooOld(n, windowSize);
        }
        var bit := Shl(1, diff);
        if Meets(bitmap, bit) {
          totalRejected := totalRejected + 1;
          return AlreadySeen(n);
        }
        bitmap := Or(bitmap, bit);
        totalAccepted := totalAccepted + 1;
        verdict := Accepted;
      }
      accepted := if verdict.Accepted? then accepted + {n} else accepted;
    }

    /** Answers without changing the filter: was n accepted, or is it too old? */
    method Seen(n: u64) returns (seen: bool)
      requires Valid()
      ensures seen <==> n in accepted || n < MinValidSeq(State())
    {
      QueriesDescribeSet(State(), accepted, n);
      hide Represents, Bits, Shl, Meets;
      if !initialized {
        return false;
      }
      if n > lastSeq {
        return false;
      }
      var diff := lastSeq - n;
      if diff >= windowSize {
        return true;
      }
      var bit := Shl(1, diff);
      seen := Meets(bitmap, bit);
    }

    method Reset()
      modifies this
      ensures Valid() && accepted == {}
      ensures State() == Empty(old(windowSize))
    {
      bitmap, lastSeq, initialized := 0, 0, false;
      totalSeen, totalAccepted, totalRejected := 0, 0, 0;
      accepted := {};
      EmptyRepresents(windowSize);
    }
  }
}
