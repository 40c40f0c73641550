/** Scattering the low bits of a word to the positions of a mask, and gathering them back. */
module BitDeposit {
  type Word = bv32

  function Half(x: Word): Word {
    x >> 1
  }

  predicate Odd(x: Word) {
    x & 1 == 1
  }

  predicate Bit(x: Word, i: nat) {
    if i == 0 then Odd(x) else Bit(Half(x), i - 1)
  }

  /** Number of mask bits below position `i`. */
  function Rank(mask: Word, i: nat): (n: nat)
    ensures n <= i
  {
    if i == 0 then 0 else Rank(mask, i - 1) + if Bit(mask, i - 1) then 1 else 0
  }

  function PopCount(mask: Word): nat {
    Rank(mask, 32)
  }

  /** Where the mask has a bit, the result has the bit of `x` whose number is the count of mask bits
      below; elsewhere zero. */
  ghost predicate Deposited(r: Word, x: Word, mask: Word) {
    forall i: nat :: Bit(r, i) <==> Bit(mask, i) && Bit(x, Rank(mask, i))
  }

  /** The bits of `x` under the mask, packed in order, and zeros above. */
  ghost predicate Extracted(r: Word, x: Word, mask: Word) {
    && (forall i: nat :: Bit(mask, i) ==> (Bit(r, Rank(mask, i)) <==> Bit(x, i)))
    && (forall k: nat :: PopCount(mask) <= k ==> !Bit(r, k))
  }

  // ---- bits of words ----

  lemma {:induction false} AndParts(x: Word, y: Word)
    ensures Half(x & y) == Half(x) & Half(y) && (Odd(x & y) <==> Odd(x) && Odd(y))
  {
  }

  function Joined(x: Word, y: Word): Word {
    x | y
  }

  lemma {:induction false} OrParts(x: Word, y: Word)
    ensures Half(Joined(x, y)) == Joined(Half(x), Half(y)) && (Odd(Joined(x, y)) <==> Odd(x) || Odd(y))
  {
  }

  lemma {:induction false} HalfParts(x: Word, y: Word)
    ensures x != 0 ==> Half(x) < x
    ensures x != y && Odd(x) == Odd(y) ==> Half(x) != Half(y)
    ensures Half(0) == 0 && !Odd(0) && Half(1) == 0 && Odd(1)
  {
  }

  lemma {:induction false} BitOfAnd(x: Word, y: Word, i: nat)
    ensures Bit(x & y, i) <==> Bit(x, i) && Bit(y, i)
    decreases i
  {
    hide Half, Odd;
    AndParts(x, y);
    if i > 0 {
      BitOfAnd(Half(x), Half(y), i - 1);
    }
  }

  lemma {:induction false} BitOfOr(x: Word, y: Word, i: nat)
    ensures Bit(Joined(x, y), i) <==> Bit(x, i) || Bit(y, i)
    decreases i
  {
    hide Half, Odd, Joined;
    OrParts(x, y);
    if i > 0 {
      BitOfOr(Half(x), Half(y), i - 1);
    }
  }

  lemma {:induction false} ZeroHasNoBits(i: nat)
    ensures !Bit(0, i)
  {
    hide Half, Odd;
    HalfParts(0, 0);
    if i > 0 {
      ZeroHasNoBits(i - 1);
    }
  }

  function Ones(k: nat): Word {
    if k == 0 then 0 else (Ones(k - 1) << 1) | 1
  }

  /** No bit at position `k` or above. */
  predicate Fits(x: Word, k: nat) {
    x & !Ones(k) == 0
  }

  lemma {:induction false} OnesParts(x: Word, w: Word)
    ensures x & !((w << 1) | 1) == 0 ==> Half(x) & !w == 0
    ensures x & !0 == 0 ==> x == 0
  {
  }

  lemma {:induction false} FitsParts(x: Word, k: nat)
    requires Fits(x, k)
    ensures if k == 0 then x == 0 else Fits(Half(x), k - 1)
  {
    hide Half;
    if k == 0 {
      OnesParts(x, 0);
    } else {
      OnesParts(x, Ones(k - 1));
    }
  }

  lemma {:induction false} EveryWordFits(x: Word)
    ensures Fits(x, 32)
  {
    assert Ones(8) == 0xFF;
    assert Ones(16) == 0xFFFF;
    assert Ones(24) == 0xFFFFFF;
    assert Ones(32) == 0xFFFFFFFF;
  }

  lemma {:induction false} NoBitsAbove(x: Word, k: nat, i: nat)
    requires Fits(x, k) && k <= i
    ensures !Bit(x, i)
    decreases k
  {
    hide Half, Odd, Fits;
    FitsParts(x, k);
    if k == 0 {
      ZeroHasNoBits(i);
    } else {
      NoBitsAbove(Half(x), k - 1, i - 1);
    }
  }

  lemma {:induction false} WordsEnd(x: Word, i: nat)
    requires 32 <= i
    ensures !Bit(x, i)
  {
    EveryWordFits(x);
    NoBitsAbove(x, 32, i);
  }

  /** A word is determined by its bits. */
  lemma {:induction false} SameBits(x: Word, y: Word)
    requires forall i: nat :: Bit(x, i) <==> Bit(y, i)
    ensures x == y
  {
    if x != y {
      EveryWordFits(x);
      EveryWordFits(y);
      var i := DifferingBit(x, y, 32);
    }
  }

  lemma {:induction false} DifferingBit(x: Word, y: Word, k: nat) returns (i: nat)
    requires x != y && Fits(x, k) && Fits(y, k)
    ensures Bit(x, i) != Bit(y, i)
    decreases k
  {
    hide Half, Odd, Fits;
    FitsParts(x, k);
    FitsParts(y, k);
    HalfParts(x, y);
    if Odd(x) != Odd(y) {
      i := 0;
    } else {
      i := DifferingBit(Half(x), Half(y), k - 1);
      i := i + 1;
    }
  }

  // ---- the two idioms of the loops ----

  function LowestBit(m: Word): Word {
    m & (0 - m)
  }

  function WithoutLowestBit(m: Word): Word {
    m & (m - 1)
  }

  lemma {:induction false} LowestParts(m: Word)
    ensures Odd(m) ==> LowestBit(m) == 1
    ensures !Odd(m) ==> !Odd(LowestBit(m)) && Half(LowestBit(m)) == LowestBit(Half(m))
  {
  }

  lemma {:induction false} WithoutParts(m: Word)
    ensures m != 0 ==> WithoutLowestBit(m) < m
    ensures !Odd(WithoutLowestBit(m))
    ensures Odd(m) ==> Half(WithoutLowestBit(m)) == Half(m)
    ensures !Odd(m) ==> Half(WithoutLowestBit(m)) == WithoutLowestBit(Half(m))
  {
  }

  /** `t` is the position of the lowest bit of `m`. */
  ghost predicate IsLowest(m: Word, t: nat) {
    Bit(m, t) && forall i: nat :: i < t ==> !Bit(m, i)
  }

  lemma {:induction false} FindLowest(m: Word, k: nat) returns (t: nat)
    requires m != 0 && Fits(m, k)
    ensures t < k && IsLowest(m, t)
    decreases k
  {
    hide Half, Odd, Fits;
    FitsParts(m, k);
    HalfParts(m, 0);
    if Odd(m) {
      t := 0;
    } else {
      t := FindLowest(Half(m), k - 1);
      t := t + 1;
      forall i: nat | i < t
        ensures !Bit(m, i)
      {
        assert i > 0 ==> !Bit(Half(m), i - 1);
      }
    }
  }

  lemma {:induction false} LowestShifts(m: Word, t: nat)
    requires IsLowest(m, t) && t > 0
    ensures !Odd(m) && IsLowest(Half(m), t - 1)
  {
    hide Half, Odd;
    assert !Bit(m, 0);
    forall i: nat | i < t - 1
      ensures !Bit(Half(m), i)
    {
      assert !Bit(m, i + 1);
    }
  }

  lemma {:induction false} LowestBitIs(m: Word, t: nat, i: nat)
    requires IsLowest(m, t)
    ensures Bit(LowestBit(m), i) <==> i == t
    decreases i
  {
    hide Half, Odd, LowestBit;
    LowestParts(m);
    if t == 0 {
      BitOfOne(i);
    } else {
      LowestShifts(m, t);
      if i > 0 {
        LowestBitIs(Half(m), t - 1, i - 1);
      }
    }
  }

  lemma {:induction false} BitOfOne(i: nat)
    ensures Bit(1, i) <==> i == 0
  {
    hide Half, Odd;
    HalfParts(0, 0);
    if i > 0 {
      ZeroHasNoBits(i - 1);
    }
  }

  lemma {:induction false} WithoutLowestBitIs(m: Word, t: nat, i: nat)
    requires IsLowest(m, t)
    ensures Bit(WithoutLowestBit(m), i) <==> Bit(m, i) && i != t
    decreases i
  {
    hide Half, Odd, WithoutLowestBit;
    WithoutParts(m);
    if t > 0 {
      LowestShifts(m, t);
      if i > 0 {
        WithoutLowestBitIs(Half(m), t - 1, i - 1);
      }
    }
  }

  function Power(j: nat): Word {
    if j == 0 then 1 else Double(Power(j - 1))
  }

  predicate Tests(x: Word, p: Word) {
    x & p != 0
  }

  function Double(p: Word): Word {
    p << 1
  }

  lemma {:induction false} TestParts(x: Word, p: Word)
    ensures Tests(x, Double(p)) <==> Tests(Half(x), p)
    ensures Tests(x, 1) <==> Odd(x)
  {
  }

  lemma {:induction false} TestedBit(x: Word, j: nat)
    ensures Tests(x, Power(j)) <==> Bit(x, j)
    decreases j
  {
    hide Half, Odd, Tests, Double;
    if j == 0 {
      TestParts(x, 0);
    } else {
      TestParts(x, Power(j - 1));
      TestedBit(Half(x), j - 1);
    }
  }

  /** `p` can be doubled `n` times without losing a bit. */
  predicate Room(p: Word, n: nat)
    decreases n
  {
    n == 0 || (Half(Double(p)) == p && Room(Double(p), n - 1))
  }

  lemma {:induction false} OneHasRoom()
    ensures Room(1, 31)
  {
    assert Room(0x1000000, 7);
    assert Room(0x10000, 15);
    assert Room(0x100, 23);
  }

  lemma {:induction false} DoubleIsEven(p: Word)
    ensures !Odd(Double(p))
  {
  }

  lemma {:induction false} PowerHasRoom(j: nat)
    requires j < 32
    ensures Room(Power(j), 31 - j)
  {
    hide Double, Half;
    if j == 0 {
      OneHasRoom();
    } else {
      PowerHasRoom(j - 1);
    }
  }

  lemma {:induction false} BitOfPower(j: nat, i: nat)
    requires j < 32
    ensures Bit(Power(j), i) <==> i == j
    decreases j
  {
    hide Half, Odd, Double;
    if j == 0 {
      BitOfOne(i);
    } else {
      PowerHasRoom(j - 1);
      DoubleIsEven(Power(j - 1));
      if i > 0 {
        BitOfPower(j - 1, i - 1);
      }
    }
  }

  // ---- the loops ----

  /** `m` holds the bits of the mask from position `top` on. */
  ghost predicate Peeled(mask: Word, m: Word, top: nat) {
    forall i: nat :: Bit(m, i) <==> top <= i && Bit(mask, i)
  }

  /** The bits deposited so far: those below `top`. */
  ghost predicate DepositedBelow(res: Word, x: Word, mask: Word, top: nat) {
    forall i: nat :: Bit(res, i) <==> i < top && Bit(mask, i) && Bit(x, Rank(mask, i))
  }

  /** The bits extracted so far: those under the mask below `top`. */
  ghost predicate ExtractedBelow(res: Word, x: Word, mask: Word, top: nat) {
    && (forall i: nat :: i < top && Bit(mask, i) ==> (Bit(res, Rank(mask, i)) <==> Bit(x, i)))
    && (forall k: nat :: Rank(mask, top) <= k ==> !Bit(res, k))
  }

  lemma {:induction false} NoBitsNoRank(mask: Word, i: nat, j: nat)
    requires i <= j && forall k: nat :: i <= k < j ==> !Bit(mask, k)
    ensures Rank(mask, i) == Rank(mask, j)
    decreases j
  {
    if i < j {
      NoBitsNoRank(mask, i, j - 1);
    }
  }

  lemma {:induction false} RankGrows(mask: Word, i: nat, j: nat)
    requires i < j && Bit(mask, i)
    ensures Rank(mask, i) < Rank(mask, j)
    decreases j
  {
    if i + 1 < j {
      RankGrows(mask, i, j - 1);
    }
  }

  lemma {:induction false} NextBit(mask: Word, m: Word, top: nat, t: nat)
    requires Peeled(mask, m, top) && IsLowest(m, t)
    ensures top <= t && Bit(mask, t) && Rank(mask, t) == Rank(mask, top)
    ensures Rank(mask, t + 1) == Rank(mask, top) + 1
    ensures forall i: nat :: top <= i < t ==> !Bit(mask, i)
    ensures Peeled(mask, WithoutLowestBit(m), t + 1)
  {
    hide Bit, WithoutLowestBit;
    forall i: nat | top <= i < t
      ensures !Bit(mask, i)
    {
      assert !Bit(m, i);
    }
    NoBitsNoRank(mask, top, t);
    forall i: nat
      ensures Bit(WithoutLowestBit(m), i) <==> t + 1 <= i && Bit(mask, i)
    {
      WithoutLowestBitIs(m, t, i);
    }
  }

  lemma {:induction false} DepositGrows(x: Word, mask: Word, top: nat, t: nat, res: Word, next: Word)
    requires DepositedBelow(res, x, mask, top) && top <= t && Bit(mask, t) && Rank(mask, t) == Rank(mask, top)
    requires forall i: nat :: top <= i < t ==> !Bit(mask, i)
    requires forall i: nat :: Bit(next, i) <==> Bit(res, i) || (i == t && Bit(x, Rank(mask, top)))
    ensures DepositedBelow(next, x, mask, t + 1)
  {
    hide Bit, Rank;
  }

  lemma {:induction false} DepositStep(x: Word, mask: Word, m: Word, top: nat, t: nat, res: Word)
    requires Peeled(mask, m, top) && IsLowest(m, t) && DepositedBelow(res, x, mask, top)
    ensures var bit := Tests(x, Power(Rank(mask, top)));
      DepositedBelow(if bit then Joined(res, LowestBit(m)) else res, x, mask, t + 1)
  {
    hide Bit, LowestBit, Power, Tests, Joined, DepositedBelow, Rank, IsLowest, Peeled;
    NextBit(mask, m, top, t);
    TestedBit(x, Rank(mask, top));
    var next := if Tests(x, Power(Rank(mask, top))) then Joined(res, LowestBit(m)) else res;
    forall i: nat
      ensures Bit(next, i) <==> Bit(res, i) || (i == t && Bit(x, Rank(mask, top)))
    {
      BitOfOr(res, LowestBit(m), i);
      LowestBitIs(m, t, i);
    }
    DepositGrows(x, mask, top, t, res, next);
  }

  lemma {:induction false} ExtractGrows(x: Word, mask: Word, top: nat, t: nat, res: Word, next: Word)
    requires ExtractedBelow(res, x, mask, top) && top <= t && Bit(mask, t)
    requires Rank(mask, t) == Rank(mask, top) && Rank(mask, t + 1) == Rank(mask, top) + 1
    requires forall i: nat :: top <= i < t ==> !Bit(mask, i)
    requires forall k: nat :: Bit(next, k) <==> Bit(res, k) || (k == Rank(mask, top) && Bit(x, t))
    ensures ExtractedBelow(next, x, mask, t + 1)
  {
    hide Bit, Rank;
    forall i: nat | i < t + 1 && Bit(mask, i)
      ensures Bit(next, Rank(mask, i)) <==> Bit(x, i)
    {
      if i < top {
        RankGrows(mask, i, top);
      }
    }
  }

  lemma {:induction false} ExtractStep(x: Word, mask: Word, m: Word, top: nat, t: nat, res: Word)
    requires Peeled(mask, m, top) && t < 32 && IsLowest(m, t) && ExtractedBelow(res, x, mask, top)
    ensures var bit := Tests(x, LowestBit(m));
      ExtractedBelow(if bit then Joined(res, Power(Rank(mask, top))) else res, x, mask, t + 1)
  {
    hide Bit, LowestBit, Power, Tests, Joined, ExtractedBelow, Rank, IsLowest, Peeled;
    NextBit(mask, m, top, t);
    TestsLowest(x, m, t);
    var n := Rank(mask, top);
    var next := if Tests(x, LowestBit(m)) then Joined(res, Power(n)) else res;
    forall k: nat
      ensures Bit(next, k) <==> Bit(res, k) || (k == n && Bit(x, t))
    {
      BitOfOr(res, Power(n), k);
      BitOfPower(n, k);
    }
    ExtractGrows(x, mask, top, t, res, next);
  }

  lemma {:induction false} TestsLowest(x: Word, m: Word, t: nat)
    requires t < 32 && IsLowest(m, t)
    ensures Tests(x, LowestBit(m)) <==> Bit(x, t)
  {
    hide Bit, Tests, LowestBit;
    forall i: nat
      ensures Bit(LowestBit(m), i) <==> Bit(Power(t), i)
    {
      LowestBitIs(m, t, i);
      BitOfPower(t, i);
    }
    SameBits(LowestBit(m), Power(t));
    TestedBit(x, t);
  }

  /** Nothing is left: every mask bit is below `top`, and they have all been counted. */
  lemma {:induction false} AllPeeled(mask: Word, top: nat)
    requires Peeled(mask, 0, top)
    ensures Rank(mask, top) == PopCount(mask) && forall i: nat :: Bit(mask, i) ==> i < top
  {
    forall i: nat | top <= i
      ensures !Bit(mask, i)
    {
      ZeroHasNoBits(i);
    }
    forall i: nat | 32 <= i
      ensures !Bit(mask, i)
    {
      WordsEnd(mask, i);
    }
    hide Bit;
    if top <= 32 {
      NoBitsNoRank(mask, top, 32);
    } else {
      NoBitsNoRank(mask, 32, top);
    }
  }

  lemma {:induction false} NothingYet(x: Word, mask: Word)
    ensures Peeled(mask, mask, 0) && DepositedBelow(0, x, mask, 0) && ExtractedBelow(0, x, mask, 0)
  {
    forall i: nat
      ensures !Bit(0, i)
    {
      ZeroHasNoBits(i);
    }
  }

  method Deposit(x: Word, mask0: Word) returns (res: Word, ghost steps: nat)
    ensures Deposited(res, x, mask0)
    ensures steps == PopCount(mask0)
  {
    hide Bit, Rank, Peeled, DepositedBelow, ExtractedBelow, IsLowest, PopCount, Fits;
    hide LowestBit, WithoutLowestBit, Tests, Joined, Double, Power;
    PowerOfNone();
    var mask, b: Word := mask0, 1;
    ghost var top := 0;
    res, steps := 0, 0;
    NothingYet(x, mask0);
    RankOfNone(mask0);
    while mask != 0
      invariant top <= 32 && Peeled(mask0, mask, top) && DepositedBelow(res, x, mask0, top)
      invariant steps == Rank(mask0, top) && b == Power(steps)
      decreases 32 - top
    {
      EveryWordFits(mask);
      ghost var t := FindLowest(mask, 32);
      DepositStep(x, mask0, mask, top, t, res);
      NextBit(mask0, mask, top, t);
      OneStep(steps);
      if Tests(x, b) {
        res := Joined(res, LowestBit(mask));
      }
      mask := WithoutLowestBit(mask);
      b, steps, top := Double(b), steps + 1, t + 1;
    }
    DepositDone(res, x, mask0, top);
  }

  lemma {:induction false} RankOfNone(mask: Word)
    ensures Rank(mask, 0) == 0
  {
  }

  lemma {:induction false} PowerOfNone()
    ensures Power(0) == 1
  {
  }

  lemma {:induction false} OneStep(j: nat)
    ensures Power(j + 1) == Double(Power(j))
  {
    hide Double;
  }

  lemma {:induction false} DepositDone(res: Word, x: Word, mask: Word, top: nat)
    requires Peeled(mask, 0, top) && DepositedBelow(res, x, mask, top)
    ensures Deposited(res, x, mask) && Rank(mask, top) == PopCount(mask)
  {
    hide Bit, Rank;
    AllPeeled(mask, top);
  }

  method Extract(x: Word, mask0: Word) returns (res: Word, ghost steps: nat)
    ensures Extracted(res, x, mask0)
    ensures steps == PopCount(mask0)
  {
    hide Bit, Rank, Peeled, DepositedBelow, ExtractedBelow, IsLowest, PopCount, Fits;
    hide LowestBit, WithoutLowestBit, Tests, Joined, Double, Power;
    PowerOfNone();
    var mask, b: Word := mask0, 1;
    ghost var top := 0;
    res, steps := 0, 0;
    NothingYet(x, mask0);
    RankOfNone(mask0);
    while mask != 0
      invariant top <= 32 && Peeled(mask0, mask, top) && ExtractedBelow(res, x, mask0, top)
      invariant steps == Rank(mask0, top) && b == Power(steps)
      decreases 32 - top
    {
      EveryWordFits(mask);
      ghost var t := FindLowest(mask, 32);
      ExtractStep(x, mask0, mask, top, t, res);
      NextBit(mask0, mask, top, t);
      OneStep(steps);
      if Tests(x, LowestBit(mask)) {
        res := Joined(res, b);
      }
      mask := WithoutLowestBit(mask);
      b, steps, top := Double(b), steps + 1, t + 1;
    }
    ExtractDone(res, x, mask0, top);
  }

  lemma {:induction false} ExtractDone(res: Word, x: Word, mask: Word, top: nat)
    requires Peeled(mask, 0, top) && ExtractedBelow(res, x, mask, top)
    ensures Extracted(res, x, mask) && Rank(mask, top) == PopCount(mask)
  {
    hide Bit, Rank;
    AllPeeled(mask, top);
  }

  // ---- they undo each other ----

  /** Every count below the number of mask bits is the rank of a mask bit. */
  lemma {:induction false} NthBit(mask: Word, k: nat, n: nat) returns (i: nat)
    requires k < Rank(mask, n)
    ensures i < n && Bit(mask, i) && Rank(mask, i) == k
  {
    if k < Rank(mask, n - 1) {
      i := NthBit(mask, k, n - 1);
    } else {
      i := n - 1;
    }
  }

  /** What was deposited comes back out, as far as the mask has room for it. */
  lemma {:induction false} ExtractUndoesDeposit(x: Word, mask: Word, d: Word, e: Word)
    requires Deposited(d, x, mask) && Extracted(e, d, mask)
    ensures forall k: nat :: Bit(e, k) <==> k < PopCount(mask) && Bit(x, k)
  {
    hide Bit, Rank;
    forall k: nat | k < PopCount(mask)
      ensures Bit(e, k) <==> Bit(x, k)
    {
      var i := NthBit(mask, k, 32);
    }
  }

  /** In particular a value that fits is recovered. */
  lemma {:induction false} ExtractRecovers(x: Word, mask: Word, d: Word, e: Word)
    requires Deposited(d, x, mask) && Extracted(e, d, mask)
    ensures e == x <==> Fits(x, PopCount(mask))
  {
    hide Rank, Fits;
    ExtractUndoesDeposit(x, mask, d, e);
    if Fits(x, PopCount(mask)) {
      forall k: nat | PopCount(mask) <= k
        ensures !Bit(x, k)
      {
        NoBitsAbove(x, PopCount(mask), k);
      }
      SameBits(e, x);
    }
    if e == x {
      FewBitsFit(x, PopCount(mask));
    }
  }

  lemma {:induction false} FewBitsFit(x: Word, k: nat)
    requires forall i: nat :: k <= i ==> !Bit(x, i)
    ensures Fits(x, k)
    decreases k
  {
    hide Half, Odd, Fits;
    if k == 0 {
      forall i: nat
        ensures Bit(x, i) <==> Bit(0, i)
      {
        ZeroHasNoBits(i);
      }
      SameBits(x, 0);
      NothingFits();
    } else {
      forall i: nat | k - 1 <= i
        ensures !Bit(Half(x), i)
      {
        assert !Bit(x, i + 1);
      }
      FewBitsFit(Half(x), k - 1);
      DoubleFits(x, k);
    }
  }

  lemma {:induction false} NothingFits()
    ensures Fits(0, 0)
  {
  }

  lemma {:induction false} OnesBack(x: Word, w: Word)
    ensures Half(x) & !w == 0 ==> x & !((w << 1) | 1) == 0
  {
  }

  lemma {:induction false} DoubleFits(x: Word, k: nat)
    requires k > 0 && Fits(Half(x), k - 1)
    ensures Fits(x, k)
  {
    hide Half;
    OnesBack(x, Ones(k - 1));
  }

  /** Extracting and depositing again keeps exactly the bits under the mask. */
  lemma {:induction false} DepositUndoesExtract(x: Word, mask: Word, e: Word, d: Word)
    requires Extracted(e, x, mask) && Deposited(d, e, mask)
    ensures d == x & mask
  {
    forall i: nat
      ensures Bit(d, i) <==> Bit(x & mask, i)
    {
      BitOfAnd(x, mask, i);
    }
    SameBits(d, x & mask);
  }

  /** The descriptions leave no choice. */
  lemma {:induction false} DepositIsUnique(x: Word, mask: Word, d: Word, d': Word)
    requires Deposited(d, x, mask) && Deposited(d', x, mask)
    ensures d == d'
  {
    hide Bit, Rank;
    SameBits(d, d');
  }

  lemma {:induction false} ExtractIsUnique(x: Word, mask: Word, e: Word, e': Word)
    requires Extracted(e, x, mask) && Extracted(e', x, mask)
    ensures e == e'
  {
    hide Bit, Rank;
    forall k: nat
      ensures Bit(e, k) <==> Bit(e', k)
    {
      if k < PopCount(mask) {
        var i := NthBit(mask, k, 32);
      }
    }
    SameBits(e, e');
  }
}
