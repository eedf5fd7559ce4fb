/**
 * The prefix length of a netmask, counted by clearing its set bits one at a time
 * (src/IpInstance.cpp:113-121).
 */
module Netmask {
  import opened Machine

  predicate IsOdd(m: Word) {
    m & 1 == 1
  }

  function Half(m: Word): Word {
    m >> 1
  }

  function Twice(m: Word): Word {
    m << 1
  }

  /** The word with its least significant set bit cleared. */
  function Clear(m: Word): Word {
    m & (m - 1)
  }

  // What the four operations have to do with one another, one bit-vector fact per lemma.

  lemma HalfIsLess(m: Word)
    requires m != 0
    ensures Half(m) < m
  {
  }

  lemma ClearIsLess(m: Word)
    requires m != 0
    ensures Clear(m) < m
  {
  }

  lemma ClearIsEven(m: Word)
    requires IsOdd(m)
    ensures !IsOdd(Clear(m))
  {
  }

  lemma ClearStaysEven(m: Word)
    requires !IsOdd(m)
    ensures !IsOdd(Clear(m))
  {
  }

  lemma HalfOfClearOdd(m: Word)
    requires IsOdd(m)
    ensures Half(Clear(m)) == Half(m)
  {
  }

  lemma HalfOfClearEven(m: Word)
    requires m != 0 && !IsOdd(m)
    ensures Half(Clear(m)) == Clear(Half(m))
  {
  }

  lemma HalfOfEven(m: Word)
    requires m != 0 && !IsOdd(m)
    ensures Half(m) != 0
  {
  }

  lemma HalfKeepsOrder(m: Word, b: Word)
    requires m <= b
    ensures Half(m) <= Half(b)
  {
  }

  lemma ClearOfTwice(m: Word)
    ensures Clear(Twice(m)) == Twice(Clear(m))
  {
  }

  lemma OnlyZeroIsBelow(m: Word)
    requires m <= 0
    ensures m == 0
  {
  }

  lemma HalfOfZero()
    ensures Half(0) == 0 && !IsOdd(0)
  {
  }

  /** The number of set bits: the reference, which looks at every bit position. */
  function PopCount(m: Word): (n: nat)
    decreases m
  {
    if m == 0 then 0 else
    HalfIsLess(m);
    (if IsOdd(m) then 1 else 0) + PopCount(Half(m))
  }

  lemma PopCountUnfolds(m: Word)
    ensures PopCount(m) == (if IsOdd(m) then 1 else 0) + PopCount(Half(m))
  {
    hide IsOdd, Half;
    HalfOfZero();
  }

  /** Clearing the lowest set bit takes exactly one from the count. */
  lemma {:induction false} ClearTakesOne(m: Word)
    requires m != 0
    ensures PopCount(m) == PopCount(Clear(m)) + 1
    decreases m
  {
    hide IsOdd, Half, Clear, PopCount;
    PopCountUnfolds(m);
    PopCountUnfolds(Clear(m));
    if IsOdd(m) {
      ClearIsEven(m);
      HalfOfClearOdd(m);
    } else {
      ClearStaysEven(m);
      HalfOfClearEven(m);
      HalfOfEven(m);
      HalfIsLess(m);
      ClearTakesOne(Half(m));
    }
  }

  /** The number of positions up to the highest set bit. */
  function Width(m: Word): (n: nat)
    decreases m
  {
    if m == 0 then 0 else
    HalfIsLess(m);
    1 + Width(Half(m))
  }

  lemma {:induction false} CountFits(m: Word, b: Word)
    requires m <= b
    ensures PopCount(m) <= Width(b)
    decreases b
  {
    hide IsOdd, Half, PopCount, Width;
    if b == 0 {
      OnlyZeroIsBelow(m);
      PopCountOfZero();
    } else {
      PopCountUnfolds(m);
      WidthUnfolds(b);
      HalfKeepsOrder(m, b);
      HalfIsLess(b);
      CountFits(Half(m), Half(b));
    }
  }

  lemma WidthUnfolds(m: Word)
    requires m != 0
    ensures Width(m) == 1 + Width(Half(m))
  {
    hide Half;
  }

  lemma WidthOfOnes(b: Word, shorter: Word)
    requires b != 0 && Half(b) != 0 && Half(Half(b)) != 0 && Half(Half(Half(b))) != 0
    requires Half(Half(Half(Half(b)))) == shorter
    ensures Width(b) == 4 + Width(shorter)
  {
    hide Half;
    assert Width(Half(b)) == 1 + Width(Half(Half(b)));
    assert Width(Half(Half(Half(b)))) == 1 + Width(shorter);
  }

  lemma WordHas32Bits()
    ensures Width(0xFFFF_FFFF) == 32
  {
    hide Width;
    WidthOfZero();
    WidthOfOnes(0xF, 0);
    WidthOfOnes(0xFF, 0xF);
    WidthOfOnes(0xFFF, 0xFF);
    WidthOfOnes(0xFFFF, 0xFFF);
    WidthOfOnes(0xF_FFFF, 0xFFFF);
    WidthOfOnes(0xFF_FFFF, 0xF_FFFF);
    WidthOfOnes(0xFFF_FFFF, 0xFF_FFFF);
    WidthOfOnes(0xFFFF_FFFF, 0xFFF_FFFF);
  }

  lemma WidthOfZero()
    ensures Width(0) == 0
  {
  }

  /** The loop of ipMaskCidrGet: it ends, with the number of set bits, which fits the byte that counts them. */
  method CountBits(ipMask: Word) returns (count: nat)
    ensures count == PopCount(ipMask) <= 32
  {
    hide IsOdd, Half, Clear, PopCount;
    var mask := ipMask;
    count := 0;
    PopCountOfZero();
    while mask != 0
      invariant count + PopCount(mask) == PopCount(ipMask)
      decreases mask
    {
      ClearTakesOne(mask);
      ClearIsLess(mask);
      mask := Clear(mask);
      count := count + 1;
    }
    AtMost32(ipMask);
  }

  lemma PopCountOfZero()
    ensures PopCount(0) == 0
  {
  }

  lemma AtMost32(m: Word)
    ensures PopCount(m) <= 32
  {
    hide PopCount, Width;
    CountFits(m, 0xFFFF_FFFF);
    WordHas32Bits();
  }

  /** The mask of k leading ones: all ones, shifted up 32 - k times. */
  function LeadingOnes(k: nat): Word
    requires k <= 32
    decreases 32 - k
  {
    if k == 32 then 0xFFFF_FFFF else Twice(LeadingOnes(k + 1))
  }

  lemma {:induction false} ClearOfLeadingOnes(k: nat)
    requires 0 < k <= 32
    ensures Clear(LeadingOnes(k)) == LeadingOnes(k - 1)
    decreases 32 - k
  {
    if k == 32 {
      assert Clear(0xFFFF_FFFF) == Twice(0xFFFF_FFFF);
    } else {
      hide Clear, Twice;
      ClearOfTwice(LeadingOnes(k + 1));
      ClearOfLeadingOnes(k + 1);
    }
  }

  lemma FewLeadingOnes()
    ensures LeadingOnes(1) == 0x8000_0000 && LeadingOnes(0) == 0
  {
    assert LeadingOnes(24) == 0xFFFF_FF00;
    assert LeadingOnes(16) == 0xFFFF_0000;
    assert LeadingOnes(8) == 0xFF00_0000;
  }

  lemma ClearOfZero()
    ensures Clear(0) == 0
  {
  }

  /** For the mask of k leading ones the count is the prefix length k. */
  lemma {:induction false} PrefixLength(k: nat)
    requires k <= 32
    ensures PopCount(LeadingOnes(k)) == k
    ensures k > 0 ==> LeadingOnes(k) != 0
  {
    hide LeadingOnes, PopCount, Clear;
    FewLeadingOnes();
    if k == 0 {
      PopCountOfZero();
    } else {
      PrefixLength(k - 1);
      ClearOfLeadingOnes(k);
      ClearOfZero();
      ClearTakesOne(LeadingOnes(k));
    }
  }
}
