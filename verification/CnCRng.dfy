/** Two of the game generators: the rejection sampler of `CnCRng2` and the carry chain of `CnCRng4`. */
module CnCRng {
  import opened Arith
  import opened FullPeriod

  const MULTIPLIER: nat := 0x41C6_4E6D
  const INCREMENT: nat := 0x3039
  const WINDOW_BITS: nat := 25

  /** The low 25 bits of the seed; the draw reads nothing above them. */
  const WINDOW: nat := 0x200_0000

  function Draw(seed: nat): nat {
    seed % WINDOW / 0x400
  }

  /** The seed after n draws. */
  function SeedAfter(seed: nat, n: nat): nat {
    if n == 0 then seed else U32(SeedAfter(seed, n - 1) * MULTIPLIER + INCREMENT)
  }

  /** `std::countl_zero` of a 32-bit value. */
  function CountlZero(x: nat): (z: nat)
    requires x < B32
    ensures z <= 32 && x < Pow2(32 - z) && (x > 0 ==> z < 32 && Pow2(31 - z) <= x)
  {
    Pow2At16();
    BitWidthBound(x, 32);
    32 - BitWidth(x)
  }

  lemma QuotientIsNatural(x: nat, p: nat)
    requires p > 0
    ensures x / p >= 0
  {
    var q := x / p;
    assert x == p * q + x % p;
    MulMono(q, -1, p);
  }

  function ShiftRight(x: nat, n: nat): nat {
    QuotientIsNatural(x, Pow2(n));
    x / Pow2(n)
  }

  /**
   * The mask `~0u >> countl_zero(range & 0x7FFF)`. When the low 15 bits are zero the shift is by 32,
   * which the language leaves open: a machine gives 0 or ~0u, here `wide` less one.
   */
  function Mask(range: nat, wide: nat): nat
    requires wide >= 1
  {
    if range % 0x8000 == 0 then wide - 1 else ShiftRight(B32 - 1, CountlZero(range % 0x8000))
  }

  /** Bitwise and of unsigned numbers. */
  function BitAnd(a: nat, b: nat): nat {
    if a == 0 || b == 0 then 0 else 2 * BitAnd(a / 2, b / 2) + a % 2 * (b % 2)
  }

  /** The modulus that and-ing with the mask reduces to. */
  function MaskModulus(range: nat, wide: nat): (m: nat)
    requires wide >= 1
    ensures m >= 1
  {
    if range % 0x8000 == 0 then wide else Pow2(BitWidth(range % 0x8000))
  }

  predicate ShiftResult(wide: nat) {
    wide == 1 || wide == B32
  }

  /** The value a draw offers: the masked 15-bit output. */
  function Offer(range: nat, wide: nat, seed: nat): nat
    requires wide >= 1
  {
    Masked(range, wide, Draw(seed))
  }

  function Masked(range: nat, wide: nat, draw: nat): nat
    requires wide >= 1
  {
    draw % MaskModulus(range, wide)
  }

  /** The n-th seed after `seed` is the first whose offer is not above the range. */
  predicate FirstAccepted(range: nat, wide: nat, seed: nat, n: nat)
    requires wide >= 1
  {
    && n >= 1
    && Offer(range, wide, SeedAfter(seed, n)) <= range
    && forall i :: 1 <= i < n ==> Offer(range, wide, SeedAfter(seed, i)) > range
  }

  class CnCRng2 {
    var seed: nat

    predicate Valid()
      reads this
    {
      seed < B32
    }

    constructor ()
      ensures Valid() && seed == 0
    {
      seed := 0;
    }

    /** `(new_seed << 7) >> 17` on 32 bits keeps bits 10 to 24. */
    method RandInt() returns (r: nat)
      requires Valid()
      modifies this
      ensures Valid() && seed == SeedAfter(old(seed), 1)
      ensures r == Draw(seed) && r < 0x8000
    {
      var newSeed := U32(seed * MULTIPLIER + INCREMENT);
      seed := newSeed;
      r := U32(newSeed * 0x80) / 0x2_0000;
      assert SeedAfter(old(seed), 0) == old(seed);
      ShiftsAreWindow(newSeed);
    }

    /**
     * The range is sampled by rejection. For every pair of bounds the result is the first acceptable draw of
     * the stream, it comes within 2^25 draws, and it lies between the bounds in either order. `wide`
     * is the modulus a shift by 32 leaves; it plays no part for distances up to 32767.
     */
    method RandIntRange(min: int, max: int, wide: nat) returns (r: int)
      requires Valid() && Int32(min) && Int32(max) && ShiftResult(wide)
      modifies this
      ensures Valid()
      ensures min == max ==> r == min && seed == old(seed)
      ensures min != max ==>
        var lo, range := if min < max then min else max, if min < max then max - min else min - max;
        exists n: nat :: n <= WINDOW && FirstAccepted(range, wide, old(seed), n)
          && seed == SeedAfter(old(seed), n) && r == lo + Offer(range, wide, seed)
      ensures if min <= max then min <= r <= max else max <= r <= min
    {
      hide FirstAccepted, Offer, SeedAfter, S32, U32;
      if min == max {
        return min;
      }
      var lo, hi := min, max;
      if lo > hi {
        lo, hi := hi, lo;
      }
      var range := U32(hi - lo);
      U32Exact(hi - lo);
      var ret, n := Sample(range, wide);
      r := S32(ret + lo);
      InRange(ret + lo);
    }

    /** The rejection loop: mask a draw until it is not above the range. */
    method Sample(range: nat, wide: nat) returns (ret: nat, ghost n: nat)
      requires Valid() && range > 0 && ShiftResult(wide)
      modifies this
      ensures Valid() && n <= WINDOW && FirstAccepted(range, wide, old(seed), n)
      ensures seed == SeedAfter(old(seed), n) && ret == Offer(range, wide, seed) && ret <= range
    {
      hide FirstAccepted, NoneAccepted, Draw, MaskModulus, Mask, Masked, Offer;
      var mask := Mask(range, wide);
      ghost var limit := DrawsToZero(seed);
      ghost var start := seed;
      ret := MaskedDraw(range, wide, mask);
      n := 1;
      NoneYet(range, wide, start);
      while ret > range
        invariant Valid() && 1 <= n <= limit && seed == SeedAfter(start, n)
        invariant ret == Offer(range, wide, seed)
        invariant NoneAccepted(range, wide, start, n)
        decreases limit - n
      {
        ZeroIsAccepted(range, wide, start, limit);
        assert n < limit;
        ExtendNone(range, wide, start, n);
        ret := MaskedDraw(range, wide, mask);
        n := n + 1;
      }
      Accept(range, wide, start, n);
    }

    /** One turn of the loop: `rand_int() & mask`. */
    method MaskedDraw(range: nat, wide: nat, mask: nat) returns (ret: nat)
      requires Valid() && ShiftResult(wide) && mask == Mask(range, wide)
      modifies this
      ensures Valid() && seed == SeedAfter(old(seed), 1) && ret == Offer(range, wide, seed)
    {
      hide Mask, MaskModulus, Masked, Draw, BitAnd;
      ret := RandInt();
      AndIsMasked(range, wide, ret);
      ret := BitAnd(ret, mask);
    }
  }

  /** And-ing with n low ones is the remainder modulo 2^n. */
  lemma {:induction false} AndOnes(d: nat, n: nat)
    ensures BitAnd(d, Pow2(n) - 1) == d % Pow2(n)
  {
    hide Pow2, BitAnd;
    if n > 0 {
      AndOnes(d / 2, n - 1);
      DoubleOnce(n);
      var p := Pow2(n - 1);
      DoubleMod(d, p, Pow2(n));
      AndStep(d, p - 1, Pow2(n) - 1);
    } else {
      Pow2IsOne();
      NoOnes(d);
    }
  }

  lemma NoOnes(d: nat)
    ensures BitAnd(d, 0) == 0 == d % 1
  {
  }

  lemma AndStep(a: nat, h: nat, b: nat)
    requires b == 2 * h + 1
    ensures BitAnd(a, b) == 2 * BitAnd(a / 2, h) + a % 2
  {
    assert b / 2 == h && b % 2 == 1;
    assert a % 2 * (b % 2) == a % 2;
  }

  lemma DoubleMod(d: nat, p: nat, m: nat)
    requires p > 0 && m == 2 * p
    ensures d % m == 2 * (d / 2 % p) + d % 2
  {
    var q, r := d / 2 / p, d / 2 % p;
    assert d / 2 == q * p + r;
    assert 2 * (q * p + r) == q * (2 * p) + 2 * r;
    ModUnique(d, q, 2 * r + d % 2, m);
  }

  /** Shifting 32 ones leaves as many as the distance has bits. */
  lemma ShiftedOnes(n: nat)
    requires n <= 32
    ensures ShiftRight(B32 - 1, 32 - n) == Pow2(n) - 1
  {
    hide Pow2;
    var p, q := Pow2(n), Pow2(32 - n);
    Pow2At16();
    Pow2Add(n, 32 - n);
    assert (p - 1) * q + (q - 1) == p * q - 1;
    ModUnique(B32 - 1, p - 1, q - 1, q);
  }

  function MaskBits(range: nat, wide: nat): nat {
    if range % 0x8000 == 0 then if wide == 1 then 0 else 32 else BitWidth(range % 0x8000)
  }

  /** The mask is that many ones, for either result of a shift by 32. */
  lemma MaskIsOnes(range: nat, wide: nat)
    requires ShiftResult(wide)
    ensures Mask(range, wide) == MaskModulus(range, wide) - 1
    ensures MaskModulus(range, wide) == Pow2(MaskBits(range, wide))
  {
    var v := range % 0x8000;
    Pow2At16();
    Pow2IsOne();
    if v > 0 {
      BitWidthBound(v, 32);
      hide BitWidth, Pow2, ShiftRight;
      ShiftedOnes(BitWidth(v));
    }
  }

  lemma AndIsMasked(range: nat, wide: nat, d: nat)
    requires ShiftResult(wide)
    ensures BitAnd(d, Mask(range, wide)) == Masked(range, wide, d)
  {
    hide Mask, MaskModulus, BitAnd, Pow2;
    MaskIsOnes(range, wide);
    AndOnes(d, MaskBits(range, wide));
  }

  /** The modulus is the least power of two above the low 15 bits of the distance, unless those are zero. */
  lemma MaskIsLeast(range: nat, wide: nat)
    requires ShiftResult(wide)
    ensures var b, m := range % 0x8000, MaskModulus(range, wide);
      b > 0 ==> b < m <= 2 * b && MaskBits(range, wide) <= 15 && m == Pow2(MaskBits(range, wide))
  {
    var b := range % 0x8000;
    if b > 0 {
      Pow2At16();
      BitWidthBound(b, 15);
      DoubleOnce(BitWidth(b));
    }
  }

  /** How many of the draws below n are masked to a value in lo..hi. */
  function DrawsOffering(range: nat, wide: nat, lo: nat, hi: nat, n: nat): nat
    requires wide >= 1
  {
    if n == 0 then 0
    else DrawsOffering(range, wide, lo, hi, n - 1) + if lo <= Masked(range, wide, n - 1) <= hi then 1 else 0
  }

  /** The part of lo..hi below r. */
  function Part(lo: nat, hi: nat, r: nat): nat {
    if r <= lo then 0 else if r <= hi then r - lo else if lo <= hi then hi + 1 - lo else 0
  }

  lemma {:induction false} BlocksOfDraws(range: nat, wide: nat, lo: nat, hi: nat, q: nat, r: nat)
    requires ShiftResult(wide) && lo <= hi < MaskModulus(range, wide) && r <= MaskModulus(range, wide)
    ensures DrawsOffering(range, wide, lo, hi, q * MaskModulus(range, wide) + r)
         == q * (hi + 1 - lo) + Part(lo, hi, r)
    decreases q, r
  {
    hide MaskModulus, DrawsOffering;
    var m := MaskModulus(range, wide);
    if r > 0 {
      BlocksOfDraws(range, wide, lo, hi, q, r - 1);
      DrawsStep(range, wide, lo, hi, q, r - 1);
    } else if q > 0 {
      BlocksOfDraws(range, wide, lo, hi, q - 1, m);
      BlockSums(q, m, hi + 1 - lo);
    } else {
      NoDraws(range, wide, lo, hi);
    }
  }

  lemma NoDraws(range: nat, wide: nat, lo: nat, hi: nat)
    requires wide >= 1
    ensures DrawsOffering(range, wide, lo, hi, 0) == 0
  {
  }

  lemma DrawsStep(range: nat, wide: nat, lo: nat, hi: nat, q: nat, r: nat)
    requires wide >= 1 && r < MaskModulus(range, wide)
    ensures var n := q * MaskModulus(range, wide) + r;
      DrawsOffering(range, wide, lo, hi, n + 1)
      == DrawsOffering(range, wide, lo, hi, n) + if lo <= r <= hi then 1 else 0
  {
    hide MaskModulus;
    var m := MaskModulus(range, wide);
    var n := q * m + r;
    ModUnique(n, q, r, m);
    assert Masked(range, wide, n) == r;
    hide Masked;
  }

  lemma BlockSums(q: int, m: int, k: int)
    ensures (q - 1) * m + m == q * m + 0 && (q - 1) * k + k == q * k
  {
  }

  /**
   * For distances up to 32767 the sampler is fair, every value of the interval being offered by the same number
   * of the 2^15 draws, and more than half of the draws are accepted.
   */
  lemma SamplerIsFair(range: nat, wide: nat, v: nat)
    requires ShiftResult(wide) && 0 < range <= 32767 && v <= range
    ensures DrawsOffering(range, wide, v, v, 32768) == DrawsOffering(range, wide, 0, 0, 32768) > 0
    ensures DrawsOffering(range, wide, 0, range, 32768) == (range + 1) * DrawsOffering(range, wide, v, v, 32768)
    ensures DrawsOffering(range, wide, 0, range, 32768) > 16384
  {
    hide MaskModulus, DrawsOffering, Pow2;
    MaskIsLeast(range, wide);
    var m, n := MaskModulus(range, wide), MaskBits(range, wide);
    hide MaskBits;
    var q := Pow2(15 - n);
    BlocksFill(n);
    BlocksOfDraws(range, wide, v, v, q, 0);
    BlocksOfDraws(range, wide, 0, 0, q, 0);
    BlocksOfDraws(range, wide, 0, range, q, 0);
    HalfAccepted(q, m, range);
  }

  lemma BlocksFill(n: nat)
    requires n <= 15
    ensures Pow2(15 - n) * Pow2(n) == 32768
  {
    hide Pow2;
    Pow2At16();
    Pow2Add(15 - n, n);
  }

  lemma HalfAccepted(q: nat, m: nat, range: nat)
    requires q * m == 32768 && m <= 2 * range
    ensures q * m + 0 == 32768 && q * 1 == q && q > 0
    ensures q * (range + 1) == (range + 1) * q && q * (range + 1) > 16384
  {
    MulMono(m, 2 * range, q);
    MulMono(0, q, m);
    assert 2 * range * q == 2 * (range * q);
    assert (range + 1) * q == range * q + q;
  }

  /** For longer distances every draw is accepted: the first one. */
  lemma LongDistancesTakeTheFirst(range: nat, wide: nat, seed: nat)
    requires ShiftResult(wide) && range > 32767
    ensures FirstAccepted(range, wide, seed, 1)
  {
    OfferSmall(range, wide, SeedAfter(seed, 1));
  }

  /** The stream from seed 0, and what it gives for 0 to 5: the first draw, 12, is masked to 4. */
  lemma KnownStream(wide: nat)
    requires ShiftResult(wide)
    ensures SeedAfter(0, 1) == 12345 && SeedAfter(0, 2) == 3554416254 && SeedAfter(0, 3) == 2802067423
    ensures Draw(12345) == 12 && Draw(3554416254) == 30469 && Draw(2802067423) == 16649
    ensures FirstAccepted(5, wide, 0, 1) && Offer(5, wide, 12345) == 4
  {
    FirstSeeds();
    ThreeBits(wide);
    hide SeedAfter, MaskModulus;
  }

  lemma FirstSeeds()
    ensures SeedAfter(0, 1) == 12345 && SeedAfter(0, 2) == 3554416254 && SeedAfter(0, 3) == 2802067423
  {
    assert SeedAfter(0, 0) == 0;
    assert SeedAfter(0, 1) == 12345;
    assert SeedAfter(0, 2) == 3554416254;
  }

  lemma BitsOfFive()
    ensures BitWidth(5) == 3
  {
    hide Pow2;
    assert BitWidth(1) == 1;
    assert BitWidth(2) == 2;
  }

  lemma ThreeBits(wide: nat)
    requires wide >= 1
    ensures MaskModulus(5, wide) == 8
  {
    BitsOfFive();
    hide BitWidth;
    assert Pow2(2) == 4;
  }

  /** A step of the seed is undone by the inverse constants. */
  lemma SeedRecovered(seed: nat)
    requires seed < B32
    ensures (SeedAfter(seed, 1) - 12345) * 4005161829 % B32 == seed
  {
    var x := seed * MULTIPLIER + INCREMENT;
    var q: int, y: int := x / B32, U32(x);
    assert SeedAfter(seed, 0) == seed;
    InverseAlgebra(seed, q);
    ModUnique((y - 12345) * 4005161829, seed * 1029054899 - q * 4005161829, seed, B32);
  }

  lemma InverseAlgebra(s: int, q: int)
    ensures (s * MULTIPLIER + INCREMENT - q * B32 - 12345) * 4005161829
         == (s * 1029054899 - q * 4005161829) * B32 + s
  {
  }

  lemma InRange(x: int)
    requires Int32(x)
    ensures S32(x) == x
  {
  }

  ghost predicate NoneAccepted(range: nat, wide: nat, seed: nat, n: nat)
    requires wide >= 1
  {
    forall i :: 1 <= i < n ==> Offer(range, wide, SeedAfter(seed, i)) > range
  }

  lemma NoneYet(range: nat, wide: nat, seed: nat)
    requires wide >= 1
    ensures NoneAccepted(range, wide, seed, 1)
  {
  }

  lemma ExtendNone(range: nat, wide: nat, seed: nat, n: nat)
    requires wide >= 1 && NoneAccepted(range, wide, seed, n) && Offer(range, wide, SeedAfter(seed, n)) > range
    ensures NoneAccepted(range, wide, seed, n + 1)
  {
    hide Offer, SeedAfter;
  }

  lemma Accept(range: nat, wide: nat, seed: nat, n: nat)
    requires wide >= 1 && n >= 1 && NoneAccepted(range, wide, seed, n) && Offer(range, wide, SeedAfter(seed, n)) <= range
    ensures FirstAccepted(range, wide, seed, n)
  {
  }

  lemma ShiftsAreWindow(s: nat)
    requires s < B32
    ensures U32(s * 0x80) / 0x2_0000 == Draw(s) < 0x8000
  {
    var q, w := s / WINDOW, s % WINDOW;
    assert s * 0x80 == q * B32 + w * 0x80;
    assert U32(s * 0x80) == w * 0x80;
  }

  lemma WindowIsPower()
    ensures Pow2(WINDOW_BITS) == WINDOW
  {
    Pow2At16();
    Pow2Add(16, 8);
    assert Pow2(25) == 2 * Pow2(24);
  }

  /** The low 25 bits of the seed follow the same affine rule modulo 2^25. */
  lemma {:induction false} WindowOrbit(seed: nat, n: nat)
    ensures SeedAfter(seed, n) % WINDOW == Iterate(MULTIPLIER, INCREMENT, WINDOW, seed, n)
  {
    if n > 0 {
      WindowOrbit(seed, n - 1);
      var p := SeedAfter(seed, n - 1);
      assert WINDOW * 0x80 == B32;
      NarrowAfterWide(p * MULTIPLIER + INCREMENT);
      StepReduces(MULTIPLIER, INCREMENT, WINDOW, p);
    }
  }

  lemma NarrowAfterWide(x: int)
    ensures U32(x) % WINDOW == x % WINDOW
  {
    var q, r := x / B32, x % B32;
    var t, u := r / WINDOW, r % WINDOW;
    assert x == (q * 0x80 + t) * WINDOW + u;
    ModUnique(x, q * 0x80 + t, u, WINDOW);
  }

  /** Any low 25 bits come up within 2^25 draws. */
  lemma WindowReached(seed: nat, target: nat) returns (n: nat)
    requires target < WINDOW
    ensures 1 <= n <= WINDOW && SeedAfter(seed, n) % WINDOW == target
  {
    WindowIsPower();
    var first := SeedAfter(seed, 1);
    var i := ReachesEverything(MULTIPLIER, INCREMENT, WINDOW_BITS, first, target);
    WindowOrbit(first, i);
    SeedSum(seed, i);
    n := i + 1;
  }

  lemma {:induction false} SeedSum(seed: nat, i: nat)
    ensures SeedAfter(SeedAfter(seed, 1), i) == SeedAfter(seed, i + 1)
  {
    if i > 0 {
      SeedSum(seed, i - 1);
    }
  }

  lemma DrawsToZero(seed: nat) returns (n: nat)
    ensures 1 <= n <= WINDOW && Draw(SeedAfter(seed, n)) == 0
  {
    n := WindowReached(seed, 0);
  }

  lemma ZeroIsAccepted(range: nat, wide: nat, seed: nat, n: nat)
    requires wide >= 1 && Draw(SeedAfter(seed, n)) == 0
    ensures Offer(range, wide, SeedAfter(seed, n)) == 0
  {
  }

  /** Some draw of a full window offers v. */
  ghost predicate Offered(range: nat, wide: nat, seed: nat, v: nat)
    requires wide >= 1
  {
    exists n: nat :: 1 <= n <= WINDOW && Offer(range, wide, SeedAfter(seed, n)) == v
  }

  /**
   * The sampler can return every value of its interval, from every seed, exactly when the
   * interval spans at most 32767; above that the value 32768 past the lower end is never offered.
   */
  lemma EveryValueOffered(range: nat, wide: nat, seed: nat)
    requires range > 0 && ShiftResult(wide)
    ensures (forall v: nat :: v <= range ==> Offered(range, wide, seed, v)) <==> range < 0x8000
  {
    hide Offer, SeedAfter;
    if range < 0x8000 {
      forall v: nat | v <= range
        ensures Offered(range, wide, seed, v)
      {
        var n := WindowReached(seed, v * 0x400);
        OfferOf(range, wide, SeedAfter(seed, n), v);
      }
    } else {
      forall n: nat ensures Offer(range, wide, SeedAfter(seed, n)) < 0x8000 {
        OfferSmall(range, wide, SeedAfter(seed, n));
      }
      assert !Offered(range, wide, seed, 0x8000);
    }
  }

  lemma OfferOf(range: nat, wide: nat, s: nat, v: nat)
    requires wide >= 1 && 0 < range < 0x8000 && v <= range && s % WINDOW == v * 0x400
    ensures Offer(range, wide, s) == v
  {
    assert range % 0x8000 == range;
    assert Draw(s) == v;
    assert v < Pow2(BitWidth(range)) == MaskModulus(range, wide);
    hide MaskModulus;
    ModAtMost(v, MaskModulus(range, wide));
  }

  lemma OfferSmall(range: nat, wide: nat, s: nat)
    requires wide >= 1
    ensures Offer(range, wide, s) < 0x8000
  {
    hide MaskModulus;
    ModAtMost(Draw(s), MaskModulus(range, wide));
  }

  lemma ModAtMost(d: nat, m: nat)
    requires m > 0
    ensures d % m <= d
    ensures d < m ==> d % m == d
  {
  }

  // ---------- CnCRng4 ----------

  const WORDS: nat := 6
  const STATE_BITS: nat := 192

  /** 2^192, the number of states of the six words. */
  const STATES: nat := B64 * B64 * B64

  /** 1 + 2^32 + ... + 2^160. */
  const UNIT: nat := 1 + B32 + B64 + B64 * B32 + B64 * B64 + B64 * B64 * B32

  /** The six words read as one number, least significant word first. */
  function Number(t: seq<int>): int
    requires |t| == WORDS
  {
    t[0] + B32 * t[1] + B64 * t[2] + B64 * B32 * t[3] + B64 * B64 * t[4] + B64 * B64 * B32 * t[5]
  }

  predicate Words(t: seq<nat>) {
    |t| == WORDS && forall i :: 0 <= i < WORDS ==> t[i] < B32
  }

  /** `__builtin_addc`: sum and carry out of a 32-bit addition with carry in. */
  function AddCarry(x: nat, y: nat, carry: nat): (r: (nat, nat))
    requires x < B32 && y < B32 && carry <= 1
    ensures r.0 < B32 && r.1 <= 1 && r.0 + B32 * r.1 == x + y + carry
  {
    ((x + y + carry) % B32, (x + y + carry) / B32)
  }

  /** What one call does to the number. */
  function NextNumber(n: int): nat {
    ((n + 1) * UNIT) % STATES
  }

  /** The step that undoes it. */
  function PreviousNumber(n: int): nat {
    ((1 - B32) * n - 1) % STATES
  }

  class CnCRng4 {
    const table: array<nat>
    var seed: nat

    predicate Valid()
      reads this, table
    {
      Words(table[..])
    }

    constructor ()
      ensures Valid() && fresh(table) && seed == 0
      ensures table[..] == DEFAULT_TABLE
    {
      table := new nat[WORDS][0x6FDF_3B64, 0x9E35_3F7D, 0x0702_C49C, 0xC624_DD2F, 0x8831_26E9, 0xF22D_0E56];
      seed := 0;
    }

    method Initialize(s: nat)
      requires Valid() && s < B32
      modifies this, table
      ensures Valid() && table[..] == SeededWords(s) && seed == s
    {
      table[0] := U32(s + 0x6FDF_3B64);
      table[1] := U32(s + 0x9E35_3F7D);
      table[2] := U32(s + 0x0702_C49C);
      table[3] := U32(s + 0xC624_DD2F);
      table[4] := U32(s + 0x8831_26E9);
      table[5] := U32(s + 0xF22D_0E56);
      seed := s;
    }

    /** The running carry makes the six words one affine step modulo 2^192. */
    method RandUint() returns (r: nat)
      requires Valid()
      modifies table
      ensures Valid() && Number(table[..]) == NextNumber(Number(old(table[..])))
      ensures r == table[5]
    {
      ghost var t := table[..];
      var (value0, c0) := AddCarry(1, table[0], 0);
      table[0] := value0;
      var (value1, c1) := AddCarry(value0, table[1], c0);
      table[1] := value1;
      var (value2, c2) := AddCarry(value1, table[2], c1);
      table[2] := value2;
      var (value3, c3) := AddCarry(value2, table[3], c2);
      table[3] := value3;
      var (value4, c4) := AddCarry(value3, table[4], c3);
      table[4] := value4;
      var (value5, c5) := AddCarry(value4, table[5], c4);
      table[5] := value5;
      CarryChain(t, table[..], c0, c1, c2, c3, c4, c5);
      return value5;
    }
  }

  /** The words of a fresh generator. */
  const DEFAULT_TABLE: seq<nat> := [0x6FDF_3B64, 0x9E35_3F7D, 0x0702_C49C, 0xC624_DD2F, 0x8831_26E9, 0xF22D_0E56]

  function SeededWords(s: nat): seq<nat> {
    [U32(s + 0x6FDF_3B64), U32(s + 0x9E35_3F7D), U32(s + 0x0702_C49C),
     U32(s + 0xC624_DD2F), U32(s + 0x8831_26E9), U32(s + 0xF22D_0E56)]
  }

  /** Seeding adds the seed to every word of a fresh generator; with 0 it restores them. */
  lemma SeedingShiftsTheTable(s: nat)
    ensures |SeededWords(s)| == |DEFAULT_TABLE| == 6
    ensures forall i :: 0 <= i < 6 ==> SeededWords(s)[i] == U32(DEFAULT_TABLE[i] + s)
    ensures SeededWords(0) == DEFAULT_TABLE
  {
  }

  lemma NumberInRange(t: seq<nat>)
    requires Words(t)
    ensures 0 <= Number(t) < STATES
  {
  }

  /** The six additions telescope: (2^32 - 1) times the new number is the old one plus 1, negated. */
  lemma CarryChain(t: seq<nat>, v: seq<nat>, c0: nat, c1: nat, c2: nat, c3: nat, c4: nat, c5: nat)
    requires Words(t) && Words(v)
    requires v[0] + B32 * c0 == 1 + t[0]
    requires v[1] + B32 * c1 == v[0] + t[1] + c0
    requires v[2] + B32 * c2 == v[1] + t[2] + c1
    requires v[3] + B32 * c3 == v[2] + t[3] + c2
    requires v[4] + B32 * c4 == v[3] + t[4] + c3
    requires v[5] + B32 * c5 == v[4] + t[5] + c4
    ensures Number(v) == NextNumber(Number(t))
  {
    var top := v[5] + c5;
    Telescope(t, v, c0, c1, c2, c3, c4, c5);
    NumberInRange(v);
    hide Number, Words;
    UnitSolves(Number(t), Number(v), top);
  }

  lemma Telescope(t: seq<int>, v: seq<int>, c0: int, c1: int, c2: int, c3: int, c4: int, c5: int)
    requires |t| == |v| == WORDS
    requires v[0] + B32 * c0 == 1 + t[0]
    requires v[1] + B32 * c1 == v[0] + t[1] + c0
    requires v[2] + B32 * c2 == v[1] + t[2] + c1
    requires v[3] + B32 * c3 == v[2] + t[3] + c2
    requires v[4] + B32 * c4 == v[3] + t[4] + c3
    requires v[5] + B32 * c5 == v[4] + t[5] + c4
    ensures Number(v) - B32 * Number(v) == Number(t) + 1 - STATES * (v[5] + c5)
  {
  }

  /** 1 - 2^32 and UNIT are inverse modulo 2^192. */
  lemma UnitSolves(n: int, w: int, top: int)
    requires 0 <= w < STATES && w - B32 * w == n + 1 - STATES * top
    ensures w == NextNumber(n)
  {
    assert (n + 1) * UNIT == (top * UNIT - w) * STATES + w;
    ModUnique((n + 1) * UNIT, top * UNIT - w, w, STATES);
  }

  /** The step is a bijection on the 2^192 states. */
  lemma StepInvertible(n: nat)
    requires n < STATES
    ensures PreviousNumber(NextNumber(n)) == n && NextNumber(PreviousNumber(n)) == n
  {
    var z: int := n;
    var q: int := (z + 1) * UNIT / STATES;
    var m: int := NextNumber(n);
    var back: int := -z - 1 - (1 - B32) * q;
    assert (z + 1) * UNIT == q * STATES + m;
    assert (1 - B32) * m - 1 == back * STATES + z;
    ModUnique((1 - B32) * m - 1, back, n, STATES);
    var p: int := ((1 - B32) * z - 1) / STATES;
    var k: int := PreviousNumber(n);
    var forth: int := -z - p * UNIT;
    assert (1 - B32) * z - 1 == p * STATES + k;
    assert (k + 1) * UNIT == forth * STATES + z;
    ModUnique((k + 1) * UNIT, forth, n, STATES);
  }

  /** Different words are different numbers. */
  lemma NumberInjective(t: seq<nat>, v: seq<nat>)
    requires Words(t) && Words(v) && Number(t) == Number(v)
    ensures t == v
  {
    var t4, v4 := t[4] + B32 * t[5], v[4] + B32 * v[5];
    var t3, v3 := t[3] + B32 * t4, v[3] + B32 * v4;
    var t2, v2 := t[2] + B32 * t3, v[2] + B32 * v3;
    var t1, v1 := t[1] + B32 * t2, v[1] + B32 * v2;
    LowWordEqual(t[0], t1, v[0], v1);
    LowWordEqual(t[1], t2, v[1], v2);
    LowWordEqual(t[2], t3, v[2], v3);
    LowWordEqual(t[3], t4, v[3], v4);
    LowWordEqual(t[4], t[5], v[4], v[5]);
  }

  lemma LowWordEqual(a: nat, x: nat, b: nat, y: nat)
    requires a < B32 && b < B32 && a + B32 * x == b + B32 * y
    ensures a == b && x == y
  {
  }

  /** The number after n calls. */
  function NumberAfter(start: nat, n: nat): nat {
    if n == 0 then start else NextNumber(NumberAfter(start, n - 1))
  }

  lemma {:induction false} CallsIterate(start: nat, n: nat)
    requires start < STATES
    ensures NumberAfter(start, n) == Iterate(UNIT, UNIT, STATES, start, n)
  {
    if n > 0 {
      CallsIterate(start, n - 1);
      var p := NumberAfter(start, n - 1);
      assert (p + 1) * UNIT == UNIT * p + UNIT;
    }
  }

  /** The lowest word counts the calls. */
  lemma {:induction false} LowWordCounts(start: nat, n: nat)
    ensures NumberAfter(start, n) % B32 == (start + n) % B32
  {
    if n > 0 {
      LowWordCounts(start, n - 1);
      var p := NumberAfter(start, n - 1);
      LowWordStep(p);
      AddsOne(p, start + n - 1);
    }
  }

  lemma LowWordStep(p: nat)
    ensures NextNumber(p) % B32 == (p + 1) % B32
  {
    var x := (p + 1) * UNIT;
    var k := x / STATES;
    var c := 1 + B32 + B64 + B64 * B32 + B64 * B64;
    var q, r := (p + 1) / B32, (p + 1) % B32;
    assert NextNumber(p) == (p + 1) + B32 * (c * (p + 1)) - STATES * k;
    assert STATES * k == B32 * (B32 * B64 * B64 * k);
    assert p + 1 == q * B32 + r;
    assert NextNumber(p) == (q + c * (p + 1) - B32 * B64 * B64 * k) * B32 + r;
    ModUnique(NextNumber(p), q + c * (p + 1) - B32 * B64 * B64 * k, r, B32);
  }

  lemma AddsOne(x: nat, y: nat)
    requires x % B32 == y % B32
    ensures (x + 1) % B32 == (y + 1) % B32
  {
  }

  lemma StatesIsPower()
    ensures Pow2(STATE_BITS) == STATES && UNIT % 4 == 1
  {
    hide Pow2;
    Pow2At16();
    Pow2Add(64, 64);
    Pow2Add(128, 64);
  }

  /** The period is exactly 2^192: two calls leave the same state only when 2^192 divides their distance. */
  lemma PeriodIsExact(start: nat, i: nat, j: nat)
    requires start < STATES && i <= j
    ensures NumberAfter(start, i) == NumberAfter(start, j) <==> (j - i) % STATES == 0
  {
    StatesIsPower();
    CallsIterate(start, i);
    CallsIterate(start, j);
    RepeatsExactly(UNIT, UNIT, STATE_BITS, start, i, j);
  }

  /** All seeds lie on the one cycle: any seeded stream is a later part of any other. */
  lemma SeedsShareOneCycle(s: nat, t: nat) returns (n: nat)
    requires s < B32 && t < B32
    ensures n < STATES && NumberAfter(Number(SeededWords(s)), n) == Number(SeededWords(t))
    ensures n == 0 <==> s == t
  {
    hide Number, SeededWords, Iterate, Pow2;
    StatesIsPower();
    SeedStart(s);
    SeedStart(t);
    n := ReachesEverything(UNIT, UNIT, STATE_BITS, Number(SeededWords(s)), Number(SeededWords(t)));
    CallsIterate(Number(SeededWords(s)), n);
    PeriodIsExact(Number(SeededWords(s)), 0, n);
    ModAtMost(n, STATES);
    if n == 0 {
      SeedsDiffer(s, t);
    }
  }

  lemma SeedStart(s: nat)
    ensures Words(SeededWords(s)) && 0 <= Number(SeededWords(s)) < STATES
  {
    hide Number;
    NumberInRange(SeededWords(s));
  }

  lemma SeedsDiffer(s: nat, t: nat)
    requires s < B32 && t < B32 && Number(SeededWords(s)) == Number(SeededWords(t))
    ensures s == t
  {
    SeedStart(s);
    SeedStart(t);
    hide Number, Words;
    NumberInjective(SeededWords(s), SeededWords(t));
    SeedingShiftsTheTable(s);
    SeedingShiftsTheTable(t);
    hide SeededWords, U32;
    SameSum(s, t, DEFAULT_TABLE[0]);
  }

  lemma SameSum(s: nat, t: nat, c: nat)
    requires s < B32 && t < B32 && U32(s + c) == U32(t + c)
    ensures s == t
  {
  }
}
