/** The bit buffer of the LZSS decoder: most significant bit first, zeros past the end. */
module BitReader {
  import opened Arith

  /** Bit `i` of the source, counting from the top bit of the first byte; zero past the end. */
  function Bit(src: seq<Byte>, i: nat): (b: nat)
    ensures b <= 1
  {
    if i / 8 < |src| then src[i / 8] / Pow2(7 - i % 8) % 2 else 0
  }

  /** The `n` bits from `pos` on, as a number. */
  function Bits(src: seq<Byte>, pos: nat, n: nat): (v: nat)
    ensures v < Pow2(n)
  {
    if n == 0 then 0 else 2 * Bits(src, pos, n - 1) + Bit(src, pos + n - 1)
  }

  lemma {:induction false} BitsSplit(src: seq<Byte>, pos: nat, m: nat, n: nat)
    ensures Bits(src, pos, m + n) == Bits(src, pos, m) * Pow2(n) + Bits(src, pos + m, n)
  {
    hide Bits, Pow2;
    if n > 0 {
      BitsSplit(src, pos, m, n - 1);
      BitsStep(src, pos, m + n);
      BitsStep(src, pos + m, n);
      DoubleOnce(n);
      SplitAlgebra(Bits(src, pos, m), Pow2(n - 1), Bits(src, pos + m, n - 1), Bit(src, pos + m + n - 1));
    } else {
      Pow2IsOne();
      NoBits(src, pos + m);
    }
  }

  lemma NoBits(src: seq<Byte>, pos: nat)
    ensures Bits(src, pos, 0) == 0
  {
  }

  lemma BitsStep(src: seq<Byte>, pos: nat, n: nat)
    requires n > 0
    ensures Bits(src, pos, n) == 2 * Bits(src, pos, n - 1) + Bit(src, pos + n - 1)
  {
  }

  lemma SplitAlgebra(h: int, p: int, l: int, e: int)
    ensures 2 * (h * p + l) + e == h * (2 * p) + (2 * l + e)
  {
  }

  /** Reading on from a byte boundary gives the byte, or zero past the end. */
  function ByteAt(src: seq<Byte>, k: nat): Byte {
    if k < |src| then src[k] else 0
  }

  lemma {:induction false} BitsOfByte(src: seq<Byte>, k: nat, n: nat)
    requires n <= 8
    ensures Bits(src, 8 * k, n) == ByteAt(src, k) / Pow2(8 - n)
  {
    var b := ByteAt(src, k);
    if n == 0 {
      Pow2At16();
    } else {
      BitsOfByte(src, k, n - 1);
      assert (8 * k + n - 1) / 8 == k && (8 * k + n - 1) % 8 == n - 1;
      HalfAndBit(b, Pow2(8 - n));
      assert Pow2(8 - (n - 1)) == 2 * Pow2(8 - n);
    }
  }

  lemma HalfAndBit(b: nat, p: nat)
    requires p > 0
    ensures 2 * (b / (2 * p)) + b / p % 2 == b / p
  {
    var q := b / p;
    var h, e, r := q / 2, q % 2, b % p;
    assert b == p * q + r;
    assert p * q == h * (2 * p) + e * p;
    ModUnique(b, h, e * p + r, 2 * p);
  }

  /** Bitwise or of unsigned numbers. */
  function BitOr(a: nat, b: nat): nat {
    if a == 0 then b
    else if b == 0 then a
    else 2 * BitOr(a / 2, b / 2) + if a % 2 == 1 || b % 2 == 1 then 1 else 0
  }

  /** Or-ing below the lowest set bit is addition. */
  lemma {:induction false} OrIsSum(h: nat, k: nat, b: nat)
    requires b < Pow2(k)
    ensures BitOr(h * Pow2(k), b) == h * Pow2(k) + b
  {
    var a := h * Pow2(k);
    if a != 0 && b != 0 {
      assert Pow2(k) == 2 * Pow2(k - 1);
      assert a == 2 * (h * Pow2(k - 1));
      OrIsSum(h, k - 1, b / 2);
    }
  }

  /** The decoder's bit buffer, with the two local lambdas of the source as methods. */
  class Reader {
    const src: seq<Byte>
    var srcPos: nat
    var bitBuf: nat
    var bitCount: nat
    /** Bytes fed into the buffer so far, the zeros past the end included. */
    ghost var fed: nat

    ghost predicate Valid()
      reads this
    {
      && srcPos == (if fed <= |src| then fed else |src|)
      && bitCount <= 25 && bitCount <= 8 * fed
      && bitBuf == Bits(src, Position(), bitCount) * Pow2(32 - bitCount)
    }

    /** The number of bits delivered so far. */
    ghost function Position(): nat
      reads this
    {
      if bitCount <= 8 * fed then 8 * fed - bitCount else 0
    }

    constructor (source: seq<Byte>)
      ensures src == source && Valid() && Position() == 0 && bitCount == 0
    {
      src := source;
      srcPos, bitBuf, bitCount, fed := 0, 0, 0, 0;
    }

    method Refill(count: nat)
      requires Valid() && count <= 18
      modifies this
      ensures Valid() && Position() == old(Position()) && bitCount >= count
      ensures bitCount >= old(bitCount) && bitBuf < B32
    {
      hide Bits, Pow2, BitOr, U32, ByteAt;
      while bitCount < count
        invariant Valid() && Position() == old(Position()) && bitCount >= old(bitCount)
        decreases count - bitCount
      {
        var c := ByteAt(src, srcPos);
        FeedByte(src, Position(), bitCount, fed, bitBuf);
        bitBuf := BitOr(bitBuf, U32(c * Pow2(24 - bitCount)));
        if srcPos != |src| {
          srcPos := srcPos + 1;
        }
        bitCount := bitCount + 8;
        fed := fed + 1;
      }
      BufferFits(src, Position(), bitCount, bitBuf);
    }

    method GetBits(count: nat) returns (r: nat)
      requires Valid() && 1 <= count <= bitCount
      modifies this
      ensures Valid() && Position() == old(Position()) + count && bitCount == old(bitCount) - count
      ensures r == Bits(src, old(Position()), count)
    {
      hide Bits, Pow2, U32;
      TakeTop(src, Position(), bitCount, count, bitBuf);
      r := bitBuf / Pow2(32 - count);
      bitBuf := U32(bitBuf * Pow2(count));
      bitCount := bitCount - count;
    }
  }

  /** Or-ing the next byte below the bits already held appends it to them. */
  lemma FeedByte(src: seq<Byte>, pos: nat, held: nat, fed: nat, buf: nat)
    requires held < 18 && 8 * fed == pos + held && buf == Bits(src, pos, held) * Pow2(32 - held)
    ensures var c := ByteAt(src, if fed <= |src| then fed else |src|);
            BitOr(buf, U32(c * Pow2(24 - held))) == Bits(src, pos, held + 8) * Pow2(24 - held)
  {
    hide Bits, Pow2, BitOr, U32;
    BitsSplit(src, pos, held, 8);
    WholeByte(src, fed, pos + held);
    OrInByte(Bits(src, pos, held), ByteAt(src, fed), held, buf);
  }

  lemma WholeByte(src: seq<Byte>, k: nat, pos: nat)
    requires pos == 8 * k
    ensures Bits(src, pos, 8) == ByteAt(src, k)
    ensures ByteAt(src, k) == ByteAt(src, if k <= |src| then k else |src|)
  {
    hide Bits, Pow2;
    BitsOfByte(src, k, 8);
    Pow2IsOne();
  }

  lemma OrInByte(h: nat, c: Byte, held: nat, buf: nat)
    requires held <= 24 && buf == h * Pow2(32 - held)
    ensures BitOr(buf, U32(c * Pow2(24 - held))) == (h * Pow2(8) + c) * Pow2(24 - held)
  {
    hide Pow2, BitOr, U32;
    var p := Pow2(24 - held);
    EightUp(24 - held);
    ByteInPlace(c, held);
    OrIsSum(h, 32 - held, c * p);
    FeedAlgebra(h, p, c);
  }

  lemma EightUp(n: nat)
    ensures Pow2(n + 8) == 256 * Pow2(n) && Pow2(8) == 256
  {
    hide Pow2;
    Pow2At16();
    Pow2Add(8, n);
  }

  lemma FeedAlgebra(h: int, p: int, c: int)
    ensures h * (256 * p) + c * p == (h * 256 + c) * p
  {
  }

  lemma ByteInPlace(c: Byte, held: nat)
    requires held <= 24
    ensures U32(c * Pow2(24 - held)) == c * Pow2(24 - held) < Pow2(32 - held)
  {
    hide Pow2, U32;
    EightUp(24 - held);
    Pow2At16();
    Pow2Monotone(32 - held, 32);
    ByteTimes(c, Pow2(24 - held), Pow2(32 - held));
  }

  lemma ByteTimes(c: Byte, p: nat, w: nat)
    requires p > 0 && w == 256 * p <= B32
    ensures U32(c * p) == c * p < w
  {
    MulMono(0, c, p);
    MulMono(c, 255, p);
    ModUnique(c * p, 0, c * p, B32);
  }

  lemma BufferFits(src: seq<Byte>, pos: nat, held: nat, buf: nat)
    requires held <= 32 && buf == Bits(src, pos, held) * Pow2(32 - held)
    ensures buf < B32
  {
    hide Bits, Pow2;
    Pow2Add(held, 32 - held);
    Pow2At16();
    MulMono(Bits(src, pos, held), Pow2(held), Pow2(32 - held));
  }

  /** Shifting down by 32 - n reads the top n bits; shifting up by n drops them. */
  lemma TakeTop(src: seq<Byte>, pos: nat, held: nat, n: nat, buf: nat)
    requires 1 <= n <= held <= 32 && buf == Bits(src, pos, held) * Pow2(32 - held)
    ensures buf / Pow2(32 - n) == Bits(src, pos, n)
    ensures U32(buf * Pow2(n)) == Bits(src, pos + n, held - n) * Pow2(32 - (held - n))
  {
    hide Bits, Pow2;
    var h, l := Bits(src, pos, n), Bits(src, pos + n, held - n);
    var up, low, rest := Pow2(n), Pow2(held - n), Pow2(32 - held);
    BitsSplit(src, pos, n, held - n);
    Pow2Add(held - n, 32 - held);
    Pow2Add(n, 32 - held);
    Pow2Add(n, 32 - n);
    Pow2At16();
    hide U32;
    TopPart(buf, h, l, low, rest);
    DropTop(buf, h, l, up, low, rest);
  }

  lemma TopPart(buf: nat, h: nat, l: nat, low: nat, rest: nat)
    requires buf == (h * low + l) * rest && l < low && rest > 0
    ensures 0 < low * rest && buf / (low * rest) == h
  {
    assert (h * low + l) * rest == h * (low * rest) + l * rest;
    MulMono(l, low, rest);
    ModUnique(buf, h, l * rest, low * rest);
  }

  lemma DropTop(buf: nat, h: nat, l: nat, up: nat, low: nat, rest: nat)
    requires buf == (h * low + l) * rest && l < low && rest > 0 && up > 0
    requires up * (low * rest) == B32
    ensures U32(buf * up) == l * (up * rest)
  {
    DropAlgebra(h, l, up, low, rest);
    MulMono(l, low, up * rest);
    assert low * (up * rest) == up * (low * rest);
    assert l * (up * rest) >= 0;
    ModUnique(buf * up, h, l * (up * rest), B32);
  }

  lemma DropAlgebra(h: int, l: int, up: int, low: int, rest: int)
    ensures (h * low + l) * rest * up == h * (up * (low * rest)) + l * (up * rest)
  {
    assert (h * low + l) * rest * up == (h * low) * rest * up + l * rest * up;
    assert (h * low) * rest * up == h * (up * (low * rest));
    assert l * rest * up == l * (up * rest);
  }
}
