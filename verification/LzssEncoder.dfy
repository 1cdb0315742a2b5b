/**
 * What an LZSS stream means, independently of any decoder: the bit fields a list of items is written in, the bytes
 * that list stands for, and the proof that decoding the one gives the other. Every source is such a stream.
 */
module LzssEncoder {
  import opened Arith
  import opened BitReader
  import opened Lzss

  /** A literal byte, or a match given by the ring slot it starts at and its length. */
  datatype Item = Literal(c: Byte) | Match(offset: nat, length: nat)

  predicate Fits(t: Item) {
    t.Match? ==> 1 <= t.offset <= 8191 && 3 <= t.length <= 18
  }

  predicate Encodable(items: seq<Item>) {
    forall i :: 0 <= i < |items| ==> Fits(items[i])
  }

  type Binary = b: nat | b < 2

  /** The low n bits of v, most significant first. */
  function Field(v: nat, n: nat): (bits: seq<Binary>)
    ensures |bits| == n
  {
    if n == 0 then [] else Field(v / 2, n - 1) + [v % 2]
  }

  /** 1 and 8 bits for a literal; 0, 13 and 4 bits for a match, the length less 3; 0 and 13 zeros at the end. */
  function ItemBits(t: Item): seq<Binary>
    requires Fits(t)
  {
    match t
    case Literal(c) => [1] + Field(c, 8)
    case Match(offset, length) => [0] + Field(offset, 13) + Field(length - 3, 4)
  }

  function Encode(items: seq<Item>): seq<Binary>
    requires Encodable(items)
  {
    if items == [] then [0] + Field(0, 13) else ItemBits(items[0]) + Encode(items[1..])
  }

  /** Append n bytes, each a copy of the one that lies d back from where it goes. */
  function Repeat(out: seq<Byte>, d: nat, n: nat): (o: seq<Byte>)
    requires 1 <= d <= |out|
    ensures |o| == |out| + n && out <= o
    ensures forall i :: |out| <= i < |o| ==> o[i] == o[i - d]
  {
    if n == 0 then out else
      var o := Repeat(out, d, n - 1);
      o + [o[|o| - d]]
  }

  /**
   * The bytes a list of items stands for after `out`. Slot 1 of the 8192-byte window takes the first byte, so a match
   * at slot s lies 1 + (p - s) mod 8192 back when p bytes are out; None when that is more than there are.
   */
  function Expand(items: seq<Item>, out: seq<Byte>): Option<seq<Byte>>
    decreases |items|
  {
    if items == [] then Some(out)
    else match items[0]
      case Literal(c) => Expand(items[1..], out + [c])
      case Match(offset, length) =>
        var d := 1 + (|out| - offset) % 8192;
        if d > |out| then None else Expand(items[1..], Repeat(out, d, length))
  }

  /** Every distance the window reaches has its slot. */
  lemma SlotOfDistance(p: nat, d: nat)
    requires 1 <= d <= 8192
    ensures 1 + (p - (p + 1 - d) % 8192) % 8192 == d
  {
    var q := (p + 1 - d) / 8192;
    var x: int := p - (p + 1 - d) % 8192;
    assert x == q * 8192 + (d - 1);
    ModUnique(x, q, d - 1, 8192);
  }

  // ---------- reading fields back ----------

  /** These bits stand in the source from `pos` on. */
  predicate BitsAt(src: seq<Byte>, pos: nat, bits: seq<Binary>) {
    forall i :: 0 <= i < |bits| ==> Bit(src, pos + i) == bits[i]
  }

  lemma BitsAtSplit(src: seq<Byte>, pos: nat, a: seq<Binary>, b: seq<Binary>)
    ensures BitsAt(src, pos, a + b) <==> BitsAt(src, pos, a) && BitsAt(src, pos + |a|, b)
  {
    hide Bit;
    if BitsAt(src, pos, a + b) {
      assert forall i :: 0 <= i < |a| ==> (a + b)[i] == a[i];
      forall i | 0 <= i < |b| ensures Bit(src, pos + |a| + i) == b[i] {
        assert (a + b)[|a| + i] == b[i];
      }
    }
  }

  lemma {:induction false} FieldReads(src: seq<Byte>, pos: nat, v: nat, n: nat)
    requires v < Pow2(n)
    ensures BitsAt(src, pos, Field(v, n)) <==> Bits(src, pos, n) == v
  {
    hide Bit;
    if n == 0 {
      NoBits(src, pos);
    } else {
      FieldReads(src, pos, v / 2, n - 1);
      BitsAtSplit(src, pos, Field(v / 2, n - 1), [v % 2]);
      BitsStep(src, pos, n);
      FirstBit(src, pos + (n - 1), v % 2);
      hide Bits, Pow2, BitsAt;
      assert pos + (n - 1) == pos + n - 1 && 2 * (v / 2) + v % 2 == v;
    }
  }

  lemma FirstBit(src: seq<Byte>, pos: nat, b: Binary)
    ensures BitsAt(src, pos, [b]) <==> Bit(src, pos) == b
  {
    hide Bit;
    assert BitsAt(src, pos, [b]) ==> Bit(src, pos + 0) == [b][0];
  }

  lemma Widths()
    ensures Pow2(4) == 16 && Pow2(8) == 256 && Pow2(13) == 8192
  {
    Pow2Add(4, 4);
    Pow2Add(8, 4);
    assert Pow2(4) == 16;
    assert Pow2(13) == 2 * Pow2(12);
  }

  /** What the fields of an item read as. */
  predicate Reads(src: seq<Byte>, pos: nat, t: Item) {
    match t
    case Literal(c) => Bit(src, pos) == 1 && Bits(src, pos + 1, 8) == c
    case Match(offset, length) =>
      Bit(src, pos) == 0 && Bits(src, pos + 1, 13) == offset && Bits(src, pos + 14, 4) + 3 == length
  }

  lemma ItemReads(src: seq<Byte>, pos: nat, t: Item)
    requires Fits(t)
    ensures BitsAt(src, pos, ItemBits(t)) <==> Reads(src, pos, t)
    ensures |ItemBits(t)| == if t.Literal? then 9 else 18
  {
    match t
    case Literal(c) => LiteralReads(src, pos, c);
    case Match(offset, length) => MatchReads(src, pos, offset, length - 3);
  }

  lemma LiteralReads(src: seq<Byte>, pos: nat, c: Byte)
    ensures BitsAt(src, pos, [1] + Field(c, 8)) <==> Bit(src, pos) == 1 && Bits(src, pos + 1, 8) == c
  {
    Widths();
    hide Pow2, Bits, Bit, Field, BitsAt;
    BitsAtSplit(src, pos, [1], Field(c, 8));
    FirstBit(src, pos, 1);
    FieldReads(src, pos + 1, c, 8);
  }

  lemma MatchReads(src: seq<Byte>, pos: nat, offset: nat, l: nat)
    requires offset <= 8191 && l <= 15
    ensures BitsAt(src, pos, [0] + Field(offset, 13) + Field(l, 4)) <==>
      Bit(src, pos) == 0 && Bits(src, pos + 1, 13) == offset && Bits(src, pos + 14, 4) == l
  {
    Widths();
    hide Pow2, Bits, Bit, Field, BitsAt;
    BitsAtSplit(src, pos, [0] + Field(offset, 13), Field(l, 4));
    BitsAtSplit(src, pos, [0], Field(offset, 13));
    FirstBit(src, pos, 0);
    FieldReads(src, pos + 1, offset, 13);
    FieldReads(src, pos + 14, l, 4);
  }

  lemma EndReads(src: seq<Byte>, pos: nat)
    ensures BitsAt(src, pos, [0] + Field(0, 13)) <==> Bit(src, pos) == 0 && Bits(src, pos + 1, 13) == 0
  {
    Widths();
    hide Pow2, Bits, Bit, Field, BitsAt;
    BitsAtSplit(src, pos, [0], Field(0, 13));
    FirstBit(src, pos, 0);
    FieldReads(src, pos + 1, 0, 13);
  }

  // ---------- decoding ----------

  /** One step of `Repeat` at the front. */
  lemma {:induction false} RepeatFirst(out: seq<Byte>, d: nat, n: nat)
    requires 1 <= d <= |out| && n > 0
    ensures Repeat(out, d, n) == Repeat(out + [out[|out| - d]], d, n - 1)
  {
    var next := out + [out[|out| - d]];
    if n == 1 {
      assert Repeat(out, d, 0) == out;
    } else {
      RepeatFirst(out, d, n - 1);
    }
  }

  /** The ring copy is the copy from a fixed distance. */
  lemma {:induction false} CopyIsRepeat(r: Ring, offset: nat, n: nat)
    requires Mirrors(r) && offset > 0 && Distance(|r.out|, offset) <= |r.out|
    ensures var e := CopyMatch(r, offset, n);
      e.Some? && Mirrors(e.value) && e.value.out == Repeat(r.out, Distance(|r.out|, offset), n)
    decreases n
  {
    hide Mirrors, CopyMatch, Distance, FastIndex, ReadsBefore, Repeat;
    var p, d := |r.out|, Distance(|r.out|, offset);
    DistanceKept(p, offset);
    CopyFailsExactly(r, offset, n);
    ReadsBeforeExactly(p, offset, n);
    if n > 0 {
      var next := CopyByte(r, offset, n);
      CopyIsRepeat(next, offset + 1, n - 1);
      RepeatFirst(r.out, d, n);
    } else {
      CopyDone(r, offset);
      RepeatNone(r.out, d);
    }
  }

  lemma RepeatNone(out: seq<Byte>, d: nat)
    requires 1 <= d <= |out|
    ensures Repeat(out, d, 0) == out
  {
  }

  /** One byte of the ring copy, at its distance. */
  lemma CopyByte(r: Ring, offset: nat, n: nat) returns (next: Ring)
    requires Mirrors(r) && offset > 0 && n > 0 && CopyMatch(r, offset, n).Some?
    requires Distance(|r.out|, offset) <= |r.out|
    ensures Mirrors(next) && next.out == r.out + [r.out[|r.out| - Distance(|r.out|, offset)]]
    ensures Distance(|next.out|, offset + 1) == Distance(|r.out|, offset)
    ensures CopyMatch(r, offset, n) == CopyMatch(next, offset + 1, n - 1)
  {
    hide CopyMatch, Mirrors;
    MatchByte(r, offset, n);
    DistanceKept(|r.out|, offset);
    hide FastIndex, Distance;
    var c := r.out[|r.out| - Distance(|r.out|, offset)];
    EmitMirrors(r, c);
    next := r.Emit(c);
  }

  /** Decoding the bits of a list of items gives the bytes the list stands for, whatever follows them. */
  lemma {:induction false} DecodesEncoding(src: seq<Byte>, pos: nat, items: seq<Item>, r: Ring)
    requires Mirrors(r) && Encodable(items) && BitsAt(src, pos, Encode(items))
    ensures RingDecode(src, pos, r) == Expand(items, r.out)
    decreases |items|
  {
    hide Mirrors, CopyMatch, Bits, Bit, BitsAt, ItemBits, Repeat, ReadsBefore;
    if items == [] {
      EndReads(src, pos);
    } else {
      var t, rest := items[0], items[1..];
      assert Fits(t) && Encodable(rest);
      BitsAtSplit(src, pos, ItemBits(t), Encode(rest));
      ItemReads(src, pos, t);
      match t
      case Literal(c) =>
        EmitMirrors(r, c);
        DecodesEncoding(src, pos + 9, rest, r.Emit(c));
      case Match(offset, length) =>
        CopyFailsExactly(r, offset, length);
        ReadsBeforeExactly(|r.out|, offset, length);
        if Distance(|r.out|, offset) <= |r.out| {
          CopyIsRepeat(r, offset, length);
          DecodesEncoding(src, pos + 18, rest, CopyMatch(r, offset, length).value);
        }
    }
  }

  /** Every source holds a list of items from every position, the zeros past its end included. */
  lemma {:induction false} ItemsOf(src: seq<Byte>, pos: nat) returns (items: seq<Item>)
    ensures Encodable(items) && BitsAt(src, pos, Encode(items))
    decreases if pos < 8 * |src| then 8 * |src| - pos else 0
  {
    hide Bits, Bit, Field, BitsAt, ItemBits;
    var t := ItemAt(src, pos);
    if t == None {
      items := [];
      EndReads(src, pos);
    } else {
      ItemReads(src, pos, t.value);
      var rest := ItemsOf(src, pos + |ItemBits(t.value)|);
      items := [t.value] + rest;
      assert items[1..] == rest;
      BitsAtSplit(src, pos, ItemBits(t.value), Encode(rest));
    }
  }

  /** The item whose fields are at `pos`, or none at an end mark. */
  lemma ItemAt(src: seq<Byte>, pos: nat) returns (t: Option<Item>)
    ensures t == None ==> Bit(src, pos) == 0 && Bits(src, pos + 1, 13) == 0
    ensures t.Some? ==> pos < 8 * |src| && Fits(t.value) && Reads(src, pos, t.value)
  {
    ZerosPastEnd(src, pos, 1);
    OneBit(src, pos);
    ZerosPastEnd(src, pos + 1, 13);
    ByteBits(src, pos + 1);
    Widths();
    hide Bits, Bit, Pow2;
    if Bit(src, pos) == 1 {
      t := Some(Literal(Bits(src, pos + 1, 8)));
    } else if Bits(src, pos + 1, 13) == 0 {
      t := None;
    } else {
      t := Some(Match(Bits(src, pos + 1, 13), Bits(src, pos + 14, 4) + 3));
    }
  }

  /**
   * The fast decoder on any source: there are items whose bits the source starts with; its precondition
   * is that no match of theirs reaches back too far, and its output is the bytes they stand for.
   */
  lemma FastDecodes(src: seq<Byte>) returns (items: seq<Item>)
    ensures Encodable(items) && BitsAt(src, 0, Encode(items))
    ensures RingDecode(src, 0, Fresh()) == Expand(items, [])
    ensures InBounds(src, 0, 0) <==> Expand(items, []).Some?
  {
    hide Mirrors, RingDecode, InBounds, BitsAt, Encode;
    items := ItemsOf(src, 0);
    FreshMirrors();
    DecodesEncoding(src, 0, items, Fresh());
    AcceptsExactly(src, 0, Fresh());
  }

  // ---------- packing ----------

  function BitOf(bits: seq<Binary>, i: nat): Binary {
    if i < |bits| then bits[i] else 0
  }

  /** The bits as bytes, the last one filled up with zeros. */
  function Pack(bits: seq<Binary>): seq<Byte>
    decreases |bits|
  {
    if bits == [] then []
    else [FirstByte(bits)] + Pack(if |bits| >= 8 then bits[8..] else [])
  }

  function FirstByte(bits: seq<Binary>): Byte {
    128 * BitOf(bits, 0) + 64 * BitOf(bits, 1) + 32 * BitOf(bits, 2) + 16 * BitOf(bits, 3)
    + 8 * BitOf(bits, 4) + 4 * BitOf(bits, 5) + 2 * BitOf(bits, 6) + BitOf(bits, 7)
  }

  lemma {:induction false} PackedBits(bits: seq<Binary>, i: nat)
    ensures Bit(Pack(bits), i) == BitOf(bits, i)
    decreases i
  {
    if bits != [] {
      if i < 8 {
        BitOfFirst(bits, i);
      } else {
        var rest := if |bits| >= 8 then bits[8..] else [];
        PackedBits(rest, i - 8);
        assert i / 8 == (i - 8) / 8 + 1 && i % 8 == (i - 8) % 8;
      }
    }
  }

  lemma BitOfFirst(bits: seq<Binary>, i: nat)
    requires i < 8
    ensures FirstByte(bits) / Pow2(7 - i) % 2 == BitOf(bits, i)
  {
    assert Pow2(3) == 8;
    assert Pow2(5) == 32;
    assert Pow2(7) == 128;
    hide Pow2;
    Halves(FirstByte(bits), BitOf(bits, 0), BitOf(bits, 1), BitOf(bits, 2), BitOf(bits, 3),
           BitOf(bits, 4), BitOf(bits, 5), BitOf(bits, 6), BitOf(bits, 7));
  }

  lemma Halves(x: nat, a: Binary, b: Binary, c: Binary, d: Binary, e: Binary, f: Binary, g: Binary, h: Binary)
    requires x == 128 * a + 64 * b + 32 * c + 16 * d + 8 * e + 4 * f + 2 * g + h
    ensures x / 128 % 2 == a && x / 64 % 2 == b && x / 32 % 2 == c && x / 16 % 2 == d
    ensures x / 8 % 2 == e && x / 4 % 2 == f && x / 2 % 2 == g && x / 1 % 2 == h
  {
    var n2 := 2 * a + b;
    var n3 := 2 * n2 + c;
    var n4 := 2 * n3 + d;
    var n5 := 2 * n4 + e;
    var n6 := 2 * n5 + f;
    var n7 := 2 * n6 + g;
    ModUnique(x, a, x - 128 * a, 128);
    ModUnique(x, n2, x - 64 * n2, 64);
    ModUnique(x, n3, x - 32 * n3, 32);
    ModUnique(x, n4, x - 16 * n4, 16);
    ModUnique(x, n5, x - 8 * n5, 8);
    ModUnique(x, n6, x - 4 * n6, 4);
    ModUnique(x, n7, h, 2);
  }

  /** The round trip: any list of items, packed into bytes and decoded. */
  lemma RoundTrip(items: seq<Item>)
    requires Encodable(items)
    ensures RingDecode(Pack(Encode(items)), 0, Fresh()) == Expand(items, [])
  {
    var bits := Encode(items);
    forall i | 0 <= i < |bits| ensures Bit(Pack(bits), 0 + i) == bits[i] {
      PackedBits(bits, i);
    }
    FreshMirrors();
    hide Mirrors, Pack, Bit, RingDecode, Expand, Encode;
    DecodesEncoding(Pack(bits), 0, items, Fresh());
  }

  function Literals(data: seq<Byte>): (items: seq<Item>)
    ensures Encodable(items)
  {
    seq(|data|, i requires 0 <= i < |data| => Literal(data[i]))
  }

  lemma {:induction false} LiteralsExpand(data: seq<Byte>, out: seq<Byte>)
    ensures Expand(Literals(data), out) == Some(out + data)
    decreases |data|
  {
    if data == [] {
      assert out + data == out;
    } else {
      LiteralsExpand(data[1..], out + [data[0]]);
      assert Literals(data)[1..] == Literals(data[1..]);
      assert out + [data[0]] + data[1..] == out + data;
    }
  }

  /** Any data can be delivered. */
  lemma EveryOutputHasASource(data: seq<Byte>)
    ensures RingDecode(Pack(Encode(Literals(data))), 0, Fresh()) == Some(data)
  {
    hide RingDecode, Expand, Pack, Encode;
    RoundTrip(Literals(data));
    LiteralsExpand(data, []);
    assert [] + data == data;
  }
}
