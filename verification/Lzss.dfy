/**
 * The LZSS decoder. The specification keeps an 8192-byte ring dictionary whose head starts at 1;
 * the fast decoder has no dictionary and reads back from its own output.
 */
module Lzss {
  import opened Arith
  import opened BitReader

  const DICTSIZE: nat := 0x2000
  const MIN_MATCH: nat := 3

  /** The specification's state: the dictionary, the slot written next, and the output so far. */
  datatype Ring = Ring(dict: seq<Option<Byte>>, head: nat, out: seq<Byte>) {
    predicate Shaped() {
      |dict| == DICTSIZE && head < DICTSIZE
    }

    function Emit(c: Byte): (r: Ring)
      requires Shaped()
      ensures r.Shaped() && r.out == out + [c]
    {
      Ring(dict[head := Some(c)], (head + 1) % DICTSIZE, out + [c])
    }
  }

  function Fresh(): Ring {
    Ring(seq(DICTSIZE, i => None), 1, [])
  }

  /** Copy `n` dictionary bytes from slot `at` on, each one emitted before the next is read. */
  function CopyMatch(r: Ring, at: nat, n: nat): (e: Option<Ring>)
    requires r.Shaped()
    ensures e.Some? ==> e.value.Shaped() && |e.value.out| == |r.out| + n && r.out <= e.value.out
    decreases n
  {
    if n == 0 then Some(r)
    else match r.dict[at % DICTSIZE]
      case None => None
      case Some(c) => CopyMatch(r.Emit(c), at + 1, n - 1)
  }

  lemma {:induction false} ZerosPastEnd(src: seq<Byte>, pos: nat, n: nat)
    ensures pos >= 8 * |src| ==> Bits(src, pos, n) == 0
  {
    if n > 0 {
      ZerosPastEnd(src, pos, n - 1);
    }
  }

  /** The decoder with the ring dictionary; None when a match reads a slot never written. */
  function RingDecode(src: seq<Byte>, pos: nat, r: Ring): (o: Option<seq<Byte>>)
    requires r.Shaped()
    ensures o.Some? ==> r.out <= o.value
    decreases if pos < 8 * |src| then 8 * |src| - pos else 0
  {
    ZerosPastEnd(src, pos + 1, 13);
    if Bit(src, pos) == 1 then
      ByteBits(src, pos + 1);
      RingDecode(src, pos + 9, r.Emit(Bits(src, pos + 1, 8)))
    else if Bits(src, pos + 1, 13) == 0 then Some(r.out)
    else match CopyMatch(r, Bits(src, pos + 1, 13), Bits(src, pos + 14, 4) + MIN_MATCH)
      case None => None
      case Some(e) => RingDecode(src, pos + 18, e)
  }

  lemma ByteBits(src: seq<Byte>, pos: nat)
    ensures Bits(src, pos, 8) < 256
  {
    Pow2At16();
  }

  /** The latest output position stored in slot `h` when `p` bytes are out; negative if none. */
  function LatestIn(p: nat, h: nat): int {
    p - 1 - (p - h) % DICTSIZE
  }

  /** The dictionary is a view of the last 8192 output bytes. */
  predicate Mirrors(r: Ring)
    ensures Mirrors(r) ==> r.Shaped()
  {
    && r.Shaped() && r.head == (1 + |r.out|) % DICTSIZE
    && forall h :: 0 <= h < DICTSIZE ==> r.dict[h] == Stored(r.out, LatestIn(|r.out|, h))
  }

  function Stored(out: seq<Byte>, j: int): Option<Byte>
    requires j < |out|
  {
    if j >= 0 then Some(out[j]) else None
  }

  lemma FreshMirrors()
    ensures Mirrors(Fresh())
  {
  }

  /** One more byte moves only the slot it is written to. */
  lemma LatestMoves(p: nat, h: nat)
    requires h < DICTSIZE
    ensures LatestIn(p + 1, h) == if h == (1 + p) % DICTSIZE then p else LatestIn(p, h)
  {
  }

  lemma EmitMirrors(r: Ring, c: Byte)
    requires Mirrors(r)
    ensures Mirrors(r.Emit(c))
  {
    var e, p := r.Emit(c), |r.out|;
    forall h | 0 <= h < DICTSIZE ensures e.dict[h] == Stored(e.out, LatestIn(p + 1, h)) {
      LatestMoves(p, h);
      assert r.dict[h] == Stored(r.out, LatestIn(p, h));
    }
    assert (r.head + 1) % DICTSIZE == (2 + p) % DICTSIZE;
  }

  /** The read position the fast decoder computes from the offset and its own write position. */
  function FastIndex(p: nat, dictOffset: nat): int {
    p - p % DICTSIZE + dictOffset - if dictOffset >= p % DICTSIZE then DICTSIZE else 0
  }

  /** It is the latest output position that the dictionary slot holds, in the last 8192 bytes. */
  lemma FastIndexIsLatest(p: nat, offset: nat)
    requires offset > 0
    ensures FastIndex(p, (offset - 1) % DICTSIZE) == LatestIn(p, offset % DICTSIZE)
    ensures p - DICTSIZE <= LatestIn(p, offset % DICTSIZE) < p
    ensures (LatestIn(p, offset % DICTSIZE) + 1) % DICTSIZE == offset % DICTSIZE
  {
  }

  /** One byte of a match that succeeds: the byte is in the output, at the position computed. */
  lemma MatchByte(r: Ring, at: nat, n: nat)
    requires Mirrors(r) && at > 0 && n > 0 && CopyMatch(r, at, n).Some?
    ensures var j := FastIndex(|r.out|, (at - 1) % DICTSIZE);
            0 <= j < |r.out| && CopyMatch(r, at, n) == CopyMatch(r.Emit(r.out[j]), at + 1, n - 1)
  {
    FastIndexIsLatest(|r.out|, at);
    var h := at % DICTSIZE;
    assert r.dict[h] == Stored(r.out, LatestIn(|r.out|, h));
  }

  /** How far back the first byte of a match lies when `p` bytes are out; every later byte lies as far back. */
  function Distance(p: nat, offset: nat): nat {
    1 + (p - offset) % DICTSIZE
  }

  lemma DistanceKept(p: nat, offset: nat)
    requires offset > 0
    ensures Distance(p + 1, offset + 1) == Distance(p, offset)
    ensures FastIndex(p, (offset - 1) % DICTSIZE) == p - Distance(p, offset)
    ensures 1 <= Distance(p, offset) <= DICTSIZE
  {
    FastIndexIsLatest(p, offset);
    SameDistance(p, offset);
  }

  lemma SameDistance(p: int, offset: int)
    ensures (p - offset % DICTSIZE) % DICTSIZE == (p - offset) % DICTSIZE
  {
    var q := offset / DICTSIZE;
    assert p - offset == (p - offset % DICTSIZE) - DICTSIZE * q;
  }

  /** Some read of the match would lie before the buffer. */
  ghost predicate ReadsBefore(p: nat, offset: nat, n: nat)
    requires offset > 0
  {
    exists i: nat :: i < n && NegativeRead(p, offset, i)
  }

  predicate NegativeRead(p: nat, offset: nat, i: nat)
    requires offset > 0
  {
    FastIndex(p + i, (offset + i - 1) % DICTSIZE) < 0
  }

  /** A read before the buffer happens exactly when the first one does: the match is further back than p. */
  lemma {:induction false} ReadsBeforeExactly(p: nat, offset: nat, n: nat)
    requires offset > 0
    ensures ReadsBefore(p, offset, n) <==> n > 0 && p < Distance(p, offset)
  {
    forall i: nat | i < n ensures NegativeRead(p, offset, i) <==> p + i < Distance(p, offset) {
      DistanceRepeats(p, offset, i);
      DistanceKept(p + i, offset + i);
    }
    if n > 0 {
      assert NegativeRead(p, offset, 0) <==> p + 0 < Distance(p, offset);
    }
  }

  lemma {:induction false} DistanceRepeats(p: nat, offset: nat, i: nat)
    requires offset > 0
    ensures Distance(p + i, offset + i) == Distance(p, offset)
  {
    assert (p + i) - (offset + i) == p - offset;
  }

  /** The ring copy reads an unwritten slot exactly when the fast copy would read before the buffer. */
  lemma {:induction false} CopyFailsExactly(r: Ring, at: nat, n: nat)
    requires Mirrors(r) && at > 0
    ensures CopyMatch(r, at, n) == None <==> ReadsBefore(|r.out|, at, n)
    ensures CopyMatch(r, at, n).Some? ==> Mirrors(CopyMatch(r, at, n).value)
    decreases n
  {
    var p := |r.out|;
    ReadsBeforeExactly(p, at, n);
    if n > 0 {
      var h := at % DICTSIZE;
      assert r.dict[h] == Stored(r.out, LatestIn(p, h));
      FastIndexIsLatest(p, at);
      DistanceKept(p, at);
      hide ReadsBefore, Mirrors, Distance, FastIndex, LatestIn;
      if r.dict[h].Some? {
        var c := r.dict[h].value;
        EmitMirrors(r, c);
        CopyFailsExactly(r.Emit(c), at + 1, n - 1);
        ReadsBeforeExactly(p + 1, at + 1, n - 1);
      }
    }
  }

  /** Every match of the stream points at output already written; only positions and counts matter. */
  ghost predicate InBounds(src: seq<Byte>, pos: nat, p: nat)
    decreases if pos < 8 * |src| then 8 * |src| - pos else 0
  {
    ZerosPastEnd(src, pos + 1, 13);
    if Bit(src, pos) == 1 then InBounds(src, pos + 9, p + 1)
    else
      var offset, len := Bits(src, pos + 1, 13), Bits(src, pos + 14, 4) + MIN_MATCH;
      offset == 0 || (!ReadsBefore(p, offset, len) && InBounds(src, pos + 18, p + len))
  }

  /** The reference decoder accepts exactly the streams on which the fast one never reads before its buffer. */
  lemma {:induction false} AcceptsExactly(src: seq<Byte>, pos: nat, r: Ring)
    requires Mirrors(r)
    ensures RingDecode(src, pos, r).Some? <==> InBounds(src, pos, |r.out|)
    decreases if pos < 8 * |src| then 8 * |src| - pos else 0
  {
    hide Mirrors, CopyMatch, Bits, ReadsBefore;
    ZerosPastEnd(src, pos + 1, 13);
    if Bit(src, pos) == 1 {
      ByteBits(src, pos + 1);
      var c := Bits(src, pos + 1, 8);
      EmitMirrors(r, c);
      AcceptsExactly(src, pos + 9, r.Emit(c));
    } else if Bits(src, pos + 1, 13) != 0 {
      var offset, len := Bits(src, pos + 1, 13), Bits(src, pos + 14, 4) + MIN_MATCH;
      CopyFailsExactly(r, offset, len);
      var e := CopyMatch(r, offset, len);
      if e.Some? {
        AcceptsExactly(src, pos + 18, e.value);
      }
    }
  }

  /**
   * `unlzss_fast`. The writes to `dst` are not bounded by the source, so the decoded length must
   * fit, and every match must point at output already written.
   */
  method UnlzssFast(src: seq<Byte>, dst: array<Byte>) returns (ghost n: nat)
    requires InBounds(src, 0, 0)
    requires RingDecode(src, 0, Fresh()).Some? ==> |RingDecode(src, 0, Fresh()).value| <= dst.Length
    modifies dst
    ensures RingDecode(src, 0, Fresh()).Some?
    ensures n <= dst.Length && dst[..n] == RingDecode(src, 0, Fresh()).value
    ensures dst[n..] == old(dst[n..])
  {
    hide Mirrors, RingDecode, CopyMatch, Bits, Pow2, InBounds;
    ghost var total := RingDecode(src, 0, Fresh());
    ghost var r := Fresh();
    FreshMirrors();
    AcceptsExactly(src, 0, Fresh());
    var reader := new Reader(src);
    var dstPos := 0;
    while true
      invariant fresh(reader) && reader.src == src && reader.Valid()
      invariant Mirrors(r) && RingDecode(src, reader.Position(), r) == total
      invariant dstPos == |r.out| <= dst.Length && dst[..dstPos] == r.out
      invariant dst[dstPos..] == old(dst[dstPos..])
      decreases 8 * |src| - reader.Position()
    {
      ghost var pos := reader.Position();
      Unfold(src, pos, r);
      reader.Refill(1 + 13 + 4);
      var flag := reader.GetBits(1);
      if flag != 0 {
        var c := reader.GetBits(8);
        ByteBits(src, pos + 1);
        EmitMirrors(r, c);
        dst[dstPos] := c;
        dstPos := dstPos + 1;
        r := r.Emit(c);
      } else {
        var matchOffset := reader.GetBits(13);
        if matchOffset == 0 {
          break;
        }
        var len := reader.GetBits(4);
        ghost var end := CopyMatch(r, matchOffset, len + MIN_MATCH);
        dstPos := CopyBack(matchOffset, len + MIN_MATCH, dst, dstPos, r);
        r := end.value;
      }
    }
    n := dstPos;
  }

  /** The copy loop of one match, reading and writing the same buffer. */
  method CopyBack(matchOffset: nat, matchLen: nat, dst: array<Byte>, start: nat, ghost r0: Ring) returns (dstPos: nat)
    requires matchOffset > 0 && Mirrors(r0) && CopyMatch(r0, matchOffset, matchLen).Some?
    requires start == |r0.out| && |CopyMatch(r0, matchOffset, matchLen).value.out| <= dst.Length
    requires dst[..start] == r0.out
    modifies dst
    ensures var r := CopyMatch(r0, matchOffset, matchLen).value;
            dstPos == |r.out| && dst[..dstPos] == r.out && Mirrors(r)
    ensures dst[dstPos..] == old(dst[dstPos..])
  {
    hide Mirrors, CopyMatch, FastIndex;
    ghost var r := r0;
    ghost var end := CopyMatch(r, matchOffset, matchLen);
    dstPos := start;
    var i := 0;
    while i < matchLen
      invariant 0 <= i <= matchLen && Mirrors(r)
      invariant CopyMatch(r, matchOffset + i, matchLen - i) == end
      invariant dstPos == |r.out| == start + i && dst[..dstPos] == r.out
      invariant dst[dstPos..] == old(dst[dstPos..])
    {
      var dictOffset := (matchOffset + i - 1) % DICTSIZE;
      MatchByte(r, matchOffset + i, matchLen - i);
      var c := dst[FastIndex(dstPos, dictOffset)];
      assert c == r.out[FastIndex(dstPos, dictOffset)];
      EmitMirrors(r, c);
      dst[dstPos] := c;
      dstPos := dstPos + 1;
      r := r.Emit(c);
      assert dst[..dstPos] == r.out;
      i := i + 1;
    }
    CopyDone(r, matchOffset + i);
  }

  lemma CopyDone(r: Ring, at: nat)
    requires r.Shaped()
    ensures CopyMatch(r, at, 0) == Some(r)
  {
  }

  lemma Unfold(src: seq<Byte>, pos: nat, r: Ring)
    requires r.Shaped() && RingDecode(src, pos, r).Some?
    ensures pos >= 8 * |src| ==> Bits(src, pos, 1) == 0 && Bits(src, pos + 1, 13) == 0
    ensures Bits(src, pos, 1) <= 1 && Bits(src, pos + 1, 8) < 256
    ensures var o := RingDecode(src, pos, r);
      if Bits(src, pos, 1) != 0 then o == RingDecode(src, pos + 9, r.Emit(Bits(src, pos + 1, 8)))
      else if Bits(src, pos + 1, 13) == 0 then o == Some(r.out)
      else var e := CopyMatch(r, Bits(src, pos + 1, 13), Bits(src, pos + 14, 4) + MIN_MATCH);
           e.Some? && o == RingDecode(src, pos + 18, e.value)
  {
    ByteBits(src, pos + 1);
    ZerosPastEnd(src, pos, 1);
    ZerosPastEnd(src, pos + 1, 13);
    OneBit(src, pos);
  }

  lemma OneBit(src: seq<Byte>, pos: nat)
    ensures Bits(src, pos, 1) == Bit(src, pos)
  {
    assert Bits(src, pos, 0) == 0;
  }
}
