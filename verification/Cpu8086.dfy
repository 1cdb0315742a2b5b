/** The 8086 emulator's segmented memory, its stack, and the repeated string scan. */
module Cpu8086 {
  import opened Arith

  type Reg = x: nat | x < 0x1_0000

  const MEMORY: nat := 0x11_0000

  /** The offset register arithmetic: 16 bits, wrapping within the segment. */
  function Wrap16(x: int): Reg {
    x % 0x1_0000
  }

  /** `real_addr`: the offset wraps before the segment base is added. */
  function RealAddr(seg: Reg, offset: int): (a: nat)
    ensures a < MEMORY - 1
  {
    seg * 16 + Wrap16(offset)
  }

  lemma RealAddrInjective(seg: Reg, x: int, y: int)
    ensures RealAddr(seg, x) == RealAddr(seg, y) <==> Wrap16(x) == Wrap16(y)
  {
  }

  /**
   * Which byte an address is: segment 0 is the start of memory, consecutive offsets are consecutive bytes up to
   * the end of the segment, where they start over, and the next segment begins sixteen bytes on.
   */
  lemma LinearAddresses(seg: Reg, offset: Reg)
    ensures RealAddr(0, offset) == offset
    ensures RealAddr(seg, offset + 1) == if offset < 65535 then RealAddr(seg, offset) + 1 else RealAddr(seg, 0)
    ensures offset >= 16 && seg < 65535 ==> RealAddr(seg + 1, offset - 16) == RealAddr(seg, offset)
  {
  }

  /** The word at a segmented address, each byte at its own wrapped offset. */
  function Word(mem: seq<Byte>, seg: Reg, offset: int): (w: nat)
    requires |mem| == MEMORY
    ensures w < 0x1_0000
  {
    var low: nat, high: nat := mem[RealAddr(seg, offset)], mem[RealAddr(seg, offset + 1)];
    low + 0x100 * high
  }

  /** Memory after storing a word. */
  function Stored(mem: seq<Byte>, seg: Reg, offset: int, v: Reg): (m: seq<Byte>)
    requires |mem| == MEMORY
    ensures |m| == MEMORY
  {
    mem[RealAddr(seg, offset) := v % 0x100][RealAddr(seg, offset + 1) := v / 0x100]
  }

  /** An even offset never wraps between its two bytes, so the source's direct access is the same word. */
  lemma EvenWordIsAdjacent(seg: Reg, offset: int)
    requires offset % 2 == 0
    ensures RealAddr(seg, offset + 1) == RealAddr(seg, offset) + 1
  {
    var q, r := offset / 0x1_0000, offset % 0x1_0000;
    assert r % 2 == 0;
    ModUnique(offset + 1, q, r + 1, 0x1_0000);
  }

  /** On flat memory a word that does not wrap is its low byte and then its high byte. */
  lemma WordIsLinear(mem: seq<Byte>, seg: Reg, offset: Reg, v: Reg)
    requires |mem| == MEMORY && offset < 65535
    ensures var a := 16 * seg + offset;
      && Word(mem, seg, offset) == mem[a] + 256 * (mem[a + 1] as int)
      && Stored(mem, seg, offset, v) == mem[..a] + [v % 256, v / 256] + mem[a + 2..]
  {
    LinearAddresses(seg, offset);
    FlatAddress(seg, offset);
    var a := 16 * seg + offset;
    StoredAt(mem, seg, offset, v, a, a + 1);
    WordAt(mem, seg, offset, a);
    hide Word, Stored, RealAddr;
    assert mem[a := v % 256][a + 1 := v / 256] == mem[..a] + [v % 256, v / 256] + mem[a + 2..];
  }

  /**
   * A word written at seg:offset is read back at seg+1:offset-16. Only at the last offset of the segment, where the
   * store wraps, the high byte read is the one after the segment instead.
   */
  lemma WordThroughAlias(mem: seq<Byte>, seg: Reg, offset: Reg, v: Reg)
    requires |mem| == MEMORY && 16 <= offset && seg < 65535
    ensures Word(Stored(mem, seg, offset, v), seg + 1, offset - 16)
         == if offset < 65535 then v else v % 256 + 256 * (mem[16 * seg + 65536] as int)
  {
    hide RealAddr, Word, Stored;
    LinearAddresses(seg, offset);
    LinearAddresses(seg + 1, offset - 16);
    FlatAddress(seg, offset);
    FlatAddress(seg, 0);
    var a, b := RealAddr(seg, offset), RealAddr(seg, offset + 1);
    StoredAt(mem, seg, offset, v, a, b);
    WordAt(Stored(mem, seg, offset, v), seg + 1, offset - 16, a);
    FlatRead(mem, a, b, v);
  }

  lemma StoredAt(mem: seq<Byte>, seg: Reg, offset: int, v: Reg, a: nat, b: nat)
    requires |mem| == MEMORY && a == RealAddr(seg, offset) && b == RealAddr(seg, offset + 1)
    ensures Stored(mem, seg, offset, v) == mem[a := v % 256][b := v / 256]
  {
  }

  lemma WordAt(mem: seq<Byte>, seg: Reg, offset: int, a: nat)
    requires |mem| == MEMORY && a == RealAddr(seg, offset) && a + 1 == RealAddr(seg, offset + 1)
    ensures Word(mem, seg, offset) == mem[a] + 256 * (mem[a + 1] as int)
  {
  }

  lemma FlatRead(mem: seq<Byte>, a: nat, b: nat, v: Reg)
    requires a + 1 < |mem| && b < |mem| && b != a
    ensures var m: seq<Byte> := mem[a := v % 256][b := v / 256];
      m[a] + 256 * (m[a + 1] as int) == if b == a + 1 then v else v % 256 + 256 * (mem[a + 1] as int)
  {
  }

  lemma FlatAddress(seg: Reg, offset: Reg)
    ensures RealAddr(seg, offset) == 16 * seg + offset
  {
  }

  lemma StoredWord(mem: seq<Byte>, seg: Reg, offset: int, v: Reg)
    requires |mem| == MEMORY
    ensures Word(Stored(mem, seg, offset, v), seg, offset) == v
  {
    RealAddrInjective(seg, offset, offset + 1);
  }

  /** A store leaves every word that shares no byte with it. */
  lemma StoredElsewhere(mem: seq<Byte>, seg: Reg, offset: int, v: Reg, other: int)
    requires |mem| == MEMORY
    requires 2 <= (other - offset) % 0x1_0000 <= 0xFFFE
    ensures Word(Stored(mem, seg, offset, v), seg, other) == Word(mem, seg, other)
  {
    WordsApart(offset, other);
    hide Wrap16;
    RealAddrInjective(seg, offset, other);
    RealAddrInjective(seg, offset, other + 1);
    RealAddrInjective(seg, offset + 1, other);
    RealAddrInjective(seg, offset + 1, other + 1);
  }

  lemma WordsApart(x: int, y: int)
    requires 2 <= (y - x) % 0x1_0000 <= 0xFFFE
    ensures Wrap16(x) != Wrap16(y) && Wrap16(x) != Wrap16(y + 1)
    ensures Wrap16(x + 1) != Wrap16(y) && Wrap16(x + 1) != Wrap16(y + 1)
  {
    var d, q := (y - x) % 0x1_0000, (y - x) / 0x1_0000;
    Apart(x, y, q, d);
    Apart(x, y + 1, q, d + 1);
    Apart(x + 1, y, q, d - 1);
    Apart(x + 1, y + 1, q, d);
  }

  lemma Apart(x: int, y: int, q: int, d: int)
    requires y == x + 0x1_0000 * q + d && 0 < d < 0x1_0000
    ensures Wrap16(x) != Wrap16(y)
  {
  }

  // ---------- the stack as a list ----------

  /** Memory, stack segment and stack pointer. */
  datatype Stack = Stack(mem: seq<Byte>, ss: Reg, sp: Reg) {
    predicate Valid() {
      |mem| == MEMORY
    }

    function Push(v: Reg): (s: Stack)
      requires Valid()
      ensures s.Valid()
    {
      Stack(Stored(mem, ss, Wrap16(sp - 2), v), ss, Wrap16(sp - 2))
    }

    function Popped(): Reg
      requires Valid()
    {
      Word(mem, ss, sp)
    }

    function Pop(): (s: Stack)
      requires Valid()
      ensures s.Valid()
    {
      this.(sp := Wrap16(sp + 2))
    }
  }

  /** The stack holds `list`, top first, at sp, sp + 2, ... with wrap-around. */
  ghost predicate Holds(s: Stack, list: seq<Reg>) {
    && s.Valid() && |list| <= 0x8000
    && forall j :: 0 <= j < |list| ==> Word(s.mem, s.ss, Wrap16(s.sp + 2 * j)) == list[j]
  }

  lemma AlreadyWrapped(x: Reg)
    ensures Wrap16(x) == x && Wrap16(x + 2 * 0) == x
  {
  }

  lemma SlotShifts(sp: Reg, j: nat)
    requires 1 <= j < 0x8000
    ensures var top, at := Wrap16(sp - 2), Wrap16(sp + 2 * (j - 1));
            Wrap16(top + 2 * j) == at && (at - top) % 0x1_0000 == 2 * j
  {
  }

  /** With at most 32767 words live a push adds one on top and disturbs none of them. */
  lemma PushHolds(s: Stack, list: seq<Reg>, v: Reg)
    requires Holds(s, list) && |list| < 0x8000
    ensures Holds(s.Push(v), [v] + list)
  {
    hide Word, Stored, Wrap16;
    var t := s.Push(v);
    forall j | 0 <= j < |list| + 1 ensures Word(t.mem, t.ss, Wrap16(t.sp + 2 * j)) == ([v] + list)[j] {
      if j == 0 {
        StoredWord(s.mem, s.ss, t.sp, v);
        AlreadyWrapped(t.sp);
      } else {
        var at := Wrap16(s.sp + 2 * (j - 1));
        SlotShifts(s.sp, j);
        StoredElsewhere(s.mem, s.ss, t.sp, v, at);
      }
    }
  }

  lemma PopHolds(s: Stack, list: seq<Reg>)
    requires Holds(s, list) && |list| > 0
    ensures s.Popped() == list[0] && Holds(s.Pop(), list[1..])
  {
    assert Wrap16(s.sp + 2 * 0) == s.sp;
    var t := s.Pop();
    forall j | 0 <= j < |list| - 1 ensures Word(t.mem, t.ss, Wrap16(t.sp + 2 * j)) == list[1..][j] {
      assert Wrap16(t.sp + 2 * j) == Wrap16(s.sp + 2 * (j + 1));
    }
  }

  datatype StackOp = PushOp(v: Reg) | PopOp

  datatype Trace<S> = Trace(state: S, popped: seq<Reg>)

  /** What the emulator does on a sequence of pushes and pops. */
  function RunStack(s: Stack, ops: seq<StackOp>): Trace<Stack>
    requires s.Valid()
    decreases |ops|
  {
    if ops == [] then Trace(s, [])
    else match ops[0]
      case PushOp(v) => RunStack(s.Push(v), ops[1..])
      case PopOp => var t := RunStack(s.Pop(), ops[1..]); t.(popped := [s.Popped()] + t.popped)
  }

  /** The run never pops an empty list and never has more than 32768 words live. */
  predicate Fits(depth: nat, ops: seq<StackOp>)
    decreases |ops|
  {
    ops == [] || match ops[0]
      case PushOp(_) => depth < 0x8000 && Fits(depth + 1, ops[1..])
      case PopOp => depth > 0 && Fits(depth - 1, ops[1..])
  }

  /** The same run on a list. */
  function RunList(list: seq<Reg>, ops: seq<StackOp>): Trace<seq<Reg>>
    requires Fits(|list|, ops)
    decreases |ops|
  {
    if ops == [] then Trace(list, [])
    else match ops[0]
      case PushOp(v) => RunList([v] + list, ops[1..])
      case PopOp => var t := RunList(list[1..], ops[1..]); t.(popped := [list[0]] + t.popped)
  }

  /** Every run of pushes and pops behaves as the list, for every ss:sp, odd and wrapping ones included. */
  lemma {:induction false} StackIsList(s: Stack, list: seq<Reg>, ops: seq<StackOp>)
    requires Holds(s, list) && Fits(|list|, ops)
    ensures var m, l := RunStack(s, ops), RunList(list, ops);
            m.popped == l.popped && Holds(m.state, l.state) && m.state.ss == s.ss
    decreases |ops|
  {
    if ops != [] {
      hide Holds;
      match ops[0]
      case PushOp(v) =>
        PushHolds(s, list, v);
        StackIsList(s.Push(v), [v] + list, ops[1..]);
      case PopOp =>
        PopHolds(s, list);
        StackIsList(s.Pop(), list[1..], ops[1..]);
    }
  }

  /** The greatest number of words live at any time of a run. */
  function MaxDepth(depth: nat, ops: seq<StackOp>): (m: nat)
    requires Fits(depth, ops)
    ensures depth <= m && (depth <= 0x8000 ==> m <= 0x8000)
    decreases |ops|
  {
    if ops == [] then depth
    else match ops[0]
      case PushOp(_) => MaxDepth(depth + 1, ops[1..])
      case PopOp => var m := MaxDepth(depth - 1, ops[1..]); if m < depth then depth else m
  }

  /** The address of a stack byte within the deepest `m` words of a stack whose lowest live word ends before `base`. */
  ghost predicate InWindow(ss: Reg, base: int, m: nat, a: nat) {
    exists o: Reg :: a == RealAddr(ss, o) && Below(base, o) < 2 * m
  }

  /** How far an offset lies below the end of the stack, wrapping within the segment. */
  function Below(base: int, o: int): nat {
    (base - 1 - o) % 0x1_0000
  }

  lemma PushedBytes(sp: Reg, depth: nat, base: int)
    requires base == sp + 2 * depth && depth < 0x8000
    ensures Below(base, Wrap16(sp - 2)) == 2 * depth + 1
    ensures Below(base, Wrap16(Wrap16(sp - 2) + 1)) == 2 * depth
  {
    ModUnique(base - 1 - Wrap16(sp - 2), (sp - 2 - Wrap16(sp - 2)) / 0x1_0000, 2 * depth + 1, 0x1_0000);
  }

  /** A push writes two bytes, those just above the live words. */
  lemma PushTouchesTop(s: Stack, v: Reg, depth: nat, m: nat, a: nat)
    requires s.Valid() && depth < m && depth < 0x8000 && a < MEMORY
    requires !InWindow(s.ss, s.sp + 2 * depth, m, a)
    ensures s.Push(v).mem[a] == s.mem[a]
  {
    var top: int := Wrap16(s.sp - 2);
    var base := s.sp + 2 * depth;
    PushedBytes(s.sp, depth, base);
    assert a != RealAddr(s.ss, top);
    var next: int := Wrap16(top + 1);
    assert RealAddr(s.ss, next) == RealAddr(s.ss, top + 1);
    assert a != RealAddr(s.ss, next);
  }

  /** Measuring from the end of the stack does not depend on how its offset is written. */
  lemma WindowMoves(ss: Reg, base: int, other: int, m: nat, a: nat)
    requires (base - other) % 0x1_0000 == 0
    ensures InWindow(ss, base, m, a) <==> InWindow(ss, other, m, a)
  {
    forall o: Reg ensures Below(base, o) == Below(other, o) {
      SameBelow(base, other, o);
    }
    hide Below, RealAddr;
  }

  lemma SameBelow(base: int, other: int, o: int)
    requires (base - other) % 0x1_0000 == 0
    ensures Below(base, o) == Below(other, o)
  {
    var q := (base - other) / 0x1_0000;
    assert base - 1 - o == (other - 1 - o) + 0x1_0000 * q;
  }

  /**
   * The rest of memory is untouched, the rest of the stack's own segment included: a run whose greatest
   * depth is m changes no byte but those of the m words below the end of the stack.
   */
  lemma {:induction false} RunTouchesOnlyTheStack(s: Stack, depth: nat, ops: seq<StackOp>, a: nat)
    requires s.Valid() && Fits(depth, ops) && depth <= 0x8000 && a < MEMORY
    requires !InWindow(s.ss, s.sp + 2 * depth, MaxDepth(depth, ops), a)
    ensures RunStack(s, ops).state.Valid() && RunStack(s, ops).state.mem[a] == s.mem[a]
    decreases |ops|
  {
    if ops != [] {
      hide InWindow, Stored, Wrap16;
      var m := MaxDepth(depth, ops);
      match ops[0]
      case PushOp(v) =>
        PushTouchesTop(s, v, depth, m, a);
        SameEnd(s.sp, depth);
        WindowMoves(s.ss, s.sp + 2 * depth, s.Push(v).sp + 2 * (depth + 1), m, a);
        RunTouchesOnlyTheStack(s.Push(v), depth + 1, ops[1..], a);
      case PopOp =>
        SameEnd(s.sp, depth);
        WindowShrinks(s.ss, s.sp + 2 * depth, MaxDepth(depth - 1, ops[1..]), m, a);
        WindowMoves(s.ss, s.sp + 2 * depth, s.Pop().sp + 2 * (depth - 1), MaxDepth(depth - 1, ops[1..]), a);
        RunTouchesOnlyTheStack(s.Pop(), depth - 1, ops[1..], a);
    }
  }

  lemma WindowShrinks(ss: Reg, base: int, m: nat, n: nat, a: nat)
    requires m <= n
    ensures InWindow(ss, base, m, a) ==> InWindow(ss, base, n, a)
  {
  }

  /** The end of the stack stays where it is when a word is pushed or popped. */
  lemma SameEnd(sp: Reg, depth: int)
    ensures (sp + 2 * depth - (Wrap16(sp - 2) + 2 * (depth + 1))) % 0x1_0000 == 0
    ensures (sp + 2 * depth - (Wrap16(sp + 2) + 2 * (depth - 1))) % 0x1_0000 == 0
  {
  }

  /** However deep it goes, no run touches a byte outside the stack segment. */
  lemma {:induction false} RunStaysInSegment(s: Stack, ops: seq<StackOp>, a: nat)
    requires s.Valid() && a < MEMORY
    requires a < s.ss * 16 || s.ss * 16 + 0xFFFF < a
    ensures RunStack(s, ops).state.Valid() && RunStack(s, ops).state.mem[a] == s.mem[a]
    decreases |ops|
  {
    if ops != [] {
      match ops[0]
      case PushOp(v) => RunStaysInSegment(s.Push(v), ops[1..], a);
      case PopOp => RunStaysInSegment(s.Pop(), ops[1..], a);
    }
  }

  lemma OutsideWindow(ss: Reg, base: int, m: nat, o: Reg)
    requires Below(base, o) >= 2 * m
    ensures !InWindow(ss, base, m, RealAddr(ss, o))
  {
    hide Below;
  }

  /** Another byte of the segment, given by its offset: untouched when it lies beyond the deepest word. */
  lemma RunKeepsSegmentData(s: Stack, depth: nat, ops: seq<StackOp>, o: Reg)
    requires s.Valid() && Fits(depth, ops) && depth <= 0x8000
    requires Below(s.sp + 2 * depth, o) >= 2 * MaxDepth(depth, ops)
    ensures RunStack(s, ops).state.Valid()
    ensures RunStack(s, ops).state.mem[RealAddr(s.ss, o)] == s.mem[RealAddr(s.ss, o)]
  {
    var base, a := s.sp + 2 * depth, RealAddr(s.ss, o);
    OutsideWindow(s.ss, base, MaxDepth(depth, ops), o);
    hide InWindow, Below, RealAddr;
    RunTouchesOnlyTheStack(s, depth, ops, a);
  }

  // ---------- comparison and string scan ----------

  /** An operand width in bytes. */
  type Width = w: nat | w == 1 || w == 2 witness 1

  function Modulus(w: Width): nat {
    if w == 1 then 0x100 else 0x1_0000
  }

  function Signed(x: nat, w: Width): int {
    if x < Modulus(w) / 2 then x else x - Modulus(w)
  }

  datatype Flags = Flags(carry: bool, overflow: bool, zero: bool, sign: bool)

  /** The flags of `cmp_impl`, as the source computes them. */
  function Compare(dst: nat, src: nat, w: Width): Flags {
    var res := (dst - src) % Modulus(w);
    var difference := Signed(dst, w) - Signed(src, w);
    Flags(dst < src,
          difference < -(Modulus(w) / 2) || difference >= Modulus(w) / 2,
          res == 0,
          Signed(res, w) < 0)
  }

  /** The condition tests read the order of the operands back from the flags. */
  lemma ConditionsDecide(dst: nat, src: nat, w: Width)
    requires dst < Modulus(w) && src < Modulus(w)
    ensures var f := Compare(dst, src, w);
      && (f.zero <==> dst == src)
      && (f.carry <==> dst < src)
      && (f.carry || f.zero <==> dst <= src)
      && (f.sign != f.overflow <==> Signed(dst, w) < Signed(src, w))
      && (f.zero || f.sign != f.overflow <==> Signed(dst, w) <= Signed(src, w))
  {
  }

  /**
   * Each flag on its own. With r the difference, the one number that added to src gives dst in w bytes: the sign
   * flag is the top bit of r, and the overflow flag says that the operands differ in sign and r has not
   * the sign of dst. Equal operands leave both clear.
   */
  lemma SignAndOverflow(dst: nat, src: nat, w: Width, r: nat)
    requires var m := if w == 1 then 256 else 65536;
      dst < m && src < m && r < m && (src + r) % m == dst
    ensures var f, half := Compare(dst, src, w), if w == 1 then 128 else 32768;
      && (f.sign <==> r >= half)
      && (f.overflow <==> (dst >= half) != (src >= half) && (r >= half) != (dst >= half))
      && (f.zero <==> r == 0)
      && (f.carry <==> src + r != dst)
      && (dst == src ==> !f.sign && !f.overflow)
  {
    DifferenceIs(dst, src, Modulus(w), r);
  }

  lemma DifferenceIs(dst: nat, src: nat, m: nat, r: nat)
    requires dst < m && src < m && r < m && (src + r) % m == dst
    ensures (dst - src) % m == r && r == dst - src + if dst < src then m else 0
  {
    var sum, d: int := src + r, dst - src;
    if sum < m {
      ModUnique(sum, 0, sum, m);
      ModUnique(d, 0, r, m);
    } else {
      ModUnique(sum, 1, sum - m, m);
      ModUnique(d, -1, r, m);
    }
  }

  /** The element of the scan at an offset. */
  function Element(mem: seq<Byte>, seg: Reg, offset: int, w: Width): nat
    requires |mem| == MEMORY
  {
    if w == 1 then mem[RealAddr(seg, offset)] else Word(mem, seg, offset)
  }

  /** The inputs of a scan; the offset moves up when the direction flag is set. */
  datatype Scan = Scan(mem: seq<Byte>, es: Reg, di: Reg, up: bool, w: Width, acc: nat) {
    predicate Valid() {
      |mem| == MEMORY
    }

    function Offset(i: nat): Reg {
      var d := if w == 1 then i else 2 * i;
      Wrap16(if up then di + d else di - d)
    }

    function At(i: nat): nat
      requires Valid()
    {
      Element(mem, es, Offset(i), w)
    }

    predicate Matches(i: nat)
      requires Valid()
    {
      At(i) == acc
    }
  }

  /** Out of n elements the scan looks at k: it goes on while a comparison equals what the prefix repeats on. */
  predicate Looked(s: Scan, repeatEqual: bool, n: nat, k: nat)
    requires s.Valid()
  {
    && 1 <= k <= n
    && (forall i :: 0 <= i < k - 1 ==> s.Matches(i) == repeatEqual)
    && (k == n || s.Matches(k - 1) != repeatEqual)
  }

  /** The registers and flags after a scan that looked at k of n elements. */
  predicate Reported(s: Scan, repeatEqual: bool, n: nat, k: nat, cx: Reg, di: Reg, flags: Flags)
    requires s.Valid()
  {
    && Looked(s, repeatEqual, n, k) && cx == n - k && di == s.Offset(k)
    && flags == Compare(s.acc, s.At(k - 1), s.w) && (flags.zero <==> s.Matches(k - 1))
  }

  ghost predicate ScanReported(s: Scan, repeatEqual: bool, n: nat, cx: Reg, di: Reg, flags: Flags)
    requires s.Valid()
  {
    exists k: nat :: Reported(s, repeatEqual, n, k, cx, di, flags)
  }

  /** Some element among the first n is not what the prefix repeats on: a match for REPNE, a mismatch for REPE. */
  ghost predicate Occurs(s: Scan, repeatEqual: bool, n: nat)
    requires s.Valid()
  {
    exists i: nat :: i < n && s.Matches(i) != repeatEqual
  }

  /**
   * What the machine state says after a repeated scan: the zero flag differs from what the prefix repeats on
   * exactly when such an element is among the n, and then the one at index n - cx - 1 is the first of them.
   */
  lemma ScanFinds(s: Scan, repeatEqual: bool, n: nat, cx: Reg, di: Reg, flags: Flags)
    requires s.Valid() && ScanReported(s, repeatEqual, n, cx, di, flags)
    ensures cx < n && di == s.Offset(n - cx)
    ensures flags.zero != repeatEqual <==> Occurs(s, repeatEqual, n)
    ensures flags.zero <==> s.Matches(n - cx - 1)
    ensures forall i: nat :: i < n && s.Matches(i) != repeatEqual ==> n - cx - 1 <= i
    ensures flags.zero == repeatEqual ==> cx == 0
  {
    var k: nat :| Reported(s, repeatEqual, n, k, cx, di, flags);
    var last: nat := k - 1;
    if flags.zero != repeatEqual {
      assert s.Matches(last) != repeatEqual;
    }
  }

  class Machine {
    const raw: array<Byte>
    var ax: Reg
    var cx: Reg
    var sp: Reg
    var di: Reg
    var ss: Reg
    var es: Reg
    var direction: bool
    /** -1 without a prefix, 0 after REPNE, 1 after REPE. */
    var repType: int
    var flags: Flags

    predicate Valid()
      reads this
    {
      raw.Length == MEMORY && -1 <= repType <= 1
    }

    ghost function StackState(): Stack
      reads this, raw
    {
      Stack(raw[..], ss, sp)
    }

    method WriteWord(seg: Reg, offset: Reg, v: Reg)
      requires Valid()
      modifies raw
      ensures raw[..] == Stored(old(raw[..]), seg, offset, v)
    {
      var a := RealAddr(seg, offset);
      if offset % 2 == 0 {
        EvenWordIsAdjacent(seg, offset);
        raw[a] := v % 0x100;
        raw[a + 1] := v / 0x100;
      } else {
        raw[a] := v % 0x100;
        raw[RealAddr(seg, offset + 1)] := v / 0x100;
      }
    }

    method ReadWord(seg: Reg, offset: Reg) returns (v: nat)
      requires Valid()
      ensures v == Word(raw[..], seg, offset)
    {
      var a := RealAddr(seg, offset);
      var low: nat, high: nat := raw[a], 0;
      if offset % 2 == 0 {
        EvenWordIsAdjacent(seg, offset);
        high := raw[a + 1];
      } else {
        high := raw[RealAddr(seg, offset + 1)];
      }
      v := low + 0x100 * high;
    }

    method Push(v: Reg)
      requires Valid()
      modifies this`sp, raw
      ensures Valid() && StackState() == old(StackState()).Push(v)
    {
      sp := Wrap16(sp - 2);
      WriteWord(ss, sp, v);
    }

    method Pop() returns (v: nat)
      requires Valid()
      modifies this`sp
      ensures Valid() && v == old(StackState()).Popped() && StackState() == old(StackState()).Pop()
    {
      hide Word;
      v := ReadWord(ss, sp);
      sp := Wrap16(sp + 2);
    }

    ghost function ScanState(w: Width): Scan
      reads this, raw
    {
      Scan(raw[..], es, di, direction, w, ax % Modulus(w))
    }

    method ReadElement(offset: Reg, w: Width) returns (v: nat)
      requires Valid()
      ensures v == Element(raw[..], es, offset, w)
    {
      if w == 1 {
        v := raw[RealAddr(es, offset)];
      } else {
        v := ReadWord(es, offset);
      }
    }

    /** `scas_impl`: which element the scan stopped at, as CX, DI and the flags report it. */
    method Scas(w: Width)
      requires Valid()
      modifies this`cx, this`di, this`flags
      ensures Valid()
      ensures repType >= 0 && old(cx) == 0 ==> cx == 0 && di == old(di) && flags == old(flags)
      ensures repType >= 0 && old(cx) > 0 ==>
        ScanReported(old(ScanState(w)), repType == 1, old(cx), cx, di, flags)
      ensures repType >= 0 && old(cx) > 0 ==>
        (flags.zero != (repType == 1) <==> Occurs(old(ScanState(w)), repType == 1, old(cx)))
      ensures var n := if repType < 0 then 1 else old(cx) - cx; var bytes := if w == 1 then n else 2 * n;
        di == (if direction then old(di) + bytes else old(di) - bytes) % 65536
      ensures repType < 0 ==>
        (cx == old(cx) && di == old(ScanState(w)).Offset(1)
         && flags == Compare(ax % Modulus(w), old(ScanState(w)).At(0), w))
    {
      hide Element, Compare, Occurs, ScanReported, Wrap16;
      ghost var s := ScanState(w);
      var step := if direction then w else -(w as int);
      var acc := ax % Modulus(w);
      var offset := di;
      OffsetStart(s);
      OffsetIs(s, 0);
      if repType > -1 {
        if cx != 0 {
          var v := ReadElement(offset, w);
          flags := Compare(acc, v, w);
          offset := Wrap16(offset + step);
          OffsetStep(s, 0);
          cx := cx - 1;
          ghost var k: nat := 1;
          ZeroIsMatch(s, 0);
          while cx != 0 && repType == AsBit(flags.zero)
            invariant Valid() && 1 <= k <= old(cx) && cx == old(cx) - k && offset == s.Offset(k)
            invariant flags == Compare(acc, s.At(k - 1), w) && flags.zero == s.Matches(k - 1)
            invariant forall i :: 0 <= i < k - 1 ==> s.Matches(i) == (repType == 1)
            decreases cx
          {
            v := ReadElement(offset, w);
            flags := Compare(acc, v, w);
            offset := Wrap16(offset + step);
            OffsetStep(s, k);
            ZeroIsMatch(s, k);
            cx := cx - 1;
            k := k + 1;
          }
          ScanDone(s, repType == 1, old(cx), k, cx, offset, flags);
          OffsetIs(s, k);
        }
      } else {
        var v := ReadElement(offset, w);
        flags := Compare(acc, v, w);
        offset := Wrap16(offset + step);
        OffsetStep(s, 0);
        OffsetIs(s, 1);
      }
      di := offset;
    }
  }

  lemma ScanDone(s: Scan, repeatEqual: bool, n: nat, k: nat, cx: Reg, di: Reg, flags: Flags)
    requires s.Valid() && 1 <= k <= n && cx == n - k && di == s.Offset(k)
    requires forall i :: 0 <= i < k - 1 ==> s.Matches(i) == repeatEqual
    requires k == n || s.Matches(k - 1) != repeatEqual
    requires flags == Compare(s.acc, s.At(k - 1), s.w) && (flags.zero <==> s.Matches(k - 1))
    ensures ScanReported(s, repeatEqual, n, cx, di, flags)
    ensures flags.zero != repeatEqual <==> Occurs(s, repeatEqual, n)
  {
    hide Compare, Element;
    assert Looked(s, repeatEqual, n, k);
    assert Reported(s, repeatEqual, n, k, cx, di, flags);
    ScanFinds(s, repeatEqual, n, cx, di, flags);
  }

  lemma OffsetStart(s: Scan)
    ensures s.Offset(0) == s.di
  {
  }

  lemma OffsetIs(s: Scan, i: nat)
    ensures s.Offset(i) == (if s.up then s.di + (if s.w == 1 then i else 2 * i)
                            else s.di - (if s.w == 1 then i else 2 * i)) % 65536
  {
  }

  lemma OffsetStep(s: Scan, i: nat)
    ensures Wrap16(s.Offset(i) + if s.up then s.w as int else -(s.w as int)) == s.Offset(i + 1)
  {
    var d: int := if s.w == 1 then i else 2 * i;
    var e: int := if s.up then s.di + d else s.di - d;
    var step: int := if s.up then s.w as int else -(s.w as int);
    assert s.Offset(i) == Wrap16(e) && s.Offset(i + 1) == Wrap16(e + step);
    WrapLate(e, step);
  }

  /** Wrapping before adding makes no difference. */
  lemma WrapLate(x: int, y: int)
    ensures Wrap16(Wrap16(x) + y) == Wrap16(x + y)
  {
    var q, r: int := x / 0x1_0000, x % 0x1_0000;
    assert x + y == (r + y) + 0x1_0000 * q;
  }

  lemma ElementBound(mem: seq<Byte>, seg: Reg, offset: int, w: Width)
    requires |mem| == MEMORY
    ensures Element(mem, seg, offset, w) < Modulus(w)
  {
  }

  lemma ZeroIsMatch(s: Scan, i: nat)
    requires s.Valid() && s.acc < Modulus(s.w)
    ensures Compare(s.acc, s.At(i), s.w).zero == s.Matches(i)
  {
    ElementBound(s.mem, s.es, s.Offset(i), s.w);
    ConditionsDecide(s.acc, s.At(i), s.w);
  }
}
