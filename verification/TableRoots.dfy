/** Square roots seeded from a table of 256 bytes, in the three forms the source writes. */
module TableRoots {
  import opened Arith
  import opened Roots

  // `java_sqrt_table`, a quarter a function.

  function FirstQuarter(i: nat): nat {
    match i
    case 0 => 0 case 1 => 16 case 2 => 22 case 3 => 27 case 4 => 32 case 5 => 35 case 6 => 39 case 7 => 42
    case 8 => 45 case 9 => 48 case 10 => 50 case 11 => 53 case 12 => 55 case 13 => 57 case 14 => 59 case 15 => 61
    case 16 => 64 case 17 => 65 case 18 => 67 case 19 => 69 case 20 => 71 case 21 => 73 case 22 => 75 case 23 => 76
    case 24 => 78 case 25 => 80 case 26 => 81 case 27 => 83 case 28 => 84 case 29 => 86 case 30 => 87 case 31 => 89
    case 32 => 90 case 33 => 91 case 34 => 93 case 35 => 94 case 36 => 96 case 37 => 97 case 38 => 98 case 39 => 99
    case 40 => 101 case 41 => 102 case 42 => 103 case 43 => 104 case 44 => 106 case 45 => 107 case 46 => 108 case 47 => 109
    case 48 => 110 case 49 => 112 case 50 => 113 case 51 => 114 case 52 => 115 case 53 => 116 case 54 => 117 case 55 => 118
    case 56 => 119 case 57 => 120 case 58 => 121 case 59 => 122 case 60 => 123 case 61 => 124 case 62 => 125 case _ => 126
  }

  function SecondQuarter(i: nat): nat {
    match i
    case 0 => 128 case 1 => 128 case 2 => 129 case 3 => 130 case 4 => 131 case 5 => 132 case 6 => 133 case 7 => 134
    case 8 => 135 case 9 => 136 case 10 => 137 case 11 => 138 case 12 => 139 case 13 => 140 case 14 => 141 case 15 => 142
    case 16 => 143 case 17 => 144 case 18 => 144 case 19 => 145 case 20 => 146 case 21 => 147 case 22 => 148 case 23 => 149
    case 24 => 150 case 25 => 150 case 26 => 151 case 27 => 152 case 28 => 153 case 29 => 154 case 30 => 155 case 31 => 155
    case 32 => 156 case 33 => 157 case 34 => 158 case 35 => 159 case 36 => 160 case 37 => 160 case 38 => 161 case 39 => 162
    case 40 => 163 case 41 => 163 case 42 => 164 case 43 => 165 case 44 => 166 case 45 => 167 case 46 => 167 case 47 => 168
    case 48 => 169 case 49 => 170 case 50 => 170 case 51 => 171 case 52 => 172 case 53 => 173 case 54 => 173 case 55 => 174
    case 56 => 175 case 57 => 176 case 58 => 176 case 59 => 177 case 60 => 178 case 61 => 178 case 62 => 179 case _ => 180
  }

  function ThirdQuarter(i: nat): nat {
    match i
    case 0 => 181 case 1 => 181 case 2 => 182 case 3 => 183 case 4 => 183 case 5 => 184 case 6 => 185 case 7 => 185
    case 8 => 186 case 9 => 187 case 10 => 187 case 11 => 188 case 12 => 189 case 13 => 189 case 14 => 190 case 15 => 191
    case 16 => 192 case 17 => 192 case 18 => 193 case 19 => 193 case 20 => 194 case 21 => 195 case 22 => 195 case 23 => 196
    case 24 => 197 case 25 => 197 case 26 => 198 case 27 => 199 case 28 => 199 case 29 => 200 case 30 => 201 case 31 => 201
    case 32 => 202 case 33 => 203 case 34 => 203 case 35 => 204 case 36 => 204 case 37 => 205 case 38 => 206 case 39 => 206
    case 40 => 207 case 41 => 208 case 42 => 208 case 43 => 209 case 44 => 209 case 45 => 210 case 46 => 211 case 47 => 211
    case 48 => 212 case 49 => 212 case 50 => 213 case 51 => 214 case 52 => 214 case 53 => 215 case 54 => 215 case 55 => 216
    case 56 => 217 case 57 => 217 case 58 => 218 case 59 => 218 case 60 => 219 case 61 => 219 case 62 => 220 case _ => 221
  }

  function FourthQuarter(i: nat): nat {
    match i
    case 0 => 221 case 1 => 222 case 2 => 222 case 3 => 223 case 4 => 224 case 5 => 224 case 6 => 225 case 7 => 225
    case 8 => 226 case 9 => 226 case 10 => 227 case 11 => 227 case 12 => 228 case 13 => 229 case 14 => 229 case 15 => 230
    case 16 => 230 case 17 => 231 case 18 => 231 case 19 => 232 case 20 => 232 case 21 => 233 case 22 => 234 case 23 => 234
    case 24 => 235 case 25 => 235 case 26 => 236 case 27 => 236 case 28 => 237 case 29 => 237 case 30 => 238 case 31 => 238
    case 32 => 239 case 33 => 240 case 34 => 240 case 35 => 241 case 36 => 241 case 37 => 242 case 38 => 242 case 39 => 243
    case 40 => 243 case 41 => 244 case 42 => 244 case 43 => 245 case 44 => 245 case 45 => 246 case 46 => 246 case 47 => 247
    case 48 => 247 case 49 => 248 case 50 => 248 case 51 => 249 case 52 => 249 case 53 => 250 case 54 => 250 case 55 => 251
    case 56 => 251 case 57 => 252 case 58 => 252 case 59 => 253 case 60 => 253 case 61 => 254 case 62 => 254 case _ => 255
  }

  /** The byte at index `i` of the table. */
  function Entry(i: nat): nat
    requires i < 256
  {
    match i / 64
    case 0 => FirstQuarter(i % 64)
    case 1 => SecondQuarter(i % 64)
    case 2 => ThirdQuarter(i % 64)
    case _ => FourthQuarter(i % 64)
  }

  lemma FirstQuarterCorrect(i: nat)
    requires i < 64
    ensures IsRoot(256 * i, FirstQuarter(i))
  {
  }

  lemma SecondQuarterCorrect(i: nat)
    requires i < 64
    ensures IsRoot(256 * (64 + i), SecondQuarter(i))
  {
  }

  lemma ThirdQuarterCorrect(i: nat)
    requires i < 64
    ensures IsRoot(256 * (128 + i), ThirdQuarter(i))
  {
  }

  lemma FourthQuarterCorrect(i: nat)
    requires i < 64
    ensures IsRoot(256 * (192 + i), FourthQuarter(i))
  {
  }

  /** Entry i holds floor(16 * sqrt(i)). */
  lemma TableCorrect(i: nat)
    requires i < 256
    ensures IsRoot(256 * i, Entry(i))
  {
    hide IsRoot, FirstQuarter, SecondQuarter, ThirdQuarter, FourthQuarter;
    FirstQuarterCorrect(i % 64);
    SecondQuarterCorrect(i % 64);
    ThirdQuarterCorrect(i % 64);
    FourthQuarterCorrect(i % 64);
  }

  /** The shift that brings x into the table: a quarter of the table is skipped once it is positive. */
  function ShiftCount(x: nat): nat {
    BitWidth(x / 128) / 2
  }

  lemma ShiftCountBounds(x: nat)
    requires x < B32
    ensures var c := ShiftCount(x); var p := Pow2(c);
            c <= 12 && Pow2(2 * c) == p * p && x < 256 * (p * p) && (c > 0 ==> 64 * (p * p) <= x)
  {
    var v := x / 128;
    var w := BitWidth(v);
    assert v < Pow2(w) && (v > 0 ==> Pow2(w - 1) <= v);
    WidthWithin25(v);
    TableWindow(x, w, w / 2);
  }

  lemma TableWindow(x: nat, w: nat, c: nat)
    requires c == w / 2 && x / 128 < Pow2(w) && (w > 0 ==> Pow2(w - 1) <= x / 128)
    ensures Pow2(2 * c) == Pow2(c) * Pow2(c)
    ensures x < 256 * Pow2(2 * c) && (c > 0 ==> 64 * Pow2(2 * c) <= x)
  {
    Pow2Add(c, c);
    DoubleTwice(2 * c);
    if w == 2 * c {
      assert w > 0 ==> Pow2(w) == 2 * Pow2(w - 1);
    }
    hide Pow2;
    ScaledByTable(x, Pow2(2 * c), c);
  }

  /** From x / 128 to x itself. */
  lemma ScaledByTable(x: nat, n: nat, c: nat)
    requires x / 128 < 2 * n && (c > 0 ==> n <= 2 * (x / 128))
    ensures x < 256 * n && (c > 0 ==> 64 * n <= x)
  {
  }

  lemma WidthWithin25(v: nat)
    requires v < 0x200_0000
    ensures BitWidth(v) <= 25
  {
    hide Pow2, BitWidth;
    Pow2Add(25, 7);
    SmallPowers(7);
    Pow2At16();
    BitWidthBound(v, 25);
  }

  lemma SmallPowers(c: nat)
    requires c <= 12
    ensures Pow2(c) == [1, 2, 4, 8, 16, 32, 64, 128, 256, 512, 1024, 2048, 4096][c]
  {
    if c > 0 {
      SmallPowers(c - 1);
    }
  }

  /** Which branch a shift count takes, said of the power of two. */
  lemma ShiftRanges(c: nat)
    requires c <= 12
    ensures 1 <= Pow2(c) <= 4096
    ensures c >= 1 <==> Pow2(c) >= 2
    ensures c <= 4 <==> Pow2(c) <= 16
    ensures c <= 8 <==> Pow2(c) <= 256
    ensures c <= 3 <==> Pow2(c) <= 8
    ensures c >= 5 ==> Pow2(c) % 32 == 0
    ensures c == 4 ==> Pow2(c) == 16
    ensures (30 / Pow2(c)) % 2 == AsBit(1 <= c <= 4)
  {
    hide Pow2;
    SmallPowers(c);
    assert c >= 5 ==> 30 / Pow2(c) == 0;
  }

  /** The table entry brackets the root: t*p/16 is at most the root, (t+2)*p/16 is above it. */
  lemma EntryBrackets(x: nat, p: nat, n: nat, s: nat)
    requires 0 < p && n == p * p && n > 0 && 64 * n <= x < 256 * n && IsRoot(x, s)
    ensures 64 <= x / n < 256
    ensures var t := Entry(x / n); 128 <= t < 256 && t * p < 16 * (s + 1) && 16 * s < t * p + 2 * p
  {
    hide Entry;
    var i := x / n;
    IndexRange(x, n, i);
    var t := Entry(i);
    TableCorrect(i);
    SquareMono(128, t + 1);
    SquareMono(t, 255);
    LowerBracket(x, n, i, t, p, s);
    UpperBracket(x, n, i, t, p, s);
  }

  lemma IndexRange(x: nat, n: nat, i: nat)
    requires n > 0 && 64 * n <= x < 256 * n && i == x / n
    ensures i * n <= x < (i + 1) * n && 64 <= i < 256
  {
    MulMono(i + 1, 64, n);
    MulMono(256, i, n);
  }

  lemma SquareOfProduct(a: int, b: int)
    ensures (a * b) * (a * b) == (a * a) * (b * b)
  {
  }

  lemma LowerBracket(x: nat, n: nat, i: nat, t: nat, p: nat, s: nat)
    requires n == p * p && i * n <= x && IsRoot(x, s) && t * t <= 256 * i
    ensures t * p < 16 * (s + 1)
  {
    SquareOfProduct(t, p);
    MulMono(t * t, 256 * i, n);
    Regroup(i, n);
    SquareOfProduct(16, s + 1);
    SquareMono(16 * (s + 1), t * p);
  }

  lemma Regroup(i: int, n: int)
    ensures (256 * i) * n == 256 * (i * n)
  {
  }

  lemma UpperBracket(x: nat, n: nat, i: nat, t: nat, p: nat, s: nat)
    requires 0 < p && n == p * p && x < (i + 1) * n && IsRoot(x, s) && 256 * i < (t + 1) * (t + 1) && t >= 127
    ensures 16 * s < t * p + 2 * p
  {
    hide IsRoot;
    var u := t + 2;
    NextSquares(t, i);
    MulMono(256 * (i + 1), u * u, n);
    Regroup(i + 1, n);
    UpperSquares(x, s, u, p, n);
  }

  lemma NextSquares(t: nat, i: nat)
    requires 256 * i < (t + 1) * (t + 1) && t >= 127
    ensures 256 * (i + 1) <= (t + 2) * (t + 2)
  {
    assert (t + 2) * (t + 2) == (t + 1) * (t + 1) + 2 * t + 3;
  }

  lemma UpperSquares(x: nat, s: nat, u: nat, p: nat, n: nat)
    requires IsRoot(x, s) && n == p * p && 256 * x < (u * u) * n
    ensures 16 * s < u * p
  {
    SquareOfProduct(u, p);
    SquareOfProduct(16, s);
    SquareMono(u * p, 16 * s);
  }

  /** What each stage of the routine holds: a value that is the root, or near it, in 16 bits. */
  predicate WithinOne(s: nat, y: nat) {
    s <= y <= s + 1 && 0 < y < B16
  }

  /** Without a shift the seed is already the root. */
  lemma SeedExact(x: nat, s: nat)
    requires x < 256 && IsRoot(x, s)
    ensures Entry(x) / 16 == s
  {
    hide Entry;
    TableCorrect(x);
    var t := Entry(x);
    assert (16 * (s + 1)) * (16 * (s + 1)) == 256 * ((s + 1) * (s + 1));
    SquareMono(16 * (s + 1), t);
    assert (16 * s) * (16 * s) == 256 * (s * s);
    SquareMono(t + 1, 16 * s);
  }

  /** For the shifts 1 to 4 the seed is the root or one more. */
  lemma SeedNear(v: nat, t: nat, p: nat, s: nat)
    requires v == t * p && v < 16 * (s + 1) && 16 * s < v + 2 * p
    requires 2 <= p <= 8 || p == 16
    ensures s <= v / 16 + 1 <= s + 1
  {
  }

  /** For larger shifts the seed is below the root by at most p/8. */
  lemma SeedBelow(v: nat, t: nat, p: nat, s: nat)
    requires v == t * p && v < 16 * (s + 1) && 16 * s < v + 2 * p
    requires 128 <= t && 32 <= p <= 4096 && p % 32 == 0
    ensures v / 16 <= s && 8 * p <= v / 16
    ensures 8 * (s - v / 16 + 1) <= p
  {
    var m := p / 32;
    Times32(t, p, m);
    MulMono(128, t, p);
    BelowLinear(t * m, m, p, s);
  }

  lemma Times32(t: nat, p: nat, m: nat)
    requires p == 32 * m
    ensures t * p == 32 * (t * m)
  {
  }

  lemma BelowLinear(k: nat, m: nat, p: nat, s: nat)
    requires p == 32 * m && 32 * k < 16 * (s + 1) && 16 * s < 32 * k + 2 * p && 128 * p <= 32 * k
    ensures 32 * k / 16 <= s && 8 * p <= 32 * k / 16 && 8 * (s - 32 * k / 16 + 1) <= p
  {
    assert 32 * k / 16 == 2 * k;
  }

  /** One step from such a seed errs by at most 1 below p = 512 and by at most 4 below p = 8192. */
  lemma SeedStep(x: nat, s: nat, y: nat, p: nat, e: nat)
    requires IsRoot(x, s) && 8 * p <= y <= s && p > 0 && 8 * (s - y + 1) <= p <= 1024 * e
    ensures s <= Heron(x, y) <= s + e
  {
    hide IsRoot;
    HeronLower(x, y, s);
    StepSquares(s + 1 - y, p, e, y);
    assert (y - (s + 1)) * (y - (s + 1)) == (s + 1 - y) * (s + 1 - y);
    HeronUpper(x, y, s, e);
  }

  lemma StepSquares(d: nat, p: nat, e: nat, y: nat)
    requires 8 * d <= p <= 1024 * e && 8 * p <= y
    ensures d * d <= 2 * e * y
  {
    SquareMono(8 * d, p);
    SquareOfProduct(8, d);
    MulMono(p, 1024 * e, p);
    Times(e, p);
    MulMono(8 * p, y, 2 * e);
    assert y * (2 * e) == 2 * e * y;
  }

  lemma Times(e: nat, p: nat)
    ensures (1024 * e) * p == 64 * ((8 * p) * (2 * e))
  {
  }

  /** A second step from within four of the root lands within one. */
  lemma SecondStep(x: nat, s: nat, y: nat)
    requires IsRoot(x, s) && 8 <= s <= y <= s + 4
    ensures s <= Heron(x, y) <= s + 1
  {
    HeronLower(x, y, s);
    SquareMono(3, if y > s then y - s - 1 else 1);
    assert (y - (s + 1)) * (y - (s + 1)) <= 9;
    HeronUpper(x, y, s, 1);
  }

  /** The seed as the first two forms compute it: scale the entry, then add one for the shifts 1 to 4. */
  function Seed(t: nat, p: nat): nat
    requires p > 0
  {
    U32(U32(U32(t * p) / 16) + (30 / p) % 2)
  }

  /** The number of Heron steps each shift count is followed by always suffices. */
  predicate Suffices(x: nat, s: nat, c: nat, y: nat) {
    && (c == 0 ==> y == s)
    && (1 <= c <= 4 ==> WithinOne(s, y))
    && (c >= 5 ==> 256 <= y < B16)
    && (5 <= c <= 8 ==> WithinOne(s, Heron(x, y)))
    && (c >= 9 ==> 256 <= Heron(x, y) < 2 * B16 && WithinOne(s, Heron(x, Heron(x, y))))
  }

  /** `x >> shift_count * 2`. */
  function TableIndex(x: nat, c: nat): nat {
    x / Pow2(2 * c)
  }

  lemma SeedSuffices(x: nat, s: nat, c: nat)
    requires x < B32 && IsRoot(x, s) && c == ShiftCount(x)
    ensures c <= 12 && TableIndex(x, c) < 256
    ensures Suffices(x, s, c, Seed(Entry(TableIndex(x, c)), Pow2(c)))
  {
    hide IsRoot, ShiftCount, Pow2, Entry, Suffices, U32, Seed;
    ShiftCountBounds(x);
    ShiftRanges(c);
    if c == 0 {
      Pow2IsOne();
      SmallSuffices(x, s);
    } else {
      EntrySuffices(x, s, c, Pow2(c), Pow2(2 * c));
    }
  }

  lemma EntrySuffices(x: nat, s: nat, c: nat, p: nat, n: nat)
    requires x < B32 && IsRoot(x, s) && 1 <= c <= 12 && n == p * p && n > 0 && 64 * n <= x < 256 * n
    requires 2 <= p <= 4096 && (c <= 4 <==> p <= 16) && (c <= 8 <==> p <= 256) && (c <= 3 <==> p <= 8)
    requires (c >= 5 ==> p % 32 == 0) && (30 / p) % 2 == AsBit(c <= 4) && (c == 4 ==> p == 16)
    ensures x / n < 256 && Suffices(x, s, c, Seed(Entry(x / n), p))
  {
    hide IsRoot, Entry, Suffices, U32, Seed;
    EntryBrackets(x, p, n, s);
    var t := Entry(x / n);
    RootBound(x, s);
    if c <= 4 {
      NoStep(x, s, c, p, t);
    } else {
      if s == B16 - 1 {
        TopEntry(x, p, n);
      }
      Steps(x, s, c, p, t);
    }
  }

  /** A root of 65535 comes from the last table entry at the last shift. */
  lemma TopEntry(x: nat, p: nat, n: nat)
    requires IsRoot(x, 65535) && n == p * p && x < B32 && x < 256 * n && 0 < p <= 4096
    ensures p == 4096 && n == 0x100_0000 && x / n == 255 && Entry(255) == 255
  {
    hide Entry;
    SquareMono(p, 4095);
    assert p == 4096;
    TableCorrect(255);
    RootUnique(65280, 255, Entry(255));
  }

  lemma SmallSuffices(x: nat, s: nat)
    requires x < 256 && IsRoot(x, s)
    ensures x / 1 == x && Suffices(x, s, 0, Seed(Entry(x), 1))
  {
    hide IsRoot, Entry, Seed;
    SeedExact(x, s);
    EntryUnder256(x);
    SeedInRange(Entry(x), 1, Entry(x));
  }

  lemma EntryUnder256(i: nat)
    requires i < 256
    ensures Entry(i) < 256
  {
    hide Entry;
    TableCorrect(i);
    SquareMono(256, Entry(i));
  }

  lemma NoStep(x: nat, s: nat, c: nat, p: nat, t: nat)
    requires 1 <= c <= 4 && t < 256 && t * p < 16 * (s + 1) && 16 * s < t * p + 2 * p
    requires 2 <= p <= 16 && (c <= 3 <==> p <= 8) && (30 / p) % 2 == 1 && (p <= 8 || p == 16)
    ensures Suffices(x, s, c, Seed(t, p))
  {
    MulMono(t, 255, p);
    SeedNear(t * p, t, p, s);
    SeedInRange(t, p, t * p);
  }

  lemma SeedInRange(t: nat, p: nat, v: nat)
    requires 0 < p && v == t * p && v < 0x10_0000
    ensures Seed(t, p) == v / 16 + (30 / p) % 2
  {
    var a := (30 / p) % 2;
    U32Exact(v);
    U32Exact(v / 16);
    U32Exact(v / 16 + a);
  }

  lemma Steps(x: nat, s: nat, c: nat, p: nat, t: nat)
    requires 5 <= c <= 12 && x < B32 && IsRoot(x, s) && s < B16
    requires 128 <= t < 256 && t * p < 16 * (s + 1) && 16 * s < t * p + 2 * p
    requires 32 <= p <= 4096 && p % 32 == 0 && (c <= 8 <==> p <= 256) && (30 / p) % 2 == 0
    requires s == B16 - 1 ==> t == 255 && p == 4096
    ensures Suffices(x, s, c, Seed(t, p))
  {
    hide IsRoot, U32;
    var v := t * p;
    MulMono(t, 255, p);
    SeedBelow(v, t, p, s);
    SeedInRange(t, p, v);
    hide Seed, Suffices;
    SmallRoot(s, t, p);
    StepsFrom(x, s, c, p, t, v / 16);
  }

  lemma StepsFrom(x: nat, s: nat, c: nat, p: nat, t: nat, y: nat)
    requires 5 <= c <= 12 && x < B32 && IsRoot(x, s) && s < B16
    requires 32 <= p <= 4096 && (c <= 8 <==> p <= 256) && (c <= 8 ==> s < 0x2000)
    requires 8 * p <= y <= s && 8 * (s - y + 1) <= p
    requires s == B16 - 1 ==> y == 65280
    ensures Suffices(x, s, c, y)
  {
    hide IsRoot, Heron;
    if c <= 8 {
      SeedStep(x, s, y, p, 1);
    } else {
      SeedStep(x, s, y, p, 4);
      SecondStep(x, s, Heron(x, y));
      if s == B16 - 1 {
        RootSquare(x, s);
        TopSeed(x, y);
      }
    }
  }

  lemma RootSquare(x: nat, s: nat)
    requires IsRoot(x, s)
    ensures s * s <= x
  {
  }

  lemma SmallRoot(s: nat, t: nat, p: nat)
    requires t < 256 && 16 * s < t * p + 2 * p
    ensures p <= 256 ==> s < 0x2000
  {
    MulMono(t, 255, p);
  }

  /** At the very top the first step lands on 2^16 only when the second brings it back. */
  lemma TopSeed(x: nat, y: nat)
    requires 65535 * 65535 <= x < B32 && y == 65280
    ensures 65535 <= Heron(x, y) <= B16 && Heron(x, Heron(x, y)) < B16
  {
    assert 65790 <= x / 65280 <= 65793;
    if x < 4294901760 {
      assert x / 65535 <= 65536;
    } else {
      assert x / B16 < B16;
    }
  }

  /** The sum in a Heron step does not wrap. */
  lemma StepNoWrap(x: nat, y: nat)
    requires x < B32 && 256 <= y < 2 * B16
    ensures U32(y + x / y) / 2 == Heron(x, y)
  {
    hide U32;
    var q := x / y;
    QuotientTimes(x, y, q);
    SumFits(x, y, q);
    U32Exact(y + q);
  }

  lemma SumFits(x: nat, y: nat, q: nat)
    requires x < B32 && 256 <= y < 2 * B16 && y * q <= x
    ensures y + q < B32
  {
    MulMono(256, y, q);
  }

  lemma QuotientTimes(x: nat, y: nat, q: int)
    requires y > 0 && q == x / y
    ensures 0 <= q && y * q <= x
  {
  }

  /** The last comparison picks the root out of two candidates. */
  lemma FinalTest(x: nat, s: nat, y: nat)
    requires IsRoot(x, s) && WithinOne(s, y)
    ensures U32(y - AsBit(x < U32(y * y))) % B16 == s
  {
    hide U32;
    SquareMono(y, B16 - 1);
    NoWrapSquare(y);
    TestAtRoot(x, s, y);
    Identity32(s);
  }

  lemma Identity32(s: nat)
    requires s < B16
    ensures U32(s) == s && s % B16 == s
  {
  }

  /** `new_fast_sqrt`: a switch on the shift count whose cases fall through. */
  method NewFastSqrt(x: nat) returns (r: nat)
    requires x < B32
    ensures IsRoot(x, r)
  {
    hide IsRoot, ShiftCount, TableIndex, Entry, Pow2, Seed, U32, Heron;
    ghost var s := RootExists(x);
    var c := ShiftCount(x);
    SeedSuffices(x, s, c);
    var y := Seed(Entry(TableIndex(x, c)), Pow2(c));
    if 9 <= c <= 12 {
      StepNoWrap(x, y);
      y := U32(y + x / y) / 2;
    }
    if 5 <= c <= 12 {
      StepNoWrap(x, y);
      y := U32(y + x / y) / 2;
    }
    if 1 <= c <= 12 {
      FinalTest(x, s, y);
      y := U32(y - AsBit(x < U32(y * y)));
    } else {
      RootUnder16(x, s);
    }
    r := y % B16;
  }

  lemma RootUnder16(x: nat, s: nat)
    requires IsRoot(x, s) && x < B32
    ensures s % B16 == s
  {
    RootBound(x, s);
  }

  /** `new_fast_sqrt2`: the same steps under nested conditions. */
  method NewFastSqrt2(x: nat) returns (r: nat)
    requires x < B32
    ensures IsRoot(x, r)
  {
    hide IsRoot, ShiftCount, TableIndex, Entry, Pow2, Seed, U32, Heron;
    ghost var s := RootExists(x);
    RootUnder16(x, s);
    var c := ShiftCount(x);
    SeedSuffices(x, s, c);
    var y := Seed(Entry(TableIndex(x, c)), Pow2(c));
    if c > 0 {
      if c > 4 {
        if c > 8 {
          StepNoWrap(x, y);
          y := U32(y + x / y) / 2;
        }
        StepNoWrap(x, y);
        y := U32(y + x / y) / 2;
      }
      FinalTest(x, s, y);
      y := U32(y - AsBit(x < U32(y * y)));
    }
    r := y % B16;
  }

  /** `__rold`: rotate a 32-bit value left by n places, n taken modulo 32. */
  function RotateLeft(v: nat, n: int): int
    requires v < B32
  {
    Join(v, Pow2(n % 32), Pow2(32 - n % 32))
  }

  /** The two halves of a rotation, given the powers of two they shift by. */
  function Join(v: nat, up: nat, down: nat): int
    requires down > 0
  {
    U32(v * up) + v / down
  }

  /** The seed as the third form computes it: one rotation, truncated to 16 bits. */
  function RotatedSeed(t: nat, c: nat): (y: nat)
    requires t < 256 && c <= 12
    ensures y == Seed(t, Pow2(c))
  {
    RotationSeeds(t, c);
    U32(RotateLeft(t, c - 4) % B16 + (30 / Pow2(c)) % 2)
  }

  /** `new_fast_sqrt3`: the entry is scaled by one rotation, and the conditions test x itself. */
  method NewFastSqrt3(x: nat) returns (r: nat)
    requires x < B32
    ensures IsRoot(x, r)
  {
    hide IsRoot, ShiftCount, TableIndex, Entry, Pow2, Seed, U32, Heron, RotatedSeed;
    ghost var s := RootExists(x);
    RootUnder16(x, s);
    var c := ShiftCount(x);
    SeedSuffices(x, s, c);
    EntryUnder256(TableIndex(x, c));
    BranchOnValue(x);
    var y := RotatedSeed(Entry(TableIndex(x, c)), c);
    if x > 0xFF {
      if x > 0xFFFF {
        if x > 0xFF_FFFF {
          StepNoWrap(x, y);
          y := U32(y + x / y) / 2;
        }
        StepNoWrap(x, y);
        y := U32(y + x / y) / 2;
      }
      FinalTest(x, s, y);
      y := U32(y - AsBit(x < U32(y * y)));
    }
    r := y % B16;
  }

  /** The conditions on x are the conditions on the shift count. */
  lemma BranchOnValue(x: nat)
    requires x < B32
    ensures ShiftCount(x) <= 12
    ensures x > 0xFF <==> ShiftCount(x) > 0
    ensures x > 0xFFFF <==> ShiftCount(x) > 4
    ensures x > 0xFF_FFFF <==> ShiftCount(x) > 8
  {
    hide ShiftCount, Pow2;
    var c := ShiftCount(x);
    ShiftCountBounds(x);
    Window(x, Pow2(c));
    SmallPowers(c);
  }

  lemma Window(x: nat, p: nat)
    requires x < 256 * (p * p)
    ensures p <= 1 ==> x <= 0xFF
    ensures p <= 16 ==> x <= 0xFFFF
    ensures p <= 256 ==> x <= 0xFF_FFFF
    ensures 64 * (p * p) <= x ==> (p >= 2 ==> x > 0xFF) && (p >= 32 ==> x > 0xFFFF) && (p >= 512 ==> x > 0xFF_FFFF)
  {
    SquareMono(p, 256);
    SquareMono(p, 16);
    SquareMono(2, p);
    SquareMono(32, p);
    SquareMono(512, p);
  }

  /** Rotating by a negative count parks the dropped bits above the 16 that are kept. */
  lemma RotationSeeds(t: nat, c: nat)
    requires t < 256 && c <= 12
    ensures U32(RotateLeft(t, c - 4) % B16 + (30 / Pow2(c)) % 2) == Seed(t, Pow2(c))
  {
    hide Seed, RotateLeft, Pow2, U32;
    PowerRange(c);
    RotationScales(t, c);
    ScaledEntrySmall(t, Pow2(c));
  }

  lemma ScaledEntrySmall(t: nat, p: nat)
    requires t < 256 && 0 < p <= 4096
    ensures Seed(t, p) == U32(t * p / 16 + (30 / p) % 2)
  {
    hide Seed;
    MulMono(t, 255, p);
    SeedInRange(t, p, t * p);
    var v := t * p;
    hide U32;
    U32Exact(v / 16 + (30 / p) % 2);
  }

  lemma PowerRange(c: nat)
    requires c <= 12
    ensures 0 < Pow2(c) <= 4096
  {
    ShiftRanges(c);
  }

  lemma RotationScales(t: nat, c: nat)
    requires t < 256 && c <= 12
    ensures RotateLeft(t, c - 4) % B16 == t * Pow2(c) / 16
  {
    hide Join, Pow2, RotateLeft;
    if c < 4 {
      RotateDownPowers(c);
      RotateAs(t, c - 4, 28 + c);
      JoinRight(t, Pow2(c), Pow2(4 - c));
    } else {
      RotateUpPowers(c - 4);
      RotateAs(t, c - 4, c - 4);
      JoinUp(t, Pow2(c - 4), Pow2(32 - (c - 4)), Pow2(c));
    }
  }

  lemma RotateAs(t: nat, n: int, k: nat)
    requires t < B32 && k < 32 && (n == k || n + 32 == k)
    ensures RotateLeft(t, n) == Join(t, Pow2(k), Pow2(32 - k))
  {
    assert n % 32 == k;
  }

  lemma RotateUpPowers(n: nat)
    requires n <= 8
    ensures Pow2(n) <= 256 && Pow2(32 - n) >= B16 && Pow2(n + 4) == 16 * Pow2(n)
  {
    hide Pow2;
    Pow2At16();
    Pow2Monotone(n, 8);
    Pow2Monotone(16, 32 - n);
    DoubleTwice(n);
    DoubleTwice(n + 2);
  }

  lemma RotateDownPowers(c: nat)
    requires c < 4
    ensures Pow2(28 + c) == 0x1000_0000 * Pow2(c) && 32 - (28 + c) == 4 - c
    ensures var p, q := Pow2(c), Pow2(4 - c);
            (p == 1 && q == 16) || (p == 2 && q == 8) || (p == 4 && q == 4) || (p == 8 && q == 2)
  {
    hide Pow2;
    TopPowers();
    Pow2Add(28, c);
    Pow2IsOne();
    DoubleTwice(0);
    DoubleTwice(1);
    DoubleTwice(2);
    if c == 0 {} else if c == 1 {} else if c == 2 {} else {}
  }

  lemma TopPowers()
    ensures Pow2(28) == 0x1000_0000 && Pow2(16) == B16
  {
    hide Pow2;
    Pow2At16();
    SmallPowers(12);
    Pow2Add(16, 12);
  }

  lemma JoinUp(t: nat, up: nat, down: nat, p: nat)
    requires t < 256 && up <= 256 && down >= B16 && p == 16 * up
    ensures Join(t, up, down) % B16 == t * p / 16
  {
    hide Join;
    JoinWithoutCarry(t, up, down);
    SixteenTimes(t, up, p);
    KeepLow(0, t * up);
  }

  lemma JoinWithoutCarry(t: nat, up: nat, down: nat)
    requires t < 256 && up <= 256 && down >= B16
    ensures Join(t, up, down) == t * up && 0 <= t * up < B16
  {
    hide U32;
    MulMono(t, 255, up);
    SmallQuotient(t, down);
    U32Exact(t * up);
  }

  lemma SixteenTimes(t: nat, up: nat, p: nat)
    requires p == 16 * up
    ensures t * p / 16 == t * up
  {
    assert t * p == 16 * (t * up);
  }

  lemma SmallQuotient(t: nat, down: nat)
    requires t < down
    ensures t / down == 0
  {
  }

  lemma JoinRight(t: nat, p: nat, q: nat)
    requires t < 256 && ((p == 1 && q == 16) || (p == 2 && q == 8) || (p == 4 && q == 4) || (p == 8 && q == 2))
    ensures Join(t, 0x1000_0000 * p, q) % B16 == t * p / 16
  {
    var w := t * p;
    assert t * (0x1000_0000 * p) == 0x1000_0000 * w;
    HighBitsOnly(w);
    hide U32;
    SameQuotient(t, p, q);
    KeepLow(w % 16, w / 16);
  }

  lemma KeepLow(high: nat, low: nat)
    requires low < B16
    ensures (0x1000_0000 * high + low) % B16 == low
  {
    ModUnique(0x1000_0000 * high + low, 0x1000 * high, low, B16);
  }

  lemma SameQuotient(t: nat, p: nat, q: nat)
    requires (p == 1 && q == 16) || (p == 2 && q == 8) || (p == 4 && q == 4) || (p == 8 && q == 2)
    ensures t / q == t * p / 16
  {
    if p == 1 {} else if p == 2 {} else if p == 4 {} else {}
  }

  lemma HighBitsOnly(w: nat)
    requires w < 0x1_0000
    ensures U32(0x1000_0000 * w) == 0x1000_0000 * (w % 16)
  {
    assert 0x1000_0000 * w == (w / 16) * B32 + 0x1000_0000 * (w % 16);
  }
}
