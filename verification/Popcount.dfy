/** The portable `redisPopcount` of src/bitops.c: a byte table and seven words at a time. */
module Popcount {
  import opened Basics
  import opened BitString

  // ------------------------------------------------------------------- the byte table

  /** The macros B2, B4 and B6, each four of the one before; `Block(4, 0)` is bitsinbyte. */
  function Block(k: nat, n: nat): seq<nat> {
    if k == 0 then [n] else Block(k - 1, n) + Block(k - 1, n + 1) + Block(k - 1, n + 1) + Block(k - 1, n + 2)
  }

  function Power4(k: nat): nat {
    if k == 0 then 1 else 4 * Power4(k - 1)
  }

  // Quotient and remainder are what they look like.

  lemma Div2(n: nat, q: nat, r: nat)
    requires r < 2 && n == 2 * q + r
    ensures n / 2 == q && n % 2 == r
  {
  }

  lemma Div4(n: nat, q: nat, r: nat)
    requires r < 4 && n == 4 * q + r
    ensures n / 4 == q && n % 4 == r
  {
  }

  lemma Div16(n: nat, q: nat, r: nat)
    requires r < 16 && n == 16 * q + r
    ensures n / 16 == q && n % 16 == r
  {
  }

  lemma Div256(n: nat, q: nat, r: nat)
    requires r < 256 && n == 256 * q + r
    ensures n / 256 == q && n % 256 == r
  {
  }

  lemma DivTop(n: nat, q: nat, r: nat)
    requires r < 0x100_0000 && n == 0x100_0000 * q + r
    ensures n / 0x100_0000 == q && n % 0x100_0000 == r
  {
  }

  lemma DivWord(n: nat, q: nat, r: nat)
    requires r < 0x1_0000_0000 && n == 0x1_0000_0000 * q + r
    ensures n / 0x1_0000_0000 == q && n % 0x1_0000_0000 == r
  {
  }

  lemma Quarter(q: nat, r: nat)
    requires r < 4
    ensures (4 * q + r) / 4 == q && (4 * q + r) % 4 == r
  {
    Div4(4 * q + r, q, r);
  }

  lemma PopJoin4(q: nat, r: nat)
    requires r < 4
    ensures Pop(4 * q + r) == Pop(r) + Pop(q)
  {
    var n := 4 * q + r;
    Div2(n, 2 * q + r / 2, r % 2);
    Div2(n / 2, q, r / 2);
    PopTwice(n);
    PopTwice(r);
    assert r / 2 / 2 == 0;
  }

  lemma PopTwice(n: nat)
    ensures Pop(n) == n % 2 + (n / 2) % 2 + Pop(n / 2 / 2)
  {
  }

  /** Ones of a number split after `2 * k` low bits. */
  lemma {:induction false} PopShifted(k: nat, q: nat, j: nat)
    requires q < 4 && j < Power4(k)
    ensures Pop(q * Power4(k) + j) == Pop(q) + Pop(j)
  {
    hide Pop;
    if k == 0 {
      SmallPops();
    } else {
      var p := Power4(k - 1);
      var m, r := j / 4, j % 4;
      assert q * Power4(k) == 4 * (q * p);
      PopShifted(k - 1, q, m);
      PopJoin4(q * p + m, r);
      PopJoin4(m, r);
      assert q * Power4(k) + j == 4 * (q * p + m) + r;
    }
  }

  lemma {:induction false} BlockLength(k: nat, n: nat)
    ensures |Block(k, n)| == Power4(k)
  {
    if k > 0 {
      BlockLength(k - 1, n);
      BlockLength(k - 1, n + 1);
      BlockLength(k - 1, n + 2);
    }
  }

  lemma {:induction false} BlockIsPop(k: nat, n: nat, i: nat)
    requires i < Power4(k)
    ensures |Block(k, n)| == Power4(k)
    ensures Block(k, n)[i] == n + Pop(i)
  {
    hide Pop, Block;
    SmallPops();
    BlockLength(k, n);
    if k == 0 {
      assert Block(0, n) == [n] by { BlockOfOne(n); }
    } else {
      var p := Power4(k - 1);
      BlockLength(k - 1, n);
      BlockLength(k - 1, n + 1);
      BlockLength(k - 1, n + 2);
      BlockParts(k, n, i);
      hide Power4;
      if i < p {
        BlockIsPop(k - 1, n, i);
      } else if i < 2 * p {
        BlockIsPop(k - 1, n + 1, i - p);
        PopShifted(k - 1, 1, i - p);
      } else if i < 3 * p {
        BlockIsPop(k - 1, n + 1, i - 2 * p);
        PopShifted(k - 1, 2, i - 2 * p);
      } else {
        BlockIsPop(k - 1, n + 2, i - 3 * p);
        PopShifted(k - 1, 3, i - 3 * p);
      }
    }
  }

  lemma BlockOfOne(n: nat)
    ensures Block(0, n) == [n]
  {
  }

  lemma BlockParts(k: nat, n: nat, i: nat)
    requires k > 0 && i < Power4(k) && |Block(k, n)| == Power4(k)
    requires |Block(k - 1, n)| == |Block(k - 1, n + 1)| == |Block(k - 1, n + 2)| == Power4(k - 1)
    ensures
      var p := Power4(k - 1);
      Block(k, n)[i]
        == if i < p then Block(k - 1, n)[i] else if i < 2 * p then Block(k - 1, n + 1)[i - p]
           else if i < 3 * p then Block(k - 1, n + 1)[i - 2 * p] else Block(k - 1, n + 2)[i - 3 * p]
  {
  }

  lemma SmallPops()
    ensures Pop(0) == 0 && Pop(1) == 1 && Pop(2) == 1 && Pop(3) == 2
  {
    assert Pop(1) == 1 + Pop(0);
    assert Pop(3) == 1 + Pop(1);
  }

  const BITS_IN_BYTE := Block(4, 0)

  /** An entry of the table is the number of ones of its index. */
  lemma TableIsCount(b: Byte)
    ensures Val(b) < |BITS_IN_BYTE| == 256 && BITS_IN_BYTE[Val(b)] == CountTrue(b)
  {
    ValBound(b, 8);
    assert Power4(4) == 256;
    BlockIsPop(4, 0, Val(b));
    PopOfVal(b);
  }

  lemma {:induction false} ValBound(bits: seq<bool>, n: nat)
    requires |bits| == n
    ensures Val(bits) < Power2(n)
    ensures n == 8 ==> Val(bits) < 256
  {
    if n > 0 {
      ValBound(bits[..n - 1], n - 1);
    }
    if n == 8 {
      assert Power2(8) == 256;
    }
  }

  // -------------------------------------------------------------------- the word steps

  /** x & 0x55555555, x & 0x33333333 and x & 0x0F0F0F0F. */
  function And55(x: nat): nat {
    if x == 0 then 0 else x % 2 + 4 * And55(x / 4)
  }

  function And33(x: nat): nat {
    if x == 0 then 0 else x % 4 + 16 * And33(x / 16)
  }

  function And0F(x: nat): nat {
    if x == 0 then 0 else x % 16 + 256 * And0F(x / 256)
  }

  /** Ones counted in lanes of two, four and eight bits. */
  function Pairs(w: nat): nat {
    if w == 0 then 0 else Pop(w % 4) + 4 * Pairs(w / 4)
  }

  function Nibbles(w: nat): nat {
    if w == 0 then 0 else Pop(w % 16) + 16 * Nibbles(w / 16)
  }

  function Lanes(w: nat): nat {
    if w == 0 then 0 else Pop(w % 256) + 256 * Lanes(w / 256)
  }

  lemma PairsJoin(q: nat, r: nat)
    requires r < 4
    ensures Pairs(4 * q + r) == Pop(r) + 4 * Pairs(q)
  {
    Quarter(q, r);
    SmallPops();
  }

  lemma Sixteenth(q: nat, r: nat)
    requires r < 16
    ensures (16 * q + r) / 16 == q && (16 * q + r) % 16 == r && (16 * q + r) % 4 == r % 4
  {
    Div16(16 * q + r, q, r);
    Div4(16 * q + r, 4 * q + r / 4, r % 4);
  }

  lemma Byteful(q: nat, r: nat)
    requires r < 256
    ensures (256 * q + r) / 256 == q && (256 * q + r) % 256 == r && (256 * q + r) % 16 == r % 16
  {
    Div256(256 * q + r, q, r);
    Div16(256 * q + r, 16 * q + r / 16, r % 16);
  }

  lemma NibblesJoin(q: nat, r: nat)
    requires r < 16
    ensures Nibbles(16 * q + r) == Pop(r) + 16 * Nibbles(q)
  {
    Sixteenth(q, r);
    SmallPops();
  }

  lemma LanesJoin(q: nat, r: nat)
    requires r < 256
    ensures Lanes(256 * q + r) == Pop(r) + 256 * Lanes(q)
  {
    Byteful(q, r);
    SmallPops();
  }

  lemma And33Join(q: nat, r: nat)
    requires r < 16
    ensures And33(16 * q + r) == r % 4 + 16 * And33(q)
  {
    Sixteenth(q, r);
  }

  lemma And0FJoin(q: nat, r: nat)
    requires r < 256
    ensures And0F(256 * q + r) == r % 16 + 256 * And0F(q)
  {
    Byteful(q, r);
  }

  lemma {:induction false} FirstStep(w: nat)
    ensures w - And55(w / 2) == Pairs(w)
  {
    if w > 0 {
      var q, r := w / 4, w % 4;
      FirstStep(q);
      SmallPops();
      Div2(w, 2 * q + r / 2, r % 2);
      Div2(w / 2, q, r / 2);
      Div4(w / 2, q / 2, 2 * (q % 2) + r / 2);
      assert And55(w / 2) == r / 2 + 4 * And55(q / 2);
    }
  }

  lemma PopUpTo3(r: nat)
    requires r < 4
    ensures Pop(r) <= 2
  {
    SmallPops();
  }

  lemma {:induction false} SecondStep(w: nat)
    ensures And33(Pairs(w)) + And33(Pairs(w) / 4) == Nibbles(w)
  {
    if w > 0 {
      var q, r := w / 16, w % 16;
      var y, x := r / 4, r % 4;
      assert w == 16 * q + r && r == 4 * y + x;
      SecondStep(q);
      SecondStepAt(q, y, x);
    }
  }

  lemma SecondStepAt(q: nat, y: nat, x: nat)
    requires y < 4 && x < 4 && And33(Pairs(q)) + And33(Pairs(q) / 4) == Nibbles(q)
    ensures var w := 16 * q + 4 * y + x; And33(Pairs(w)) + And33(Pairs(w) / 4) == Nibbles(w)
  {
    hide Pop, Pairs, Nibbles, And33;
    var p, i, j := Pairs(q), Pop(x), Pop(y);
    PopUpTo3(x);
    PopUpTo3(y);
    PairsJoin(4 * q + y, x);
    PairsJoin(q, y);
    assert Pairs(16 * q + 4 * y + x) == 16 * p + (4 * j + i);
    And33Join(p, 4 * j + i);
    Quarter(j, i);
    var m, n := p / 4, p % 4;
    Div4(16 * p + (4 * j + i), 16 * m + (4 * n + j), i);
    And33Join(m, 4 * n + j);
    Quarter(n, j);
    NibblesJoin(q, 4 * y + x);
    PopJoin4(y, x);
  }

  lemma PopUpTo15(r: nat)
    requires r < 16
    ensures Pop(r) <= 4
  {
    hide Pop;
    PopJoin4(r / 4, r % 4);
    PopUpTo3(r / 4);
    PopUpTo3(r % 4);
  }

  lemma PopJoin16(q: nat, r: nat)
    requires r < 16
    ensures Pop(16 * q + r) == Pop(r) + Pop(q)
  {
    hide Pop;
    var y, x := r / 4, r % 4;
    PopJoin4(4 * q + y, x);
    PopJoin4(q, y);
    PopJoin4(y, x);
  }

  lemma {:induction false} ThirdStep(w: nat)
    ensures And0F(Nibbles(w) + Nibbles(w) / 16) == Lanes(w)
  {
    if w > 0 {
      var q, r := w / 256, w % 256;
      var y, x := r / 16, r % 16;
      assert w == 256 * q + r && r == 16 * y + x;
      ThirdStep(q);
      ThirdStepAt(q, y, x);
    }
  }

  lemma NibblesLow(q: nat)
    ensures Nibbles(q) % 16 <= 4
  {
    hide Pop, Nibbles;
    PopUpTo15(q % 16);
    NibblesJoin(q / 16, q % 16);
  }

  lemma ThirdStepAt(q: nat, y: nat, x: nat)
    requires y < 16 && x < 16 && And0F(Nibbles(q) + Nibbles(q) / 16) == Lanes(q)
    ensures var w := 256 * q + 16 * y + x; And0F(Nibbles(w) + Nibbles(w) / 16) == Lanes(w)
  {
    hide Pop, Nibbles, Lanes, And0F;
    var n, i, j := Nibbles(q), Pop(x), Pop(y);
    PopUpTo15(x);
    PopUpTo15(y);
    NibblesLow(q);
    NibblesJoin(16 * q + y, x);
    NibblesJoin(q, y);
    assert Nibbles(256 * q + 16 * y + x) == 256 * n + 16 * j + i;
    ThirdArithmetic(n, j, i);
    And0FJoin(n + n / 16, 16 * (j + n % 16) + (i + j));
    Sixteenth(j + n % 16, i + j);
    LanesJoin(q, 16 * y + x);
    PopJoin16(y, x);
  }

  lemma ThirdArithmetic(n: nat, j: nat, i: nat)
    requires j <= 4 && i <= 4
    ensures var b := 256 * n + 16 * j + i; b + b / 16 == 256 * (n + n / 16) + (16 * (j + n % 16) + (i + j))
  {
    var b := 256 * n + 16 * j + i;
    Div16(b, 16 * n + j, i);
    assert n == 16 * (n / 16) + n % 16;
  }

  /** What the three steps make of one word. */
  function Swar(word: nat): nat {
    var a := if word >= And55(word / 2) then word - And55(word / 2) else 0;
    var b := And33(a) + And33(a / 4);
    And0F(b + b / 16)
  }

  lemma SwarIsLanes(w: nat)
    ensures Swar(w) == Lanes(w)
  {
    hide And55, And33, And0F, Pairs, Nibbles, Lanes;
    FirstStep(w);
    SecondStep(w);
    ThirdStep(w);
  }

  /** The number with these four bytes, the first one lowest. */
  function Four(a: nat, b: nat, c: nat, d: nat): nat {
    Join(Join(Join(d, c), b), a)
  }

  function Join(high: nat, low: nat): nat {
    256 * high + low
  }

  /** Four bytes as the processor loads them; the order does not matter for counting. */
  function Load(b0: Byte, b1: Byte, b2: Byte, b3: Byte): nat {
    Four(Val(b0), Val(b1), Val(b2), Val(b3))
  }

  lemma LanesOfLoad(b0: Byte, b1: Byte, b2: Byte, b3: Byte)
    ensures Lanes(Load(b0, b1, b2, b3))
         == Four(CountTrue(b0), CountTrue(b1), CountTrue(b2), CountTrue(b3))
  {
    ByteFacts(b0);
    ByteFacts(b1);
    ByteFacts(b2);
    ByteFacts(b3);
    hide Lanes, Pop, Val, CountTrue;
    LanesFour(Val(b0), Val(b1), Val(b2), Val(b3));
  }

  lemma LanesFour(v0: nat, v1: nat, v2: nat, v3: nat)
    requires v0 < 256 && v1 < 256 && v2 < 256 && v3 < 256
    ensures Lanes(Four(v0, v1, v2, v3)) == Four(Pop(v0), Pop(v1), Pop(v2), Pop(v3))
  {
    hide Lanes, Pop, Join;
    LanesOne(v3);
    LanesOfJoin(v3, v2);
    LanesOfJoin(Join(v3, v2), v1);
    LanesOfJoin(Join(Join(v3, v2), v1), v0);
  }

  lemma LanesOne(v: nat)
    requires v < 256
    ensures Lanes(v) == Pop(v)
  {
    hide Lanes, Pop;
    LanesJoin(0, v);
    NoLanes();
  }

  lemma LanesOfJoin(high: nat, low: nat)
    requires low < 256
    ensures Lanes(Join(high, low)) == Join(Lanes(high), Pop(low))
  {
    hide Lanes, Pop;
    LanesJoin(high, low);
  }

  lemma NoLanes()
    ensures Lanes(0) == 0
  {
  }

  lemma ByteFacts(b: Byte)
    ensures Val(b) < 256 && Pop(Val(b)) == CountTrue(b) <= 8
  {
    ValBound(b, 8);
    PopOfVal(b);
    CountBound(b);
  }

  /** ((x * 0x01010101) mod 2^32) >> 24 adds the four lanes of x, as long as they fit one. */
  function AddLanes(x: nat): nat {
    ((x * 0x01010101) % 0x1_0000_0000) / 0x100_0000
  }

  lemma TopByte(high: nat, top: nat, low: nat)
    requires top < 256 && low < 0x100_0000
    ensures ((0x1_0000_0000 * high + 0x100_0000 * top + low) % 0x1_0000_0000) / 0x100_0000 == top
  {
    var r := 0x100_0000 * top + low;
    DivWord(0x1_0000_0000 * high + r, high, r);
    DivTop(r, top, low);
  }

  lemma LanesAdd(a: nat, b: nat, c: nat, d: nat)
    requires a + b + c + d < 256
    ensures AddLanes(Four(a, b, c, d)) == a + b + c + d
  {
    var x := Four(a, b, c, d);
    var low := a + 256 * (a + b) + 65536 * (a + b + c);
    var high := b + c + d + 256 * (c + d) + 65536 * d;
    TopByte(high, a + b + c + d, low);
    assert x * 0x01010101 == 0x1_0000_0000 * high + 0x100_0000 * (a + b + c + d) + low;
  }

  // ---------------------------------------------------------------------- the function

  lemma {:induction false} CountBound(bits: seq<bool>)
    ensures CountTrue(bits) <= |bits|
  {
    if bits != [] {
      CountBound(bits[..|bits| - 1]);
    }
  }

  lemma CountByte(s: seq<Byte>, i: nat)
    requires i < |s|
    ensures CountTrue(Bits(s[..i + 1])) == CountTrue(Bits(s[..i])) + CountTrue(s[i])
  {
    assert s[..i + 1] == s[..i] + [s[i]];
    BitsAppend(s[..i], [s[i]]);
    BitsOfOne(s[i]);
    CountAppend(Bits(s[..i]), s[i]);
  }

  lemma CountFour(s: seq<Byte>, i: nat)
    requires i + 4 <= |s|
    ensures CountTrue(Bits(s[..i + 4]))
         == CountTrue(Bits(s[..i])) + CountTrue(s[i]) + CountTrue(s[i + 1]) + CountTrue(s[i + 2]) + CountTrue(s[i + 3])
  {
    CountByte(s, i);
    CountByte(s, i + 1);
    CountByte(s, i + 2);
    CountByte(s, i + 3);
  }

  /** The lanes of the sum of `n` words, written as four numbers. */
  ghost predicate LaneSum(sum: nat, s: seq<Byte>, from: nat, n: nat, a: nat, b: nat, c: nat, d: nat)
    requires from + 4 * n <= |s|
  {
    && sum == Four(a, b, c, d)
    && a <= 8 * n && b <= 8 * n && c <= 8 * n && d <= 8 * n
    && CountTrue(Bits(s[..from + 4 * n])) == CountTrue(Bits(s[..from])) + a + b + c + d
  }

  /** The sum of seven words' lanes: exact, since a lane is at most 56 and all four at most 224. */
  method SevenWords(s: seq<Byte>, from: nat) returns (bits: nat)
    requires from + 28 <= |s|
    ensures CountTrue(Bits(s[..from])) + bits == CountTrue(Bits(s[..from + 28]))
  {
    hide Swar, Load, AddLanes, LaneSum, Bits;
    var sum: nat := 0;
    ghost var a: nat, b: nat, c: nat, d: nat := 0, 0, 0, 0;
    NoWords(s, from);
    for n := 0 to 7
      invariant LaneSum(sum, s, from, n, a, b, c, d)
    {
      var i := from + 4 * n;
      var w := Load(s[i], s[i + 1], s[i + 2], s[i + 3]);
      OneMoreWord(sum, s, from, n, a, b, c, d);
      sum := sum + Swar(w);
      a, b, c, d := a + CountTrue(s[i]), b + CountTrue(s[i + 1]), c + CountTrue(s[i + 2]), d + CountTrue(s[i + 3]);
    }
    AllSeven(sum, s, from, a, b, c, d);
    bits := AddLanes(sum);
  }

  lemma NoWords(s: seq<Byte>, from: nat)
    requires from <= |s|
    ensures LaneSum(0, s, from, 0, 0, 0, 0, 0)
  {
    hide Bits, CountTrue;
  }

  lemma OneMoreWord(sum: nat, s: seq<Byte>, from: nat, n: nat, a: nat, b: nat, c: nat, d: nat)
    requires from + 4 * n + 4 <= |s| && LaneSum(sum, s, from, n, a, b, c, d)
    ensures
      var i := from + 4 * n;
      LaneSum(sum + Swar(Load(s[i], s[i + 1], s[i + 2], s[i + 3])), s, from, n + 1,
              a + CountTrue(s[i]), b + CountTrue(s[i + 1]), c + CountTrue(s[i + 2]), d + CountTrue(s[i + 3]))
  {
    hide Swar, Load, Bits, CountTrue, Lanes, Four;
    var i := from + 4 * n;
    var p, q, r, t := CountTrue(s[i]), CountTrue(s[i + 1]), CountTrue(s[i + 2]), CountTrue(s[i + 3]);
    SwarIsLanes(Load(s[i], s[i + 1], s[i + 2], s[i + 3]));
    LanesOfLoad(s[i], s[i + 1], s[i + 2], s[i + 3]);
    FourAdds(a, b, c, d, p, q, r, t);
    CountFour(s, i);
    AtMostEight(s[i]);
    AtMostEight(s[i + 1]);
    AtMostEight(s[i + 2]);
    AtMostEight(s[i + 3]);
    assert from + 4 * (n + 1) == i + 4;
  }

  lemma FourAdds(a: nat, b: nat, c: nat, d: nat, p: nat, q: nat, r: nat, t: nat)
    ensures Four(a, b, c, d) + Four(p, q, r, t) == Four(a + p, b + q, c + r, d + t)
  {
  }

  lemma AtMostEight(b: Byte)
    ensures CountTrue(b) <= 8
  {
    CountBound(b);
  }

  lemma AllSeven(sum: nat, s: seq<Byte>, from: nat, a: nat, b: nat, c: nat, d: nat)
    requires from + 28 <= |s| && LaneSum(sum, s, from, 7, a, b, c, d)
    ensures CountTrue(Bits(s[..from])) + AddLanes(sum) == CountTrue(Bits(s[..from + 28]))
  {
    hide Bits, CountTrue, AddLanes;
    LanesAdd(a, b, c, d);
  }

  /** One byte by the table. */
  lemma OneByte(s: seq<Byte>, i: nat)
    requires i < |s|
    ensures Val(s[i]) < |BITS_IN_BYTE|
    ensures CountTrue(Bits(s[..i + 1])) == CountTrue(Bits(s[..i])) + BITS_IN_BYTE[Val(s[i])]
  {
    hide Bits, CountTrue, BITS_IN_BYTE;
    TableIsCount(s[i]);
    CountByte(s, i);
  }

  /** `redisPopcount` without the popcnt instruction, for a string that starts at `address`. */
  method RedisPopcount(s: seq<Byte>, address: nat) returns (bits: nat)
    ensures bits == CountTrue(Bits(s))
  {
    hide Bits, CountTrue, Val, BITS_IN_BYTE;
    bits := 0;
    var i := 0;
    NoBytes(s);
    while (address + i) % 4 != 0 && i < |s|
      invariant 0 <= i <= |s| && bits == CountTrue(Bits(s[..i]))
      decreases |s| - i
    {
      OneByte(s, i);
      bits := bits + BITS_IN_BYTE[Val(s[i])];
      i := i + 1;
    }
    while |s| - i >= 28
      invariant 0 <= i <= |s| && bits == CountTrue(Bits(s[..i]))
    {
      var more := SevenWords(s, i);
      bits := bits + more;
      i := i + 28;
    }
    while i < |s|
      invariant 0 <= i <= |s| && bits == CountTrue(Bits(s[..i]))
    {
      OneByte(s, i);
      bits := bits + BITS_IN_BYTE[Val(s[i])];
      i := i + 1;
    }
    assert s[..i] == s;
  }

  lemma NoBytes(s: seq<Byte>)
    ensures CountTrue(Bits(s[..0])) == 0
  {
  }
}
