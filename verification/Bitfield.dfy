/** BITFIELD: integers of any width at any bit offset, and the overflow policies of INCRBY and SET. */
module Bitfield {
  import opened Basics
  import opened BitString
  import opened Popcount
  import BitRange

  // ------------------------------------------------------------ numbers as bit sequences

  /** (v >> k) & 1, in two's complement for negative numbers. */
  function TestBit(v: int, k: nat): bool
    decreases k
  {
    if k == 0 then v % 2 == 1 else TestBit(v / 2, k - 1)
  }

  /** The low `n` bits of `v`, most significant first. */
  function ToBits(v: int, n: nat): (r: seq<bool>)
    ensures |r| == n
    decreases n
  {
    if n == 0 then [] else ToBits(v / 2, n - 1) + [v % 2 == 1]
  }

  lemma {:induction false} BitOf(v: int, n: nat, j: nat)
    requires j < n
    ensures ToBits(v, n)[j] == TestBit(v, n - 1 - j)
    decreases n
  {
    if j < n - 1 {
      BitOf(v / 2, n - 1, j);
    }
  }

  /** v mod 2^n. */
  function Low(v: int, n: nat): nat {
    Val(ToBits(v, n))
  }

  lemma {:induction false} LowIsMod(v: int, n: nat) returns (q: int)
    ensures v == Power2(n) * q + Low(v, n) && Low(v, n) < Power2(n)
    decreases n
  {
    if n == 0 {
      q := v;
    } else {
      q := LowIsMod(v / 2, n - 1);
      ValSnoc(ToBits(v / 2, n - 1), v % 2 == 1);
      assert Low(v, n) == 2 * Low(v / 2, n - 1) + v % 2;
      Doubled(Power2(n - 1), q);
    }
  }

  lemma Doubled(p: nat, q: int)
    ensures 2 * (p * q) == (2 * p) * q
  {
  }

  lemma ValSnoc(bits: seq<bool>, b: bool)
    ensures Val(bits + [b]) == 2 * Val(bits) + if b then 1 else 0
  {
    assert (bits + [b])[..|bits|] == bits;
  }

  /** A number in range is read back unchanged. */
  lemma {:induction false} LowOfSmall(v: nat, n: nat)
    requires v < Power2(n)
    ensures Low(v, n) == v
    decreases n
  {
    if n > 0 {
      LowOfSmall(v / 2, n - 1);
      ValSnoc(ToBits(v / 2, n - 1), v % 2 == 1);
    }
  }

  /** Adding a multiple of 2^n changes none of the low n bits. */
  lemma {:induction false} SameLowBits(v: int, m: int, n: nat)
    ensures ToBits(v + Power2(n) * m, n) == ToBits(v, n)
    decreases n
  {
    if n > 0 {
      var w := v + Power2(n) * m;
      Doubled(Power2(n - 1), m);
      HalfOf(v, Power2(n - 1) * m);
      SameLowBits(v / 2, m, n - 1);
    }
  }

  lemma HalfOf(v: int, x: int)
    ensures (v + 2 * x) / 2 == v / 2 + x && (v + 2 * x) % 2 == v % 2
  {
  }

  /** The bits as a signed number. */
  function Signed(bits: seq<bool>): int {
    if bits != [] && bits[0] then Val(bits) - Power2(|bits|) else Val(bits)
  }

  lemma {:induction false} TopBit(bits: seq<bool>)
    requires bits != []
    ensures bits[0] <==> Val(bits) >= Power2(|bits| - 1)
    ensures Val(bits) < Power2(|bits|)
  {
    var n := |bits| - 1;
    ValBound(bits, n + 1);
    if n > 0 {
      TopBit(bits[..n]);
    }
  }

  /** A signed number in range is read back unchanged. */
  lemma SignedOfSmall(v: int, n: nat)
    requires n > 0 && 0 - Power2(n - 1) <= v < Power2(n - 1)
    ensures Signed(ToBits(v, n)) == v
  {
    hide ToBits, Val;
    TopBit(ToBits(v, n));
    if v >= 0 {
      LowOfSmall(v, n);
    } else {
      SameLowBits(v, 1, n);
      LowOfSmall(v + Power2(n), n);
    }
  }

  // -------------------------------------------------------------------- the buffer

  /** `setUnsignedBitfield` and `setSignedBitfield`: bit by bit, no other bit changes. */
  method SetBitfield(p: array<Byte>, offset: nat, bits: nat, value: int)
    requires offset + bits <= 8 * p.Length
    modifies p
    ensures Bits(p[..]) == old(Bits(p[..])[..offset] + ToBits(value, bits) + Bits(p[..])[offset + bits..])
  {
    hide Bits, ToBits;
    ghost var before := Bits(p[..]);
    ghost var field := ToBits(value, bits);
    var at := offset;
    Unwritten(before, offset, bits, field);
    for j := 0 to bits
      invariant at == offset + j
      invariant Bits(p[..]) == Written(before, offset, bits, field, j)
    {
      BitOf(value, bits, j);
      var byte, bit := at / 8, at % 8;
      ghost var bytes := p[..];
      p[byte] := p[byte][bit := TestBit(value, bits - 1 - j)];
      assert p[..] == bytes[byte := bytes[byte][bit := TestBit(value, bits - 1 - j)]];
      OneBitSet(bytes, at, TestBit(value, bits - 1 - j));
      WriteOne(before, offset, bits, field, j);
      at := at + 1;
    }
    AllWritten(before, offset, bits, field);
  }

  /** The first `j` bits of the field written. */
  ghost function Written(before: seq<bool>, offset: nat, n: nat, field: seq<bool>, j: nat): seq<bool>
    requires j <= n == |field| && offset + n <= |before|
  {
    before[..offset] + field[..j] + before[offset + j..]
  }

  lemma Unwritten(before: seq<bool>, offset: nat, n: nat, field: seq<bool>)
    requires |field| == n && offset + n <= |before|
    ensures Written(before, offset, n, field, 0) == before
  {
  }

  lemma WriteOne(before: seq<bool>, offset: nat, n: nat, field: seq<bool>, j: nat)
    requires j < n == |field| && offset + n <= |before|
    ensures Written(before, offset, n, field, j)[offset + j := field[j]] == Written(before, offset, n, field, j + 1)
  {
  }

  lemma AllWritten(before: seq<bool>, offset: nat, n: nat, field: seq<bool>)
    requires |field| == n && offset + n <= |before|
    ensures Written(before, offset, n, field, n) == before[..offset] + field + before[offset + n..]
  {
    assert field[..n] == field;
  }

  /** Setting one bit of one byte. */
  lemma OneBitSet(s: seq<Byte>, at: nat, b: bool)
    requires at < 8 * |s|
    ensures Bits(s[at / 8 := s[at / 8][at % 8 := b]]) == Bits(s)[at := b]
  {
    var t := s[at / 8 := s[at / 8][at % 8 := b]];
    forall i | 0 <= i < 8 * |s| ensures Bits(t)[i] == Bits(s)[at := b][i] {
      BitAt(t, i);
      BitAt(s, i);
    }
  }

  /** `getUnsignedBitfield`. */
  method GetUnsigned(p: array<Byte>, offset: nat, bits: nat) returns (value: nat)
    requires offset + bits <= 8 * p.Length
    ensures value == Val(Bits(p[..])[offset..offset + bits])
  {
    hide Bits;
    ghost var all := Bits(p[..]);
    value := 0;
    var at := offset;
    for j := 0 to bits
      invariant at == offset + j && value == Val(all[offset..at])
    {
      BitAt(p[..], at);
      var bit := p[at / 8][at % 8];
      assert all[offset..at + 1] == all[offset..at] + [all[at]];
      ValSnoc(all[offset..at], all[at]);
      value := 2 * value + if bit then 1 else 0;
      at := at + 1;
    }
  }

  lemma MsbTest(u: nat, n: nat)
    requires n > 0 && u < Power2(n)
    ensures TestBit(u, n - 1) <==> u >= Power2(n - 1)
  {
    hide ToBits, Val, TestBit;
    BitOf(u, n, 0);
    TopBit(ToBits(u, n));
    LowOfSmall(u, n);
  }

  /** `getSignedBitfield`: the top bit is propagated; at 64 bits the word is reinterpreted. */
  method GetSigned(p: array<Byte>, offset: nat, bits: nat) returns (value: int)
    requires 1 <= bits <= 64 && offset + bits <= 8 * p.Length
    ensures value == Signed(Bits(p[..])[offset..offset + bits])
  {
    hide Bits, Val;
    var u := GetUnsigned(p, offset, bits);
    ghost var field := Bits(p[..])[offset..offset + bits];
    TopBit(field);
    MsbTest(u, bits);
    value := u;
    if TestBit(u, bits - 1) {
      value := u - Power2(bits);
    }
  }

  // ----------------------------------------------------------------- overflow checks

  const P63 := 0x8000_0000_0000_0000

  /** Conversion to int64_t and uint64_t. */
  function I64(x: int): int {
    (x + P63) % P64 - P63
  }

  function U64(x: int): nat {
    x % P64
  }

  predicate IsI64(x: int) {
    -P63 <= x < P63
  }

  lemma I64Exact(x: int)
    requires IsI64(x)
    ensures I64(x) == x
  {
  }

  datatype Policy = Wrap | Saturate | Fail

  /** The result of an overflow check: the code and the value to use. */
  datatype Check = Check(code: int, limit: int)

  function UnsignedMax(bits: nat): nat {
    if bits == 64 then P64 - 1 else LessOne(Power2(bits))
  }

  function LessOne(n: nat): nat {
    if n == 0 then 0 else n - 1
  }

  /** The wrapping branch of `checkUnsignedBitfieldOverflow`: the low bits of the 64-bit sum. */
  function UnsignedWrap(value: int, incr: int, bits: nat): nat {
    Low(U64(value + incr), bits)
  }

  /** `checkUnsignedBitfieldOverflow`. */
  function CheckUnsigned(value: nat, incr: int, bits: nat, policy: Policy): Check {
    var max := UnsignedMax(bits);
    var maxIncr, minIncr := I64(max - value), I64(-(value as int));
    if value > max || (incr > 0 && incr > maxIncr) then
      match policy {
        case Wrap => Check(1, UnsignedWrap(value, incr, bits))
        case Saturate => Check(1, max)
        case Fail => Check(1, 0)
      }
    else if incr < 0 && incr < minIncr then
      match policy {
        case Wrap => Check(1, UnsignedWrap(value, incr, bits))
        case Saturate => Check(-1, 0)
        case Fail => Check(-1, 0)
      }
    else Check(0, 0)
  }

  function SignedMax(bits: nat): nat
    requires bits > 0
  {
    if bits == 64 then P63 - 1 else LessOne(Power2(bits - 1))
  }

  /** The wrapping branch of `checkSignedBitfieldOverflow`: sign extension of the low bits of the sum. */
  function SignedWrap(value: int, incr: int, bits: nat): int
    requires bits > 0
  {
    var c := U64(U64(value) + U64(incr));
    if bits >= 64 then I64(c)
    else if TestBit(c, bits - 1) then Low(c, bits) - Power2(bits)
    else Low(c, bits)
  }

  /** `checkSignedBitfieldOverflow`. */
  function CheckSigned(value: int, incr: int, bits: nat, policy: Policy): Check
    requires bits > 0
  {
    var max := SignedMax(bits);
    var min := 0 - max - 1;
    var maxIncr, minIncr := I64(max - value), I64(min - value);
    if value > max || (bits != 64 && incr > maxIncr) || (value >= 0 && incr > 0 && incr > maxIncr) then
      match policy {
        case Wrap => Check(1, SignedWrap(value, incr, bits))
        case Saturate => Check(1, max)
        case Fail => Check(1, 0)
      }
    else if value < min || (bits != 64 && incr < minIncr) || (value < 0 && incr < 0 && incr < minIncr) then
      match policy {
        case Wrap => Check(1, SignedWrap(value, incr, bits))
        case Saturate => Check(-1, min)
        case Fail => Check(-1, 0)
      }
    else Check(0, 0)
  }

  lemma Powers()
    ensures Power2(63) == P63 && Power2(64) == P64
  {
    hide Power2;
    Power16();
    BitRange.PowerSum(16, 16);
    BitRange.PowerSum(32, 32);
    Power64();
  }

  lemma Power16()
    ensures Power2(16) == 65536
  {
    assert Power2(4) == 16;
    assert Power2(8) == 256;
    assert Power2(12) == 4096;
  }

  lemma Power64()
    ensures Power2(64) == 2 * Power2(63)
  {
    hide Power2;
    TwiceAsMuch(63);
  }

  lemma TwiceAsMuch(n: nat)
    ensures Power2(n + 1) == 2 * Power2(n)
  {
  }

  lemma {:induction false} PowerGrows(a: nat, b: nat)
    requires a <= b
    ensures 1 <= Power2(a) <= Power2(b)
    decreases b
  {
    if a < b {
      PowerGrows(a, b - 1);
    } else if a > 0 {
      PowerGrows(a - 1, a - 1);
    }
  }

  /** Reducing modulo 2^64 first leaves the low bits of any smaller width alone. */
  lemma LowOfU64(x: int, bits: nat)
    requires bits <= 64
    ensures ToBits(U64(x), bits) == ToBits(x, bits)
  {
    hide Power2, ToBits;
    Powers();
    var q := x / P64;
    assert x == P64 * q + U64(x);
    BitRange.PowerSum(bits, 64 - bits);
    var m := Power2(64 - bits) * q;
    Regroup(Power2(bits), Power2(64 - bits), q);
    SameLowBits(U64(x), m, bits);
  }

  lemma Regroup(a: nat, b: nat, q: int)
    ensures (a * b) * q == a * (b * q)
  {
  }

  /** In range and exact: what the unsigned check reports and what it returns. */
  lemma UnsignedExact(value: nat, incr: int, bits: nat, policy: Policy)
    requires 1 <= bits <= 63 && value < Power2(bits) && IsI64(incr)
    ensures
      var c, exact, max := CheckUnsigned(value, incr, bits, policy), value + incr, Power2(bits) - 1;
      && (c.code != 0 <==> exact < 0 || exact > max)
      && (c.code != 0 && policy == Wrap ==> c.limit == Low(exact, bits))
      && (c.code != 0 && policy == Saturate ==> c.limit == if exact > max then max else 0)
      && (policy != Wrap ==> c.code == if exact > max then 1 else if exact < 0 then -1 else 0)
  {
    hide Power2, ToBits, Val;
    Powers();
    PowerGrows(bits, 63);
    I64Exact(UnsignedMax(bits) - value);
    I64Exact(-(value as int));
    LowOfU64(value + incr, bits);
  }

  /** The same for the signed check, 64 bits included. */
  lemma SignedExact(value: int, incr: int, bits: nat, policy: Policy)
    requires 1 <= bits <= 64 && 0 - Power2(bits - 1) <= value < Power2(bits - 1) && IsI64(incr)
    ensures
      var c, exact, max := CheckSigned(value, incr, bits, policy), value + incr, Power2(bits - 1) - 1;
      var min := -max - 1;
      && (c.code != 0 <==> exact < min || exact > max)
      && (c.code != 0 && policy == Wrap ==> c.limit == Signed(ToBits(exact, bits)))
      && (c.code != 0 && policy == Saturate ==> c.limit == if exact > max then max else min)
      && (policy != Wrap ==> c.code == if exact > max then 1 else if exact < min then -1 else 0)
  {
    hide Power2, ToBits, Val, SignedWrap, I64;
    Powers();
    PowerGrows(bits - 1, 63);
    SignedWraps(value, incr, bits);
    var max := SignedMax(bits);
    assert max == Power2(bits - 1) - 1;
    if bits < 64 {
      PowerGrows(bits - 1, 62);
      TwiceAsMuch(62);
      I64Exact(max - value);
      I64Exact(0 - max - 1 - value);
    } else if value >= 0 {
      I64Exact(max - value);
    } else {
      I64Exact(0 - max - 1 - value);
    }
  }

  lemma SignedWraps(value: int, incr: int, bits: nat)
    requires 1 <= bits <= 64
    ensures SignedWrap(value, incr, bits) == Signed(ToBits(value + incr, bits))
  {
    hide Power2, ToBits, Val, TestBit;
    Powers();
    var c := U64(U64(value) + U64(incr));
    SumU64(value, incr);
    LowOfU64(value + incr, bits);
    TopBit(ToBits(c, bits));
    BitOf(c, bits, 0);
    if bits == 64 {
      LowOfSmall(c, 64);
    }
  }

  lemma SumU64(a: int, b: int)
    ensures U64(U64(a) + U64(b)) == U64(a + b)
  {
    var x, y := U64(a), U64(b);
    assert a + b == x + y + P64 * (a / P64 + b / P64);
    ModShift(x + y, a / P64 + b / P64);
  }

  lemma ModShift(x: int, q: int)
    ensures (x + P64 * q) % P64 == x % P64
  {
  }

  // ---------------------------------------------------------------------- the command

  function FieldMax(signed: bool, bits: nat): int
    requires bits > 0
  {
    if signed then Power2(bits - 1) - 1 else Power2(bits) - 1
  }

  function FieldMin(signed: bool, bits: nat): int
    requires bits > 0
  {
    if signed then 0 - Power2(bits - 1) else 0
  }

  function FieldValue(signed: bool, field: seq<bool>): int {
    if signed then Signed(field) else Val(field)
  }

  /** What INCRBY promises: the exact sum if it fits, else what the policy says. */
  function Outcome(signed: bool, value: int, incr: int, bits: nat, policy: Policy): Option<int>
    requires bits > 0
  {
    var exact := value + incr;
    if FieldMin(signed, bits) <= exact <= FieldMax(signed, bits) then Some(exact)
    else
      match policy {
        case Wrap => Some(FieldValue(signed, ToBits(exact, bits)))
        case Saturate => Some(if exact > FieldMax(signed, bits) then FieldMax(signed, bits) else FieldMin(signed, bits))
        case Fail => None
      }
  }

  predicate Width(signed: bool, bits: nat) {
    1 <= bits <= if signed then 64 else 63
  }

  /** Whatever is stored is read back as it is. */
  lemma ReadsBack(signed: bool, value: int, bits: nat)
    requires Width(signed, bits) && FieldMin(signed, bits) <= value <= FieldMax(signed, bits)
    ensures FieldValue(signed, ToBits(value, bits)) == value
  {
    hide ToBits, Val;
    if signed {
      SignedOfSmall(value, bits);
    } else {
      LowOfSmall(value, bits);
    }
  }

  lemma InField(signed: bool, field: seq<bool>)
    requires |field| > 0
    ensures FieldMin(signed, |field|) <= FieldValue(signed, field) <= FieldMax(signed, |field|)
  {
    hide Val;
    TopBit(field);
    TwiceAsMuch(|field| - 1);
  }

  lemma OutcomeFits(signed: bool, value: int, incr: int, bits: nat, policy: Policy)
    requires Width(signed, bits)
    ensures
      var o := Outcome(signed, value, incr, bits, policy);
      o.Some? ==> FieldMin(signed, bits) <= o.value <= FieldMax(signed, bits)
  {
    hide ToBits, FieldValue, Power2;
    InField(signed, ToBits(value + incr, bits));
    PowerGrows(bits - 1, bits);
    PowerGrows(0, bits - 1);
  }

  /** INCRBY in the operation loop of `bitfieldGeneric`. */
  method IncrBy(p: array<Byte>, offset: nat, bits: nat, signed: bool, incr: int, policy: Policy) returns (reply: Option<int>)
    requires Width(signed, bits) && offset + bits <= 8 * p.Length && IsI64(incr)
    modifies p
    ensures reply == old(Outcome(signed, FieldValue(signed, Bits(p[..])[offset..offset + bits]), incr, bits, policy))
    ensures reply.None? ==> p[..] == old(p[..])
    ensures reply.Some? ==> FieldValue(signed, Bits(p[..])[offset..offset + bits]) == reply.value
    ensures Bits(p[..])[..offset] == old(Bits(p[..]))[..offset]
    ensures Bits(p[..])[offset + bits..] == old(Bits(p[..]))[offset + bits..]
  {
    hide Bits, ToBits, Val, Power2, CheckSigned, CheckUnsigned, Signed;
    ghost var before := Bits(p[..]);
    ghost var field := before[offset..offset + bits];
    InField(signed, field);
    var value: int;
    var check;
    if signed {
      value := GetSigned(p, offset, bits);
      check := CheckSigned(value, incr, bits, policy);
      SignedExact(value, incr, bits, policy);
    } else {
      var u := GetUnsigned(p, offset, bits);
      value := u;
      check := CheckUnsigned(u, incr, bits, policy);
      UnsignedExact(u, incr, bits, policy);
    }
    var newValue := if check.code != 0 then check.limit else value + incr;
    if check.code != 0 && policy == Fail {
      return None;
    }
    OutcomeFits(signed, value, incr, bits, policy);
    ReadsBack(signed, newValue, bits);
    SetBitfield(p, offset, bits, newValue);
    Placed(before, offset, bits, ToBits(newValue, bits));
    reply := Some(newValue);
  }

  lemma Placed(before: seq<bool>, offset: nat, n: nat, field: seq<bool>)
    requires |field| == n && offset + n <= |before|
    ensures
      var after := before[..offset] + field + before[offset + n..];
      && after[offset..offset + n] == field
      && after[..offset] == before[..offset] && after[offset + n..] == before[offset + n..]
  {
  }

  /**
   SET i<bits> with a value below the range: the check sees it as an underflow exactly if the
   64-bit difference max - value does not wrap; otherwise saturation stores the maximum.
   */
  lemma SetUnderflow(value: int, bits: nat)
    requires 1 <= bits <= 63 && IsI64(value) && value < 0 - Power2(bits - 1)
    ensures SignedMax(bits) - value < P63 ==> CheckSigned(value, 0, bits, Saturate) == Check(-1, 0 - Power2(bits - 1))
    ensures SignedMax(bits) - value >= P63 ==> CheckSigned(value, 0, bits, Saturate) == Check(1, Power2(bits - 1) - 1)
  {
    hide Power2;
    Powers();
    PowerGrows(bits - 1, 62);
    TwiceAsMuch(62);
  }

  /** SET i1 -2^63 with saturation stores 0, the maximum, instead of -1. */
  lemma SetUnderflowExample()
    ensures CheckSigned(0 - P63, 0, 1, Saturate) == Check(1, 0)
  {
    SetUnderflow(0 - P63, 1);
  }
}
