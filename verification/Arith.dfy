/** High halves of wide products, and saturating addition, against exact integers. */
module Arith {
  import Bytes

  const W: int := 0x1_0000_0000
  const TWO64: int := 0x1_0000_0000_0000_0000
  const TWO63: int := 0x8000_0000_0000_0000

  type u64 = x: int | 0 <= x < 0x1_0000_0000_0000_0000
  type i64 = x: int | -0x8000_0000_0000_0000 <= x < 0x8000_0000_0000_0000

  function ToI64(x: int): i64 {
    var u := x % TWO64;
    if u < TWO63 then u else u - TWO64
  }

  lemma Monotone(x: int, y: int, z: int)
    requires 0 <= x && 0 <= y <= z
    ensures 0 <= x * y <= x * z
  {
    assert x * z == x * y + x * (z - y);
  }

  lemma HalfProduct(x: int, y: int)
    requires 0 <= x < W && 0 <= y < W
    ensures 0 <= x * y <= (W - 1) * (W - 1)
  {
    Monotone(x, y, W - 1);
    Monotone(W - 1, x, W - 1);
  }

  /** The product of two numbers in halves. */
  lemma Halves(a1: int, a0: int, b1: int, b0: int)
    ensures (a1 * W + a0) * (b1 * W + b0) == a1 * b1 * TWO64 + (a1 * b0 + a0 * b1) * W + a0 * b0
  {
    assert (a1 * W + a0) * (b1 * W + b0) == a1 * W * (b1 * W) + a1 * W * b0 + a0 * (b1 * W) + a0 * b0;
    assert a1 * W * (b1 * W) == a1 * b1 * TWO64;
    assert a1 * W * b0 == a1 * b0 * W && a0 * (b1 * W) == a0 * b1 * W;
  }

  /** The carries add up: quotient and remainder of the product by 2^64. */
  lemma Carries(p11: int, p10: int, p01: int, p00: int, t1: int, t2: int)
    requires p00 >= 0 && p10 >= 0 && p01 >= 0 && p11 >= 0
    requires t1 == p10 + p00 / W && t2 == p01 + t1 % W
    ensures (p11 * TWO64 + (p10 + p01) * W + p00) / TWO64 == p11 + t1 / W + t2 / W
  {
    var low := t2 % W * W + p00 % W;
    assert 0 <= low < TWO64;
    assert p11 * TWO64 + (p10 + p01) * W + p00 == (p11 + t1 / W + t2 / W) * TWO64 + low;
  }

  /** mulhu: the high half of the product, with no intermediate overflow. */
  method Mulhu(a: u64, b: u64) returns (r: u64)
    ensures r == a * b / TWO64
  {
    var a0, a1 := a % W, a / W;
    var b0, b1 := b % W, b / W;
    HalfProduct(a1, b0);
    HalfProduct(a0, b0);
    HalfProduct(a0, b1);
    HalfProduct(a1, b1);
    var t: u64 := a1 * b0 + a0 * b0 / W;
    ghost var t1 := t;
    var y1, y2 := t % W, t / W;
    t := a0 * b1 + y1;
    ghost var t2 := t;
    Halves(a1, a0, b1, b0);
    Carries(a1 * b1, a1 * b0, a0 * b1, a0 * b0, t1, t2);
    HighBound(a, b);
    t := a1 * b1 + y2 + t / W;
    y2 := t % W;
    var y3 := t / W;
    r := y3 * W + y2;
  }

  lemma HighBound(a: u64, b: u64)
    ensures 0 <= a * b / TWO64 < TWO64
  {
    Monotone(a, b, TWO64 - 1);
    Monotone(TWO64 - 1, a, TWO64 - 1);
  }

  /** The product of magnitudes. */
  lemma Magnitudes(a: int, b: int)
    ensures (if a < 0 then 0 - a else a) * (if b < 0 then 0 - b else b) ==
            if (a < 0) != (b < 0) then -(a * b) else a * b
  {
  }

  /** Floor division of a negated product. */
  lemma FloorNegative(p: nat)
    ensures (0 - p) / TWO64 == if p % TWO64 == 0 then -(p / TWO64) else -(p / TWO64) - 1
    ensures (0 - p) % TWO64 == 0 <==> p % TWO64 == 0
  {
  }

  lemma ProductBound(x: nat, y: nat)
    requires x <= TWO63 && y < TWO64
    ensures 0 <= x * y <= TWO63 * (TWO64 - 1)
  {
    Monotone(x, y, TWO64 - 1);
    Monotone(TWO64 - 1, x, TWO63);
  }

  /** What the signed forms make of the high half of the magnitudes: its
      complement, plus one when the low half of the product is zero. */
  lemma Complemented(p: nat, res: int)
    requires res == p / TWO64 && p <= TWO63 * (TWO64 - 1)
    ensures ToI64(TWO64 - 1 - res + if (0 - p) % TWO64 == 0 then 1 else 0) == (0 - p) / TWO64
  {
    FloorNegative(p);
  }

  lemma Kept(p: nat, res: int)
    requires res == p / TWO64 && p <= TWO63 * (TWO64 - 1)
    ensures ToI64(res) == p / TWO64
  {
  }

  /** mulh: the floor of the product over 2^64, for all operands. */
  method Mulh(a: i64, b: i64) returns (r: i64)
    ensures r == a * b / TWO64
  {
    hide ToI64;
    var negate := (a < 0) != (b < 0);
    var x: u64, y: u64 := if a < 0 then 0 - a else a, if b < 0 then 0 - b else b;
    var res := Mulhu(x, y);
    Magnitudes(a, b);
    ProductBound(x, y);
    if negate {
      Complemented(x * y, res);
      r := ToI64(TWO64 - 1 - res + if a * b % TWO64 == 0 then 1 else 0);
    } else {
      Kept(x * y, res);
      r := ToI64(res);
    }
  }

  /** mulhsu: the same with one unsigned operand. */
  method Mulhsu(a: i64, b: u64) returns (r: i64)
    ensures r == a * b / TWO64
  {
    hide ToI64;
    var x: u64 := if a < 0 then 0 - a else a;
    var res := Mulhu(x, b);
    Magnitudes(a, b);
    ProductBound(x, b);
    if a < 0 {
      Complemented(x * b, res);
      r := ToI64(TWO64 - 1 - res + if a * b % TWO64 == 0 then 1 else 0);
    } else {
      Kept(x * b, res);
      r := ToI64(res);
    }
  }

  // ---- saturation, at any width: `h` is 2 to the width less one

  function Clamp(x: int, h: nat): int {
    if x < 0 - h then 0 - h else if x >= h then h - 1 else x
  }

  /** Two's complement: as unsigned, and back. */
  function Unsigned(x: int, h: nat): (u: nat)
    requires h > 0
    ensures u < 2 * h
  {
    x % (2 * h)
  }

  function Signed(u: nat, h: nat): int {
    if u < h then u else u - 2 * h
  }

  /** The sign bit. */
  predicate Top(u: nat, h: nat) {
    u >= h
  }

  lemma UnsignedIs(x: int, h: nat)
    requires h > 0 && 0 - 2 * h <= x < 2 * h
    ensures Unsigned(x, h) == if x < 0 then x + 2 * h else x
  {
    Bytes.DivUnique(x, 2 * h, if x < 0 then -1 else 0, if x < 0 then x + 2 * h else x);
  }

  /** The value that an overflow of x saturates to, with the sign bit of x. */
  function Limit(ux: nat, h: nat): nat
    requires h > 0
  {
    (if Top(ux, h) then 1 else 0) + (h - 1)
  }

  /** Two-operand sat_add; the test looks at the sign bit of
      `(ux ^ uy) | ~(uy ^ res)` alone. */
  method SatAdd(x: int, y: int, h: nat) returns (r: int, sat: bool)
    requires h > 0 && 0 - h <= x < h && 0 - h <= y < h
    ensures r == Clamp(x + y, h) && (sat <==> x + y < 0 - h || x + y >= h)
  {
    hide Unsigned;
    var ux, uy := Unsigned(x, h), Unsigned(y, h);
    UnsignedIs(x, h);
    UnsignedIs(y, h);
    UnsignedSum(ux, uy, h);
    var res := Unsigned(ux + uy, h);
    sat := false;
    ux := Limit(ux, h);
    if !((Top(ux, h) != Top(uy, h)) || !(Top(uy, h) != Top(res, h))) {
      res := ux;
      sat := true;
    }
    r := Signed(res, h);
  }

  lemma UnsignedSum(a: nat, b: nat, h: nat)
    requires h > 0 && a < 2 * h && b < 2 * h
    ensures Unsigned(a + b, h) == if a + b < 2 * h then a + b else a + b - 2 * h
  {
    Bytes.DivUnique(a + b, 2 * h, if a + b < 2 * h then 0 else 1, if a + b < 2 * h then a + b else a + b - 2 * h);
  }

  /** Three-operand sat_add: the exact sum, clamped, whatever the order in which
      the code adds. */
  method SatAdd3(x: int, y: int, z: int, h: nat) returns (r: int, sat: bool)
    requires h > 0 && 0 - h <= x < h && 0 - h <= y < h && 0 - h <= z < h
    ensures r == Clamp(x + y + z, h) && (sat <==> x + y + z < 0 - h || x + y + z >= h)
  {
    var a, b := y, z;
    if ((y < 0) != (z < 0)) && ((x < 0) != (z < 0)) {
      a, b := z, y;
    }
    var sat1, sat2;
    r, sat1 := SatAdd(x, a, h);
    r, sat2 := SatAdd(r, b, h);
    sat := sat1 || sat2;
  }

  /** sat_sub */
  method SatSub(x: int, y: int, h: nat) returns (r: int, sat: bool)
    requires h > 0 && 0 - h <= x < h && 0 - h <= y < h
    ensures r == Clamp(x - y, h) && (sat <==> x - y < 0 - h || x - y >= h)
  {
    hide Unsigned;
    var ux: int, uy: int := Unsigned(x, h), Unsigned(y, h);
    UnsignedIs(x, h);
    UnsignedIs(y, h);
    UnsignedIs(ux - uy, h);
    var res := Unsigned(ux - uy, h);
    sat := false;
    ux := Limit(ux, h);
    if (Top(ux, h) != Top(uy, h)) && (Top(ux, h) != Top(res, h)) {
      res := ux;
      sat := true;
    }
    r := Signed(res, h);
  }
}
