/** drivers/core/builtins: 64-bit division by shift and subtract, on wrapping 64-bit words. */
module Division {
  import opened Machine

  const TWO63: int := 0x8000_0000_0000_0000
  const TWO64: int := 0x1_0000_0000_0000_0000

  function Pow2(k: nat): (p: nat)
    ensures p >= 1
  {
    if k == 0 then 1 else 2 * Pow2(k - 1)
  }

  lemma {:induction false} Pow2Add(a: nat, b: nat)
    ensures Pow2(a + b) == Pow2(a) * Pow2(b)
  {
    if a > 0 {
      Pow2Add(a - 1, b);
      assert Pow2(a) * Pow2(b) == 2 * (Pow2(a - 1) * Pow2(b));
    }
  }

  lemma Pow2Values()
    ensures Pow2(63) == TWO63 && Pow2(64) == TWO64
  {
    assert Pow2(4) == 0x10;
    Pow2Add(4, 4);
    assert Pow2(8) == 0x100;
    Pow2Add(8, 8);
    assert Pow2(16) == 0x1_0000;
    Pow2Add(16, 16);
    assert Pow2(32) == 0x1_0000_0000;
    Pow2Add(32, 32);
    assert Pow2(64) == 2 * Pow2(63);
  }

  // C operators on u64
  function AsU64(x: int): u64 { x % TWO64 }
  function AsI64(x: int): i64 { if AsU64(x) < TWO63 then AsU64(x) else AsU64(x) - TWO64 }
  function Shl(x: u64, k: nat): u64 { AsU64(x * Pow2(k)) }
  function Shr(x: u64, k: nat): (r: u64)
    ensures r == x / Pow2(k)
  {
    DivideDown(x, Pow2(k));
    x / Pow2(k)
  }

  /** x | bit */
  function OrBit(x: u64, bit: nat): u64
    requires bit <= 1
  {
    if x % 2 == 0 then AsU64(x + bit) else x
  }

  /** (i64)x >> 63 */
  function SignMask(x: u64): int {
    if x < TWO63 then 0 else -1
  }

  /** d & s, for a mask s of all zeroes or all ones. */
  function AndMask(d: u64, s: int): u64 {
    if s == -1 then d else 0
  }

  /** Leading zeroes of x as __builtin_clzll counts them. The builtin leaves 0 undefined: `ofZero` is
      whatever it gives there. */
  function Clz(x: u64, ofZero: nat): nat {
    if x == 0 then ofZero else WordLog2(x); 63 - Log2(x)
  }

  lemma WordLog2(x: u64)
    requires x > 0
    ensures Log2(x) <= 63
  {
    Pow2Values();
    Log2Bound(x, 64);
  }

  function Log2(x: nat): (k: nat)
    requires x > 0
    ensures Pow2(k) <= x < 2 * Pow2(k)
  {
    if x == 1 then 0 else Log2(x / 2) + 1
  }

  lemma {:induction false} Pow2Mono(a: nat, b: nat)
    requires a <= b
    ensures Pow2(a) <= Pow2(b)
    decreases b
  {
    if a < b { Pow2Mono(a, b - 1); }
  }

  lemma Log2Bound(x: nat, k: nat)
    requires 0 < x < Pow2(k)
    ensures Log2(x) < k
  {
    if Log2(x) >= k { Pow2Mono(k, Log2(x)); }
  }

  /** `(u8)(clz(d) - clz(n))` */
  function ShiftCount(n: u64, d: u64, ofZero: nat): nat {
    (Clz(d, ofZero) - Clz(n, ofZero)) % 256
  }

  /** What the shift count says about the operands. */
  ghost predicate CountTells(n: u64, d: u64, shr: nat) {
    if shr > 63 then n < d
    else if shr == 63 then d == 1 && n > 0
    else n / Pow2(shr + 1) < d && (d <= TWO63 || (shr == 0 && n >= TWO63))
  }

  lemma ShiftCases(n: u64, d: u64, ofZero: nat)
    requires d > 0 && 1 <= ofZero <= 64
    ensures CountTells(n, d, ShiftCount(n, d, ofZero))
  {
    if n == 0 { ZeroDividend(d, ofZero); } else { PositiveDividend(n, d, ofZero); }
  }

  lemma ZeroDividend(d: u64, ofZero: nat)
    requires d > 0 && 1 <= ofZero <= 64
    ensures CountTells(0, d, ShiftCount(0, d, ofZero))
  {
    hide Pow2, Log2;
    WordLog2(d);
    LargeDivisor(d);
    DivModUnique(0, Pow2(ShiftCount(0, d, ofZero) + 1), 0, 0);
  }

  lemma PositiveDividend(n: u64, d: u64, ofZero: nat)
    requires n > 0 && d > 0
    ensures CountTells(n, d, ShiftCount(n, d, ofZero))
  {
    hide Pow2, Log2;
    WordLog2(d);
    WordLog2(n);
    LargeDivisor(d);
    LargeDivisor(n);
    CompareLogs(n, d);
    var shr := ShiftCount(n, d, ofZero);
    assert shr == if Log2(n) < Log2(d) then 256 + Log2(n) - Log2(d) else Log2(n) - Log2(d);
  }

  lemma CompareLogs(n: u64, d: u64)
    requires n > 0 && d > 0
    ensures if Log2(n) < Log2(d) then n < d else n / Pow2(Log2(n) - Log2(d) + 1) < d
    ensures Log2(d) == 0 ==> d == 1
  {
    hide Log2;
    var kd, kn := Log2(d), Log2(n);
    Pow2Succ(kn);
    if kn < kd {
      Pow2Mono(kn + 1, kd);
    } else {
      Pow2Add(kd, kn - kd + 1);
      QuotientBelow(n, Pow2(kn - kd + 1), Pow2(kd));
    }
    if kd == 0 { SmallDivisor(d); }
  }

  lemma Pow2Succ(k: nat)
    ensures Pow2(k + 1) == 2 * Pow2(k)
  {
  }

  lemma SmallDivisor(d: nat)
    requires d > 0 && Log2(d) == 0
    ensures d == 1
  {
  }

  lemma LargeDivisor(d: u64)
    requires d > 0
    ensures d >= TWO63 <==> Log2(d) == 63
  {
    Pow2Values();
    WordLog2(d);
    if Log2(d) < 63 { Pow2Mono(Log2(d) + 1, 63); }
  }

  lemma QuotientBelow(n: nat, p: nat, q: nat)
    requires p > 0 && n < q * p
    ensures n / p < q
  {
    if n / p >= q { MulMono(q, n / p, p); }
  }

  // ---------------------------------------------------------------- the loop

  /** The state of the loop with m steps to go: r and q divide the bits consumed so far, and n holds
      the bits still to consume above the quotient bits found, the last of which is in carry. */
  ghost predicate Midway(whole: u64, d: u64, steps: nat, m: nat, n: u64, r: u64, carry: nat, q: nat) {
    && m <= steps <= 63
    && q * d + r == whole / Pow2(m) && r < d
    && q < Pow2(steps - m) && carry == q % 2
    && n == (whole % Pow2(m)) * Pow2(64 - m) + q / 2
  }

  lemma Start(whole: u64, d: u64, steps: nat)
    requires 1 <= steps <= 63 && whole / Pow2(steps) < d
    ensures Midway(whole, d, steps, steps, Shl(whole, 64 - steps), Shr(whole, steps), 0, 0)
  {
    hide Pow2;
    Pow2Values();
    Pow2Zero();
    Pow2Add(steps, 64 - steps);
    MulMono(0, whole / Pow2(steps), 1);
    SplitProduct(whole, Pow2(steps), Pow2(64 - steps));
  }

  /** x * c modulo p * c is the remainder of x by p, times c. */
  lemma SplitProduct(x: nat, p: nat, c: nat)
    requires p > 0 && c > 0
    ensures p * c > 0 && (x * c) % (p * c) == (x % p) * c
  {
    var a, b := x / p, x % p;
    assert x * c == a * (p * c) + b * c by {
      assert x == a * p + b;
      Distribute(a, p, b, c);
    }
    MulMono(b + 1, p, c);
    assert (b + 1) * c == b * c + c;
    MulMono(0, b, c);
    DivModUnique(x * c, p * c, a, b * c);
  }

  lemma Distribute(a: int, p: int, b: int, c: int)
    ensures (a * p + b) * c == a * (p * c) + b * c
  {
    assert (a * p + b) * c == (a * p) * c + b * c;
    assert (a * p) * c == a * (p * c);
  }

  /** The bit that the next step shifts from n into r. */
  lemma NextBit(whole: u64, m: nat) returns (bit: nat)
    requires m >= 1
    ensures bit <= 1 && whole / Pow2(m - 1) == 2 * (whole / Pow2(m)) + bit
    ensures whole % Pow2(m) == bit * Pow2(m - 1) + whole % Pow2(m - 1)
  {
    var p := Pow2(m - 1);
    var a, b := whole / Pow2(m), whole % Pow2(m);
    bit := if b >= p then 1 else 0;
    assert whole == a * (2 * p) + b;
    assert a * (2 * p) == (2 * a) * p;
    assert whole == (2 * a + bit) * p + (b - bit * p);
    DivModUnique(whole, p, 2 * a + bit, b - bit * p);
  }

  /** Splitting n: its top bit is the next bit, the rest moves up by one. */
  lemma ShiftOut(bit: nat, lo: nat, q: nat, m: nat, steps: nat, n: u64)
    requires 1 <= m <= steps <= 63 && bit <= 1 && lo < Pow2(m - 1) && q < Pow2(steps - m)
    requires n == (bit * Pow2(m - 1) + lo) * Pow2(64 - m) + q / 2
    ensures Shr(n, 63) == bit
    ensures OrBit(Shl(n, 1), q % 2) == lo * Pow2(64 - (m - 1)) + q
  {
    hide Pow2, Shl, OrBit;
    var c := Pow2(64 - m);
    Pow2Values();
    Pow2Add(m - 1, 64 - m);
    Pow2Succ(64 - m);
    Pow2Mono(steps - m, 64 - m);
    Distribute(bit, Pow2(m - 1), lo, c);
    MulMono(lo + 1, Pow2(m - 1), c);
    MulMono(0, lo, c);
    Distribute(lo, 1, 1, c);
    TopBit(bit, lo * c + q / 2, n);
    Doubled(lo, c);
    ShiftOr(n, q % 2);
  }

  lemma Doubled(a: int, b: int)
    ensures a * (2 * b) == 2 * (a * b)
  {
  }

  lemma TopBit(bit: nat, rest: nat, n: u64)
    requires bit <= 1 && rest < TWO63 && n == bit * TWO63 + rest
    ensures Shr(n, 63) == bit && AsU64(2 * n) == 2 * rest
  {
    hide Pow2;
    Pow2Values();
    DivModUnique(n, TWO63, bit, rest);
  }

  lemma Pow2Zero()
    ensures Pow2(0) == 1
  {
  }

  /** (r << 1) | bit does not wrap: it is a quotient of the dividend less a multiple of d. */
  lemma ShiftIn(whole: u64, d: u64, m: nat, r: u64, q: nat, bit: nat)
    requires m >= 1 && bit <= 1 && q * d + r == whole / Pow2(m)
    requires whole / Pow2(m - 1) == 2 * (whole / Pow2(m)) + bit
    ensures OrBit(Shl(r, 1), bit) == 2 * r + bit <= whole
    ensures 2 * (q * d) + (2 * r + bit) == whole / Pow2(m - 1)
  {
    hide Pow2, Shl, OrBit;
    MulMono(0, q, d);
    DivideDown(whole, Pow2(m - 1));
    NoWrap(q * d, r, bit, whole / Pow2(m - 1), whole);
    ShiftOr(r, bit);
  }

  lemma NoWrap(y: int, r: nat, bit: nat, z: nat, whole: u64)
    requires y >= 0 && z == 2 * (y + r) + bit && z <= whole
    ensures AsU64(2 * r) == 2 * r && 2 * r + bit <= whole
  {
  }

  /** (x << 1) | bit */
  lemma ShiftOr(x: u64, bit: nat)
    requires bit <= 1
    ensures OrBit(Shl(x, 1), bit) == AsU64(2 * x) + bit
  {
    assert Pow2(1) == 2;
    assert Shl(x, 1) == AsU64(2 * x);
    assert AsU64(2 * x) % 2 == 0;
  }

  lemma DivideDown(x: nat, p: nat)
    requires p >= 1
    ensures 0 <= x / p <= x
  {
    MulMono(1, p, x / p);
  }

  /** The sign of d - r - 1 tells whether r >= d. */
  lemma SignTells(d: u64, r: u64)
    requires d > 0
    requires if d <= TWO63 then r < 2 * d else r >= TWO63
    ensures SignMask(AsU64(d - r - 1)) == if r >= d then -1 else 0
  {
  }

  lemma {:induction false} Step(whole: u64, d: u64, steps: nat, m: nat, n: u64, r: u64, carry: nat, q: nat) returns (q': nat)
    requires m >= 1 && d > 0 && Midway(whole, d, steps, m, n, r, carry, q)
    requires d <= TWO63 || (steps == 1 && whole >= TWO63)
    ensures Shr(n, 63) <= 1
    ensures var r1 := OrBit(Shl(r, 1), Shr(n, 63));
            var s := SignMask(AsU64(d - r1 - 1));
            AndMask(d, s) <= r1 &&
            Midway(whole, d, steps, m - 1, OrBit(Shl(n, 1), carry), r1 - AndMask(d, s), if s == -1 then 1 else 0, q')
  {
    hide Pow2, Shl, Shr, OrBit, SignMask;
    var bit := NextBit(whole, m);
    PositiveRemainder(whole, Pow2(m - 1));
    ShiftOut(bit, whole % Pow2(m - 1), q, m, steps, n);
    ShiftIn(whole, d, m, r, q, bit);
    var r1 := 2 * r + bit;
    if d > TWO63 {
      OneStep(whole, d, r, q, bit);
    }
    SignTells(d, r1);
    q' := 2 * q + if r1 >= d then 1 else 0;
    Assemble(whole, d, steps, m, OrBit(Shl(n, 1), carry), r1, q);
  }

  lemma Assemble(whole: u64, d: u64, steps: nat, m: nat, n1: u64, r1: u64, q: nat)
    requires 1 <= m <= steps <= 63 && q < Pow2(steps - m)
    requires 2 * (q * d) + r1 == whole / Pow2(m - 1) && r1 < 2 * d
    requires n1 == (whole % Pow2(m - 1)) * Pow2(64 - (m - 1)) + q
    ensures var c1 := if r1 >= d then 1 else 0;
            Midway(whole, d, steps, m - 1, n1, r1 - (if r1 >= d then d else 0), c1, 2 * q + c1)
  {
    hide Pow2;
    var c1 := if r1 >= d then 1 else 0;
    Pow2Succ(steps - m);
    Distribute(2, q, c1, d);
  }

  lemma PositiveRemainder(x: nat, p: nat)
    requires p > 0
    ensures 0 <= x % p < p
  {
  }

  /** With a divisor above 2^63 there is one step, and it takes in the whole dividend. */
  lemma OneStep(whole: u64, d: u64, r: u64, q: nat, bit: nat)
    requires q < Pow2(0) && 2 * (q * d) + (2 * r + bit) == whole / Pow2(0)
    ensures 2 * r + bit == whole
  {
    assert q * d == 0;
  }

  method ShiftSubtract(n0: u64, d: u64, steps: nat) returns (n: u64, r: u64, carry: nat)
    requires d > 0 && 1 <= steps <= 63 && n0 / Pow2(steps) < d
    requires d <= TWO63 || (steps == 1 && n0 >= TWO63)
    ensures carry <= 1 && r == n0 % d && OrBit(Shl(n, 1), carry) == n0 / d
  {
    r := Shr(n0, steps);
    n := Shl(n0, 64 - steps);
    carry := 0;
    var shr := steps;
    ghost var q := 0;
    Start(n0, d, steps);
    while shr > 0
      invariant Midway(n0, d, steps, shr, n, r, carry, q)
    {
      ghost var q' := Step(n0, d, steps, shr, n, r, carry, q);
      r := OrBit(Shl(r, 1), Shr(n, 63));
      n := OrBit(Shl(n, 1), carry);
      var s := SignMask(AsU64(d - r - 1));
      carry := if s == -1 then 1 else 0;
      r := r - AndMask(d, s);
      q := q';
      shr := shr - 1;
    }
    Finish(n0, d, steps, n, r, carry, q);
  }

  lemma Finish(whole: u64, d: u64, steps: nat, n: u64, r: u64, carry: nat, q: nat)
    requires d > 0 && 1 <= steps && Midway(whole, d, steps, 0, n, r, carry, q)
    ensures r == whole % d && OrBit(Shl(n, 1), carry) == q == whole / d
  {
    hide Shl, OrBit, Midway;
    AtTheEnd(whole, d, steps, n, r, carry, q);
    DivModUnique(whole, d, q, r);
    ShiftOr(n, carry);
  }

  lemma AtTheEnd(whole: u64, d: u64, steps: nat, n: u64, r: u64, carry: nat, q: nat)
    requires d > 0 && 1 <= steps && Midway(whole, d, steps, 0, n, r, carry, q)
    ensures q * d + r == whole && r < d && n == q / 2 && carry == q % 2 && q < TWO63 && whole / 1 == whole
  {
    hide Pow2;
    Pow2Values();
    Pow2Zero();
    Pow2Mono(steps, 63);
    assert whole % Pow2(0) == 0;
  }

  /** __udivdi3 */
  method UDivDi3(n: u64, d: u64, clzOfZero: nat) returns (q: u64)
    requires d > 0 && 1 <= clzOfZero <= 64
    ensures q == n / d
  {
    hide ShiftCount, Pow2, Shl, OrBit;
    var shr := ShiftCount(n, d, clzOfZero);
    ShiftCases(n, d, clzOfZero);
    if shr > 63 {
      DivModUnique(n, d, 0, n);
      return 0;
    }
    if shr == 63 {
      DivModUnique(n, 1, n, 0);
      return n;
    }
    var rest, r, carry := ShiftSubtract(n, d, shr + 1);
    q := OrBit(Shl(rest, 1), carry);
  }

  /** __umoddi3 */
  method UModDi3(n: u64, d: u64, clzOfZero: nat) returns (r: u64)
    requires d > 0 && 1 <= clzOfZero <= 64
    ensures r == n % d
  {
    hide ShiftCount, Pow2, Shl, OrBit;
    var shr := ShiftCount(n, d, clzOfZero);
    ShiftCases(n, d, clzOfZero);
    if shr > 63 {
      DivModUnique(n, d, 0, n);
      return n;
    }
    if shr == 63 {
      DivModUnique(n, 1, n, 0);
      return 0;
    }
    var rest, carry;
    rest, r, carry := ShiftSubtract(n, d, shr + 1);
  }

  // ---------------------------------------------------------------- signed wrappers

  /** Division that truncates toward zero, as C defines it. */
  function TruncDiv(a: int, b: int): int
    requires b != 0
  {
    var q := Magnitude(a) / Magnitude(b);
    if (a < 0) == (b < 0) then q else -q
  }

  function TruncMod(a: int, b: int): int
    requires b != 0
  {
    var r := Magnitude(a) % Magnitude(b);
    if a < 0 then -r else r
  }

  function Magnitude(a: int): nat { if a < 0 then -a else a }

  /** x ^ s, for s all zeroes (0) or all ones (-1). */
  function XorMask(x: int, s: int): int { if s == -1 then -x - 1 else x }

  /** (u64)(x ^ s) + (-s) */
  function NegateIf(x: int, s: int): u64 { AsU64(XorMask(x, s) + -s) }

  lemma SignSplit(a: i64)
    ensures SignMask(AsU64(a)) == if a < 0 then -1 else 0
    ensures NegateIf(a, SignMask(AsU64(a))) == Magnitude(a)
  {
  }

  lemma SignJoin(x: u64, s: int)
    requires s == 0 || s == -1
    ensures var y: int := x; AsI64(NegateIf(x, s)) == AsI64(if s == -1 then -y else y)
  {
  }

  /** __divdi3 */
  method DivDi3(a: i64, b: i64, clzOfZero: nat) returns (r: i64)
    requires b != 0 && 1 <= clzOfZero <= 64
    ensures r == AsI64(TruncDiv(a, b))
  {
    hide SignMask, NegateIf, AsI64, AsU64;
    var sa := SignMask(AsU64(a));
    var sb := SignMask(AsU64(b));
    SignSplit(a);
    SignSplit(b);
    var ua, ub := NegateIf(a, sa), NegateIf(b, sb);
    sa := if sa == sb then 0 else -1; // sa ^ sb
    var q := UDivDi3(ua, ub, clzOfZero);
    SignJoin(q, sa);
    r := AsI64(NegateIf(q, sa));
  }

  /** __moddi3 */
  method ModDi3(a: i64, b: i64, clzOfZero: nat) returns (r: i64)
    requires b != 0 && 1 <= clzOfZero <= 64
    ensures r == TruncMod(a, b)
  {
    hide SignMask, NegateIf, AsU64;
    SignSplit(a);
    SignSplit(b);
    var sb := SignMask(AsU64(b));
    var ub := NegateIf(b, sb);
    var sa := SignMask(AsU64(a));
    var ua := NegateIf(a, sa);
    var res := UModDi3(ua, ub, clzOfZero);
    SignJoin(res, sa);
    SmallRemainder(a, b);
    r := AsI64(NegateIf(res, sa));
  }

  lemma SmallRemainder(a: i64, b: i64)
    requires b != 0
    ensures Magnitude(TruncMod(a, b)) < Magnitude(b) && Magnitude(TruncMod(a, b)) < TWO63
    ensures AsI64(TruncMod(a, b)) == TruncMod(a, b)
  {
    hide AsI64;
    PositiveRemainder(Magnitude(a), Magnitude(b));
    FitsI64(TruncMod(a, b));
  }

  /** Quotient and remainder recompose the dividend, the remainder is smaller than the divisor and has
      the dividend's sign; and the quotient fits in 64 bits except for the one overflowing pair. */
  lemma TruncationLaws(a: i64, b: i64)
    requires b != 0
    ensures TruncDiv(a, b) * b + TruncMod(a, b) == a
    ensures Magnitude(TruncMod(a, b)) < Magnitude(b) && TruncMod(a, b) * a >= 0
    ensures AsI64(TruncDiv(a, b)) == TruncDiv(a, b) <==> !(a + TWO63 == 0 && b == -1)
  {
    SmallRemainder(a, b);
    Recompose(a, b);
    QuotientFits(a, b);
  }

  lemma Recompose(a: int, b: int)
    requires b != 0
    ensures TruncDiv(a, b) * b + TruncMod(a, b) == a
    ensures TruncMod(a, b) * a >= 0
  {
    var ma, mb := Magnitude(a), Magnitude(b);
    var q, r := ma / mb, ma % mb;
    assert ma == q * mb + r;
    assert q * -b == -(q * b) && -q * b == -(q * b) && -q * -b == q * b;
    PositiveRemainder(ma, mb);
    MulMono(0, r, ma);
    assert -r * -ma == r * ma;
  }

  lemma FitsI64(x: int)
    ensures AsI64(x) == x <==> -TWO63 <= x < TWO63
  {
  }

  lemma QuotientFits(a: i64, b: i64)
    requires b != 0
    ensures AsI64(TruncDiv(a, b)) == TruncDiv(a, b) <==> !(a + TWO63 == 0 && b == -1)
  {
    hide AsI64;
    FitsI64(TruncDiv(a, b));
    if Magnitude(b) >= 2 {
      HalfAtMost(Magnitude(a), Magnitude(b));
      DivideDown(Magnitude(a), Magnitude(b));
    } else {
      DivModUnique(Magnitude(a), 1, Magnitude(a), 0);
    }
  }

  lemma HalfAtMost(x: nat, p: nat)
    requires p >= 2
    ensures 2 * (x / p) <= x
  {
    MulMono(2, p, x / p);
  }
}
