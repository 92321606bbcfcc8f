/** The i686 machine the kernel is built for: 32-bit addresses and sizes, bytes, and
    the arithmetic facts about them that the other modules share. */
module Machine {

  const WORD: int := 0x1_0000_0000
  const PAGE_SIZE: int := 4096

  // errno.h
  const ENOENT: int := 2
  const ENOMEM: int := 12
  const EISDIR: int := 21
  const EINVAL: int := 22
  const ERANGE: int := 34

  type u8 = x: int | 0 <= x < 0x100
  type u32 = x: int | 0 <= x < 0x1_0000_0000
  type u64 = x: int | 0 <= x < 0x1_0000_0000_0000_0000
  type i32 = x: int | -0x8000_0000 <= x < 0x8000_0000
  type i64 = x: int | -0x8000_0000_0000_0000 <= x < 0x8000_0000_0000_0000

  datatype Option<+T> = None | Some(value: T)

  function Repeat<T>(x: T, n: nat): (s: seq<T>)
    ensures |s| == n && forall i :: 0 <= i < n ==> s[i] == x
  {
    seq(n, _ => x)
  }

  /** Truncation to size_t / ptr. */
  function Wrap32(x: int): u32 {
    x % WORD
  }

  /** The value of a 32-bit word read as ssize_t. */
  function Signed32(x: u32): int {
    if x < 0x8000_0000 then x else x - WORD
  }

  /** bytes_align_up64 */
  function AlignUp(n: nat, alignment: nat): nat
    requires alignment > 0
  {
    if n % alignment == 0 then n else n + (alignment - n % alignment)
  }

  /** ceil((double)n / d): exact for 32-bit operands. */
  function CeilDiv(n: nat, d: nat): nat
    requires d > 0
  {
    (n + d - 1) / d
  }

  /** What bw_is_power_of_two decides. */
  predicate PowerOfTwo(n: nat): (r: bool)
    ensures r ==> n >= 1
  {
    n == 1 || (n > 1 && n % 2 == 0 && PowerOfTwo(n / 2))
  }

  function Exp2(k: nat): nat {
    if k == 0 then 1 else 2 * Exp2(k - 1)
  }

  lemma ExpPositive(k: nat)
    ensures Exp2(k) > 0
  {
  }

  lemma {:induction false} PowersOfTwo(n: nat)
    ensures PowerOfTwo(n) <==> exists k: nat :: n == Exp2(k)
  {
    if n == 1 {
      assert n == Exp2(0);
    } else if n > 1 && n % 2 == 0 {
      PowersOfTwo(n / 2);
      if PowerOfTwo(n) {
        var k: nat :| n / 2 == Exp2(k);
        assert n == Exp2(k + 1);
      } else {
        forall k: nat ensures n != Exp2(k) { assert k > 0 ==> Exp2(k) == 2 * Exp2(k - 1); }
      }
    } else {
      forall k: nat ensures n != Exp2(k) { ExpPositive(k); }
    }
  }

  lemma MulMono(a: int, b: int, m: int)
    requires a <= b && 0 <= m
    ensures a * m <= b * m
  {
  }

  lemma {:induction false} AddMultiple(a: int, k: int, m: int)
    requires m > 0
    ensures (a + k * m) % m == a % m
    decreases if k < 0 then -k else k
  {
    if k > 0 {
      AddMultiple(a, k - 1, m);
      assert a + k * m == (a + (k - 1) * m) + m;
      ModShift(a + (k - 1) * m, m);
    } else if k < 0 {
      AddMultiple(a, k + 1, m);
      assert a + (k + 1) * m == (a + k * m) + m;
      ModShift(a + k * m, m);
    }
  }

  lemma ModShift(a: int, m: int)
    requires m > 0
    ensures (a + m) % m == a % m
  {
    var q := a / m;
    assert a == q * m + a % m;
    assert a + m == (q + 1) * m + a % m;
    DivModUnique(a + m, m, q + 1, a % m);
  }

  lemma DivModUnique(a: int, m: int, q: int, r: int)
    requires m > 0 && a == q * m + r && 0 <= r < m
    ensures a / m == q && a % m == r
  {
    var q', r' := a / m, a % m;
    assert a == q' * m + r';
    assert (q - q') * m == r' - r;
    if q > q' {
      MulMono(1, q - q', m);
    } else if q < q' {
      MulMono(1, q' - q, m);
    }
  }

  /** Two powers of two divide one another. */
  lemma {:induction false} PowersDivide(a: nat, b: nat)
    requires PowerOfTwo(a) && PowerOfTwo(b) && a <= b
    ensures b % a == 0
  {
    if a > 1 {
      PowersDivide(a / 2, b / 2);
      var h, k := a / 2, (b / 2) / (a / 2);
      assert b / 2 == k * h;
      assert b == k * a;
      DivModUnique(b, a, k, 0);
    }
  }

  /** AlignUp finds the next multiple: nothing in between is aligned. */
  lemma AlignUpNext(n: nat, alignment: nat, x: nat)
    requires alignment > 0
    ensures n <= AlignUp(n, alignment) < n + alignment
    ensures AlignUp(n, alignment) % alignment == 0
    ensures n <= x && x % alignment == 0 ==> AlignUp(n, alignment) <= x
  {
    var q, r := n / alignment, n % alignment;
    assert n == q * alignment + r;
    if r != 0 {
      assert AlignUp(n, alignment) == (q + 1) * alignment + 0;
      DivModUnique(AlignUp(n, alignment), alignment, q + 1, 0);
      if n <= x && x % alignment == 0 && x < AlignUp(n, alignment) {
        DivModUnique(x, alignment, q, x - q * alignment);
      }
    }
  }

  /** The chunk sizes and the address space are powers of two. */
  lemma MachinePowers()
    ensures PowerOfTwo(32) && PowerOfTwo(64) && PowerOfTwo(128) && PowerOfTwo(WORD)
  {
    assert PowerOfTwo(1);
    Times16(1);
    Times16(2);
    Times16(4);
    Times16(8);
    Times16(0x10);
    Times16(0x100);
    Times16(0x1000);
    Times16(0x1_0000);
    Times16(0x10_0000);
    Times16(0x100_0000);
    Times16(0x1000_0000);
  }

  lemma Times16(n: nat)
    requires PowerOfTwo(n)
    ensures PowerOfTwo(16 * n)
  {
    Twice(n);
    Twice(2 * n);
    Twice(4 * n);
    Twice(8 * n);
  }

  lemma Twice(n: nat)
    requires PowerOfTwo(n)
    ensures PowerOfTwo(2 * n)
  {
    assert 2 * n % 2 == 0 && 2 * n / 2 == n;
  }

  /** A multiple of a multiple. */
  lemma MultipleChain(x: int, b: int, c: int)
    requires b > 0 && c > 0 && x % b == 0 && b % c == 0
    ensures x % c == 0
  {
    assert x == (x / b) * b && b == (b / c) * c;
    assert (x / b) * ((b / c) * c) == ((x / b) * (b / c)) * c;
    DivModUnique(x, c, (x / b) * (b / c), 0);
  }
}
