/** kernel/kstdlib/stdlib.c: numbers to text and back. Characters are their codes. */
module NumberText {
  import opened Machine

  const LONG_MAX: int := 0x7FFF_FFFF
  const LONG_MIN: int := -0x8000_0000
  const ULONG_MAX: int := 0xFFFF_FFFF
  /** Room for digits in the printers' local buffer. */
  const DIGIT_BYTES: nat := 21

  const MINUS: u8 := 45
  const ZERO: u8 := 48
  const UPPER_A: u8 := 65
  const LOWER_A: u8 := 97

  type Text = seq<u8>

  // ---------------------------------------------------------------- digits

  function Pow(b: nat, k: nat): nat {
    if k == 0 then 1 else Pow(b, k - 1) * b
  }

  function Rest(n: nat, b: nat): nat
    requires b >= 2
  {
    n / b
  }

  function Last(n: nat, b: nat): nat
    requires b >= 2
  {
    n % b
  }

  /** The digits of n, most significant first; none for 0. */
  function Digits(n: nat, b: nat): (ds: seq<nat>)
    requires b >= 2
    ensures forall k :: 0 <= k < |ds| ==> ds[k] < b
  {
    if n == 0 then [] else QuotientSmaller(n, b); Digits(Rest(n, b), b) + [Last(n, b)]
  }

  function Value(ds: seq<nat>, b: nat): nat {
    if ds == [] then 0 else Value(ds[..|ds| - 1], b) * b + ds[|ds| - 1]
  }

  lemma QuotientSmaller(n: nat, b: nat)
    requires n > 0 && b >= 2
    ensures n / b < n && n == n / b * b + n % b && 0 <= n % b < b
  {
  }

  /** Reading the digits of a number gives the number. */
  lemma {:induction false} ValueOfDigits(n: nat, b: nat)
    requires b >= 2
    ensures Value(Digits(n, b), b) == n
  {
    if n > 0 {
      QuotientSmaller(n, b);
      ValueOfDigits(n / b, b);
      assert Digits(n, b)[..|Digits(n, b)| - 1] == Digits(n / b, b);
    }
  }

  lemma {:induction false} PowGrows(b: nat, b': nat, k: nat)
    requires b <= b'
    ensures Pow(b, k) <= Pow(b', k)
  {
    if k > 0 {
      PowGrows(b, b', k - 1);
      MulMono(Pow(b, k - 1), Pow(b', k - 1), b);
      MulMono(b, b', Pow(b', k - 1));
    }
  }

  /** A number has at most k digits exactly when it is below the k-th power of the base. */
  lemma {:induction false} DigitCount(n: nat, b: nat, k: nat)
    requires b >= 2
    ensures |Digits(n, b)| <= k <==> n < Pow(b, k)
  {
    if n > 0 {
      QuotientSmaller(n, b);
      if k > 0 {
        DigitCount(n / b, b, k - 1);
        BelowProduct(n, b, Pow(b, k - 1));
      }
    } else {
      PowPositive(b, k);
    }
  }

  lemma {:induction false} PowPositive(b: nat, k: nat)
    requires b > 0
    ensures Pow(b, k) > 0
  {
    if k > 0 { PowPositive(b, k - 1); }
  }

  lemma BelowProduct(n: nat, b: nat, p: nat)
    requires b > 0
    ensures n / b < p <==> n < p * b
  {
    var q, r := n / b, n % b;
    assert n == q * b + r && r < b;
    if q < p {
      MulMono(q + 1, p, b);
    } else {
      MulMono(p, q, b);
    }
  }

  lemma {:induction false} PowAdd(b: nat, i: nat, j: nat)
    ensures Pow(b, i + j) == Pow(b, i) * Pow(b, j)
  {
    if j > 0 {
      PowAdd(b, i, j - 1);
      Associate(Pow(b, i), Pow(b, j - 1), b);
    }
  }

  lemma Associate(x: int, y: int, z: int)
    ensures x * y * z == x * (y * z)
  {
  }

  lemma BufferPowers()
    ensures Pow(3, 20) == 3486784401 && Pow(3, 21) == 10460353203 && Pow(2, 21) == 0x20_0000
  {
    PowAdd(3, 5, 5);
    PowAdd(3, 10, 10);
    PowAdd(2, 7, 7);
    PowAdd(2, 14, 7);
    assert Pow(3, 5) == 243 && Pow(2, 7) == 128;
    assert Pow(3, 10) == 59049 && Pow(2, 14) == 16384;
  }

  /** The buffer holds every 32-bit number from base 3 up, and in base 3 all of it is needed; in base 2
      it holds exactly the numbers below 2^21. */
  lemma BufferFits(n: nat, b: nat)
    requires b >= 2 && n <= ULONG_MAX
    ensures b >= 3 ==> |Digits(n, b)| <= DIGIT_BYTES
    ensures b == 2 ==> (|Digits(n, b)| <= DIGIT_BYTES <==> n < 0x20_0000)
    ensures |Digits(ULONG_MAX, 3)| == DIGIT_BYTES
  {
    hide Pow, Digits;
    DigitCount(n, b, DIGIT_BYTES);
    DigitCount(ULONG_MAX, 3, DIGIT_BYTES);
    DigitCount(ULONG_MAX, 3, DIGIT_BYTES - 1);
    BufferPowers();
    if b >= 3 { PowGrows(3, b, DIGIT_BYTES); }
  }

  // ---------------------------------------------------------------- characters

  function DigitChar(d: nat): u8
    requires d < 36
  {
    if d < 10 then ZERO + d else UPPER_A + d - 10
  }

  function DigitVal(c: u8): int {
    if c <= ZERO + 9 then c - ZERO else if LOWER_A <= c <= LOWER_A + 21 then c - LOWER_A + 10 else c - UPPER_A + 10
  }

  predicate IsBaseDigit(c: u8, b: int) {
    if 2 <= b <= 10 then ZERO <= c <= ZERO + b - 1
    else if 11 <= b <= 32 then ZERO <= c <= ZERO + 9 || UPPER_A <= c <= UPPER_A + b - 11 || LOWER_A <= c <= LOWER_A + b - 11
    else false
  }

  predicate IsSpace(c: u8) { c == 32 || 9 <= c <= 13 }

  lemma CharRoundTrip(d: nat, b: nat)
    requires 2 <= b <= 32 && d < b
    ensures IsBaseDigit(DigitChar(d), b) && DigitVal(DigitChar(d)) == d && !IsSpace(DigitChar(d)) && DigitChar(d) !in {0, MINUS}
  {
  }

  /** The digits of a base from 2 to 32, by their characters. */
  lemma DigitTable(b: int, d: int)
    requires 2 <= b <= 32 && 0 <= d < b
    ensures d < 10 ==> var c := '0' as int + d; IsBaseDigit(c, b) && DigitVal(c) == d
    ensures d >= 10 ==> var c := 'A' as int + d - 10; IsBaseDigit(c, b) && DigitVal(c) == d
    ensures d >= 10 ==> var c := 'a' as int + d - 10; IsBaseDigit(c, b) && DigitVal(c) == d
  {
  }

  /** There are no others. */
  lemma NoOtherDigit(b: int, c: u8)
    requires IsBaseDigit(c, b)
    ensures 2 <= b <= 32
    ensures || ('0' as int <= c <= '9' as int && c - '0' as int < b)
            || ('A' as int <= c <= 'Z' as int && c - 'A' as int + 10 < b)
            || ('a' as int <= c <= 'z' as int && c - 'a' as int + 10 < b)
  {
  }

  /** The printers write decimal digits and upper-case letters, a minus sign for a negative number, and
      nothing else. */
  lemma {:induction false} PrintedCharacters(n: int, b: nat, i: nat)
    requires 2 <= b <= 36 && i < |TextOf(n, b)|
    ensures var c := TextOf(n, b)[i];
            if i == 0 && n < 0 then c == '-' as int
            else '0' as int <= c <= '9' as int || 'A' as int <= c <= 'Z' as int
  {
  }

  /** Space, \t, \n, \v, \f and \r. */
  lemma SpaceTable(c: u8)
    ensures IsSpace(c) <==> c in {' ' as int, '\t' as int, '\n' as int, 11, 12, '\r' as int}
  {
  }

  lemma PlainDigit(c: u8, b: int)
    ensures IsBaseDigit(c, b) ==> !IsSpace(c) && c != MINUS && c != 0
  {
  }

  function Chars(ds: seq<nat>): (t: Text)
    requires forall k :: 0 <= k < |ds| ==> ds[k] < 36
    ensures |t| == |ds|
  {
    seq(|ds|, k requires 0 <= k < |ds| => DigitChar(ds[k]))
  }

  /** What the printers write for n, before the terminator. */
  function TextOf(n: int, b: nat): Text
    requires 2 <= b <= 36
  {
    if n == 0 then [ZERO] else if n < 0 then [MINUS] + Chars(Digits(-n, b)) else Chars(Digits(n, b))
  }

  // ---------------------------------------------------------------- printing

  function Reversed(t: Text): (r: Text)
    ensures |r| == |t| && forall k :: 0 <= k < |t| ==> r[k] == t[|t| - 1 - k]
  {
    seq(|t|, k requires 0 <= k < |t| => t[|t| - 1 - k])
  }

  /** The first loop of lltoa and ulltoa: digits into the local buffer, least significant first. The
      buffer suffices exactly for numbers below the 21st power of the base. */
  method CollectDigits(n: nat, b: nat) returns (tmpbuff: array<u8>, digits: nat)
    requires 2 <= b <= 36 && n < Pow(b, DIGIT_BYTES)
    ensures fresh(tmpbuff) && tmpbuff.Length == DIGIT_BYTES && digits == |Digits(n, b)| <= DIGIT_BYTES
    ensures Reversed(tmpbuff[..digits]) == Chars(Digits(n, b))
  {
    hide Pow, Digits, Chars, Reversed, DigitChar, Rest, Last;
    tmpbuff := new u8[DIGIT_BYTES];
    digits := 0;
    ReversedSnoc([], 0);
    assert tmpbuff[..digits] == [];
    var m: nat := n;
    while m != 0
      invariant digits <= DIGIT_BYTES && m < Pow(b, DIGIT_BYTES - digits)
      invariant |Digits(n, b)| == digits + |Digits(m, b)|
      invariant Chars(Digits(n, b)) == Chars(Digits(m, b)) + Reversed(tmpbuff[..digits])
      decreases m
    {
      OneDigit(m, b, DIGIT_BYTES - digits);
      ghost var done := tmpbuff[..digits];
      var c := DigitChar(Last(m, b));
      tmpbuff[digits] := c;
      assert tmpbuff[..digits + 1] == done + [c];
      ReversedSnoc(done, c);
      PutBack(Chars(Digits(Rest(m, b), b)), c, Reversed(done));
      digits := digits + 1;
      m := Rest(m, b);
    }
    OneDigit(m, b, DIGIT_BYTES - digits);
  }

  lemma ReversedSnoc(t: Text, c: u8)
    ensures Reversed(t + [c]) == [c] + Reversed(t)
    ensures Reversed([]) == []
  {
  }

  lemma PutBack(a: Text, c: u8, d: Text)
    ensures a + [c] + d == a + ([c] + d)
  {
  }

  lemma OneDigit(m: nat, b: nat, k: nat)
    requires 2 <= b <= 36 && m < Pow(b, k)
    ensures m > 0 ==> k > 0 && Rest(m, b) < m && Rest(m, b) < Pow(b, k - 1) && Last(m, b) < b
    ensures m > 0 ==> Digits(m, b) == Digits(Rest(m, b), b) + [Last(m, b)]
    ensures m > 0 ==> Chars(Digits(m, b)) == Chars(Digits(Rest(m, b), b)) + [DigitChar(Last(m, b))]
    ensures m == 0 ==> Digits(m, b) == []
  {
    if m > 0 {
      QuotientSmaller(m, b);
      if k > 0 { BelowProduct(m, b, Pow(b, k - 1)); }
    }
  }

  /** The second loop: the digits back to front into str, after `start` characters. */
  method WriteReversed(str: array<u8>, start: nat, tmpbuff: array<u8>, count: nat)
    requires count <= tmpbuff.Length && start + count < str.Length && str != tmpbuff
    modifies str
    ensures str[..] == old(str[..start]) + Reversed(tmpbuff[..count]) + [0] + old(str[start + count + 1..])
  {
    var digits: nat := count;
    var revstart: nat := start + count;
    while digits > 0
      invariant digits <= count
      invariant forall k :: 0 <= k < str.Length && !(start <= k < revstart - digits) ==> str[k] == old(str[k])
      invariant forall k :: start <= k < revstart - digits ==> str[k] == tmpbuff[revstart - 1 - k]
    {
      str[revstart - digits] := tmpbuff[digits - 1];
      digits := digits - 1;
    }
    str[revstart] := 0;
    assert str[..start] == old(str[..start]);
    assert str[start..revstart] == Reversed(tmpbuff[..count]);
    assert str[revstart + 1..] == old(str[revstart + 1..]);
    assert str[..] == str[..start] + str[start..revstart] + [str[revstart]] + str[revstart + 1..];
  }

  /** Both loops. */
  method WriteDigits(n: nat, str: array<u8>, start: nat, b: nat)
    requires 2 <= b <= 36 && n < Pow(b, DIGIT_BYTES) && start + |Digits(n, b)| < str.Length
    modifies str
    ensures str[..] == old(str[..start]) + Chars(Digits(n, b)) + [0] + old(str[start + |Digits(n, b)| + 1..])
  {
    hide Pow, Digits, Chars, Reversed;
    var tmpbuff, digits := CollectDigits(n, b);
    WriteReversed(str, start, tmpbuff, digits);
  }

  method WriteZero(str: array<u8>)
    requires str.Length >= 2
    modifies str
    ensures str[..] == [ZERO] + [0] + old(str[2..])
  {
    str[0] := ZERO;
    str[1] := 0;
  }


  /** lltoa; ltoa and itoa pass their argument on. llabs has no value for the least long long. */
  method Lltoa(n: i64, str: array<u8>, b: nat)
    requires 2 <= b <= 36 && n > -0x8000_0000_0000_0000 && Abs(n) < Pow(b, DIGIT_BYTES)
    requires |TextOf(n, b)| < str.Length
    modifies str
    ensures str[..] == TextOf(n, b) + [0] + old(str[|TextOf(n, b)| + 1..])
  {
    hide Pow, Digits, Chars, Reversed, TextOf;
    TextParts(n, b);
    if n == 0 {
      WriteZero(str);
      return;
    }
    var revstart: nat := 0;
    var m: nat := Abs(n);
    if n < 0 {
      str[0] := MINUS;
      revstart := 1;
    }
    ghost var after := |TextOf(n, b)| + 1;
    assert str[after..] == old(str[after..]);
    assert str[..revstart] == if n < 0 then [MINUS] else [];
    WriteDigits(m, str, revstart, b);
  }

  lemma TextParts(n: int, b: nat)
    requires 2 <= b <= 36
    ensures n == 0 ==> TextOf(n, b) == [ZERO]
    ensures n != 0 ==> TextOf(n, b) == (if n < 0 then [MINUS] else []) + Chars(Digits(Abs(n), b))
  {
  }

  /** ulltoa; ultoa and utoa pass their argument on. */
  method Ulltoa(n: u64, str: array<u8>, b: nat)
    requires 2 <= b <= 36 && n < Pow(b, DIGIT_BYTES)
    requires |TextOf(n, b)| < str.Length
    modifies str
    ensures str[..] == TextOf(n, b) + [0] + old(str[|TextOf(n, b)| + 1..])
  {
    hide Pow, Digits, Chars, Reversed;
    if n == 0 {
      WriteZero(str);
      return;
    }
    WriteDigits(n, str, 0, b);
    assert old(str[..0]) == [];
  }

  function Abs(n: int): nat { if n < 0 then -n else n }

  // ---------------------------------------------------------------- parsing

  /** What strtol and strtoul leave in *endptr and *dst, when they write there, and their status. A base
      of 0 is fatal. */
  datatype Parsed = Parsed(st: int, end: Option<nat>, value: Option<int>) | Fatal

  function Most(signed: bool): int { if signed then LONG_MAX else ULONG_MAX }

  /** Assignment to a long or an unsigned long. */
  function WrapLong(x: int, signed: bool): int {
    if signed then Signed32(Wrap32(x)) else Wrap32(x)
  }

  /** `out * base + digit`, as stored */
  function Next(out: int, c: u8, b: nat, signed: bool): int {
    WrapLong(out * b + DigitVal(c), signed)
  }

  predicate AllDigits(t: Text, b: int) {
    forall k :: 0 <= k < |t| ==> IsBaseDigit(t[k], b)
  }

  /** The number a string of digits denotes. */
  function Number(t: Text, b: nat): int {
    if t == [] then 0 else Number(t[..|t| - 1], b) * b + DigitVal(t[|t| - 1])
  }

  /** What the accumulating loop makes of it: None when its overflow check fires. */
  function Accumulate(t: Text, b: nat, signed: bool): Option<int> {
    if t == [] then Some(0)
    else
      match Accumulate(t[..|t| - 1], b, signed)
      case None => None
      case Some(out) =>
        var tmp := Next(out, t[|t| - 1], b, signed);
        if tmp < out then None else Some(tmp)
  }

  function Skip(s: Text, i: nat, nul: nat): (j: nat)
    requires i <= nul < |s| && s[nul] == 0
    ensures i <= j <= nul
    decreases nul - i
  {
    if IsSpace(s[i]) then Skip(s, i + 1, nul) else i
  }

  function DigitsEnd(s: Text, i: nat, b: int, nul: nat): (j: nat)
    requires i <= nul < |s| && s[nul] == 0
    ensures i <= j <= nul && AllDigits(s[i..j], b) && !IsBaseDigit(s[j], b)
    decreases nul - i
  {
    if IsBaseDigit(s[i], b) then
      var j := DigitsEnd(s, i + 1, b, nul);
      assert s[i..j] == [s[i]] + s[i + 1..j];
      j
    else i
  }

  function ParseOf(s: Text, b: int, signed: bool, nul: nat): Parsed
    requires nul < |s| && s[nul] == 0
  {
    if (b < 2 && b != 0) || b > 36 then Parsed(0, None, None)
    else if b == 0 then Fatal
    else
      var i := Skip(s, 0, nul);
      var neg := s[i] == MINUS;
      var j := if neg then i + 1 else i;
      var k := DigitsEnd(s, j, b, nul);
      if j == k then Parsed(-EINVAL, Some(0), None)
      else
        Finish(Accumulate(s[j..k], b, signed), neg, signed, k)
  }

  function Finish(sum: Option<int>, neg: bool, signed: bool, k: nat): Parsed {
    match sum
    case None => Parsed(-ERANGE, Some(0), Some(if !signed then ULONG_MAX else if neg then LONG_MIN else LONG_MAX))
    case Some(out) => Parsed(0, Some(k), Some(if neg then WrapLong(-out, signed) else out))
  }

  lemma {:induction false} AccumulateStops(t: Text, u: Text, b: nat, signed: bool)
    requires Accumulate(t, b, signed) == None
    ensures Accumulate(t + u, b, signed) == None
    decreases |u|
  {
    if u == [] {
      assert t + u == t;
    } else {
      var front := u[..|u| - 1];
      AccumulateStops(t, front, b, signed);
      assert (t + u)[..|t + u| - 1] == t + front;
    }
  }

  /** strtol (signed) and strtoul. nul is where the string ends. */
  method StrTo(s: Text, b: int, signed: bool, ghost nul: nat) returns (r: Parsed)
    requires nul < |s| && s[nul] == 0
    ensures r == ParseOf(s, b, signed, nul)
  {
    hide AllDigits, WrapLong, DigitVal, Accumulate, IsBaseDigit, IsSpace;
    if (b < 2 && b != 0) || b > 36 {
      return Parsed(0, None, None);
    }
    if b == 0 {
      return Fatal;
    }
    var i: nat := 0;
    PlainDigit(s[nul], b);
    while IsSpace(s[i])
      invariant i <= nul && Skip(s, i, nul) == Skip(s, 0, nul)
      decreases nul - i
    {
      i := i + 1;
    }
    var neg := s[i] == MINUS;
    if neg {
      i := i + 1;
    }
    if !IsBaseDigit(s[i], b) {
      return Parsed(-EINVAL, Some(0), None);
    }
    var sum, k := SumDigits(s, i, b, signed, nul);
    if sum == None {
      return Parsed(-ERANGE, Some(0), Some(if !signed then ULONG_MAX else if neg then LONG_MIN else LONG_MAX));
    }
    r := Parsed(0, Some(k), Some(if neg then WrapLong(-sum.value, signed) else sum.value));
  }

  /** The loop over the digits; None when its overflow check fires. */
  method SumDigits(s: Text, j: nat, b: nat, signed: bool, ghost nul: nat) returns (sum: Option<int>, k: nat)
    requires j <= nul < |s| && s[nul] == 0
    ensures sum == Accumulate(s[j..DigitsEnd(s, j, b, nul)], b, signed)
    ensures sum.Some? ==> k == DigitsEnd(s, j, b, nul)
  {
    hide AllDigits, Next, IsBaseDigit;
    ghost var end := DigitsEnd(s, j, b, nul);
    var out: int := 0;
    k := j;
    assert s[j..k] == [];
    PlainDigit(s[nul], b);
    while s[k] != 0
      invariant j <= k <= end <= nul && DigitsEnd(s, k, b, nul) == end && Accumulate(s[j..k], b, signed) == Some(out)
      decreases nul - k
    {
      if !IsBaseDigit(s[k], b) {
        break;
      }
      var tmp := Next(out, s[k], b, signed);
      assert s[j..k + 1][..k - j] == s[j..k];
      if tmp < out {
        assert s[j..end] == s[j..k + 1] + s[k + 1..end];
        AccumulateStops(s[j..k + 1], s[k + 1..end], b, signed);
        return None, 0;
      }
      out := tmp;
      k := k + 1;
    }
    PlainDigit(s[k], b);
    sum := Some(out);
  }

  // ---------------------------------------------------------------- what parsing computes

  lemma WrapLongIs(x: int, signed: bool)
    ensures 0 <= x <= Most(signed) ==> WrapLong(x, signed) == x
    ensures Wrap32(WrapLong(x, signed)) == Wrap32(x) && Most(signed) - ULONG_MAX <= WrapLong(x, signed) <= Most(signed)
    ensures x == LONG_MAX + 1 && signed ==> WrapLong(x, signed) == LONG_MIN
  {
  }

  lemma DigitValBounds(c: u8, b: int)
    requires IsBaseDigit(c, b)
    ensures 0 <= DigitVal(c) < b
  {
  }

  lemma WrapStep(x: int, y: int, b: int, d: int)
    requires Wrap32(x) == Wrap32(y)
    ensures Wrap32(x * b + d) == Wrap32(y * b + d)
  {
    var k := x / WORD - y / WORD;
    assert x == y + k * WORD;
    ScaledDifference(x, y, k, b);
    AddMultiple(y * b + d, k * b, WORD);
  }

  lemma ScaledDifference(x: int, y: int, k: int, b: int)
    requires x == y + k * WORD
    ensures x * b == y * b + k * b * WORD
  {
    calc {
      x * b;
      (y + k * WORD) * b;
      y * b + k * WORD * b;
      { Associate(k, WORD, b); Associate(k, b, WORD); }
      y * b + k * b * WORD;
    }
  }

  /** Whatever the loop accepts is the number denoted, up to wrapping. */
  lemma {:induction false} AccumulateIsModular(t: Text, b: nat, signed: bool)
    requires AllDigits(t, b)
    ensures Number(t, b) >= 0
    ensures var r := Accumulate(t, b, signed);
            r.Some? ==> 0 <= r.value <= Most(signed) && Wrap32(r.value) == Wrap32(Number(t, b))
  {
    hide WrapLong, Wrap32, DigitVal, IsBaseDigit;
    if t != [] {
      var front, d := t[..|t| - 1], DigitVal(t[|t| - 1]);
      AccumulateIsModular(front, b, signed);
      DigitValBounds(t[|t| - 1], b);
      MulMono(0, Number(front, b), b);
      var r := Accumulate(front, b, signed);
      if r.Some? {
        WrapStep(r.value, Number(front, b), b, d);
        WrapLongIs(r.value * b + d, signed);
      }
    }
  }

  /** A number that fits is accumulated exactly. */
  lemma {:induction false} AccumulateFits(t: Text, b: nat, signed: bool)
    requires b >= 2 && AllDigits(t, b) && Number(t, b) <= Most(signed)
    ensures Accumulate(t, b, signed) == Some(Number(t, b))
  {
    if t != [] {
      var front, d := t[..|t| - 1], DigitVal(t[|t| - 1]);
      AccumulateIsModular(front, b, signed);
      DigitValBounds(t[|t| - 1], b);
      MulMono(1, b, Number(front, b));
      AccumulateFits(front, b, signed);
      WrapLongIs(Number(t, b), signed);
    }
  }

  /** The first k characters. */
  function Front(t: Text, k: nat): Text
    requires k <= |t|
  {
    t[..k]
  }

  /** Storing the number that the first k + 1 digits denote gives less than storing that of the first k. */
  predicate WrapsBack(t: Text, b: nat, signed: bool, k: nat)
    requires k < |t|
  {
    WrapLong(Number(Front(t, k + 1), b), signed) < WrapLong(Number(Front(t, k), b), signed)
  }

  lemma NumberSnoc(t: Text, b: nat)
    requires t != []
    ensures Number(t, b) == Number(Front(t, |t| - 1), b) * b + DigitVal(t[|t| - 1])
  {
  }

  lemma WrapLongCongruent(x: int, y: int, signed: bool)
    requires Wrap32(x) == Wrap32(y)
    ensures WrapLong(x, signed) == WrapLong(y, signed)
  {
  }

  /** What the loop holds is the number so far, as a long or an unsigned long stores it. */
  lemma AccumulatesWrapped(t: Text, b: nat, signed: bool)
    requires AllDigits(t, b) && Accumulate(t, b, signed).Some?
    ensures Accumulate(t, b, signed).value == WrapLong(Number(t, b), signed)
  {
    hide Accumulate, Number, WrapLong, Wrap32, AllDigits;
    AccumulateIsModular(t, b, signed);
    var v := Accumulate(t, b, signed).value;
    WrapLongIs(v, signed);
    WrapLongCongruent(v, Number(t, b), signed);
  }

  /** The overflow check fires exactly when some digit makes the stored sum smaller than it was. */
  lemma {:induction false} OverflowIff(t: Text, b: nat, signed: bool)
    requires AllDigits(t, b)
    ensures Accumulate(t, b, signed) == None <==> exists k: nat :: k < |t| && WrapsBack(t, b, signed, k)
  {
    if t != [] {
      var n := |t| - 1;
      var front := Front(t, n);
      OverflowIff(front, b, signed);
      LastStep(t, b, signed);
      forall k: nat | k < n ensures WrapsBack(t, b, signed, k) <==> WrapsBack(front, b, signed, k) {
        assert Front(front, k) == Front(t, k) && Front(front, k + 1) == Front(t, k + 1);
      }
    }
  }

  lemma LastStep(t: Text, b: nat, signed: bool)
    requires AllDigits(t, b) && t != []
    ensures Accumulate(t, b, signed) == None <==>
            Accumulate(Front(t, |t| - 1), b, signed) == None || WrapsBack(t, b, signed, |t| - 1)
  {
    hide Number, WrapLong, Wrap32, IsBaseDigit;
    var front, c := Front(t, |t| - 1), t[|t| - 1];
    if Accumulate(front, b, signed).Some? {
      var out := Accumulate(front, b, signed).value;
      AccumulatesWrapped(front, b, signed);
      AccumulateIsModular(front, b, signed);
      NumberSnoc(t, b);
      WrapStep(out, Number(front, b), b, DigitVal(c));
      WrapLongCongruent(out * b + DigitVal(c), Number(t, b), signed);
      assert Front(t, |t|) == t;
    }
  }

  /** Parsing reports success with the number denoted exactly when that number fits. One that does not
      is reported or silently reduced. */
  lemma RightIffFits(t: Text, b: nat, signed: bool)
    requires b >= 2 && AllDigits(t, b)
    ensures Accumulate(t, b, signed) == Some(Number(t, b)) <==> Number(t, b) <= Most(signed)
  {
    AccumulateIsModular(t, b, signed);
    if Number(t, b) <= Most(signed) {
      AccumulateFits(t, b, signed);
    }
  }

  function DigitsFrom(s: Text, nul: nat): (j: nat)
    requires nul < |s| && s[nul] == 0
    ensures j <= nul
  {
    var i := Skip(s, 0, nul);
    if s[i] == MINUS then i + 1 else i
  }

  /** The digits of a string, behind its spaces and its sign. */
  function DigitsIn(s: Text, b: int, nul: nat): (t: Text)
    requires nul < |s| && s[nul] == 0
    ensures AllDigits(t, b)
  {
    s[DigitsFrom(s, nul)..DigitsEnd(s, DigitsFrom(s, nul), b, nul)]
  }

  /** The number a string denotes, with its sign. */
  function Denoted(s: Text, b: nat, nul: nat): int
    requires nul < |s| && s[nul] == 0
  {
    if s[Skip(s, 0, nul)] == MINUS then -Number(DigitsIn(s, b, nul), b) else Number(DigitsIn(s, b, nul), b)
  }

  /** What the parsers answer and store, for every string and base. */
  lemma ParseMeans(s: Text, b: nat, signed: bool, nul: nat)
    requires nul < |s| && s[nul] == 0 && 2 <= b <= 36
    ensures var t, r := DigitsIn(s, b, nul), ParseOf(s, b, signed, nul);
            if t == [] then r == Parsed(-EINVAL, Some(0), None)
            else if exists k: nat :: k < |t| && WrapsBack(t, b, signed, k) then
              r == Parsed(-ERANGE, Some(0),
                          Some(if !signed then 0xFFFF_FFFF else if s[Skip(s, 0, nul)] == '-' as int then -0x8000_0000 else 0x7FFF_FFFF))
            else r == Parsed(0, Some(DigitsFrom(s, nul) + |t|), Some(WrapLong(Denoted(s, b, nul), signed)))
  {
    hide Number, WrapLong, WrapsBack, Accumulate, Skip, DigitsEnd, AllDigits;
    var t := DigitsIn(s, b, nul);
    OverflowIff(t, b, signed);
    if Accumulate(t, b, signed).Some? {
      AccumulatesWrapped(t, b, signed);
      AccumulateIsModular(t, b, signed);
      var out := Accumulate(t, b, signed).value;
      WrapStep(out, Number(t, b), -1, 0);
      WrapLongCongruent(-out, -Number(t, b), signed);
    }
  }

  /** A base that is out of range is reported as success with nothing stored, and base 0 is fatal. */
  lemma ParseBadBase(s: Text, b: int, signed: bool, nul: nat)
    requires nul < |s| && s[nul] == 0
    ensures ParseOf(s, b, signed, nul) == Parsed(0, None, None) <==> b < 0 || b == 1 || b > 36
    ensures ParseOf(s, b, signed, nul) == Fatal <==> b == 0
  {
  }

  // ---------------------------------------------------------------- letter case and spaces

  /** Letters in lower case, everything else as it is. */
  function Lower(s: Text): (r: Text)
    ensures |r| == |s|
    ensures forall i :: 0 <= i < |s| ==> r[i] == if 'A' as int <= s[i] <= 'Z' as int then s[i] + 32 else s[i]
  {
    seq(|s|, i requires 0 <= i < |s| => if 'A' as int <= s[i] <= 'Z' as int then s[i] + 32 else s[i])
  }

  lemma LowerChar(c: u8, b: int)
    requires 'A' as int <= c <= 'Z' as int
    ensures IsBaseDigit(c + 32, b) <==> IsBaseDigit(c, b)
    ensures IsBaseDigit(c, b) ==> DigitVal(c + 32) == DigitVal(c)
    ensures !IsSpace(c) && !IsSpace(c + 32) && c != MINUS && c + 32 != MINUS
  {
  }

  lemma {:induction false} LowerSkip(s: Text, i: nat, nul: nat)
    requires i <= nul < |s| && s[nul] == 0
    ensures Skip(Lower(s), i, nul) == Skip(s, i, nul)
    decreases nul - i
  {
    if 'A' as int <= s[i] <= 'Z' as int { LowerChar(s[i], 16); }
    if IsSpace(s[i]) { LowerSkip(s, i + 1, nul); }
  }

  lemma {:induction false} LowerEnd(s: Text, i: nat, b: int, nul: nat)
    requires i <= nul < |s| && s[nul] == 0
    ensures DigitsEnd(Lower(s), i, b, nul) == DigitsEnd(s, i, b, nul)
    decreases nul - i
  {
    if 'A' as int <= s[i] <= 'Z' as int { LowerChar(s[i], b); }
    if IsBaseDigit(s[i], b) { LowerEnd(s, i + 1, b, nul); }
  }

  lemma {:induction false} LowerSum(t: Text, b: nat, signed: bool)
    requires AllDigits(t, b)
    ensures Accumulate(Lower(t), b, signed) == Accumulate(t, b, signed)
  {
    if t != [] {
      var c := t[|t| - 1];
      LowerSum(t[..|t| - 1], b, signed);
      assert Lower(t)[..|t| - 1] == Lower(t[..|t| - 1]);
      if 'A' as int <= c <= 'Z' as int { LowerChar(c, b); }
    }
  }

  /** The case of letters makes no difference to the parsers. */
  lemma ParseIgnoresCase(s: Text, b: int, signed: bool, nul: nat)
    requires nul < |s| && s[nul] == 0
    ensures ParseOf(Lower(s), b, signed, nul) == ParseOf(s, b, signed, nul)
  {
    hide Skip, DigitsEnd, Accumulate, Finish, AllDigits, IsBaseDigit;
    LowerSkip(s, 0, nul);
    var i := Skip(s, 0, nul);
    if 'A' as int <= s[i] <= 'Z' as int { LowerChar(s[i], b); }
    var j := if s[i] == MINUS then i + 1 else i;
    LowerEnd(s, j, b, nul);
    var k := DigitsEnd(s, j, b, nul);
    assert Lower(s)[j..k] == Lower(s[j..k]);
    if 2 <= b { LowerSum(s[j..k], b, signed); }
  }

  lemma {:induction false} SkipShifts(c: u8, s: Text, i: nat, nul: nat)
    requires i <= nul < |s| && s[nul] == 0
    ensures Skip([c] + s, i + 1, nul + 1) == Skip(s, i, nul) + 1
    decreases nul - i
  {
    if IsSpace(s[i]) { SkipShifts(c, s, i + 1, nul); }
  }

  lemma {:induction false} EndShifts(c: u8, s: Text, i: nat, b: int, nul: nat)
    requires i <= nul < |s| && s[nul] == 0
    ensures DigitsEnd([c] + s, i + 1, b, nul + 1) == DigitsEnd(s, i, b, nul) + 1
    decreases nul - i
  {
    if IsBaseDigit(s[i], b) { EndShifts(c, s, i + 1, b, nul); }
  }

  /** A space in front changes nothing but where the number ends. */
  lemma SpacesAreSkipped(c: u8, s: Text, b: int, signed: bool, nul: nat)
    requires nul < |s| && s[nul] == 0 && IsSpace(c)
    ensures var r := ParseOf(s, b, signed, nul);
            ParseOf([c] + s, b, signed, nul + 1) ==
            if r.Parsed? && r.st == 0 && r.end.Some? then r.(end := Some(r.end.value + 1)) else r
  {
    hide Skip, DigitsEnd, Accumulate, AllDigits, IsBaseDigit, WrapLong;
    OneSpace(c, s, nul);
    var i := Skip(s, 0, nul);
    var j := if s[i] == MINUS then i + 1 else i;
    EndShifts(c, s, j, b, nul);
    var k := DigitsEnd(s, j, b, nul);
    assert ([c] + s)[j + 1..k + 1] == s[j..k];
  }

  lemma OneSpace(c: u8, s: Text, nul: nat)
    requires nul < |s| && s[nul] == 0 && IsSpace(c)
    ensures Skip([c] + s, 0, nul + 1) == Skip(s, 0, nul) + 1
  {
    SkipShifts(c, s, 0, nul);
  }

  /** Reading back the characters of a number's digits. */
  lemma {:induction false} NumberOfChars(n: nat, b: nat)
    requires 2 <= b <= 32
    ensures AllDigits(Chars(Digits(n, b)), b) && Number(Chars(Digits(n, b)), b) == n
  {
    if n > 0 {
      var t := Chars(Digits(n, b));
      QuotientSmaller(n, b);
      NumberOfChars(n / b, b);
      CharRoundTrip(n % b, b);
      assert t == Chars(Digits(n / b, b)) + [DigitChar(n % b)];
      assert t[..|t| - 1] == Chars(Digits(n / b, b));
    }
  }

  lemma TimesTen(n: nat)
    requires n > 0
    ensures var t := Chars(Digits(10 * n, 10)); t != [] && t[..|t| - 1] == Chars(Digits(n, 10)) && t[|t| - 1] == ZERO
  {
    assert Digits(10 * n, 10) == Digits(n, 10) + [0];
  }

  lemma WrapsToMore()
    ensures Next(1_000_000_000, ZERO, 10, false) == 1410065408
  {
  }

  /** The check misses an overflow that wraps to something larger: ten billion reads as 1410065408. */
  lemma OverflowMissed()
    ensures var t := TextOf(10_000_000_000, 10);
            AllDigits(t, 10) && Number(t, 10) == 10_000_000_000 && Accumulate(t, 10, false) == Some(1410065408)
  {
    hide Number;
    var n := 1_000_000_000;
    var t, front := Chars(Digits(10 * n, 10)), Chars(Digits(n, 10));
    NumberOfChars(10 * n, 10);
    NumberOfChars(n, 10);
    TimesTen(n);
    hide Digits, Chars, Next;
    AccumulateFits(front, 10, false);
    WrapsToMore();
  }

  // ---------------------------------------------------------------- there and back

  lemma {:induction false} DigitsEndAt(s: Text, i: nat, b: int, nul: nat)
    requires i <= nul < |s| && s[nul] == 0 && AllDigits(s[i..nul], b)
    ensures DigitsEnd(s, i, b, nul) == nul
    decreases nul - i
  {
    if i < nul {
      assert s[i] == s[i..nul][0];
      assert s[i + 1..nul] == s[i..nul][1..];
      DigitsEndAt(s, i + 1, b, nul);
    }
  }

  lemma {:induction false} TooLargeByOne(b: nat)
    requires 2 <= b <= 32
    ensures Accumulate(Chars(Digits(LONG_MAX + 1, b)), b, true) == None
  {
    var n := LONG_MAX + 1;
    var t := Chars(Digits(n, b));
    QuotientSmaller(n, b);
    NumberOfChars(n, b);
    NumberOfChars(n / b, b);
    CharRoundTrip(n % b, b);
    assert t == Chars(Digits(n / b, b)) + [DigitChar(n % b)];
    assert t[..|t| - 1] == Chars(Digits(n / b, b));
    AccumulateFits(t[..|t| - 1], b, true);
    WrapLongIs(n, true);
  }

  /** What the text of n parses to, wherever it is stored. */
  lemma ParseText(n: int, b: nat, signed: bool, s: Text)
    requires 2 <= b <= 32 && n != 0 && TextOf(n, b) + [0] <= s
    ensures ParseOf(s, b, signed, |TextOf(n, b)|) ==
              Finish(Accumulate(Chars(Digits(Abs(n), b)), b, signed), n < 0, signed, |TextOf(n, b)|)
  {
    hide Accumulate, Number, WrapLong, DigitVal, DigitChar, IsBaseDigit, DigitsEnd, AllDigits, Finish;
    var t := Chars(Digits(Abs(n), b));
    var nul := |TextOf(n, b)|;
    var j := if n < 0 then 1 else 0;
    NumberOfChars(Abs(n), b);
    NotEmpty(Abs(n), b);
    hide Digits, Chars;
    assert TextOf(n, b) == (if n < 0 then [MINUS] else []) + t;
    hide TextOf;
    Stored(TextOf(n, b), j, t, s);
    assert IsBaseDigit(s[j], b) by { assert AllDigits(t, b); FirstDigit(t, b); }
    PlainDigit(s[j], b);
    DigitsEndAt(s, j, b, nul);
    assert Skip(s, 0, nul) == 0;
  }

  lemma FirstDigit(t: Text, b: int)
    requires t != [] && AllDigits(t, b)
    ensures IsBaseDigit(t[0], b)
  {
  }

  /** Where the parts of a stored text are. */
  lemma Stored(text: Text, j: nat, t: Text, s: Text)
    requires t != [] && j <= 1 && text == (if j == 1 then [MINUS] else []) + t && text + [0] <= s
    ensures |text| == j + |t| < |s| && s[|text|] == 0 && s[j..|text|] == t && s[j] == t[0] && (j == 1 ==> s[0] == MINUS)
  {
    assert forall i :: 0 <= i <= |text| ==> s[i] == (text + [0])[i];
  }

  lemma NotEmpty(n: nat, b: nat)
    requires n > 0 && b >= 2
    ensures |Digits(n, b)| > 0
  {
  }

  lemma ParseZero(b: nat, signed: bool, s: Text)
    requires 2 <= b <= 32 && [ZERO, 0] <= s
    ensures ParseOf(s, b, signed, 1) == Parsed(0, Some(1), Some(0))
  {
    assert s[0] == ZERO && s[1] == 0;
    assert s[0..1] == [ZERO];
    DigitsEndAt(s, 0, b, 1);
    assert Accumulate([ZERO], b, signed) == Some(0);
  }

  /** strtol after ltoa gives every long but the least back, all of the text read. */
  lemma StrtolAfterLtoa(n: int, b: nat, s: Text)
    requires LONG_MIN < n <= LONG_MAX && 2 <= b <= 32 && TextOf(n, b) + [0] <= s
    ensures ParseOf(s, b, true, |TextOf(n, b)|) == Parsed(0, Some(|TextOf(n, b)|), Some(n))
  {
    hide ParseOf, Digits, Chars, Accumulate, Number;
    if n == 0 {
      assert TextOf(n, b) + [0] == [ZERO, 0];
      ParseZero(b, true, s);
      return;
    }
    hide TextOf;
    ParseText(n, b, true, s);
    NumberOfChars(Abs(n), b);
    AccumulateFits(Chars(Digits(Abs(n), b)), b, true);
    assert n < 0 ==> WrapLong(n, true) == n;
  }

  /** The magnitude of the least long does not fit, and its text is refused. */
  lemma StrtolRefusesLeast(b: nat, s: Text)
    requires 2 <= b <= 32 && TextOf(LONG_MIN, b) + [0] <= s
    ensures ParseOf(s, b, true, |TextOf(LONG_MIN, b)|) == Parsed(-ERANGE, Some(0), Some(LONG_MIN))
  {
    hide ParseOf, Digits, Chars, Accumulate, Number, TextOf;
    ParseText(LONG_MIN, b, true, s);
    TooLargeByOne(b);
  }

  /** The round trip of a long succeeds if and only if it is not the least. */
  lemma StrtolRoundTripIff(n: int, b: nat, s: Text)
    requires LONG_MIN <= n <= LONG_MAX && 2 <= b <= 32 && TextOf(n, b) + [0] <= s
    ensures ParseOf(s, b, true, |TextOf(n, b)|) == Parsed(0, Some(|TextOf(n, b)|), Some(n)) <==> n > LONG_MIN
  {
    hide ParseOf, Digits, Chars, Accumulate, Number, TextOf;
    if n > LONG_MIN {
      StrtolAfterLtoa(n, b, s);
    } else {
      StrtolRefusesLeast(b, s);
    }
  }

  /** strtoul after ultoa gives every unsigned long back. */
  lemma StrtoulAfterUltoa(n: int, b: nat, s: Text)
    requires 0 <= n <= ULONG_MAX && 2 <= b <= 32 && TextOf(n, b) + [0] <= s
    ensures ParseOf(s, b, false, |TextOf(n, b)|) == Parsed(0, Some(|TextOf(n, b)|), Some(n))
  {
    hide ParseOf, Digits, Chars, Accumulate, Number;
    if n == 0 {
      assert TextOf(n, b) + [0] == [ZERO, 0];
      ParseZero(b, false, s);
      return;
    }
    hide TextOf;
    ParseText(n, b, false, s);
    NumberOfChars(n, b);
    AccumulateFits(Chars(Digits(n, b)), b, false);
  }

  /** The same text in lower case gives every unsigned long back, too. */
  lemma StrtoulOfLowerCase(n: int, b: nat, s: Text)
    requires 0 <= n <= ULONG_MAX && 2 <= b <= 32 && TextOf(n, b) + [0] <= s
    ensures ParseOf(Lower(s), b, false, |TextOf(n, b)|) == Parsed(0, Some(|TextOf(n, b)|), Some(n))
  {
    StrtoulAfterUltoa(n, b, s);
    assert s[|TextOf(n, b)|] == (TextOf(n, b) + [0])[|TextOf(n, b)|];
    ParseIgnoresCase(s, b, false, |TextOf(n, b)|);
  }

  lemma SymbolDigits()
    ensures Digits(0xC010_0000, 16) == [12, 0, 1, 0, 0, 0, 0, 0]
  {
    assert Digits(0xC, 16) == [12];
    assert Digits(0xC0, 16) == [12, 0];
    assert Digits(0xC01, 16) == [12, 0, 1];
    assert Digits(0xC010, 16) == [12, 0, 1, 0];
    assert Digits(0xC_0100, 16) == [12, 0, 1, 0, 0];
    assert Digits(0xC0_1000, 16) == [12, 0, 1, 0, 0, 0];
    assert Digits(0xC01_0000, 16) == [12, 0, 1, 0, 0, 0, 0];
  }

  /** "C0100000" */
  const SYMBOL: Text := [67, 48, 49, 48, 48, 48, 48, 48, 0]

  lemma SymbolText()
    ensures TextOf(0xC010_0000, 16) + [0] == SYMBOL
  {
    SymbolDigits();
    hide Digits;
  }

  /** "c0100000", as an address stands in the symbol table. */
  lemma SymbolAddress()
    ensures ParseOf([99, 48, 49, 48, 48, 48, 48, 48, 0], 16, false, 8) == Parsed(0, Some(8), Some(0xC010_0000))
  {
    hide Digits, ParseOf, TextOf;
    SymbolText();
    assert |TextOf(0xC010_0000, 16)| == 8;
    assert Lower(SYMBOL) == [99, 48, 49, 48, 48, 48, 48, 48, 0];
    StrtoulOfLowerCase(0xC010_0000, 16, SYMBOL);
  }
}
