/**
 Printing and reading integers: `conv_10` and `conv_10_quad`, and the portable
 branch of `apr_strtoi64`.
 */
module Numbers {
  import opened Basics
  import opened CStrings

  const MINUS: Char := 45
  const PLUS: Char := 43

  const TWO_32 := 0x1_0000_0000
  const TWO_63 := 0x8000_0000_0000_0000
  const TWO_64 := 0x1_0000_0000_0000_0000

  type Int32 = n: int | -0x8000_0000 <= n < 0x8000_0000
  type Int64 = n: int | -TWO_63 <= n < TWO_63 witness 0

  // ---------- what numerals mean ----------

  /** The digit a character stands for; 36 and more when it is none. */
  function DigitOf(c: Char): nat {
    if IsDigit(c) then c - 48
    else if IsUpper(c) then c - 65 + 10
    else if IsLower(c) then c - 97 + 10
    else 36
  }

  /** The value of digits, the most significant one first. */
  function Value(ds: seq<nat>, base: nat): nat {
    if ds == [] then 0 else Value(ds[..|ds| - 1], base) * base + ds[|ds| - 1]
  }

  function Signed(neg: bool, v: nat): int {
    if neg then -(v as int) else v
  }

  /** `low_digits` and `upper_digits` */
  function Digit(d: nat, upper: bool): Char
    requires d < 16
  {
    if d < 10 then 48 + d else (if upper then 65 else 97) + (d - 10)
  }

  /** The bases numbers are printed in. */
  type Base = b: nat | 2 <= b <= 16 witness 10

  /** A number written out, without superfluous zeros. */
  function Numeral(n: nat, base: Base, upper: bool): (t: seq<Char>)
    ensures |t| > 0
  {
    if n < base then [Digit(n, upper)]
    else
      Shrinks(n, base);
      Numeral(n / base, base, upper) + [Digit(n % base, upper)]
  }

  lemma Shrinks(n: nat, base: Base)
    ensures n / base * base + n % base == n && n % base < base
    ensures n >= base ==> 0 < n / base < n
    ensures n < base ==> n / base == 0 && n % base == n
  {
  }

  function Decimal(n: nat): seq<Char> {
    Numeral(n, 10, false)
  }

  // ---------- printing ----------

  /** What is printed for the bits of `num`, sign apart. */
  function Magnitude(num: int, unsigned: bool, modulus: nat): nat
    requires modulus > 0
  {
    if unsigned then num % modulus else if num < 0 then -num else num
  }

  /** The digit loop of all conversions, from the end of the buffer downwards. */
  method PutDigits(buf: array<Char>, end: nat, number: nat, base: Base, upper: bool) returns (p: nat)
    requires |Numeral(number, base, upper)| <= end <= buf.Length
    modifies buf
    ensures p <= end && buf[p..end] == Numeral(number, base, upper)
    ensures buf[..p] == old(buf[..p]) && buf[end..] == old(buf[end..])
  {
    FirstDigit(number, base, upper);
    hide *;
    ghost var whole := Numeral(number, base, upper);
    NothingPut(whole, buf, end);
    p := DigitStep(buf, end, end, number, base, upper, whole);
    var num: nat := number / base;
    Shrinks(number, base);
    while num != 0
      invariant p <= end && Remaining(Rest(num, base, upper), buf, p, end, whole)
      invariant buf[..p] == old(buf[..p]) && buf[end..] == old(buf[end..])
      decreases num
    {
      Shrinks(num, base);
      FirstDigit(num, base, upper);
      p := DigitStep(buf, p, end, num, base, upper, whole);
      num := num / base;
    }
    NothingLeft(base, upper);
    AllPut(buf, p, end, whole);
  }

  /** The buffer holds all of `whole` but `rest`, for which there is room. */
  ghost predicate Remaining(rest: seq<Char>, buf: array<Char>, at: nat, end: nat, whole: seq<Char>)
    reads buf
  {
    |rest| <= at <= end <= buf.Length && rest + buf[at..end] == whole
  }

  lemma NothingPut(whole: seq<Char>, buf: array<Char>, end: nat)
    requires |whole| <= end <= buf.Length
    ensures Remaining(whole, buf, end, end, whole)
  {
  }

  lemma AllPut(buf: array<Char>, p: nat, end: nat, whole: seq<Char>)
    requires Remaining([], buf, p, end, whole)
    ensures p <= end <= buf.Length && buf[p..end] == whole
  {
  }

  /** What remains to be written. */
  function Rest(n: nat, base: Base, upper: bool): seq<Char> {
    if n == 0 then [] else Numeral(n, base, upper)
  }

  lemma NothingLeft(base: Base, upper: bool)
    ensures Rest(0, base, upper) == []
  {
  }

  lemma FirstDigit(n: nat, base: Base, upper: bool)
    ensures n % base < 16
    ensures Numeral(n, base, upper) == Rest(n / base, base, upper) + [Digit(n % base, upper)]
    ensures n > 0 ==> Rest(n, base, upper) == Numeral(n, base, upper)
  {
    Shrinks(n, base);
    hide Digit;
  }

  method DigitStep(buf: array<Char>, at: nat, end: nat, num: nat, base: Base, upper: bool, ghost whole: seq<Char>)
    returns (p: nat)
    requires at <= end <= buf.Length && Remaining(Numeral(num, base, upper), buf, at, end, whole)
    modifies buf
    ensures p + 1 == at && Remaining(Rest(num / base, base, upper), buf, p, end, whole)
    ensures buf[..p] == old(buf[..p]) && buf[end..] == old(buf[end..])
  {
    FirstDigit(num, base, upper);
    hide Rest, Numeral, Digit;
    ghost var done, rest := buf[at..end], Rest(num / base, base, upper);
    p := at - 1;
    buf[p] := Digit(num % base, upper);
    assert buf[p..end] == [Digit(num % base, upper)] + done;
    Regroup(rest, [Digit(num % base, upper)], done);
  }

  /** Adding one before negating keeps the smallest number in range. */
  lemma MagnitudeOf(num: int, unsigned: bool, modulus: nat)
    requires modulus >= 2 && 0 <= 2 * num + modulus < 2 * modulus
    ensures Magnitude(num, unsigned, modulus)
      == if !unsigned && num < 0 then (-(num + 1)) % modulus + 1 else num % modulus
  {
    if num < 0 {
      var t := -(num + 1);
      assert 0 <= t < modulus && t % modulus == t;
    } else {
      assert 0 <= num < modulus && num % modulus == num;
    }
  }

  /** `conv_10` */
  method Conv10(num: Int32, unsigned: bool, buf: array<Char>, end: nat) returns (negative: bool, p: nat)
    requires |Decimal(Magnitude(num, unsigned, TWO_32))| <= end <= buf.Length
    modifies buf
    ensures negative <==> !unsigned && num < 0
    ensures p <= end && buf[p..end] == Decimal(Magnitude(num, unsigned, TWO_32))
    ensures buf[..p] == old(buf[..p]) && buf[end..] == old(buf[end..])
  {
    hide Magnitude, Numeral;
    var magnitude := num % TWO_32;
    negative := !unsigned && num < 0;
    MagnitudeOf(num, unsigned, TWO_32);
    if negative {
      var t: Int32 := num + 1;
      magnitude := (-t) % TWO_32 + 1;
    }
    p := PutDigits(buf, end, magnitude, 10, false);
  }

  /** `(apr_int32_t)num` */
  function Truncated32(num: Int64): Int32 {
    var low := num % TWO_32;
    if low < 0x8000_0000 then low else low - TWO_32
  }

  lemma SameMagnitude(num: Int64, unsigned: bool)
    requires if unsigned then num % TWO_64 < TWO_32 else -0x8000_0000 <= num < 0x8000_0000
    ensures Magnitude(Truncated32(num), unsigned, TWO_32) == Magnitude(num, unsigned, TWO_64)
    ensures !unsigned ==> Truncated32(num) == num
  {
    if num >= 0 {
      assert num % TWO_64 == num;
    } else {
      assert num % TWO_64 == num + TWO_64;
    }
    if unsigned {
      assert num >= 0 && num % TWO_32 == num;
      assert Truncated32(num) % TWO_32 == num;
    } else if num >= 0 {
      assert num % TWO_32 == num;
    } else {
      assert num % TWO_32 == num + TWO_32;
    }
  }

  /** `conv_10_quad`, short numbers left to `conv_10` */
  method Conv10Quad(num: Int64, unsigned: bool, buf: array<Char>, end: nat) returns (negative: bool, p: nat)
    requires |Decimal(Magnitude(num, unsigned, TWO_64))| <= end <= buf.Length
    modifies buf
    ensures negative <==> !unsigned && num < 0
    ensures p <= end && buf[p..end] == Decimal(Magnitude(num, unsigned, TWO_64))
    ensures buf[..p] == old(buf[..p]) && buf[end..] == old(buf[end..])
  {
    hide Numeral, Magnitude, Truncated32;
    var magnitude := num % TWO_64;
    if (magnitude < TWO_32 && unsigned) || (num < 0x8000_0000 && num >= -0x8000_0000 && !unsigned) {
      SameMagnitude(num, unsigned);
      negative, p := Conv10(Truncated32(num), unsigned, buf, end);
      return;
    }
    negative := !unsigned && num < 0;
    MagnitudeOf(num, unsigned, TWO_64);
    if negative {
      var t: Int64 := num + 1;
      magnitude := (-t) % TWO_64 + 1;
    }
    p := PutDigits(buf, end, magnitude, 10, false);
  }

  /** `1 << nbits`, for the shifts in use. */
  function Radix(nbits: nat): Base
    requires nbits == 3 || nbits == 4
  {
    if nbits == 3 then 8 else 16
  }

  /** `conv_p2` and `conv_p2_quad`, whose loops do the same for either width. */
  method ConvP2(num: nat, nbits: nat, upper: bool, buf: array<Char>, end: nat) returns (p: nat)
    requires num < TWO_64 && (nbits == 3 || nbits == 4)
    requires |Numeral(num, Radix(nbits), upper)| <= end <= buf.Length
    modifies buf
    ensures p <= end && buf[p..end] == Numeral(num, Radix(nbits), upper)
    ensures buf[..p] == old(buf[..p]) && buf[end..] == old(buf[end..])
  {
    p := PutDigits(buf, end, num, Radix(nbits), upper);
  }

  // ---------- reading ----------

  /** The bits of `x` read as a signed 64-bit number. */
  function Wrapped(x: int): Int64 {
    var low := x % TWO_64;
    if low < TWO_63 then low else low - TWO_64
  }

  datatype Errno = NoError | Invalid | OutOfRange

  /** Sign, base and the position of the first digit. */
  datatype Head = Head(neg: bool, base: int, at: nat)

  function SkipSpace(s: CString, i: nat): (j: nat)
    requires i <= |s|
    ensures i <= j <= |s|
    decreases |s| - i
  {
    if IsSpace(At(s, i)) then SkipSpace(s, i + 1) else i
  }

  function HeadOf(s: CString, base: int): (h: Head)
    ensures h.at <= |s|
  {
    var i := SkipSpace(s, 0);
    var neg := At(s, i) == MINUS;
    var j := if neg || At(s, i) == PLUS then i + 1 else i;
    if (base == 0 || base == 16) && At(s, j) == ZERO && (At(s, j + 1) == 120 || At(s, j + 1) == 88) then
      Head(neg, 16, j + 2)
    else if base == 0 then Head(neg, if At(s, j) == ZERO then 8 else 10, j)
    else Head(neg, base, j)
  }

  /** The digits of the base from position `i` on. */
  function Run(s: CString, i: nat, base: int): seq<nat>
    requires i <= |s| && base <= 36
    decreases |s| - i
  {
    if DigitOf(At(s, i)) < base then [DigitOf(At(s, i))] + Run(s, i + 1, base) else []
  }

  predicate Fits(x: int) { -TWO_63 <= x < TWO_63 }

  /** The accumulating step, with the multiplication and addition wrapping around. */
  function Step(base: nat, d: nat, neg: bool, acc: Int64, val: Int64, any: int): (r: (Int64, Int64, int))
  {
    var product := Wrapped(val * base);
    if any < 0 then (acc, product, -1)
    else if neg then
      if product > acc then (acc, product, -1)
      else
        var sum := Wrapped(product - d);
        if sum > acc then (acc, sum, -1) else (sum, sum, 1)
    else
      if product < acc then (acc, product, -1)
      else
        var sum := Wrapped(product + d);
        if sum < acc then (acc, sum, -1) else (sum, sum, 1)
  }

  /** Numbers that differ by a multiple of 2 to the power of 64 have the same bits. */
  lemma SameBits(x: int, y: int, q: int)
    requires x == y + q * TWO_64
    ensures Wrapped(x) == Wrapped(y)
  {
  }

  lemma WrappedOnce(x: int)
    ensures Wrapped(x) == x + (Wrapped(x) - x) / TWO_64 * TWO_64
  {
  }

  lemma WrappedSum(x: int, d: int)
    ensures Wrapped(Wrapped(x) + d) == Wrapped(x + d)
  {
    WrappedOnce(x);
    hide Wrapped;
    SameBits(Wrapped(x) + d, x + d, (Wrapped(x) - x) / TWO_64);
  }

  lemma WrappedProduct(x: int, base: nat)
    ensures Wrapped(Wrapped(x) * base) == Wrapped(x * base)
  {
    WrappedOnce(x);
    hide Wrapped;
    var q := (Wrapped(x) - x) / TWO_64;
    assert Wrapped(x) * base == x * base + q * base * TWO_64;
    SameBits(Wrapped(x) * base, x * base, q * base);
  }

  /** Adding the digit `d` to the number `v` turns the wrapped number around: the check of the digit loop. */
  predicate Turns(v: nat, d: nat, base: nat, neg: bool) {
    var acc, product, sum := Wrapped(Signed(neg, v)), Wrapped(Signed(neg, v * base)), Wrapped(Signed(neg, v * base + d));
    if neg then product > acc || sum > acc else product < acc || sum < acc
  }

  /** One of the first `k` digits turns the number around. */
  ghost predicate TurnsBefore(ds: seq<nat>, k: nat, base: nat, neg: bool)
    requires k <= |ds|
  {
    exists j :: 0 <= j < k && Turns(Value(ds[..j], base), ds[j], base, neg)
  }

  /** The overflow that the digit loop notices. */
  ghost predicate Noticed(ds: seq<nat>, base: nat, neg: bool) {
    TurnsBefore(ds, |ds|, base, neg)
  }

  lemma StepIs(base: nat, d: nat, neg: bool, v: nat, any: int)
    requires any >= 0
    ensures var a := Wrapped(Signed(neg, v)); var r := Step(base, d, neg, a, a, any);
      && (r.2 < 0 <==> Turns(v, d, base, neg))
      && (r.2 >= 0 ==> r.0 == r.1 == Wrapped(Signed(neg, v * base + d)))
  {
    hide Wrapped, Step;
    var x, y := Signed(neg, v), Signed(neg, v * base);
    WrappedProduct(x, base);
    SignedProduct(neg, v, base);
    var step := if neg then 0 - d as int else d as int;
    WrappedSum(y, step);
    StepOn(base, d, neg, Wrapped(x), Wrapped(y), Wrapped(Signed(neg, v * base + d)), any);
  }

  lemma StepOn(base: nat, d: nat, neg: bool, a: Int64, product: Int64, sum: Int64, any: int)
    requires any >= 0 && product == Wrapped(a * base) && sum == Wrapped(if neg then product - d else product + d)
    ensures var r := Step(base, d, neg, a, a, any);
      && (r.2 < 0 <==> if neg then product > a || sum > a else product < a || sum < a)
      && (r.2 >= 0 ==> r.0 == r.1 == sum)
  {
    hide Wrapped;
  }

  lemma SignedProduct(neg: bool, v: nat, base: nat)
    ensures v * base >= 0 && Signed(neg, v) * base == Signed(neg, v * base)
  {
  }

  lemma WrappedFits(x: int)
    requires Fits(x)
    ensures Wrapped(x) == x
  {
    if x >= 0 {
      assert x % TWO_64 == x;
    } else {
      assert x % TWO_64 == x + TWO_64;
    }
  }

  lemma {:induction false} PrefixFits(ds: seq<nat>, k: nat, base: nat)
    requires k <= |ds| && base >= 2
    ensures Value(ds[..k], base) <= Value(ds, base)
  {
    if k < |ds| {
      var shorter := ds[..|ds| - 1];
      PrefixFits(shorter, k, base);
      assert shorter[..k] == ds[..k];
      assert Value(shorter, base) * base >= Value(shorter, base);
    } else {
      assert ds[..k] == ds;
    }
  }

  /** `apr_strtoi64`, the portable branch. */
  method Strtoi64(s: CString, base0: int) returns (value: Int64, end: nat, errno: Errno)
    ensures var h := HeadOf(s, base0);
      if h.base < 2 || h.base > 36 then value == 0 && end == 0 && errno == Invalid
      else
        var ds := Run(s, h.at, h.base);
        if ds == [] then value == 0 && end == 0 && errno == Invalid
        else
          && end == h.at + |ds|
          && errno == (if Noticed(ds, h.base, h.neg) then OutOfRange else NoError)
          && value == if errno == NoError then Wrapped(Signed(h.neg, Value(ds, h.base)))
                      else if h.neg then -TWO_63 else TWO_63 - 1
  {
    hide Noticed, Wrapped, Value;
    var base := base0;
    var i := 0;
    while IsSpace(At(s, i))
      invariant i <= |s| && SkipSpace(s, i) == SkipSpace(s, 0)
      decreases |s| - i
    {
      i := i + 1;
    }
    var neg := false;
    if At(s, i) == MINUS {
      neg := true;
      i := i + 1;
    } else if At(s, i) == PLUS {
      i := i + 1;
    }
    if (base == 0 || base == 16) && At(s, i) == ZERO && (At(s, i + 1) == 120 || At(s, i + 1) == 88) {
      i := i + 2;
      base := 16;
    }
    if base == 0 {
      base := if At(s, i) == ZERO then 8 else 10;
    }
    if base < 2 || base > 36 {
      return 0, 0, Invalid;
    }
    ghost var h := HeadOf(s, base0);
    assert h == Head(neg, base, i);
    var acc, any;
    acc, end, any := Accumulate(s, i, base, neg);
    errno := NoError;
    value := acc;
    if any < 0 {
      value, errno := if neg then -TWO_63 else TWO_63 - 1, OutOfRange;
    } else if any == 0 {
      errno := Invalid;
    }
    end := if any != 0 then end else 0;
  }

  /** After `k` digits: an overflow has been noticed, or the number so far is there, wrapped. */
  ghost predicate Tracks(ds: seq<nat>, k: nat, base: nat, neg: bool, acc: Int64, val: Int64, any: int)
    requires k <= |ds|
  {
    && (any < 0 <==> TurnsBefore(ds, k, base, neg))
    && (any >= 0 ==> acc == val == Wrapped(Signed(neg, Value(ds[..k], base))))
  }

  lemma TracksStep(ds: seq<nat>, k: nat, base: nat, neg: bool, acc: Int64, val: Int64, any: int)
    requires k < |ds| && Tracks(ds, k, base, neg, acc, val, any)
    ensures var r := Step(base, ds[k], neg, acc, val, any); Tracks(ds, k + 1, base, neg, r.0, r.1, r.2)
  {
    hide Turns, Wrapped, Signed;
    assert ds[..k + 1][..k] == ds[..k];
    if any >= 0 {
      hide Step;
      StepIs(base, ds[k], neg, Value(ds[..k], base), any);
    }
  }

  lemma TracksEnds(ds: seq<nat>, base: nat, neg: bool, acc: Int64, val: Int64, any: int)
    ensures Tracks(ds, 0, base, neg, 0, 0, 0)
    ensures Tracks(ds, |ds|, base, neg, acc, val, any) ==>
      (any < 0 <==> Noticed(ds, base, neg)) && (any >= 0 ==> acc == Wrapped(Signed(neg, Value(ds, base))))
  {
    assert ds[..|ds|] == ds;
    WrappedFits(0);
  }

  /** The digit loop. */
  method Accumulate(s: CString, start: nat, base: nat, neg: bool) returns (acc: Int64, end: nat, any: int)
    requires start <= |s| && 2 <= base <= 36
    ensures var ds := Run(s, start, base);
      && end == start + |ds| && (any == 0 <==> ds == []) && (ds == [] ==> acc == 0)
      && (any < 0 <==> Noticed(ds, base, neg)) && (any >= 0 ==> acc == Wrapped(Signed(neg, Value(ds, base))))
  {
    hide Tracks, Value, Signed, Wrapped, Noticed;
    ghost var ds := Run(s, start, base);
    var val: Int64 := 0;
    acc, any, end := 0, 0, start;
    TracksEnds(ds, base, neg, 0, 0, 0);
    while DigitOf(At(s, end)) < base
      invariant start <= end <= |s| && end - start <= |ds| && ds[end - start..] == Run(s, end, base)
      invariant end == start ==> any == 0 && acc == val == 0
      invariant end > start ==> any != 0
      invariant Tracks(ds, end - start, base, neg, acc, val, any)
      decreases |s| - end
    {
      ghost var k := end - start;
      var d := DigitOf(At(s, end));
      assert ds[k] == ds[k..][0] == d && ds[k + 1..] == ds[k..][1..];
      TracksStep(ds, k, base, neg, acc, val, any);
      StepMarks(base, d, neg, acc, val, any);
      hide Step, DigitOf;
      var next := Step(base, d, neg, acc, val, any);
      acc, val, any := next.0, next.1, next.2;
      end := end + 1;
    }
    TracksEnds(ds, base, neg, acc, val, any);
  }

  lemma StepMarks(base: nat, d: nat, neg: bool, acc: Int64, val: Int64, any: int)
    ensures Step(base, d, neg, acc, val, any).2 != 0
  {
    hide Wrapped;
  }

  // ---------- which numbers are read rightly ----------

  lemma {:induction false} FitsUnnoticed(ds: seq<nat>, base: nat, neg: bool)
    requires base >= 2 && Fits(Signed(neg, Value(ds, base)))
    ensures !Noticed(ds, base, neg)
  {
    forall j | 0 <= j < |ds|
      ensures !Turns(Value(ds[..j], base), ds[j], base, neg)
    {
      PrefixFits(ds, j, base);
      PrefixFits(ds, j + 1, base);
      assert ds[..j + 1][..j] == ds[..j];
      StaysOnCourse(Value(ds[..j], base), ds[j], base, neg);
    }
  }

  lemma StaysOnCourse(v: nat, d: nat, base: nat, neg: bool)
    requires base >= 2 && Fits(Signed(neg, v * base + d))
    ensures !Turns(v, d, base, neg)
  {
    assert v <= v * base;
    WrappedFits(Signed(neg, v));
    WrappedFits(Signed(neg, v * base));
    WrappedFits(Signed(neg, v * base + d));
    hide Wrapped;
  }

  /** The smallest number that the next digit takes round a whole turn and past itself. */
  function Lapped(base: nat): (v: nat)
    requires base >= 2
  {
    (TWO_64 + base - 2) / (base - 1)
  }

  lemma LappedBounds(base: nat)
    requires base >= 2
    ensures TWO_64 <= Lapped(base) * (base - 1) <= TWO_64 + base - 2
    ensures Lapped(base) * base == Lapped(base) * (base - 1) + Lapped(base)
    ensures Lapped(base) * base > TWO_64
  {
    var k := base - 1;
    assert (TWO_64 + base - 2) / k * k + (TWO_64 + base - 2) % k == TWO_64 + base - 2;
  }

  lemma BelowLapped(v: nat, base: nat)
    requires base >= 2 && v < Lapped(base)
    ensures v * base < TWO_64 + v
  {
    LappedBounds(base);
    hide Lapped;
    Ordered(v + 1, Lapped(base), base - 1);
    assert (v + 1) * (base - 1) == v * base - v + base - 1;
  }

  lemma Ordered(a: nat, b: nat, k: nat)
    ensures a <= b ==> a * k <= b * k
  {
  }

  lemma WrapsTo(x: int, y: int, q: int)
    requires x == y + q * TWO_64 && Fits(y)
    ensures Wrapped(x) == y
  {
    SameBits(x, y, q);
    WrappedFits(y);
  }

  /** The digit that leaves the range turns the number around, unless the number laps itself. */
  lemma LeavingTurns(v: nat, d: nat, base: nat, neg: bool)
    requires 2 <= base <= 36 && d < base && v < Lapped(base)
    requires Fits(Signed(neg, v)) && !Fits(Signed(neg, v * base + d))
    ensures Turns(v, d, base, neg)
  {
    BelowLapped(v, base);
    WrappedFits(Signed(neg, v));
    var p := v * base;
    var turn := if neg then -1 else 1;
    if p + d < TWO_64 {
      WrapsTo(Signed(neg, p + d), Signed(neg, p + d) - turn * TWO_64, turn);
    } else {
      WrapsTo(Signed(neg, p), Signed(neg, p) - turn * TWO_64, turn);
    }
    hide Wrapped, Lapped;
  }

  /** Where the product of `Lapped` lands after a whole turn. */
  lemma LappedLands(base: nat, neg: bool)
    requires 2 <= base <= 36 && Fits(Signed(neg, Lapped(base)))
    ensures base >= 4 || (base == 3 && neg)
    ensures var v, p := Lapped(base), Lapped(base) * base; v <= p - TWO_64 && Fits(Signed(neg, p - TWO_64))
  {
    hide *;
    LappedBounds(base);
    Ordered(3, base - 1, Lapped(base));
    Lands(Lapped(base), Lapped(base) * (base - 1), base, neg);
  }

  lemma Lands(v: nat, m: nat, base: nat, neg: bool)
    requires 2 <= base <= 36 && TWO_64 <= m <= TWO_64 + base - 2 && Fits(Signed(neg, v))
    requires (base == 2 ==> m == v) && (base == 3 ==> m == 2 * v) && (base >= 4 ==> 3 * v <= m)
    ensures base >= 4 || (base == 3 && neg)
    ensures Fits(Signed(neg, m + v - TWO_64))
  {
  }

  /** A product that has gone round a whole turn and past the number is not noticed. */
  lemma RoundMissed(v: nat, base: nat, neg: bool)
    requires Fits(Signed(neg, v)) && v <= v * base - TWO_64 && Fits(Signed(neg, v * base - TWO_64))
    ensures !Turns(v, 0, base, neg) && !Fits(Signed(neg, v * base))
  {
    var p := v * base;
    WrappedFits(Signed(neg, v));
    WrapsTo(Signed(neg, p), Signed(neg, p - TWO_64), if neg then -1 else 1);
    hide Wrapped;
  }

  /** `Lapped` itself does so with a 0 behind it, if it is in the range. */
  lemma LappedMissed(base: nat, neg: bool)
    requires 2 <= base <= 36 && Fits(Signed(neg, Lapped(base)))
    ensures base >= 4 || (base == 3 && neg)
    ensures !Turns(Lapped(base), 0, base, neg) && !Fits(Signed(neg, Lapped(base) * base))
  {
    hide *;
    LappedLands(base, neg);
    RoundMissed(Lapped(base), base, neg);
  }

  /** While no prefix laps itself, leaving the range is noticed. */
  lemma {:induction false} LeavingNoticed(ds: seq<nat>, base: nat, neg: bool)
    requires 2 <= base <= 36 && (forall k :: 0 <= k < |ds| ==> ds[k] < base) && !Fits(Signed(neg, Value(ds, base)))
    requires forall k :: 0 <= k < |ds| && Fits(Signed(neg, Value(ds[..k], base))) ==> Value(ds[..k], base) < Lapped(base)
    ensures Noticed(ds, base, neg)
  {
    if ds != [] {
      var k := |ds| - 1;
      var shorter := ds[..k];
      if Fits(Signed(neg, Value(shorter, base))) {
        LeavingTurns(Value(shorter, base), ds[k], base, neg);
      } else {
        assert forall j :: 0 <= j < k ==> shorter[..j] == ds[..j];
        LeavingNoticed(shorter, base, neg);
        var j :| 0 <= j < k && Turns(Value(shorter[..j], base), shorter[j], base, neg);
        assert shorter[..j] == ds[..j];
      }
    }
  }

  /** The digits are read as their number, or reported as out of range because it does not fit. */
  ghost predicate Rightly(ds: seq<nat>, base: nat, neg: bool) {
    var v := Signed(neg, Value(ds, base));
    if Noticed(ds, base, neg) then !Fits(v) else Wrapped(v) == v
  }

  lemma RightlyIs(ds: seq<nat>, base: nat, neg: bool)
    requires base >= 2
    ensures Rightly(ds, base, neg) <==> (Noticed(ds, base, neg) <==> !Fits(Signed(neg, Value(ds, base))))
  {
    var v := Signed(neg, Value(ds, base));
    if Fits(v) {
      FitsUnnoticed(ds, base, neg);
      WrappedFits(v);
    }
    hide Noticed, Value;
  }

  predicate DigitsOfBase(ds: seq<nat>, base: nat) {
    forall k :: 0 <= k < |ds| ==> ds[k] < base
  }

  /** All numbers below the first one that laps itself are read rightly. */
  lemma ReadRightly(ds: seq<nat>, base: nat, neg: bool)
    requires 2 <= base <= 36 && DigitsOfBase(ds, base)
    requires Value(ds, base) < Lapped(base) * base
    ensures Rightly(ds, base, neg) && Lapped(base) * base > TWO_64
  {
    LappedBounds(base);
    hide Lapped, Noticed, Value, Rightly;
    RightlyIs(ds, base, neg);
    if Fits(Signed(neg, Value(ds, base))) {
      FitsUnnoticed(ds, base, neg);
    } else {
      forall k | 0 <= k < |ds|
        ensures Value(ds[..k], base) < Lapped(base)
      {
        ShorterIsSmaller(ds, k, base, Lapped(base));
      }
      LeavingNoticed(ds, base, neg);
    }
  }

  lemma ShorterIsSmaller(ds: seq<nat>, k: nat, base: nat, n: nat)
    requires k < |ds| && base >= 2 && Value(ds, base) < n * base
    ensures Value(ds[..k], base) < n
  {
    PrefixFits(ds, k + 1, base);
    assert ds[..k + 1][..k] == ds[..k];
    Ordered(n, Value(ds[..k], base), base);
  }

  /** The digits of a number, in any base. */
  function Spelled(n: nat, base: nat): (ds: seq<nat>)
    requires base >= 2
    ensures DigitsOfBase(ds, base) && Value(ds, base) == n
    decreases n
  {
    if n < base then [n]
    else
      assert n / base * base + n % base == n;
      var ds := Spelled(n / base, base);
      assert (ds + [n % base])[..|ds|] == ds;
      ds + [n % base]
  }

  /** That number itself is not, where it gets that far within the range. */
  lemma FirstMissed(base: nat, neg: bool)
    requires 2 <= base <= 36 && Fits(Signed(neg, Lapped(base)))
    ensures var ds := Spelled(Lapped(base), base) + [0];
      DigitsOfBase(ds, base) && Value(ds, base) == Lapped(base) * base && !Rightly(ds, base, neg)
  {
    var v := Lapped(base);
    var front := Spelled(v, base);
    var ds := front + [0];
    assert ds[..|front|] == front;
    LappedMissed(base, neg);
    FitsUnnoticed(front, base, neg);
    LastUnnoticed(ds, base, neg);
    RightlyIs(ds, base, neg);
  }

  /** Every numeral is read rightly in base 2, in base 3 without a sign, and in no other base. */
  lemma AlwaysRightly(base: nat, neg: bool)
    requires 2 <= base <= 36
    ensures (forall ds | DigitsOfBase(ds, base) :: Rightly(ds, base, neg)) <==> base == 2 || (base == 3 && !neg)
  {
    LappedFits(base, neg);
    hide *;
    if base == 2 || (base == 3 && !neg) {
      forall ds | DigitsOfBase(ds, base)
        ensures Rightly(ds, base, neg)
      {
        NoneLaps(ds, base, neg);
      }
    } else {
      FirstMissed(base, neg);
      var ds := Spelled(Lapped(base), base) + [0];
      assert DigitsOfBase(ds, base) && !Rightly(ds, base, neg);
    }
  }

  lemma LappedFits(base: nat, neg: bool)
    requires 2 <= base <= 36
    ensures Fits(Signed(neg, Lapped(base))) <==> !(base == 2 || (base == 3 && !neg))
  {
    LappedBounds(base);
    Ordered(3, base - 1, Lapped(base));
    hide Lapped;
  }

  /** Out of the range no number laps itself. */
  lemma NoneLaps(ds: seq<nat>, base: nat, neg: bool)
    requires 2 <= base <= 36 && DigitsOfBase(ds, base) && !Fits(Signed(neg, Lapped(base)))
    ensures Rightly(ds, base, neg)
  {
    hide Value, Noticed, Rightly, Lapped;
    RightlyIs(ds, base, neg);
    if Fits(Signed(neg, Value(ds, base))) {
      FitsUnnoticed(ds, base, neg);
    } else {
      LeavingNoticed(ds, base, neg);
    }
  }

  // ---------- there and back ----------

  /** The digits that characters stand for. */
  function DigitsOf(t: seq<Char>): (ds: seq<nat>)
    ensures |ds| == |t| && forall k :: 0 <= k < |t| ==> ds[k] == DigitOf(t[k])
  {
    if t == [] then [] else [DigitOf(t[0])] + DigitsOf(t[1..])
  }

  lemma {:induction false} NumeralValue(n: nat, base: Base, upper: bool)
    ensures var t := Numeral(n, base, upper);
      (forall k :: 0 <= k < |t| ==> DigitOf(t[k]) < base) && Value(DigitsOf(t), base) == n
  {
    var t := Numeral(n, base, upper);
    var ds, last := DigitsOf(t), |t| - 1;
    Shrinks(n, base);
    DigitBack(n % base, upper);
    if n >= base {
      NumeralValue(n / base, base, upper);
      hide Digit, DigitOf;
      assert t[..last] == Numeral(n / base, base, upper);
      assert ds[..last] == DigitsOf(t[..last]);
      assert forall k :: 0 <= k < last ==> t[k] == t[..last][k];
    } else {
      assert ds[..0] == [] && Value(ds[..0], base) == 0;
    }
  }

  lemma DigitBack(d: nat, upper: bool)
    requires d < 16
    ensures DigitOf(Digit(d, upper)) == d
  {
  }

  /** The run of digits is what stands there. */
  lemma {:induction false} RunOver(s: CString, i: nat, t: seq<Char>, base: nat)
    requires base <= 36 && i + |t| <= |s| && s[i..i + |t|] == t
    requires forall k :: 0 <= k < |t| ==> DigitOf(t[k]) < base
    requires DigitOf(At(s, i + |t|)) >= base
    ensures Run(s, i, base) == DigitsOf(t)
    decreases |t|
  {
    if t != [] {
      assert s[i] == s[i..i + |t|][0];
      assert s[i + 1..i + |t|] == t[1..];
      RunOver(s, i + 1, t[1..], base);
    }
  }

  /** What `conv_10_quad` and its sign print. */
  function Shown(n: Int64): (t: seq<Char>) {
    (if n < 0 then [MINUS] else []) + Decimal(Magnitude(n, false, TWO_64))
  }

  lemma HeadOfPlain(s: CString, base: int)
    requires 2 <= base <= 36
    requires base == 16 ==> !(At(s, 0) == ZERO && (At(s, 1) == 120 || At(s, 1) == 88))
    ensures DigitOf(At(s, 0)) < 36 ==> HeadOf(s, base) == Head(false, base, 0)
    ensures At(s, 0) == MINUS && base != 16 ==> HeadOf(s, base) == Head(true, base, 1)
  {
  }

  /** Reading back what was printed gives the same number, the smallest one included, and stops behind it. */
  lemma PrintedIsRead(n: Int64, s: CString)
    requires Shown(n) <= s && DigitOf(At(s, |Shown(n)|)) >= 10
    ensures var h := HeadOf(s, 10); var ds := Run(s, h.at, h.base);
      h.base == 10 && ds != [] && h.at + |ds| == |Shown(n)| && Signed(h.neg, Value(ds, 10)) == n
  {
    var m := Magnitude(n, false, TWO_64);
    var t, i := Numeral(m, 10, false), if n < 0 then 1 else 0;
    SignedMagnitude(n);
    hide *;
    ShownParts(n, s);
    NumeralValue(m, 10, false);
    HeadOfPlain(s, 10);
    RunOver(s, i, t, 10);
  }

  lemma SignedMagnitude(n: Int64)
    ensures Signed(n < 0, Magnitude(n, false, TWO_64)) == n
  {
  }

  /** Where the digits stand in a string that begins with a number. */
  lemma ShownParts(n: Int64, s: CString)
    requires Shown(n) <= s
    ensures
      var t, i := Numeral(Magnitude(n, false, TWO_64), 10, false), if n < 0 then 1 else 0;
      && |Shown(n)| == i + |t| <= |s| && s[i..i + |t|] == t && At(s, i) == t[0]
      && (n < 0 ==> At(s, 0) == MINUS)
  {
    hide Numeral, Magnitude;
    var t, i := Numeral(Magnitude(n, false, TWO_64), 10, false), if n < 0 then 1 else 0;
    assert Shown(n)[i..] == t;
    assert s[..|Shown(n)|] == Shown(n);
  }

  /** A numeral in base 8 or 16 is read back as well, a zero unless it looks like the prefix of a hexadecimal number. */
  lemma PrintedInBaseIsRead(n: nat, base: Base, upper: bool, s: CString)
    requires Numeral(n, base, upper) <= s && DigitOf(At(s, |Numeral(n, base, upper)|)) >= base
    requires base == 16 ==> !(At(s, 0) == ZERO && (At(s, 1) == 120 || At(s, 1) == 88))
    ensures var h := HeadOf(s, base); var ds := Run(s, h.at, h.base);
      h.base == base && ds != [] && !h.neg && Value(ds, base) == n
  {
    var t := Numeral(n, base, upper);
    NumeralValue(n, base, upper);
    HeadOfPlain(s, base);
    hide Numeral, HeadOf, Run, Value, DigitOf;
    assert s[0..|t|] == t && At(s, 0) == t[0];
    RunOver(s, 0, t, base);
  }

  /** 21000000000000000000 does not fit, and is read as 2553255926290448384 without an error. */
  lemma OverflowMissed(s: CString)
    requires s == Decimal(21_000_000_000_000_000_000)
    ensures var n, ds := 21_000_000_000_000_000_000, Run(s, 0, 10);
      && HeadOf(s, 10) == Head(false, 10, 0) && Value(ds, 10) == n && !Fits(n)
      && !Noticed(ds, 10, false) && Wrapped(n) == 2_553_255_926_290_448_384
  {
    var n: nat := 21_000_000_000_000_000_000;
    NumeralValue(n, 10, false);
    HeadOfPlain(s, 10);
    WholeRun(s);
    hide *;
    ButLast(n, 10, false);
    NumeralValue(n / 10, 10, false);
    var ds := DigitsOf(s);
    var k := |ds| - 1;
    SmallFits();
    FitsUnnoticed(ds[..k], 10, false);
    LastUnnoticed(ds, 10, false);
  }

  lemma SmallFits()
    ensures Fits(Signed(false, 2_100_000_000_000_000_000)) && !Fits(21_000_000_000_000_000_000)
    ensures Wrapped(21_000_000_000_000_000_000) == 2_553_255_926_290_448_384
    ensures !Turns(2_100_000_000_000_000_000, 0, 10, false)
  {
  }

  lemma ButLast(n: nat, base: Base, upper: bool)
    requires n >= base
    ensures var ds := DigitsOf(Numeral(n, base, upper));
      ds != [] && ds[..|ds| - 1] == DigitsOf(Numeral(n / base, base, upper)) && ds[|ds| - 1] == n % base
  {
    Shrinks(n, base);
    DigitBack(n % base, upper);
    hide Digit, DigitOf;
  }

  lemma LastUnnoticed(ds: seq<nat>, base: nat, neg: bool)
    requires ds != [] && !Noticed(ds[..|ds| - 1], base, neg)
    requires !Turns(Value(ds[..|ds| - 1], base), ds[|ds| - 1], base, neg)
    ensures !Noticed(ds, base, neg)
  {
    var shorter := ds[..|ds| - 1];
    hide Turns, Value;
    forall j | 0 <= j < |ds|
      ensures !Turns(Value(ds[..j], base), ds[j], base, neg)
    {
      if j < |shorter| {
        assert shorter[..j] == ds[..j];
      }
    }
  }

  lemma WholeRun(s: CString)
    requires forall k :: 0 <= k < |s| ==> DigitOf(s[k]) < 10
    ensures Run(s, 0, 10) == DigitsOf(s)
  {
    assert s[0..|s|] == s;
    RunOver(s, 0, s, 10);
  }
}
