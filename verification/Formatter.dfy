/**
 `apr_vformatter` and `apr_vsnprintf`: the format is read a directive at a time, and every
 character goes through `INS_CHAR`, which gives up when the buffer is full.
 */
module Formatter {
  import opened Basics
  import opened CStrings
  import opened Numbers
  import opened Formats

  // ---------- reading a directive ----------

  method ReadFlags(f: CString, from: nat) returns (fl: Flags, i: nat)
    requires from <= |f|
    ensures (fl, i) == FlagsAt(f, from, NO_FLAGS) && i <= |f|
  {
    fl, i := NO_FLAGS, from;
    while true
      invariant i <= |f| && FlagsAt(f, i, fl) == FlagsAt(f, from, NO_FLAGS)
      decreases |f| - i
    {
      if At(f, i) == MINUS {
        fl := fl.(left := true);
      } else if At(f, i) == PLUS {
        fl := fl.(sign := true);
      } else if At(f, i) == HASH {
        fl := fl.(alternate := true);
      } else if At(f, i) == SPACE {
        fl := fl.(blank := true);
      } else if At(f, i) == ZERO {
        fl := fl.(pad := ZERO);
      } else {
        break;
      }
      i := i + 1;
    }
  }

  method ReadNumber(f: CString, from: nat) returns (n: nat, i: nat)
    requires from < |f| && IsDigit(f[from])
    ensures (n, i) == NumberAt(f, from, 0) && i <= |f|
  {
    n, i := f[from] - 48, from + 1;
    while IsDigit(At(f, i))
      invariant i <= |f| && NumberAt(f, i, n) == NumberAt(f, from, 0)
      decreases |f| - i
    {
      n, i := n * 10 + (At(f, i) - 48), i + 1;
    }
  }

  method ReadWidth(f: CString, i: nat, args: seq<Arg>, k: nat, fl: Flags) returns (sp: Spec)
    requires i <= |f|
    ensures sp == WidthAt(f, i, args, k, fl)
  {
    if IsDigit(At(f, i)) {
      var n, j := ReadNumber(f, i);
      sp := Spec(fl, Some(n), None, Plain, j, k);
    } else if At(f, i) == ASTERISK {
      var v := IntOf(args, k);
      if v < 0 {
        sp := Spec(fl.(left := true), Some(-v), None, Plain, i + 1, k + 1);
      } else {
        sp := Spec(fl, Some(v), None, Plain, i + 1, k + 1);
      }
    } else {
      sp := Spec(fl, None, None, Plain, i, k);
    }
  }

  method ReadPrecision(f: CString, given: Spec, args: seq<Arg>) returns (sp: Spec)
    requires given.at <= |f|
    ensures sp == PrecisionAt(f, given, args)
  {
    sp := given;
    if At(f, sp.at) == POINT {
      if IsDigit(At(f, sp.at + 1)) {
        var n, j := ReadNumber(f, sp.at + 1);
        sp := sp.(precision := Some(n), at := j);
      } else if At(f, sp.at + 1) == ASTERISK {
        var v := IntOf(args, sp.k);
        sp := sp.(precision := Some(if v < 0 then 0 else v), at := sp.at + 2, k := sp.k + 1);
      } else {
        sp := sp.(precision := Some(0), at := sp.at + 1);
      }
    }
  }

  method ReadSpec(f: CString, i: nat, args: seq<Arg>, k: nat, quad: seq<Char>) returns (sp: Spec)
    requires i <= |f|
    ensures sp == SpecAt(f, i, args, k, quad)
  {
    if !IsLower(At(f, i)) {
      var fl, j := ReadFlags(f, i);
      sp := ReadWidth(f, j, args, k, fl);
      sp := ReadPrecision(f, sp, args);
    } else {
      sp := Spec(NO_FLAGS, None, None, Plain, i, k);
    }
    if QuadAt(f, sp.at, quad) {
      sp := sp.(size := Quad, at := sp.at + |quad|);
    } else if At(f, sp.at) == 113 {
      sp := sp.(size := Quad, at := sp.at + 1);
    } else if At(f, sp.at) == 108 {
      sp := sp.(size := Long, at := sp.at + 1);
    } else if At(f, sp.at) == 104 {
      sp := sp.(size := Short, at := sp.at + 1);
    } else {
      sp := sp.(size := Plain);
    }
  }

  // ---------- converting an argument ----------

  lemma SixtyFourBits()
    ensures Pow2(64) == TWO_64
  {
    assert Pow2(4) == 16;
    Pow2Sum(4, 4);
    Pow2Sum(8, 8);
    Pow2Sum(16, 16);
    Pow2Sum(32, 32);
  }

  lemma {:induction false} NumeralLength(n: nat, base: Base, upper: bool, k: nat)
    requires n < Pow2(k) && k > 0
    ensures |Numeral(n, base, upper)| <= k
  {
    Shrinks(n, base);
    if n >= base {
      assert k > 1;
      Halved(n, base);
      NumeralLength(n / base, base, upper, k - 1);
    }
  }

  lemma Halved(n: nat, base: Base)
    ensures 2 * (n / base) <= n
  {
    Shrinks(n, base);
    assert n / base * base >= n / base * 2;
  }

  /** The number buffer has room for any 64-bit number in any base. */
  lemma NumeralFits(n: nat, base: Base, upper: bool)
    requires n < TWO_64
    ensures |Numeral(n, base, upper)| <= 64
  {
    SixtyFourBits();
    NumeralLength(n, base, upper, 64);
  }

  /** The decimal digits of a number of the given size, by `conv_10_quad` or `conv_10`. */
  method DecimalDigits(v: int, size: Width, unsigned: bool) returns (negative: bool, t: seq<Char>)
    ensures unsigned ==> !negative && t == Decimal(v % Modulus(size))
    ensures !unsigned ==> var n := SignedOf(v, Modulus(size)); (negative <==> n < 0) && t == Decimal(Magnitude(n, false, Modulus(size)))
  {
    var numBuf := new Char[NUM_BUF_SIZE];
    var p;
    if size == Quad {
      var n: Int64 := SignedOf(v, TWO_64);
      SameBits(v, TWO_64);
      NumeralFits(Magnitude(n, unsigned, TWO_64), 10, false);
      negative, p := Conv10Quad(n, unsigned, numBuf, NUM_BUF_SIZE);
    } else if size == Short && unsigned {
      var n: Int32 := v % TWO_16;
      SameBits(n, TWO_32);
      NumeralFits(Magnitude(n, unsigned, TWO_32), 10, false);
      negative, p := Conv10(n, unsigned, numBuf, NUM_BUF_SIZE);
    } else {
      var n: Int32 := SignedOf(v, Modulus(size));
      SameBits(v, TWO_32);
      NumeralFits(Magnitude(n, unsigned, TWO_32), 10, false);
      negative, p := Conv10(n, unsigned, numBuf, NUM_BUF_SIZE);
    }
    t := numBuf[p..NUM_BUF_SIZE];
  }

  /** A number keeps its remainder when it is read as signed. */
  lemma SameBits(v: int, modulus: nat)
    requires modulus > 0
    ensures SignedOf(v, modulus) % modulus == v % modulus
    ensures 0 <= v < modulus ==> v % modulus == v
  {
    var low := v % modulus;
    Remainder(low, modulus, 0, low);
    Remainder(low - modulus, modulus, -1, low);
    if 0 <= v < modulus {
      Remainder(v, modulus, 0, v);
    }
  }

  lemma Multiple(m: int, d: int)
    requires m > 0
    ensures d > 0 ==> m * d >= m
    ensures d < 0 ==> m * d <= -m
  {
  }

  lemma Remainder(x: int, m: nat, q: int, r: nat)
    requires m > 0 && x == m * q + r && r < m
    ensures x % m == r
  {
    var d := x / m - q;
    assert m * d == m * (x / m) - m * q == r - x % m;
    Multiple(m, d);
  }

  /** Digits in base 8 or 16, by `conv_p2_quad` or `conv_p2`. */
  method PowerDigits(n: nat, nbits: nat, upper: bool) returns (t: seq<Char>)
    requires n < TWO_64 && (nbits == 3 || nbits == 4)
    ensures t == Numeral(n, Radix(nbits), upper)
  {
    var numBuf := new Char[NUM_BUF_SIZE];
    NumeralFits(n, Radix(nbits), upper);
    var p := ConvP2(n, nbits, upper, numBuf, NUM_BUF_SIZE);
    t := numBuf[p..NUM_BUF_SIZE];
  }

  method FixPrecision(t: seq<Char>, precision: Option<nat>) returns (z: seq<Char>)
    ensures z == Fixed(t, precision)
  {
    z := t;
    if precision.Some? {
      var p := if precision.value + 1 < NUM_BUF_SIZE then precision.value else NUM_BUF_SIZE - 1;
      while |z| < p
        invariant Zeros(z, p) == Zeros(t, p)
      {
        z := [ZERO] + z;
      }
    }
  }

  method Clip(s: CString, precision: Option<nat>) returns (t: seq<Char>)
    ensures t == Clipped(s, precision)
  {
    if precision.None? {
      return s;
    }
    var walk := 0;
    while walk < precision.value && At(s, walk) != NUL
      invariant walk <= |s| && walk <= precision.value
    {
      walk := walk + 1;
    }
    t := s[..walk];
  }

  /** The switch over the conversion character. */
  method ConvertArg(c: Char, sp: Spec, args: seq<Arg>, last: nat) returns (r: Converted)
    requires !Unmodelled(c)
    ensures r == Convert(c, sp, args, last)
  {
    hide Numeral, Zeros, SignedOf, Clipped;
    var v, m := IntAt(args, sp.k), Modulus(sp.size);
    if c == 117 {
      var negative, t := DecimalDigits(v, sp.size, true);
      t := FixPrecision(t, sp.precision);
      r := Converted(Body(None, t, sp.fl.pad), sp.k + 1, last);
    } else if c == 100 || c == 105 {
      var negative, t := DecimalDigits(v, sp.size, false);
      t := FixPrecision(t, sp.precision);
      var sign := if negative then Some(MINUS)
                  else if sp.fl.sign then Some(PLUS)
                  else if sp.fl.blank then Some(SPACE)
                  else None;
      r := Converted(Body(sign, t, sp.fl.pad), sp.k + 1, last);
    } else if c == 111 {
      var t := PowerDigits(v % m, 3, false);
      t := FixPrecision(t, sp.precision);
      if sp.fl.alternate && t[0] != ZERO {
        t := [ZERO] + t;
      }
      r := Converted(Body(None, t, sp.fl.pad), sp.k + 1, if sp.size == Quad then last else v % m);
    } else if c == 120 || c == 88 {
      var t := PowerDigits(v % m, 4, c == 88);
      t := FixPrecision(t, sp.precision);
      var uiNum := if sp.size == Quad then last else v % m;
      if sp.fl.alternate && uiNum != 0 {
        t := [ZERO, c] + t;
      }
      r := Converted(Body(None, t, sp.fl.pad), sp.k + 1, uiNum);
    } else if c == 115 {
      var s := StrAt(args, sp.k);
      var t := NULL_TEXT;
      if s.Some? {
        t := Clip(s.value, sp.precision);
      }
      r := Converted(Body(None, t, SPACE), sp.k + 1, last);
    } else if c == 99 {
      r := Converted(Body(None, [SignedOf(v, 256)], SPACE), sp.k + 1, last);
    } else if c == PERCENT {
      r := Converted(Body(None, [PERCENT], SPACE), sp.k, last);
    } else {
      r := Converted(Body(None, [PERCENT, c], SPACE), sp.k, last);
    }
  }

  // ---------- the output ----------

  /** The first `cc` characters of `whole` have been sent: into the buffer, unless they are only counted. */
  ghost predicate Sent(buf: array<Char>, counting: bool, bep: nat, cc: nat, whole: seq<Char>)
    reads buf
  {
    cc <= |whole| && bep <= buf.Length && (counting || (cc <= bep && buf[..cc] == whole[..cc]))
  }

  /** `INS_CHAR`. When the buffer is full the flush function gives up. */
  method InsChar(buf: array<Char>, counting: bool, bep: nat, at: nat, c: Char, ghost whole: seq<Char>)
    returns (cc: nat, full: bool)
    requires Sent(buf, counting, bep, at, whole) && at < |whole| && whole[at] == c
    modifies buf
    ensures Sent(buf, counting, bep, cc, whole)
    ensures if full then !counting && cc == bep < |whole| else cc == at + 1
    ensures counting ==> buf[..] == old(buf[..])
  {
    cc, full := at, false;
    if !counting {
      if cc >= bep {
        full := true;
        return;
      }
      buf[cc] := c;
      assert buf[..cc + 1] == buf[..cc] + [c];
    }
    cc := cc + 1;
  }

  /** The next text to send. */
  ghost predicate Next(whole: seq<Char>, at: nat, t: seq<Char>) {
    at + |t| <= |whole| && whole[at..at + |t|] == t
  }

  /** All that is still to be sent. */
  ghost predicate Left(whole: seq<Char>, at: nat, u: seq<Char>) {
    at <= |whole| && whole[at..] == u
  }

  lemma NextOf(whole: seq<Char>, at: nat, t: seq<Char>, u: seq<Char>)
    requires Left(whole, at, t + u)
    ensures Next(whole, at, t) && Left(whole, at + |t|, u)
  {
    var rest := whole[at..];
    assert whole[at..at + |t|] == rest[..|t|];
    assert whole[at + |t|..] == rest[|t|..];
  }

  lemma NextParts(whole: seq<Char>, at: nat, t: seq<Char>, u: seq<Char>)
    requires Next(whole, at, t + u)
    ensures Next(whole, at, t) && Next(whole, at + |t|, u)
  {
    var n := |t| + |u|;
    assert whole[at..at + |t|] == whole[at..at + n][..|t|] == t;
    assert whole[at + |t|..at + n] == whole[at..at + n][|t|..] == u;
  }

  lemma NextAt(whole: seq<Char>, at: nat, t: seq<Char>, i: nat)
    requires Next(whole, at, t) && i < |t|
    ensures at + i < |whole| && whole[at + i] == t[i]
  {
    assert whole[at + i] == whole[at..at + |t|][i];
  }

  /** The text of a directive, character by character. */
  method InsAll(buf: array<Char>, counting: bool, bep: nat, at: nat, t: seq<Char>, ghost whole: seq<Char>)
    returns (cc: nat, full: bool)
    requires Sent(buf, counting, bep, at, whole) && Next(whole, at, t)
    modifies buf
    ensures Sent(buf, counting, bep, cc, whole)
    ensures if full then !counting && cc == bep < |whole| else cc == at + |t|
    ensures counting ==> buf[..] == old(buf[..])
  {
    hide Sent, Next;
    cc, full := at, false;
    var i := 0;
    while i < |t|
      invariant i <= |t| && cc == at + i && Sent(buf, counting, bep, cc, whole)
      invariant counting ==> buf[..] == old(buf[..])
    {
      NextAt(whole, at, t, i);
      cc, full := InsChar(buf, counting, bep, cc, t[i], whole);
      if full {
        return;
      }
      i := i + 1;
    }
  }

  /** `PAD`, which prints at least one character. */
  method Pad(buf: array<Char>, counting: bool, bep: nat, at: nat, width0: nat, len: nat, ch: Char, ghost whole: seq<Char>)
    returns (cc: nat, full: bool)
    requires width0 > len && Sent(buf, counting, bep, at, whole) && Next(whole, at, Repeat(ch, width0 - len))
    modifies buf
    ensures Sent(buf, counting, bep, cc, whole)
    ensures if full then !counting && cc == bep < |whole| else cc == at + (width0 - len)
    ensures counting ==> buf[..] == old(buf[..])
  {
    hide Sent, Repeat, Next;
    ghost var fill := Repeat(ch, width0 - len);
    NextAt(whole, at, fill, 0);
    var width := width0;
    cc, full := InsChar(buf, counting, bep, at, ch, whole);
    if full {
      return;
    }
    width := width - 1;
    while width > len
      invariant len <= width < width0 && cc == at + (width0 - width) && Sent(buf, counting, bep, cc, whole)
      invariant counting ==> buf[..] == old(buf[..])
    {
      NextAt(whole, at, fill, width0 - width);
      cc, full := InsChar(buf, counting, bep, cc, ch, whole);
      if full {
        return;
      }
      width := width - 1;
    }
  }

  /** Padding on the left, zeros behind the sign; what remains to be sent is `t`. */
  method PadBefore(buf: array<Char>, counting: bool, bep: nat, at: nat, b: Body, sp: Spec, ghost whole: seq<Char>)
    returns (cc: nat, full: bool, t: seq<Char>)
    requires sp.width.Some? && !sp.fl.left && sp.width.value > |b.All()|
    requires Sent(buf, counting, bep, at, whole) && Next(whole, at, Padded(b, sp))
    modifies buf
    ensures Sent(buf, counting, bep, cc, whole)
    ensures if full then !counting && cc == bep < |whole| else cc + |t| == at + |Padded(b, sp)| && Next(whole, cc, t)
    ensures counting ==> buf[..] == old(buf[..])
  {
    PaddedCases(b, sp);
    hide Sent, Repeat, Padded, Next;
    cc, full, t := at, false, b.All();
    var width := sp.width.value;
    ghost var fill := Repeat(b.pad, width - |t|);
    if b.pad == ZERO && b.sign.Some? {
      NextParts(whole, at, t[..1], fill + t[1..]);
      NextParts(whole, at + 1, fill, t[1..]);
      NextAt(whole, at, t[..1], 0);
      cc, full := InsChar(buf, counting, bep, cc, t[0], whole);
      if full {
        return;
      }
      t, width := t[1..], width - 1;
    } else {
      NextParts(whole, at, fill, t);
    }
    cc, full := Pad(buf, counting, bep, cc, width, |t|, b.pad, whole);
  }

  /** What follows the switch: sign, padding on the left, the text, padding on the right. */
  method SendPadded(buf: array<Char>, counting: bool, bep: nat, at: nat, b: Body, sp: Spec, ghost whole: seq<Char>)
    returns (cc: nat, full: bool)
    requires Sent(buf, counting, bep, at, whole) && Next(whole, at, Padded(b, sp))
    modifies buf
    ensures Sent(buf, counting, bep, cc, whole)
    ensures if full then !counting && cc == bep < |whole| else cc == at + |Padded(b, sp)|
    ensures counting ==> buf[..] == old(buf[..])
  {
    PaddedCases(b, sp);
    PaddedWidth(b, sp);
    hide Sent, Repeat, Padded, Next;
    var t := b.All();
    var len := |t|;
    cc, full := at, false;
    if sp.width.Some? && !sp.fl.left && sp.width.value > len {
      cc, full, t := PadBefore(buf, counting, bep, cc, b, sp, whole);
      if full {
        return;
      }
    } else if sp.width.Some? && sp.width.value > len {
      NextParts(whole, at, t, Repeat(b.pad, sp.width.value - len));
    }
    cc, full := InsAll(buf, counting, bep, cc, t, whole);
    if full {
      return;
    }
    if sp.width.Some? && sp.fl.left && sp.width.value > len {
      cc, full := Pad(buf, counting, bep, cc, sp.width.value, len, b.pad, whole);
    }
  }

  /** One directive; `i` is behind its percent sign. Where the format ends inside it, nothing is printed. */
  method PutDirective(buf: array<Char>, counting: bool, bep: nat, at: nat, f: CString, i: nat, args: seq<Arg>, k: nat,
                      last: nat, quad: seq<Char>, ghost whole: seq<Char>)
    returns (cc: nat, full: bool, i': nat, k': nat, last': nat)
    requires 0 < i <= |f| && f[i - 1] == PERCENT && Sent(buf, counting, bep, at, whole)
    requires Left(whole, at, Rendered(f, i - 1, args, k, last, quad)) && Modelled(f, i - 1, args, k, last, quad)
    modifies buf
    ensures Sent(buf, counting, bep, cc, whole)
    ensures if full then !counting && cc == bep < |whole|
            else
              && i <= i' <= |f|
              && Left(whole, cc, Rendered(f, i', args, k', last', quad)) && Modelled(f, i', args, k', last', quad)
    ensures counting ==> buf[..] == old(buf[..])
  {
    hide SpecAt, Convert, Padded, Sent, Rendered, Modelled, Unmodelled, Next, Left;
    cc, full, i', k', last' := at, false, i, k, last;
    var sp := ReadSpec(f, i, args, k, quad);
    ConversionModelled(f, i - 1, args, k, last, quad);
    if sp.at == |f| {
      RenderedCut(f, i - 1, args, k, last, quad);
      RenderedEnd(f, args, k, last, quad);
      i' := sp.at;
      return;
    }
    var c := ConvertArg(f[sp.at], sp, args, last);
    RenderedDirective(f, i - 1, args, k, last, quad, sp, c);
    ghost var t := Padded(c.body, sp);
    NextOf(whole, at, t, Rendered(f, sp.at + 1, args, c.k, c.last, quad));
    cc, full := SendPadded(buf, counting, bep, cc, c.body, sp, whole);
    i', k', last' := sp.at + 1, c.k, c.last;
  }

  /** `apr_vformatter` over a buffer that ends at `bep`, or over none at all; `full` stands for the result -1. */
  method VFormatter(buf: array<Char>, counting: bool, bep: nat, f: CString, args: seq<Arg>, quad: seq<Char>)
    returns (cc: nat, full: bool)
    requires bep <= buf.Length && Modelled(f, 0, args, 0, 0, quad)
    modifies buf
    ensures Sent(buf, counting, bep, cc, Output(f, args, quad))
    ensures if full then !counting && cc == bep < |Output(f, args, quad)| else cc == |Output(f, args, quad)|
    ensures counting ==> buf[..] == old(buf[..])
  {
    ghost var whole := Output(f, args, quad);
    hide Rendered, Modelled;
    var i, k, last := 0, 0, 0;
    cc, full := 0, false;
    while i < |f|
      invariant i <= |f| && Sent(buf, counting, bep, cc, whole)
      invariant Left(whole, cc, Rendered(f, i, args, k, last, quad)) && Modelled(f, i, args, k, last, quad)
      invariant counting ==> buf[..] == old(buf[..])
      decreases |f| - i
    {
      hide Sent;
      if f[i] != PERCENT {
        RenderedPlain(f, i, args, k, last, quad);
        NextOf(whole, cc, [f[i]], Rendered(f, i + 1, args, k, last, quad));
        NextAt(whole, cc, [f[i]], 0);
        cc, full := InsChar(buf, counting, bep, cc, f[i], whole);
        i := i + 1;
      } else {
        cc, full, i, k, last := PutDirective(buf, counting, bep, cc, f, i + 1, args, k, last, quad, whole);
      }
      if full {
        return;
      }
    }
    RenderedEnd(f, args, k, last, quad);
  }

  /**
   `apr_vsnprintf`. With a buffer, what is written is the beginning of the unlimited text and a
   NUL, and the number of characters before it is returned; without one, the length of the text.
   */
  method VSnprintf(buf: array<Char>, len: nat, f: CString, args: seq<Arg>, quad: seq<Char>) returns (r: nat)
    requires len <= buf.Length && Modelled(f, 0, args, 0, 0, quad)
    modifies buf
    ensures len == 0 ==> r == |Output(f, args, quad)| && buf[..] == old(buf[..])
    ensures len > 0 ==> r == if |Output(f, args, quad)| < len then |Output(f, args, quad)| else len - 1
    ensures len > 0 ==> buf[..r] == Output(f, args, quad)[..r] && buf[r] == NUL
  {
    hide Output, Modelled;
    var cc, full;
    if len == 0 {
      cc, full := VFormatter(buf, true, 0, f, args, quad);
      return cc;
    }
    cc, full := VFormatter(buf, false, len - 1, f, args, quad);
    buf[cc] := NUL;
    r := if full then len - 1 else cc;
  }
}
