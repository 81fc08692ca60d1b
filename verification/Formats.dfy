/**
 What `apr_vformatter` prints: its directives, and the unlimited text for a format and
 its arguments. Integer, character and string conversions only.
 */
module Formats {
  import opened Basics
  import opened CStrings
  import opened Numbers

  const PERCENT: Char := 37
  const ASTERISK: Char := 42
  const HASH: Char := 35
  const POINT: Char := 46

  /** The text for a null string. */
  const NULL_TEXT: seq<Char> := [40, 110, 117, 108, 108, 41]

  /** An argument; one of the wrong kind, undefined in C, reads as 0 or a null string. */
  datatype Arg = Num(v: int) | Str(s: Option<CString>)

  function IntAt(args: seq<Arg>, k: nat): int {
    if k < |args| && args[k].Num? then args[k].v else 0
  }

  function StrAt(args: seq<Arg>, k: nat): Option<CString> {
    if k < |args| && args[k].Str? then args[k].s else None
  }

  // ---------- directives ----------

  /** LEFT or RIGHT, and the flags. */
  datatype Flags = Flags(left: bool, sign: bool, alternate: bool, blank: bool, pad: Char)

  const NO_FLAGS := Flags(false, false, false, false, SPACE)

  function FlagsAt(f: CString, i: nat, fl: Flags): (r: (Flags, nat))
    requires i <= |f|
    ensures i <= r.1 <= |f|
    decreases |f| - i
  {
    if At(f, i) == MINUS then FlagsAt(f, i + 1, fl.(left := true))
    else if At(f, i) == PLUS then FlagsAt(f, i + 1, fl.(sign := true))
    else if At(f, i) == HASH then FlagsAt(f, i + 1, fl.(alternate := true))
    else if At(f, i) == SPACE then FlagsAt(f, i + 1, fl.(blank := true))
    else if At(f, i) == ZERO then FlagsAt(f, i + 1, fl.(pad := ZERO))
    else (fl, i)
  }

  /** `STR_TO_DEC` */
  function NumberAt(f: CString, i: nat, acc: nat): (r: (nat, nat))
    requires i <= |f|
    ensures i <= r.1 <= |f|
    decreases |f| - i
  {
    if IsDigit(At(f, i)) then NumberAt(f, i + 1, acc * 10 + (At(f, i) - 48)) else (acc, i)
  }

  /** `var_type` */
  datatype Width = Quad | Long | Short | Plain

  /** Flags, width, precision and size of a directive, where its conversion stands, and the next argument. */
  datatype Spec = Spec(fl: Flags, width: Option<nat>, precision: Option<nat>, size: Width, at: nat, k: nat)

  /** An `int` argument. */
  function IntOf(args: seq<Arg>, k: nat): int {
    SignedOf(IntAt(args, k), TWO_32)
  }

  function WidthAt(f: CString, i: nat, args: seq<Arg>, k: nat, fl: Flags): (r: Spec)
    requires i <= |f|
    ensures i <= r.at <= |f|
  {
    if IsDigit(At(f, i)) then
      var n := NumberAt(f, i, 0);
      Spec(fl, Some(n.0), None, Plain, n.1, k)
    else if At(f, i) == ASTERISK then
      var v := IntOf(args, k);
      if v < 0 then Spec(fl.(left := true), Some(-v), None, Plain, i + 1, k + 1)
      else Spec(fl, Some(v), None, Plain, i + 1, k + 1)
    else Spec(fl, None, None, Plain, i, k)
  }

  function PrecisionAt(f: CString, sp: Spec, args: seq<Arg>): (r: Spec)
    requires sp.at <= |f|
    ensures sp.at <= r.at <= |f|
  {
    if At(f, sp.at) != POINT then sp
    else if IsDigit(At(f, sp.at + 1)) then
      var n := NumberAt(f, sp.at + 1, 0);
      sp.(precision := Some(n.0), at := n.1)
    else if At(f, sp.at + 1) == ASTERISK then
      var v := IntOf(args, sp.k);
      sp.(precision := Some(if v < 0 then 0 else v), at := sp.at + 2, k := sp.k + 1)
    else sp.(precision := Some(0), at := sp.at + 1)
  }

  /** `quad` is what stands before the `d` in APR_INT64_T_FMT. */
  predicate QuadAt(f: CString, i: nat, quad: seq<Char>) {
    quad != [] && i <= |f| && quad <= f[i..]
  }

  function SizeAt(f: CString, sp: Spec, quad: seq<Char>): (r: Spec)
    requires sp.at <= |f|
    ensures sp.at <= r.at <= |f|
  {
    var i := sp.at;
    if QuadAt(f, i, quad) then sp.(size := Quad, at := i + |quad|)
    else if At(f, i) == 113 then sp.(size := Quad, at := i + 1)    // 'q'
    else if At(f, i) == 108 then sp.(size := Long, at := i + 1)    // 'l'
    else if At(f, i) == 104 then sp.(size := Short, at := i + 1)   // 'h'
    else sp.(size := Plain)
  }

  /** The directive behind a percent sign at `i - 1`. A lower-case letter leaves no room for flags. */
  function SpecAt(f: CString, i: nat, args: seq<Arg>, k: nat, quad: seq<Char>): (r: Spec)
    requires i <= |f|
    ensures i <= r.at <= |f|
  {
    var start :=
      if IsLower(At(f, i)) then Spec(NO_FLAGS, None, None, Plain, i, k)
      else
        var fl := FlagsAt(f, i, NO_FLAGS);
        PrecisionAt(f, WidthAt(f, fl.1, args, k, fl.0), args);
    SizeAt(f, start, quad)
  }

  // ---------- conversions ----------

  const TWO_16 := 0x1_0000

  function SignedOf(v: int, modulus: nat): (n: int)
    requires modulus > 0
    ensures modulus % 2 == 0 ==> 0 <= 2 * n + modulus < 2 * modulus
  {
    var low := v % modulus;
    if 2 * low < modulus then low else low - modulus
  }

  function Modulus(size: Width): nat {
    match size
    case Quad => TWO_64
    case Short => TWO_16
    case _ => TWO_32
  }

  const NUM_BUF_SIZE: nat := 512

  /** `FIX_PRECISION`: zeros in front, as many as the buffer has room for. */
  function Zeros(t: seq<Char>, n: nat): (z: seq<Char>)
    ensures |z| == if |t| < n then n else |t|
    decreases n - |t|
  {
    if |t| < n then Zeros([ZERO] + t, n) else t
  }

  function Fixed(t: seq<Char>, precision: Option<nat>): (z: seq<Char>)
    ensures |z| >= |t|
  {
    match precision
    case None => t
    case Some(n) => Zeros(t, if n + 1 < NUM_BUF_SIZE then n else NUM_BUF_SIZE - 1)
  }

  /** The text of a conversion before it is padded, a sign kept apart. */
  datatype Body = Body(sign: Option<Char>, text: seq<Char>, pad: Char)
  {
    function All(): seq<Char> {
      (if sign.Some? then [sign.value] else []) + text
    }
  }

  function SignFor(v: int, fl: Flags): Option<Char> {
    if v < 0 then Some(MINUS) else if fl.sign then Some(PLUS) else if fl.blank then Some(SPACE) else None
  }

  /** What a conversion makes of its argument, the argument after it, and the last short number in base 16. */
  datatype Converted = Converted(body: Body, k: nat, last: nat)

  function Clipped(s: seq<Char>, precision: Option<nat>): seq<Char> {
    match precision
    case None => s
    case Some(n) => if n < |s| then s[..n] else s
  }

  /**
   The conversions. For a quad-sized `x` with `#` the code looks at the last number of
   smaller size that was converted to base 8 or 16.
   */
  function Convert(c: Char, sp: Spec, args: seq<Arg>, last: nat): Converted {
    var v, m := IntAt(args, sp.k), Modulus(sp.size);
    if c == 117 then       // 'u'
      Converted(Body(None, Fixed(Decimal(v % m), sp.precision), sp.fl.pad), sp.k + 1, last)
    else if c == 100 || c == 105 then   // 'd', 'i'
      var n := SignedOf(v, m);
      Converted(Body(SignFor(n, sp.fl), Fixed(Decimal(Magnitude(n, false, m)), sp.precision), sp.fl.pad), sp.k + 1, last)
    else if c == 111 then  // 'o'
      var t := Fixed(Numeral(v % m, 8, false), sp.precision);
      Converted(Body(None, if sp.fl.alternate && t[0] != ZERO then [ZERO] + t else t, sp.fl.pad), sp.k + 1,
                if sp.size == Quad then last else v % m)
    else if c == 120 || c == 88 then    // 'x', 'X'
      var t := Fixed(Numeral(v % m, 16, c == 88), sp.precision);
      var last' := if sp.size == Quad then last else v % m;
      Converted(Body(None, if sp.fl.alternate && last' != 0 then [ZERO, c] + t else t, sp.fl.pad), sp.k + 1, last')
    else if c == 115 then  // 's'
      var t := match StrAt(args, sp.k) case None => NULL_TEXT case Some(s) => Clipped(s, sp.precision);
      Converted(Body(None, t, SPACE), sp.k + 1, last)
    else if c == 99 then   // 'c'
      Converted(Body(None, [SignedOf(v, 256)], SPACE), sp.k + 1, last)
    else if c == PERCENT then
      Converted(Body(None, [PERCENT], SPACE), sp.k, last)
    else
      Converted(Body(None, [PERCENT, c], SPACE), sp.k, last)
  }

  /** The conversions that are not modelled: floating point, `%n` and the extensions of `%p`. */
  predicate Unmodelled(c: Char) {
    c == 101 || c == 69 || c == 102 || c == 103 || c == 71 || c == 110 || c == 112
  }

  // ---------- the whole text ----------

  /** The text padded to its width. Zeros go behind a sign, and on the right where the text is left-adjusted. */
  function Padded(b: Body, sp: Spec): seq<Char> {
    var t := b.All();
    if sp.width.None? || sp.width.value <= |t| then t
    else
      var fill := Repeat(b.pad, sp.width.value - |t|);
      if sp.fl.left then t + fill
      else if b.pad == ZERO && b.sign.Some? then [b.sign.value] + fill + b.text
      else fill + t
  }

  /** The unlimited output from position `i` of the format on. */
  function Rendered(f: CString, i: nat, args: seq<Arg>, k: nat, last: nat, quad: seq<Char>): seq<Char>
    requires i <= |f|
    decreases |f| - i
  {
    if i == |f| then []
    else if f[i] != PERCENT then [f[i]] + Rendered(f, i + 1, args, k, last, quad)
    else
      var sp := SpecAt(f, i + 1, args, k, quad);
      if sp.at == |f| then []
      else
        var c := Convert(f[sp.at], sp, args, last);
        Padded(c.body, sp) + Rendered(f, sp.at + 1, args, c.k, c.last, quad)
  }

  /** No directive from position `i` on is outside the model. */
  predicate Modelled(f: CString, i: nat, args: seq<Arg>, k: nat, last: nat, quad: seq<Char>)
    requires i <= |f|
    decreases |f| - i
  {
    if i == |f| then true
    else if f[i] != PERCENT then Modelled(f, i + 1, args, k, last, quad)
    else
      var sp := SpecAt(f, i + 1, args, k, quad);
      sp.at == |f| ||
      (var c := Convert(f[sp.at], sp, args, last);
       !Unmodelled(f[sp.at]) && Modelled(f, sp.at + 1, args, c.k, c.last, quad))
  }

  function Output(f: CString, args: seq<Arg>, quad: seq<Char>): seq<Char> {
    Rendered(f, 0, args, 0, 0, quad)
  }

  // ---------- laws ----------

  /** A directive is exactly as wide as asked for, or as its text if that is wider. */
  lemma PaddedWidth(b: Body, sp: Spec)
    ensures |Padded(b, sp)|
      == if sp.width.Some? && sp.width.value > |b.All()| then sp.width.value else |b.All()|
  {
  }

  /** The same case by case. */
  lemma PaddedCases(b: Body, sp: Spec)
    ensures var t := b.All();
      if sp.width.None? || sp.width.value <= |t| then Padded(b, sp) == t
      else
        var fill := Repeat(b.pad, sp.width.value - |t|);
        if sp.fl.left then Padded(b, sp) == t + fill
        else if b.pad == ZERO && b.sign.Some? then t != [] && Padded(b, sp) == t[..1] + (fill + t[1..])
        else Padded(b, sp) == fill + t
  {
    hide Repeat;
    var t := b.All();
    if b.sign.Some? {
      assert t[..1] == [b.sign.value] && t[1..] == b.text;
    }
  }

  lemma RenderedPlain(f: CString, i: nat, args: seq<Arg>, k: nat, last: nat, quad: seq<Char>)
    requires i < |f| && f[i] != PERCENT
    ensures Rendered(f, i, args, k, last, quad) == [f[i]] + Rendered(f, i + 1, args, k, last, quad)
    ensures Modelled(f, i, args, k, last, quad) == Modelled(f, i + 1, args, k, last, quad)
  {
  }

  lemma RenderedEnd(f: CString, args: seq<Arg>, k: nat, last: nat, quad: seq<Char>)
    ensures Rendered(f, |f|, args, k, last, quad) == [] && Modelled(f, |f|, args, k, last, quad)
  {
  }

  lemma RenderedCut(f: CString, i: nat, args: seq<Arg>, k: nat, last: nat, quad: seq<Char>)
    requires i < |f| && f[i] == PERCENT && SpecAt(f, i + 1, args, k, quad).at == |f|
    ensures Rendered(f, i, args, k, last, quad) == []
  {
    hide SpecAt;
  }

  lemma RenderedDirective(f: CString, i: nat, args: seq<Arg>, k: nat, last: nat, quad: seq<Char>, sp: Spec, c: Converted)
    requires i < |f| && f[i] == PERCENT && sp == SpecAt(f, i + 1, args, k, quad) && sp.at < |f|
    requires c == Convert(f[sp.at], sp, args, last)
    ensures Rendered(f, i, args, k, last, quad) == Padded(c.body, sp) + Rendered(f, sp.at + 1, args, c.k, c.last, quad)
    ensures Modelled(f, i, args, k, last, quad) ==>
              !Unmodelled(f[sp.at]) && Modelled(f, sp.at + 1, args, c.k, c.last, quad)
  {
    hide SpecAt, Convert, Padded;
  }

  lemma ConversionModelled(f: CString, i: nat, args: seq<Arg>, k: nat, last: nat, quad: seq<Char>)
    requires i < |f| && f[i] == PERCENT && Modelled(f, i, args, k, last, quad)
    ensures var sp := SpecAt(f, i + 1, args, k, quad); sp.at < |f| ==> !Unmodelled(f[sp.at])
  {
    hide SpecAt, Convert;
  }

  /** A text with every percent sign doubled. */
  function Doubled(s: seq<Char>): seq<Char> {
    if s == [] then [] else (if s[0] == PERCENT then [PERCENT, PERCENT] else [s[0]]) + Doubled(s[1..])
  }

  /** Such a text prints as what it was made from, whatever the arguments. */
  lemma {:induction false} DoubledPrints(f: CString, i: nat, s: seq<Char>, args: seq<Arg>, k: nat, last: nat, quad: seq<Char>)
    requires i <= |f| && f[i..] == Doubled(s) && PERCENT !in quad
    ensures Rendered(f, i, args, k, last, quad) == s
    decreases |s|
  {
    if s == [] {
      assert i == |f|;
    } else if s[0] == PERCENT {
      assert f[i..] == [PERCENT, PERCENT] + Doubled(s[1..]);
      assert f[i] == f[i..][0] && f[i + 1] == f[i..][1];
      assert f[i + 2..] == f[i..][2..];
      DoubledPrints(f, i + 2, s[1..], args, k, last, quad);
      TwoPercents(f, i, args, k, last, quad);
      hide Rendered, Doubled;
      assert s == [PERCENT] + s[1..];
    } else {
      assert f[i..] == [s[0]] + Doubled(s[1..]);
      assert f[i] == f[i..][0];
      assert f[i + 1..] == f[i..][1..];
      DoubledPrints(f, i + 1, s[1..], args, k, last, quad);
    }
  }

  lemma TwoPercents(f: CString, i: nat, args: seq<Arg>, k: nat, last: nat, quad: seq<Char>)
    requires i + 1 < |f| && f[i] == f[i + 1] == PERCENT && PERCENT !in quad
    ensures Rendered(f, i, args, k, last, quad) == [PERCENT] + Rendered(f, i + 2, args, k, last, quad)
  {
    PlainPercent(f, i + 1, args, k, quad);
    PercentItself(Spec(NO_FLAGS, None, None, Plain, i + 1, k), args, last);
    hide SpecAt, Convert, Padded;
  }

  lemma PercentItself(sp: Spec, args: seq<Arg>, last: nat)
    requires sp.width == None
    ensures var c := Convert(PERCENT, sp, args, last);
      Padded(c.body, sp) == [PERCENT] && c.k == sp.k && c.last == last
  {
  }

  lemma PlainPercent(f: CString, i: nat, args: seq<Arg>, k: nat, quad: seq<Char>)
    requires i < |f| && f[i] == PERCENT && PERCENT !in quad
    ensures SpecAt(f, i, args, k, quad) == Spec(NO_FLAGS, None, None, Plain, i, k)
  {
    assert f[i..][0] == PERCENT;
    assert quad != [] ==> quad[0] in quad;
  }

  /** A 64-bit number printed with its own format comes out as its sign and digits. */
  lemma QuadPrints(n: Int64, quad: CString)
    requires quad != [] && (IsLower(quad[0]) || IsUpper(quad[0]))
    ensures Output([PERCENT] + quad + [100], [Num(n)], quad) == Numbers.Shown(n)
  {
    var f: CString := [PERCENT] + quad + [100];
    var args := [Num(n)];
    var q := |quad| + 1;
    assert f[1..] == quad + [100] && f[1] == quad[0];
    var sp := SpecAt(f, 1, args, 0, quad);
    assert sp == Spec(NO_FLAGS, None, None, Quad, q, 0);
    SignedFits(n);
    var c := Convert(100, sp, args, 0);
    assert Rendered(f, q + 1, args, c.k, c.last, quad) == [];
    assert Rendered(f, 0, args, 0, 0, quad) == Padded(c.body, sp) + [];
  }

  lemma SignedFits(n: Int64)
    ensures SignedOf(n, TWO_64) == n
  {
    WrappedFits(n);
    assert Wrapped(n) == SignedOf(n, TWO_64);
  }

  // ---------- what a directive consists of ----------

  predicate IsFlag(c: Char) {
    c == MINUS || c == PLUS || c == HASH || c == SPACE || c == ZERO
  }

  /** The flags `fl` and those of the characters in `run`. */
  function WithFlags(fl: Flags, run: seq<Char>): Flags {
    Flags(fl.left || MINUS in run, fl.sign || PLUS in run, fl.alternate || HASH in run, fl.blank || SPACE in run,
          if ZERO in run then ZERO else fl.pad)
  }

  lemma WithMoreFlags(fl: Flags, c: Char, run: seq<Char>)
    ensures WithFlags(WithFlags(fl, [c]), run) == WithFlags(fl, [c] + run)
  {
    assert forall d :: d in [c] + run <==> d == c || d in run;
  }

  lemma FlagStep(f: CString, i: nat, fl: Flags)
    requires i < |f| && IsFlag(f[i])
    ensures FlagsAt(f, i, fl) == FlagsAt(f, i + 1, WithFlags(fl, [f[i]]))
  {
    assert f[i] == MINUS ==> WithFlags(fl, [f[i]]) == fl.(left := true);
    assert f[i] == PLUS ==> WithFlags(fl, [f[i]]) == fl.(sign := true);
    assert f[i] == HASH ==> WithFlags(fl, [f[i]]) == fl.(alternate := true);
    assert f[i] == SPACE ==> WithFlags(fl, [f[i]]) == fl.(blank := true);
    assert f[i] == ZERO ==> WithFlags(fl, [f[i]]) == fl.(pad := ZERO);
  }

  /** Flags are read up to the first character that is none, and each is set exactly when its character occurs. */
  lemma {:induction false} FlagsAreTheRun(f: CString, i: nat, fl: Flags)
    requires i <= |f|
    ensures var r := FlagsAt(f, i, fl);
      && (forall k :: i <= k < r.1 ==> IsFlag(f[k])) && !IsFlag(At(f, r.1))
      && r.0 == WithFlags(fl, f[i..r.1])
    decreases |f| - i
  {
    if i < |f| && IsFlag(f[i]) {
      var c := f[i];
      var next := WithFlags(fl, [c]);
      FlagStep(f, i, fl);
      FlagsAreTheRun(f, i + 1, next);
      hide FlagsAt, WithFlags, IsFlag;
      var e := FlagsAt(f, i, fl).1;
      assert f[i..e] == [c] + f[i + 1..e];
      WithMoreFlags(fl, c, f[i + 1..e]);
    }
  }

  /** A width or precision is the value of the digits up to the first character that is none. */
  lemma NumbersAreTheRun(f: CString, i: nat)
    requires i <= |f|
    ensures var r := NumberAt(f, i, 0);
      && (forall k :: i <= k < r.1 ==> IsDigit(f[k])) && !IsDigit(At(f, r.1))
      && r.0 == Value(DigitsOf(f[i..r.1]), 10)
  {
    assert f[i..i] == [] && Value(DigitsOf([]), 10) == 0;
    NumberFrom(f, i, i);
  }

  lemma {:induction false} NumberFrom(f: CString, from: nat, i: nat)
    requires from <= i <= |f|
    ensures var r := NumberAt(f, i, Value(DigitsOf(f[from..i]), 10));
      && (forall k :: i <= k < r.1 ==> IsDigit(f[k])) && !IsDigit(At(f, r.1))
      && r.0 == Value(DigitsOf(f[from..r.1]), 10)
    decreases |f| - i
  {
    hide Value, DigitsOf;
    if IsDigit(At(f, i)) {
      assert f[from..i + 1] == f[from..i] + [f[i]];
      ValueMore(f[from..i], f[i]);
      NumberFrom(f, from, i + 1);
      NumberStep(f, i, Value(DigitsOf(f[from..i]), 10));
      hide NumberAt;
    }
  }

  lemma NumberStep(f: CString, i: nat, acc: nat)
    requires i < |f| && IsDigit(f[i])
    ensures NumberAt(f, i, acc) == NumberAt(f, i + 1, acc * 10 + (f[i] - 48))
  {
  }

  lemma ValueMore(t: seq<Char>, c: Char)
    requires IsDigit(c)
    ensures Value(DigitsOf(t + [c]), 10) == Value(DigitsOf(t), 10) * 10 + (c - 48)
  {
    var ds := DigitsOf(t + [c]);
    assert ds[..|t|] == DigitsOf(t);
  }

  // ---------- the output piece by piece ----------

  /** A character of the format that stands for itself, or a directive. */
  datatype Piece = Literal(c: Char) | Directive(sp: Spec, conv: Char)

  /** How many arguments a conversion takes. */
  function Taken(c: Char): nat {
    if c in {117, 100, 105, 111, 120, 88, 115, 99} then 1 else 0
  }

  function PiecesAt(f: CString, i: nat, args: seq<Arg>, k: nat, quad: seq<Char>): seq<Piece>
    requires i <= |f|
    decreases |f| - i
  {
    if i == |f| then []
    else if f[i] != PERCENT then [Literal(f[i])] + PiecesAt(f, i + 1, args, k, quad)
    else
      var sp := SpecAt(f, i + 1, args, k, quad);
      if sp.at == |f| then []
      else [Directive(sp, f[sp.at])] + PiecesAt(f, sp.at + 1, args, sp.k + Taken(f[sp.at]), quad)
  }

  /** A conversion to base 8 or 16 of a number that is not quad-sized. */
  predicate IsShort(p: Piece) {
    p.Directive? && (p.conv == 111 || p.conv == 120 || p.conv == 88) && p.sp.size != Quad
  }

  /** The number converted by the last such directive among `ps`; 0 if there is none. */
  function LastShort(ps: seq<Piece>, args: seq<Arg>): nat {
    if ps == [] then 0
    else
      var p := ps[|ps| - 1];
      if IsShort(p) then IntAt(args, p.sp.k) % Modulus(p.sp.size) else LastShort(ps[..|ps| - 1], args)
  }

  /** What a piece prints; `last` is the number converted by the last short directive to base 8 or 16 before it. */
  function PieceText(p: Piece, args: seq<Arg>, last: nat): seq<Char> {
    match p
    case Literal(c) => [c]
    case Directive(sp, conv) => Padded(Convert(conv, sp, args, last).body, sp)
  }

  /** The texts of the pieces from number `n` on. */
  function PiecesText(ps: seq<Piece>, n: nat, args: seq<Arg>): seq<Char>
    requires n <= |ps|
    decreases |ps| - n
  {
    if n == |ps| then [] else PieceText(ps[n], args, LastShort(ps[..n], args)) + PiecesText(ps, n + 1, args)
  }

  lemma ConvertPasses(c: Char, sp: Spec, args: seq<Arg>, last: nat)
    ensures var r := Convert(c, sp, args, last);
      && r.k == sp.k + Taken(c)
      && r.last == if IsShort(Directive(sp, c)) then IntAt(args, sp.k) % Modulus(sp.size) else last
  {
    hide Fixed, Decimal, Numeral, SignedOf, Magnitude, Clipped;
  }

  lemma LastShortMore(ps: seq<Piece>, p: Piece, args: seq<Arg>)
    ensures LastShort(ps + [p], args)
      == if IsShort(p) then IntAt(args, p.sp.k) % Modulus(p.sp.size) else LastShort(ps, args)
  {
    assert (ps + [p])[..|ps|] == ps;
  }

  lemma PiecesCut(f: CString, i: nat, args: seq<Arg>, k: nat, quad: seq<Char>)
    requires i < |f| && f[i] == PERCENT && SpecAt(f, i + 1, args, k, quad).at == |f|
    ensures PiecesAt(f, i, args, k, quad) == []
  {
    hide SpecAt;
  }

  lemma PiecesPlain(f: CString, i: nat, args: seq<Arg>, k: nat, quad: seq<Char>)
    requires i < |f| && f[i] != PERCENT
    ensures PiecesAt(f, i, args, k, quad) == [Literal(f[i])] + PiecesAt(f, i + 1, args, k, quad)
  {
  }

  lemma PiecesDirective(f: CString, i: nat, args: seq<Arg>, k: nat, quad: seq<Char>, sp: Spec)
    requires i < |f| && f[i] == PERCENT && sp == SpecAt(f, i + 1, args, k, quad) && sp.at < |f|
    ensures PiecesAt(f, i, args, k, quad)
      == [Directive(sp, f[sp.at])] + PiecesAt(f, sp.at + 1, args, sp.k + Taken(f[sp.at]), quad)
  {
    hide SpecAt;
  }

  /** The text of the pieces `before + [p] + rest` from `p` on. */
  lemma PiecesStep(before: seq<Piece>, p: Piece, rest: seq<Piece>, args: seq<Arg>)
    ensures PiecesText(before + ([p] + rest), |before|, args)
      == PieceText(p, args, LastShort(before, args)) + PiecesText(before + [p] + rest, |before| + 1, args)
  {
    hide PieceText;
    var ps := before + ([p] + rest);
    assert ps == before + [p] + rest && ps[..|before|] == before && ps[|before|] == p;
  }

  lemma PiecesEnd(before: seq<Piece>, args: seq<Arg>)
    ensures PiecesText(before + [], |before|, args) == []
  {
  }

  lemma {:induction false} RenderedPieces(f: CString, i: nat, args: seq<Arg>, k: nat, quad: seq<Char>, before: seq<Piece>)
    requires i <= |f|
    ensures Rendered(f, i, args, k, LastShort(before, args), quad)
      == PiecesText(before + PiecesAt(f, i, args, k, quad), |before|, args)
    decreases |f| - i
  {
    var last := LastShort(before, args);
    if i == |f| {
      PiecesEnd(before, args);
    } else if f[i] != PERCENT {
      RenderedPlain(f, i, args, k, last, quad);
      PiecesPlain(f, i, args, k, quad);
      var p, rest := Literal(f[i]), PiecesAt(f, i + 1, args, k, quad);
      PiecesStep(before, p, rest, args);
      LastShortMore(before, p, args);
      RenderedPieces(f, i + 1, args, k, quad, before + [p]);
      hide Rendered, PiecesAt, PiecesText, LastShort;
    } else {
      DirectivePieces(f, i, args, k, quad, before);
    }
  }

  lemma {:induction false} DirectivePieces(f: CString, i: nat, args: seq<Arg>, k: nat, quad: seq<Char>, before: seq<Piece>)
    requires i < |f| && f[i] == PERCENT
    ensures Rendered(f, i, args, k, LastShort(before, args), quad)
      == PiecesText(before + PiecesAt(f, i, args, k, quad), |before|, args)
    decreases |f| - i, 0
  {
    hide Rendered, PiecesAt, PiecesText, LastShort, SpecAt, Convert, Padded, Taken;
    var last, sp := LastShort(before, args), SpecAt(f, i + 1, args, k, quad);
    if sp.at == |f| {
      RenderedCut(f, i, args, k, last, quad);
      PiecesCut(f, i, args, k, quad);
      PiecesEnd(before, args);
    } else {
      var conv, c := f[sp.at], Convert(f[sp.at], sp, args, last);
      RenderedDirective(f, i, args, k, last, quad, sp, c);
      PiecesDirective(f, i, args, k, quad, sp);
      var p, rest := Directive(sp, conv), PiecesAt(f, sp.at + 1, args, sp.k + Taken(conv), quad);
      PiecesStep(before, p, rest, args);
      LastShortMore(before, p, args);
      ConvertPasses(conv, sp, args, last);
      RenderedPieces(f, sp.at + 1, args, sp.k + Taken(conv), quad, before + [p]);
    }
  }

  /** The output is that of the pieces of the format, one after the other. */
  lemma OutputPieces(f: CString, args: seq<Arg>, quad: seq<Char>)
    ensures Output(f, args, quad) == PiecesText(PiecesAt(f, 0, args, 0, quad), 0, args)
  {
    RenderedPieces(f, 0, args, 0, quad, []);
    assert [] + PiecesAt(f, 0, args, 0, quad) == PiecesAt(f, 0, args, 0, quad);
  }

  // ---------- two flags that do not do what they should ----------

  /** A left-adjusted text should be filled up with blanks; it is, unless zeros were asked for and there is room for them. */
  lemma LeftFill(b: Body, sp: Spec)
    requires sp.fl.left
    ensures Padded(b, sp) == Padded(b.(pad := SPACE), sp)
      <==> b.pad == SPACE || sp.width.None? || sp.width.value <= |b.All()|
  {
    if sp.width.Some? && sp.width.value > |b.All()| {
      var n, w := |b.All()|, sp.width.value;
      assert Padded(b, sp)[n] == b.pad && Padded(b.(pad := SPACE), sp)[n] == SPACE;
    }
  }

  /** "%-05d" prints 12 as 12000. */
  lemma ZerosOnTheRight(quad: seq<Char>)
    requires quad == [] || quad[0] != 100
    ensures Output([PERCENT, MINUS, ZERO, 53, 100], [Num(12)], quad) == [49, 50, ZERO, ZERO, ZERO]
  {
    var f: CString, args := [PERCENT, MINUS, ZERO, 53, 100], [Num(12)];
    var fl := NO_FLAGS.(left := true, pad := ZERO);
    assert FlagsAt(f, 3, fl) == (fl, 3);
    assert FlagsAt(f, 2, NO_FLAGS.(left := true)) == (fl, 3);
    assert FlagsAt(f, 1, NO_FLAGS) == (fl, 3);
    assert NumberAt(f, 3, 0) == (5, 4);
    assert f[4..][0] == 100;
    var sp := SpecAt(f, 1, args, 0, quad);
    assert sp == Spec(fl, Some(5), None, Plain, 4, 0);
    assert Decimal(12) == [49, 50];
    assert SignedOf(12, TWO_32) == 12;
    var c := Convert(100, sp, args, 0);
    assert Padded(c.body, sp) == [49, 50] + Repeat(ZERO, 3);
    assert Rendered(f, 5, args, c.k, c.last, quad) == [];
  }

  /** The text of a number in base 16 with the prefix that `#` asks for. */
  function Prefixed(c: Char, v: nat, precision: Option<nat>): seq<Char> {
    var t := Fixed(Numeral(v, 16, c == 88), precision);
    if v != 0 then [ZERO, c] + t else t
  }

  /**
   A quad-sized number gets its prefix, or none for zero, exactly when the last short number
   converted to base 8 or 16 is zero just when it is; numbers of other sizes always do.
   */
  lemma PrefixOfNumber(c: Char, sp: Spec, args: seq<Arg>, last: nat)
    requires (c == 120 || c == 88) && sp.fl.alternate
    ensures var v := IntAt(args, sp.k) % Modulus(sp.size);
      Convert(c, sp, args, last).body.text == Prefixed(c, v, sp.precision)
      <==> sp.size != Quad || (v == 0 <==> last == 0)
  {
    var v := IntAt(args, sp.k) % Modulus(sp.size);
    var t := Fixed(Numeral(v, 16, c == 88), sp.precision);
    hide Fixed, Numeral;
    assert |[ZERO, c] + t| == |t| + 2;
  }

  lemma PlainHex(f: CString, i: nat, args: seq<Arg>, k: nat, quad: seq<Char>)
    requires i < |f| && f[i] == 120 && (quad == [] || quad[0] != 120)
    ensures SpecAt(f, i, args, k, quad) == Spec(NO_FLAGS, None, None, Plain, i, k)
  {
    assert f[i..][0] == 120;
  }

  lemma AlternateQuadHex(f: CString, i: nat, args: seq<Arg>, k: nat, quad: seq<Char>)
    requires i + 2 < |f| && f[i] == HASH && f[i + 1] == 113 && f[i + 2] == 120 && (quad == [] || quad[0] != 113)
    ensures SpecAt(f, i, args, k, quad) == Spec(NO_FLAGS.(alternate := true), None, None, Quad, i + 2, k)
  {
    assert f[i + 1..][0] == 113;
    assert FlagsAt(f, i, NO_FLAGS) == (NO_FLAGS.(alternate := true), i + 1);
  }

  /** A number below 10 converted to base 16, without precision, width or prefix. */
  lemma HexDigitAlone(sp: Spec, v: nat)
    requires v < 10 && sp.k == (if sp.size == Quad then 1 else 0) && sp.width == None && sp.precision == None
    requires sp.fl.alternate ==> sp.size == Quad
    ensures var c := Convert(120, sp, if sp.k == 1 then [Num(0), Num(v)] else [Num(v), Num(5)], 0);
      Padded(c.body, sp) == [48 + v] && (sp.size != Quad ==> c.k == 1 && c.last == v)
  {
    assert v % Modulus(sp.size) == v;
    hide Modulus;
  }

  /** "%x%#qx" with 0 and 5 prints 05 instead of 00x5. */
  lemma PrefixMissing(quad: seq<Char>)
    requires quad == [] || (quad[0] != 120 && quad[0] != 113)
    ensures Output([PERCENT, 120, PERCENT, HASH, 113, 120], [Num(0), Num(5)], quad) == [ZERO, 53]
  {
    hide SpecAt, Convert, Padded, Rendered;
    var f: CString, args := [PERCENT, 120, PERCENT, HASH, 113, 120], [Num(0), Num(5)];
    PlainHex(f, 1, args, 0, quad);
    AlternateQuadHex(f, 3, args, 1, quad);
    var sp := Spec(NO_FLAGS, None, None, Plain, 1, 0);
    var sp2 := Spec(NO_FLAGS.(alternate := true), None, None, Quad, 5, 1);
    HexDigitAlone(sp, 0);
    HexDigitAlone(sp2, 5);
    var c, c2 := Convert(120, sp, args, 0), Convert(120, sp2, args, 0);
    RenderedDirective(f, 0, args, 0, 0, quad, sp, c);
    RenderedDirective(f, 2, args, 1, 0, quad, sp2, c2);
    RenderedEnd(f, args, c2.k, c2.last, quad);
  }
}
