/**
 What a directive prints, from the text it is written in: flags, width, precision, size and
 conversion are spelled out, and so are the digits and the padding.
 */
module FormatLaws {
  import opened Basics
  import opened CStrings
  import opened Numbers
  import opened Formats

  // ---------- numerals ----------

  /** "0123456789abcdef" and "0123456789ABCDEF" */
  const SMALL_LETTERS: seq<Char> := [48, 49, 50, 51, 52, 53, 54, 55, 56, 57, 97, 98, 99, 100, 101, 102]
  const CAPITALS: seq<Char> := [48, 49, 50, 51, 52, 53, 54, 55, 56, 57, 65, 66, 67, 68, 69, 70]

  function Letters(capital: bool): (letters: seq<Char>)
    ensures |letters| == 16
  {
    if capital then CAPITALS else SMALL_LETTERS
  }

  /** A number written out. */
  function Written(n: nat, base: Base, capital: bool): (t: seq<Char>)
    ensures t != []
    decreases n
  {
    if n < base then [Letters(capital)[n]]
    else
      Shrinks(n, base);
      Written(n / base, base, capital) + [Letters(capital)[n % base]]
  }

  lemma LetterIs(d: nat, upper: bool)
    requires d < 16
    ensures Digit(d, upper) == Letters(upper)[d]
  {
    if d < 8 {
    } else if d < 12 {
    }
  }

  lemma {:induction false} NumeralIs(n: nat, base: Base, upper: bool)
    ensures Numeral(n, base, upper) == Written(n, base, upper)
  {
    Shrinks(n, base);
    if n < base {
      LetterIs(n, upper);
    } else {
      LetterIs(n % base, upper);
      NumeralIs(n / base, base, upper);
    }
    hide Digit;
  }

  // ---------- the text of a directive ----------

  /** A width or precision: none, a number, the `int` argument that `*` takes, or a period with nothing behind it. */
  datatype Count = Absent | Given(n: nat) | Star | Bare

  function CountText(c: Count): seq<Char> {
    match c
    case Absent => []
    case Given(n) => Written(n, 10, false)
    case Star => [42]
    case Bare => []
  }

  function PrecisionText(p: Count): seq<Char> {
    if p.Absent? then [] else [46] + CountText(p)
  }

  function DirectiveText(flags: seq<Char>, w: Count, p: Count, size: seq<Char>, c: Char): seq<Char> {
    [37] + (flags + (CountText(w) + (PrecisionText(p) + (size + [c]))))
  }

  predicate Letter(c: Char) { 65 <= c <= 90 || 97 <= c <= 122 }

  /** A directive with no ambiguity in its text: the size is `q`, `l`, `h`, none or the one configured. */
  predicate WellWritten(flags: seq<Char>, w: Count, p: Count, size: seq<Char>, c: Char, quad: seq<Char>) {
    && (forall k :: 0 <= k < |flags| ==> flags[k] in {45, 43, 35, 32, 48})
    && !w.Bare? && (w.Given? ==> w.n > 0)
    && (Letter(c) || c == 37)
    && (forall k :: 0 <= k < |quad| ==> Letter(quad[k]))
    && (size == [] ==> c !in {113, 108, 104})
    && (size != quad || quad == [] ==> size in [[], [113], [108], [104]] && (quad == [] || quad[0] != (size + [c])[0]))
  }

  function WidthOf(size: seq<Char>, quad: seq<Char>): Width {
    if (size == quad && quad != []) || size == [113] then Quad
    else if size == [108] then Long
    else if size == [104] then Short
    else Plain
  }

  // ---------- reading it ----------

  /** From position `i` on the format reads `t`. */
  predicate From(f: seq<Char>, i: nat, t: seq<Char>) {
    i <= |f| && f[i..] == t
  }

  lemma FromPast(f: seq<Char>, i: nat, t: seq<Char>, u: seq<Char>)
    requires From(f, i, t + u)
    ensures From(f, i + |t|, u) && forall k :: 0 <= k < |t| ==> f[i + k] == t[k]
    ensures f[i..i + |t|] == t
  {
    assert f[i..][|t|..] == u;
    assert forall k :: 0 <= k < |t| ==> f[i + k] == f[i..][k];
  }

  lemma FromFirst(f: seq<Char>, i: nat, t: seq<Char>)
    requires From(f, i, t)
    ensures At(f, i) == (if t == [] then 0 else t[0])
  {
    if t != [] {
      assert f[i] == f[i..][0];
    }
  }

  lemma {:induction false} FlagsRead(f: CString, i: nat, run: seq<Char>, rest: seq<Char>, fl: Flags)
    requires From(f, i, run + rest) && forall k :: 0 <= k < |run| ==> IsFlag(run[k])
    requires rest != [] && !IsFlag(rest[0])
    ensures FlagsAt(f, i, fl) == (WithFlags(fl, run), i + |run|)
    decreases |run|
  {
    FromFirst(f, i, run + rest);
    if run == [] {
      assert run + rest == rest;
      assert WithFlags(fl, run) == fl;
    } else {
      assert run + rest == [run[0]] + (run[1..] + rest);
      FromPast(f, i, [run[0]], run[1..] + rest);
      FlagStep(f, i, fl);
      FlagsRead(f, i + 1, run[1..], rest, WithFlags(fl, [run[0]]));
      WithMoreFlags(fl, run[0], run[1..]);
      assert [run[0]] + run[1..] == run;
    }
  }

  lemma NumberRead(f: CString, i: nat, n: nat, rest: seq<Char>)
    requires From(f, i, Written(n, 10, false) + rest) && rest != [] && !IsDigit(rest[0])
    ensures NumberAt(f, i, 0) == (n, i + |Written(n, 10, false)|)
  {
    hide *;
    var t := Written(n, 10, false);
    NumeralIs(n, 10, false);
    NumeralValue(n, 10, false);
    FromPast(f, i, t, rest);
    FromFirst(f, i + |t|, rest);
    NumbersAreTheRun(f, i);
    AllDecimal(t);
    SameEnd(f, i, t, NumberAt(f, i, 0).1);
  }

  /** Only one place is where the digits end. */
  lemma SameEnd(f: seq<Char>, i: nat, t: seq<Char>, e: nat)
    requires i <= e <= |f| && (forall k :: i <= k < e ==> IsDigit(f[k])) && !IsDigit(At(f, e))
    requires i + |t| < |f| && (forall k :: 0 <= k < |t| ==> f[i + k] == t[k] && IsDigit(t[k])) && !IsDigit(f[i + |t|])
    ensures e == i + |t|
  {
    hide IsDigit;
    if e < i + |t| {
      DigitThere(f, i, t, e);
      assert false;
    }
  }

  lemma DigitThere(f: seq<Char>, i: nat, t: seq<Char>, e: nat)
    requires i <= e < i + |t| < |f| && (forall k :: 0 <= k < |t| ==> f[i + k] == t[k] && IsDigit(t[k]))
    ensures IsDigit(At(f, e))
  {
    hide IsDigit;
    assert IsDigit(t[e - i]) && f[i + (e - i)] == t[e - i];
  }

  lemma AllDecimal(t: seq<Char>)
    requires forall k :: 0 <= k < |t| ==> DigitOf(t[k]) < 10
    ensures forall k :: 0 <= k < |t| ==> IsDigit(t[k])
  {
  }

  lemma {:induction false} WrittenFirst(n: nat)
    ensures var t := Written(n, 10, false); IsDigit(t[0]) && (n > 0 ==> t[0] != 48)
  {
    if n >= 10 {
      WrittenFirst(n / 10);
    }
  }

  /** `v` as a signed number of a word with that many values. */
  function Centered(v: int, values: nat): int
    requires values > 0
  {
    var low := v % values;
    if 2 * low < values then low else low - values
  }

  /** The `int` at `k`. */
  function IntArg(args: seq<Arg>, k: nat): int {
    Centered(if k < |args| && args[k].Num? then args[k].v else 0, 0x1_0000_0000)
  }

  /** The width, and how many arguments it takes. A negative argument is a width for left adjustment. */
  function Width0(w: Count, args: seq<Arg>): Option<nat> {
    match w
    case Given(n) => Some(n)
    case Star => Some(if IntArg(args, 0) < 0 then -IntArg(args, 0) else IntArg(args, 0))
    case _ => None
  }

  function Left0(flags: seq<Char>, w: Count, args: seq<Arg>): bool {
    45 in flags || (w.Star? && IntArg(args, 0) < 0)
  }

  function Taken(c: Count): nat {
    if c.Star? then 1 else 0
  }

  /** The precision: a period alone asks for none, and so does a negative argument. */
  function Precision0(w: Count, p: Count, args: seq<Arg>): Option<nat> {
    match p
    case Absent => None
    case Given(n) => Some(n)
    case Bare => Some(0)
    case Star => Some(if IntArg(args, Taken(w)) < 0 then 0 else IntArg(args, Taken(w)))
  }

  function FlagsOf(flags: seq<Char>): Flags {
    Flags(45 in flags, 43 in flags, 35 in flags, 32 in flags, if 48 in flags then 48 else 32)
  }

  lemma WidthRead(f: CString, i: nat, w: Count, rest: seq<Char>, args: seq<Arg>, fl: Flags)
    requires From(f, i, CountText(w) + rest) && rest != [] && !IsDigit(rest[0]) && rest[0] != 42 && !w.Bare?
    ensures WidthAt(f, i, args, 0, fl) ==
      Spec(fl.(left := fl.left || (w.Star? && IntArg(args, 0) < 0)), Width0(w, args), None, Plain, i + |CountText(w)|, Taken(w))
  {
    FromFirst(f, i, CountText(w) + rest);
    match w
    case Given(n) =>
      WrittenFirst(n);
      NumberRead(f, i, n, rest);
      hide NumberAt, Written;
    case Star =>
    case _ =>
  }

  lemma PrecisionRead(f: CString, sp: Spec, p: Count, rest: seq<Char>, w: Count, args: seq<Arg>)
    requires From(f, sp.at, PrecisionText(p) + rest) && rest != [] && !IsDigit(rest[0]) && rest[0] != 42 && rest[0] != 46
    requires sp.precision == None && sp.k == Taken(w)
    ensures PrecisionAt(f, sp, args) ==
      sp.(precision := Precision0(w, p, args), at := sp.at + |PrecisionText(p)|, k := sp.k + Taken(p))
  {
    FromFirst(f, sp.at, PrecisionText(p) + rest);
    if !p.Absent? {
      assert PrecisionText(p) + rest == [46] + (CountText(p) + rest);
      FromPast(f, sp.at, [46], CountText(p) + rest);
      FromFirst(f, sp.at + 1, CountText(p) + rest);
      if p.Given? {
        WrittenFirst(p.n);
        NumberRead(f, sp.at + 1, p.n, rest);
        hide NumberAt, Written;
      }
    }
  }

  lemma SizeRead(f: CString, sp: Spec, size: seq<Char>, c: Char, g: seq<Char>, quad: seq<Char>)
    requires From(f, sp.at, size + ([c] + g)) && WellWritten([], Absent, Absent, size, c, quad) && sp.size == Plain
    ensures SizeAt(f, sp, quad) == sp.(size := WidthOf(size, quad), at := sp.at + |size|)
    ensures From(f, sp.at + |size|, [c] + g) && sp.at + |size| < |f| && f[sp.at + |size|] == c
  {
    FromFirst(f, sp.at, size + ([c] + g));
    FromPast(f, sp.at, size, [c] + g);
    FromFirst(f, sp.at + |size|, [c] + g);
    assert f[sp.at..][..|size|] == size;
    if size != quad || quad == [] {
      assert quad != [] ==> f[sp.at..][0] != quad[0];
    }
  }

  /** What stands behind the flags is none. */
  lemma BehindFlags(w: Count, p: Count, size: seq<Char>, c: Char, g: seq<Char>, quad: seq<Char>)
    requires WellWritten([], w, p, size, c, quad)
    ensures var s := size + ([c] + g); var u := PrecisionText(p) + s; var t := CountText(w) + u;
      && t != [] && !IsFlag(t[0])
      && u != [] && !IsDigit(u[0]) && u[0] != 42
      && s != [] && !IsDigit(s[0]) && s[0] !in {42, 46}
      && (IsLower(t[0]) ==> w.Absent? && p.Absent?)
  {
    if w.Given? {
      WrittenFirst(w.n);
    }
    assert size != [] ==> (size + [c])[0] == size[0];
    hide Written;
  }

  /** The directive as it is meant. */
  function Meant(flags: seq<Char>, w: Count, p: Count, size: seq<Char>, c: Char, quad: seq<Char>, args: seq<Arg>): Spec {
    Spec(FlagsOf(flags).(left := Left0(flags, w, args)), Width0(w, args), Precision0(w, p, args), WidthOf(size, quad),
         |DirectiveText(flags, w, p, size, c)| - 1, Taken(w) + Taken(p))
  }

  lemma FlagsAre(flags: seq<Char>)
    requires forall k :: 0 <= k < |flags| ==> flags[k] in {45, 43, 35, 32, 48}
    ensures WithFlags(NO_FLAGS, flags) == FlagsOf(flags) && forall k :: 0 <= k < |flags| ==> IsFlag(flags[k])
  {
  }

  lemma TextParts(flags: seq<Char>, w: Count, p: Count, size: seq<Char>, c: Char, g: seq<Char>, quad: seq<Char>)
    requires WellWritten(flags, w, p, size, c, quad) && NulFree(g)
    ensures var d := DirectiveText(flags, w, p, size, c); var f := d + g;
      && NulFree(f) && NulFree(d) && f[0] == 37
      && From(f, 1, flags + (CountText(w) + (PrecisionText(p) + (size + ([c] + g)))))
      && |d| == 2 + |flags| + |CountText(w)| + |PrecisionText(p)| + |size|
  {
    CountNulFree(w);
    CountNulFree(p);
    hide CountText;
    assert NulFree(PrecisionText(p));
    DirectiveJoined(flags, CountText(w), PrecisionText(p), size, c, g);
    hide PrecisionText;
    var d := DirectiveText(flags, w, p, size, c);
    assert d == [37] + d[1..];
  }

  lemma DirectiveJoined(flags: seq<Char>, w: seq<Char>, p: seq<Char>, size: seq<Char>, c: Char, g: seq<Char>)
    ensures var d := [37] + (flags + (w + (p + (size + [c]))));
      d + g == [37] + (flags + (w + (p + (size + ([c] + g))))) && (d + g)[1..] == flags + (w + (p + (size + ([c] + g))))
  {
    Regroup(size, [c], g);
    Regroup(p, size + [c], g);
    Regroup(w, p + (size + [c]), g);
    Regroup(flags, w + (p + (size + [c])), g);
    Regroup([37], flags + (w + (p + (size + [c]))), g);
  }

  lemma CountNulFree(w: Count)
    ensures NulFree(CountText(w))
  {
    if w.Given? {
      WrittenNulFree(w.n);
    }
    hide Written;
  }

  lemma {:induction false} WrittenNulFree(n: nat)
    ensures NulFree(Written(n, 10, false))
  {
    if n >= 10 {
      WrittenNulFree(n / 10);
    }
  }

  /** What is read before the size. */
  function Start(flags: seq<Char>, w: Count, p: Count, args: seq<Arg>): Spec {
    Spec(FlagsOf(flags).(left := Left0(flags, w, args)), Width0(w, args), Precision0(w, p, args), Plain,
         1 + |flags| + |CountText(w)| + |PrecisionText(p)|, Taken(w) + Taken(p))
  }

  /** Flags and width. */
  function Head(flags: seq<Char>, w: Count, args: seq<Arg>): Spec {
    Spec(FlagsOf(flags).(left := Left0(flags, w, args)), Width0(w, args), None, Plain, 1 + |flags| + |CountText(w)|, Taken(w))
  }

  lemma HeadRead(f: CString, flags: seq<Char>, w: Count, u: seq<Char>, t: seq<Char>, args: seq<Arg>)
    requires t == CountText(w) + u && From(f, 1, flags + t) && !w.Bare?
    requires t != [] && !IsFlag(t[0]) && u != [] && !IsDigit(u[0]) && u[0] != 42
    requires forall k :: 0 <= k < |flags| ==> flags[k] in {45, 43, 35, 32, 48}
    ensures FlagsAt(f, 1, NO_FLAGS) == (FlagsOf(flags), 1 + |flags|)
    ensures WidthAt(f, 1 + |flags|, args, 0, FlagsOf(flags)) == Head(flags, w, args)
    ensures From(f, Head(flags, w, args).at, u)
  {
    hide *;
    FlagsAre(flags);
    HeadIs(flags, w, args);
    FlagsRead(f, 1, flags, t, NO_FLAGS);
    FromPast(f, 1, flags, t);
    WidthRead(f, 1 + |flags|, w, u, args, FlagsOf(flags));
    FromPast(f, 1 + |flags|, CountText(w), u);
  }

  lemma HeadIs(flags: seq<Char>, w: Count, args: seq<Arg>)
    ensures Head(flags, w, args) ==
      Spec(FlagsOf(flags).(left := FlagsOf(flags).left || (w.Star? && IntArg(args, 0) < 0)), Width0(w, args), None, Plain,
           1 + |flags| + |CountText(w)|, Taken(w))
  {
  }

  lemma StartRead(f: CString, flags: seq<Char>, w: Count, p: Count, s: seq<Char>, u: seq<Char>, t: seq<Char>, args: seq<Arg>)
    requires u == PrecisionText(p) + s && t == CountText(w) + u && From(f, 1, flags + t) && !w.Bare?
    requires t != [] && !IsFlag(t[0]) && u != [] && !IsDigit(u[0]) && u[0] != 42
    requires s != [] && !IsDigit(s[0]) && s[0] != 42 && s[0] != 46
    requires forall k :: 0 <= k < |flags| ==> flags[k] in {45, 43, 35, 32, 48}
    ensures var fl := FlagsAt(f, 1, NO_FLAGS);
      PrecisionAt(f, WidthAt(f, fl.1, args, 0, fl.0), args) == Start(flags, w, p, args)
    ensures From(f, Start(flags, w, p, args).at, s)
  {
    hide CountText, PrecisionText, FlagsOf, IsFlag, WidthAt, PrecisionAt, FlagsAt, Width0, Left0, Precision0, From, Taken, IsDigit;
    HeadRead(f, flags, w, u, t, args);
    var sp := Head(flags, w, args);
    PrecisionRead(f, sp, p, s, w, args);
    FromPast(f, sp.at, PrecisionText(p), s);
  }

  lemma SpecIs(f: CString, args: seq<Arg>, quad: seq<Char>)
    requires 1 <= |f|
    ensures SpecAt(f, 1, args, 0, quad) ==
      SizeAt(f, if IsLower(At(f, 1)) then Spec(NO_FLAGS, None, None, Plain, 1, 0)
                else var fl := FlagsAt(f, 1, NO_FLAGS); PrecisionAt(f, WidthAt(f, fl.1, args, 0, fl.0), args), quad)
  {
    hide FlagsAt, WidthAt, PrecisionAt, SizeAt;
  }

  lemma BareStart(args: seq<Arg>)
    ensures Start([], Absent, Absent, args) == Spec(NO_FLAGS, None, None, Plain, 1, 0)
  {
  }

  /** A directive is read as it is meant, whatever follows it. */
  lemma DirectiveRead(flags: seq<Char>, w: Count, p: Count, size: seq<Char>, c: Char, g: seq<Char>, quad: seq<Char>, args: seq<Arg>)
    requires WellWritten(flags, w, p, size, c, quad) && NulFree(g)
    ensures var d := DirectiveText(flags, w, p, size, c); var f := d + g;
      && NulFree(f) && NulFree(d) && d != [] && f[0] == 37 && f[|d| - 1] == c
      && SpecAt(f, 1, args, 0, quad) == Meant(flags, w, p, size, c, quad, args)
  {
    hide CountText, PrecisionText, FlagsOf, IsFlag, SizeAt, WidthAt, PrecisionAt, FlagsAt, DirectiveText, SpecAt, IsLower, From;
    hide Width0, Precision0, Left0, Taken, WidthOf, WellWritten, IsDigit;
    var f := DirectiveText(flags, w, p, size, c) + g;
    var s := size + ([c] + g);
    var u := PrecisionText(p) + s;
    var t := CountText(w) + u;
    PartsWritten(flags, w, p, size, c, quad);
    TextParts(flags, w, p, size, c, g, quad);
    BehindFlags(w, p, size, c, g, quad);
    FromFirst(f, 1, flags + t);
    StartRead(f, flags, w, p, s, u, t, args);
    SizeRead(f, Start(flags, w, p, args), size, c, g, quad);
    SpecIs(f, args, quad);
    Shortcut(f, flags, w, p, s, u, t, args);
  }

  lemma PartsWritten(flags: seq<Char>, w: Count, p: Count, size: seq<Char>, c: Char, quad: seq<Char>)
    requires WellWritten(flags, w, p, size, c, quad)
    ensures WellWritten([], Absent, Absent, size, c, quad) && WellWritten([], w, p, size, c, quad) && !w.Bare?
    ensures forall k :: 0 <= k < |flags| ==> flags[k] in {45, 43, 35, 32, 48}
  {
  }

  /** The shortcut for lower-case letters misses nothing. */
  lemma Shortcut(f: seq<Char>, flags: seq<Char>, w: Count, p: Count, s: seq<Char>, u: seq<Char>, t: seq<Char>, args: seq<Arg>)
    requires u == PrecisionText(p) + s && t == CountText(w) + u && t != [] && At(f, 1) == (flags + t)[0]
    requires IsLower(t[0]) ==> w.Absent? && p.Absent?
    requires forall k :: 0 <= k < |flags| ==> flags[k] in {45, 43, 35, 32, 48}
    ensures IsLower(At(f, 1)) ==> Start(flags, w, p, args) == Spec(NO_FLAGS, None, None, Plain, 1, 0)
  {
    if flags == [] {
      assert flags + t == t;
      BareStart(args);
    }
  }

  // ---------- what it prints ----------

  /** Text and sign, padded to the width: blanks or zeros on the left or right, zeros on the left behind the sign. */
  function Laid(left: bool, zeros: bool, width: Option<nat>, sign: seq<Char>, t: seq<Char>): seq<Char> {
    var n := |sign| + |t|;
    if width.None? || width.value <= n then sign + t
    else if left then sign + t + Repeat(if zeros then 48 else 32, width.value - n)
    else if zeros then sign + Repeat(48, width.value - n) + t
    else Repeat(32, width.value - n) + sign + t
  }

  /** Zeros in front up to the precision, of which the buffer has room for 511. */
  function Widened(t: seq<Char>, p: Option<nat>): seq<Char> {
    if p.None? then t
    else
      var n := if p.value < 511 then p.value else 511;
      if |t| < n then Repeat(48, n - |t|) + t else t
  }

  lemma {:induction false} ZerosAre(t: seq<Char>, n: nat)
    ensures Zeros(t, n) == if |t| < n then Repeat(48, n - |t|) + t else t
    decreases n - |t|
  {
    if |t| < n {
      ZerosAre([48] + t, n);
      RepeatEnd(48, n - |t|);
      Regroup(Repeat(48, n - |t| - 1), [48], t);
      assert n == |t| + 1 ==> Repeat(48, 0) + ([48] + t) == [48] + t;
      hide Zeros, Repeat;
      assert Zeros(t, n) == Zeros([48] + t, n) by { ZerosMore(t, n); }
    }
  }

  lemma ZerosMore(t: seq<Char>, n: nat)
    requires |t| < n
    ensures Zeros(t, n) == Zeros([48] + t, n)
  {
  }

  lemma {:induction false} RepeatEnd(c: Char, n: nat)
    requires n > 0
    ensures Repeat(c, n) == Repeat(c, n - 1) + [c]
  {
    if n > 1 {
      RepeatEnd(c, n - 1);
    }
  }

  lemma WidenedIs(t: seq<Char>, p: Option<nat>)
    ensures Fixed(t, p) == Widened(t, p)
  {
    if p.Some? {
      ZerosAre(t, if p.value < 511 then p.value else 511);
    }
    hide Zeros, Repeat;
  }

  lemma LaidIs(b: Body, sp: Spec)
    requires b.pad == 48 || b.pad == 32
    ensures Padded(b, sp) == Laid(sp.fl.left, b.pad == 48, sp.width, if b.sign.Some? then [b.sign.value] else [], b.text)
  {
    var sign := if b.sign.Some? then [b.sign.value] else [];
    var n := |sign| + |b.text|;
    assert b.All() == sign + b.text && |b.All()| == n;
    if sp.width.Some? && sp.width.value > n {
      var fill := Repeat(b.pad, sp.width.value - n);
      hide Repeat;
      if !sp.fl.left {
        if b.pad == 48 {
          assert b.sign.None? ==> [] + fill == fill && [] + b.text == b.text;
        } else {
          Regroup(fill, sign, b.text);
        }
      }
    }
  }

  /** What a format prints that begins with a directive. */
  lemma DirectiveFirst(flags: seq<Char>, w: Count, p: Count, size: seq<Char>, c: Char, g: seq<Char>, quad: seq<Char>, args: seq<Arg>)
    requires WellWritten(flags, w, p, size, c, quad) && NulFree(g)
    ensures var d, sp := DirectiveText(flags, w, p, size, c), Meant(flags, w, p, size, c, quad, args);
      var r := Convert(c, sp, args, 0);
      && NulFree(d) && NulFree(d + g)
      && Output(d + g, args, quad) == Padded(r.body, sp) + Rendered(d + g, |d|, args, r.k, r.last, quad)
  {
    hide SpecAt, DirectiveText, Convert, Padded, WellWritten, Rendered, Output, Meant;
    DirectiveRead(flags, w, p, size, c, g, quad, args);
    MeantIs(flags, w, p, size, c, quad, args);
    var f, sp := DirectiveText(flags, w, p, size, c) + g, Meant(flags, w, p, size, c, quad, args);
    RenderedDirective(f, 0, args, 0, 0, quad, sp, Convert(c, sp, args, 0));
    OutputIs(f, args, quad);
  }

  /** A format that is one directive prints just what it makes of its argument. */
  lemma DirectivePrints(flags: seq<Char>, w: Count, p: Count, size: seq<Char>, c: Char, quad: seq<Char>, args: seq<Arg>)
    requires WellWritten(flags, w, p, size, c, quad)
    ensures var f, sp := DirectiveText(flags, w, p, size, c), Meant(flags, w, p, size, c, quad, args);
      NulFree(f) && Output(f, args, quad) == Padded(Convert(c, sp, args, 0).body, sp)
  {
    DirectiveFirst(flags, w, p, size, c, [], quad, args);
    hide DirectiveText, Convert, Padded, WellWritten, Meant, Output, Rendered;
    var f, sp := DirectiveText(flags, w, p, size, c), Meant(flags, w, p, size, c, quad, args);
    var r := Convert(c, sp, args, 0);
    assert f + [] == f;
    RenderedEnd(f, args, r.k, r.last, quad);
    assert Padded(r.body, sp) + [] == Padded(r.body, sp);
  }

  /** How many values an integer argument of the size has. */
  function Values(size: Width): nat {
    match size
    case Quad => 0x1_0000_0000_0000_0000
    case Short => 0x1_0000
    case _ => 0x1_0000_0000
  }

  /** The integer argument at `k`. */
  function ArgAt(args: seq<Arg>, k: nat): int {
    if k < |args| && args[k].Num? then args[k].v else 0
  }

  /** The argument that is printed. */
  function Printed(w: Count, p: Count, args: seq<Arg>): int {
    ArgAt(args, Taken(w) + Taken(p))
  }

  function Minus(v: int): nat { if v < 0 then -v else v }

  lemma CenteredIs(v: int, values: nat)
    requires values > 0 && values % 2 == 0
    ensures SignedOf(v, values) == Centered(v, values)
    ensures Magnitude(SignedOf(v, values), false, values) == Minus(Centered(v, values))
  {
  }

  lemma ValuesAre(size: Width)
    ensures Values(size) == Modulus(size) > 0 && Values(size) % 2 == 0
  {
  }

  // The conversions one by one.

  lemma SignedBody(c: Char, sp: Spec, args: seq<Arg>)
    requires c == 100 || c == 105
    ensures var n := Centered(ArgAt(args, sp.k), Values(sp.size));
      Convert(c, sp, args, 0).body
        == Body(if n < 0 then Some(45) else if sp.fl.sign then Some(43) else if sp.fl.blank then Some(32) else None,
                Widened(Written(Minus(n), 10, false), sp.precision), sp.fl.pad)
  {
    hide Values, Modulus, Centered, SignedOf, Magnitude, Minus, Numeral, Written, Fixed, Widened;
    ValuesAre(sp.size);
    CenteredIs(ArgAt(args, sp.k), Values(sp.size));
    var n := Centered(ArgAt(args, sp.k), Values(sp.size));
    NumeralIs(Minus(n), 10, false);
    WidenedIs(Written(Minus(n), 10, false), sp.precision);
  }

  lemma UnsignedBody(sp: Spec, args: seq<Arg>)
    ensures Convert(117, sp, args, 0).body
      == Body(None, Widened(Written(ArgAt(args, sp.k) % Values(sp.size), 10, false), sp.precision), sp.fl.pad)
  {
    hide Values, Modulus, Numeral, Written, Fixed, Widened;
    ValuesAre(sp.size);
    var n := ArgAt(args, sp.k) % Values(sp.size);
    NumeralIs(n, 10, false);
    WidenedIs(Written(n, 10, false), sp.precision);
  }

  lemma OctalBody(sp: Spec, args: seq<Arg>)
    ensures var t := Widened(Written(ArgAt(args, sp.k) % Values(sp.size), 8, false), sp.precision);
      t != [] && Convert(111, sp, args, 0).body == Body(None, if sp.fl.alternate && t[0] != 48 then [48] + t else t, sp.fl.pad)
  {
    hide Values, Modulus, Numeral, Written, Fixed, Widened;
    ValuesAre(sp.size);
    var n := ArgAt(args, sp.k) % Values(sp.size);
    NumeralIs(n, 8, false);
    WidenedIs(Written(n, 8, false), sp.precision);
  }

  lemma HexBody(c: Char, sp: Spec, args: seq<Arg>)
    requires c == 120 || c == 88
    ensures var n := ArgAt(args, sp.k) % Values(sp.size);
      var t := Widened(Written(n, 16, c == 88), sp.precision);
      Convert(c, sp, args, 0).body
        == Body(None, if sp.fl.alternate && n != 0 && !sp.size.Quad? then [48, c] + t else t, sp.fl.pad)
  {
    hide Values, Modulus, Numeral, Written, Fixed, Widened;
    ValuesAre(sp.size);
    var n := ArgAt(args, sp.k) % Values(sp.size);
    NumeralIs(n, 16, c == 88);
    WidenedIs(Written(n, 16, c == 88), sp.precision);
  }

  lemma StringBody(sp: Spec, args: seq<Arg>, s: Option<CString>)
    requires sp.k < |args| && args[sp.k] == Str(s)
    ensures var n := sp.precision;
      var t: seq<Char> := if s.None? then [40, 110, 117, 108, 108, 41]
        else if n.Some? && n.value < |s.value| then s.value[..n.value] else s.value;
      Convert(115, sp, args, 0).body == Body(None, t, 32)
  {
  }

  lemma OtherBody(c: Char, sp: Spec, args: seq<Arg>)
    requires c !in {100, 105, 117, 111, 120, 88, 115}
    ensures var t: seq<Char> :=
        if c == 99 then [Centered(ArgAt(args, sp.k), 256)] else if c == 37 then [37] else [37, c];
      Convert(c, sp, args, 0).body == Body(None, t, 32)
  {
    CenteredIs(ArgAt(args, sp.k), 256);
  }

  lemma MeantIs(flags: seq<Char>, w: Count, p: Count, size: seq<Char>, c: Char, quad: seq<Char>, args: seq<Arg>)
    ensures var sp := Meant(flags, w, p, size, c, quad, args);
      && sp.fl == Flags(Left0(flags, w, args), 43 in flags, 35 in flags, 32 in flags, if 48 in flags then 48 else 32)
      && sp.width == Width0(w, args) && sp.precision == Precision0(w, p, args) && sp.size == WidthOf(size, quad)
      && sp.k == Taken(w) + Taken(p) && sp.at == |DirectiveText(flags, w, p, size, c)| - 1
  {
  }

  lemma PrintedAt(w: Count, p: Count, args: seq<Arg>)
    ensures Printed(w, p, args) == ArgAt(args, Taken(w) + Taken(p))
  {
  }

  /** `d` and `i`: sign and decimal digits of the argument as a signed number of its size. */
  lemma SignedLaw(flags: seq<Char>, w: Count, p: Count, size: seq<Char>, c: Char, quad: seq<Char>, args: seq<Arg>)
    requires WellWritten(flags, w, p, size, c, quad) && (c == 100 || c == 105)
    ensures var n := Centered(Printed(w, p, args), Values(WidthOf(size, quad)));
      var sign: seq<Char> := if n < 0 then [45] else if 43 in flags then [43] else if 32 in flags then [32] else [];
      NulFree(DirectiveText(flags, w, p, size, c)) && Output(DirectiveText(flags, w, p, size, c), args, quad)
        == Laid(Left0(flags, w, args), 48 in flags, Width0(w, args), sign, Widened(Written(Minus(n), 10, false), Precision0(w, p, args)))
  {
    hide *;
    DirectivePrints(flags, w, p, size, c, quad, args);
    MeantIs(flags, w, p, size, c, quad, args);
    PrintedAt(w, p, args);
    var sp := Meant(flags, w, p, size, c, quad, args);
    SignedBody(c, sp, args);
    LaidIs(Convert(c, sp, args, 0).body, sp);
  }

  /** `u`: the decimal digits of the argument as an unsigned number of its size. */
  lemma UnsignedLaw(flags: seq<Char>, w: Count, p: Count, size: seq<Char>, quad: seq<Char>, args: seq<Arg>)
    requires WellWritten(flags, w, p, size, 117, quad)
    ensures var n := Printed(w, p, args) % Values(WidthOf(size, quad));
      NulFree(DirectiveText(flags, w, p, size, 117)) && Output(DirectiveText(flags, w, p, size, 117), args, quad)
        == Laid(Left0(flags, w, args), 48 in flags, Width0(w, args), [], Widened(Written(n, 10, false), Precision0(w, p, args)))
  {
    hide *;
    DirectivePrints(flags, w, p, size, 117, quad, args);
    MeantIs(flags, w, p, size, 117, quad, args);
    PrintedAt(w, p, args);
    var sp := Meant(flags, w, p, size, 117, quad, args);
    UnsignedBody(sp, args);
    LaidIs(Convert(117, sp, args, 0).body, sp);
  }

  /** `o`: its octal digits, with `#` a zero in front unless there is one. */
  lemma OctalLaw(flags: seq<Char>, w: Count, p: Count, size: seq<Char>, quad: seq<Char>, args: seq<Arg>)
    requires WellWritten(flags, w, p, size, 111, quad)
    ensures var n := Printed(w, p, args) % Values(WidthOf(size, quad));
      var t := Widened(Written(n, 8, false), Precision0(w, p, args));
      NulFree(DirectiveText(flags, w, p, size, 111)) && t != [] && Output(DirectiveText(flags, w, p, size, 111), args, quad)
        == Laid(Left0(flags, w, args), 48 in flags, Width0(w, args), [], if 35 in flags && t[0] != 48 then [48] + t else t)
  {
    hide *;
    DirectivePrints(flags, w, p, size, 111, quad, args);
    MeantIs(flags, w, p, size, 111, quad, args);
    PrintedAt(w, p, args);
    var sp := Meant(flags, w, p, size, 111, quad, args);
    OctalBody(sp, args);
    LaidIs(Convert(111, sp, args, 0).body, sp);
  }

  /** `x` and `X`: its hexadecimal digits in small letters or capitals, with `#` behind `0x` or `0X` unless it is zero or quad-sized. */
  lemma HexLaw(flags: seq<Char>, w: Count, p: Count, size: seq<Char>, c: Char, quad: seq<Char>, args: seq<Arg>)
    requires WellWritten(flags, w, p, size, c, quad) && (c == 120 || c == 88)
    ensures var n := Printed(w, p, args) % Values(WidthOf(size, quad));
      var t := Widened(Written(n, 16, c == 88), Precision0(w, p, args));
      NulFree(DirectiveText(flags, w, p, size, c)) && Output(DirectiveText(flags, w, p, size, c), args, quad)
        == Laid(Left0(flags, w, args), 48 in flags, Width0(w, args), [],
                if 35 in flags && n != 0 && !WidthOf(size, quad).Quad? then [48, c] + t else t)
  {
    hide *;
    DirectivePrints(flags, w, p, size, c, quad, args);
    MeantIs(flags, w, p, size, c, quad, args);
    PrintedAt(w, p, args);
    var sp := Meant(flags, w, p, size, c, quad, args);
    HexBody(c, sp, args);
    LaidIs(Convert(c, sp, args, 0).body, sp);
  }

  /** `s`: as many characters of the string as the precision allows, "(null)" for a null pointer, padded with blanks. */
  lemma StringLaw(flags: seq<Char>, w: Count, p: Count, size: seq<Char>, quad: seq<Char>, args: seq<Arg>, s: Option<CString>)
    requires WellWritten(flags, w, p, size, 115, quad)
    requires Taken(w) + Taken(p) < |args| && args[Taken(w) + Taken(p)] == Str(s)
    ensures var n := Precision0(w, p, args);
      var t: seq<Char> := if s.None? then [40, 110, 117, 108, 108, 41]
        else if n.Some? && n.value < |s.value| then s.value[..n.value] else s.value;
      NulFree(DirectiveText(flags, w, p, size, 115)) && Output(DirectiveText(flags, w, p, size, 115), args, quad)
        == Laid(Left0(flags, w, args), false, Width0(w, args), [], t)
  {
    hide *;
    DirectivePrints(flags, w, p, size, 115, quad, args);
    MeantIs(flags, w, p, size, 115, quad, args);
    PrintedAt(w, p, args);
    var sp := Meant(flags, w, p, size, 115, quad, args);
    StringBody(sp, args, s);
    LaidIs(Convert(115, sp, args, 0).body, sp);
  }

  /** `c`: the character; a percent sign: itself; other letters: themselves behind a percent sign. */
  lemma CharacterLaw(flags: seq<Char>, w: Count, p: Count, size: seq<Char>, c: Char, quad: seq<Char>, args: seq<Arg>)
    requires WellWritten(flags, w, p, size, c, quad)
    requires c !in {100, 105, 117, 111, 120, 88, 115}      // the laws above
    requires c !in {69, 71, 101, 102, 103, 110, 112}       // floating point, %n and %p
    ensures var t: seq<Char> := if c == 99 then [Centered(Printed(w, p, args), 256)] else if c == 37 then [37] else [37, c];
      NulFree(DirectiveText(flags, w, p, size, c)) && Output(DirectiveText(flags, w, p, size, c), args, quad)
        == Laid(Left0(flags, w, args), false, Width0(w, args), [], t)
  {
    hide *;
    DirectivePrints(flags, w, p, size, c, quad, args);
    MeantIs(flags, w, p, size, c, quad, args);
    PrintedAt(w, p, args);
    var sp := Meant(flags, w, p, size, c, quad, args);
    OtherBody(c, sp, args);
    LaidIs(Convert(c, sp, args, 0).body, sp);
  }

  // ---------- a part of a format ----------

  lemma MovedAt(x: seq<Char>, g: seq<Char>, i: nat)
    ensures At(x + g, |x| + i) == At(g, i)
  {
  }

  lemma {:induction false} FlagsMoved(x: CString, g: CString, i: nat, fl: Flags)
    requires i <= |g|
    ensures FlagsAt(x + g, |x| + i, fl) == (FlagsAt(g, i, fl).0, FlagsAt(g, i, fl).1 + |x|)
    decreases |g| - i
  {
    MovedAt(x, g, i);
    if i < |g| && IsFlag(g[i]) {
      FlagStep(g, i, fl);
      FlagStep(x + g, |x| + i, fl);
      FlagsMoved(x, g, i + 1, WithFlags(fl, [g[i]]));
      hide FlagsAt, WithFlags;
      assert |x| + (i + 1) == |x| + i + 1;
    }
  }

  lemma {:induction false} NumberMoved(x: CString, g: CString, i: nat, acc: nat)
    requires i <= |g|
    ensures NumberAt(x + g, |x| + i, acc) == (NumberAt(g, i, acc).0, NumberAt(g, i, acc).1 + |x|)
    decreases |g| - i
  {
    MovedAt(x, g, i);
    if IsDigit(At(g, i)) {
      NumberStep(g, i, acc);
      NumberStep(x + g, |x| + i, acc);
      NumberMoved(x, g, i + 1, acc * 10 + (At(g, i) - 48));
      hide NumberAt;
      assert |x| + (i + 1) == |x| + i + 1;
    }
  }

  lemma QuadMoved(x: CString, g: CString, i: nat, quad: seq<Char>)
    requires i <= |g|
    ensures QuadAt(x + g, |x| + i, quad) <==> QuadAt(g, i, quad)
  {
    assert (x + g)[|x| + i..] == g[i..];
  }

  /** The same directive `n` characters and `m` arguments later. */
  function Moved(sp: Spec, n: nat, m: nat): Spec { sp.(at := sp.at + n, k := sp.k + m) }

  lemma ArgMoved(y: seq<Arg>, args: seq<Arg>, k: nat)
    ensures IntAt(y + args, |y| + k) == IntAt(args, k) && StrAt(y + args, |y| + k) == StrAt(args, k)
    ensures IntOf(y + args, |y| + k) == IntOf(args, k)
  {
  }

  lemma WidthMoved(x: CString, g: CString, i: nat, y: seq<Arg>, args: seq<Arg>, k: nat, fl: Flags)
    requires i <= |g|
    ensures WidthAt(x + g, |x| + i, y + args, |y| + k, fl) == Moved(WidthAt(g, i, args, k, fl), |x|, |y|)
  {
    MovedAt(x, g, i);
    NumberMoved(x, g, i, 0);
    ArgMoved(y, args, k);
    hide NumberAt, IntOf, At;
  }

  lemma PrecisionMoved(x: CString, g: CString, sp: Spec, y: seq<Arg>, args: seq<Arg>)
    requires sp.at <= |g|
    ensures PrecisionAt(x + g, Moved(sp, |x|, |y|), y + args) == Moved(PrecisionAt(g, sp, args), |x|, |y|)
  {
    MovedAt(x, g, sp.at);
    MovedAt(x, g, sp.at + 1);
    ArgMoved(y, args, sp.k);
    if sp.at + 1 <= |g| {
      NumberMoved(x, g, sp.at + 1, 0);
    }
    hide NumberAt, IntOf;
  }

  lemma SizeMoved(x: CString, g: CString, sp: Spec, m: nat, quad: seq<Char>)
    requires sp.at <= |g|
    ensures SizeAt(x + g, Moved(sp, |x|, m), quad) == Moved(SizeAt(g, sp, quad), |x|, m)
  {
    MovedAt(x, g, sp.at);
    QuadMoved(x, g, sp.at, quad);
    hide QuadAt, At;
  }

  lemma SpecMoved(x: CString, g: CString, i: nat, y: seq<Arg>, args: seq<Arg>, k: nat, quad: seq<Char>)
    requires i <= |g|
    ensures SpecAt(x + g, |x| + i, y + args, |y| + k, quad) == Moved(SpecAt(g, i, args, k, quad), |x|, |y|)
  {
    MovedAt(x, g, i);
    var start := Spec(NO_FLAGS, None, None, Plain, i, k);
    hide At, FlagsAt, WidthAt, PrecisionAt, SizeAt;
    if !IsLower(At(g, i)) {
      FlagsMoved(x, g, i, NO_FLAGS);
      var fl := FlagsAt(g, i, NO_FLAGS);
      WidthMoved(x, g, fl.1, y, args, k, fl.0);
      var sp := WidthAt(g, fl.1, args, k, fl.0);
      PrecisionMoved(x, g, sp, y, args);
      start := PrecisionAt(g, sp, args);
    }
    SizeMoved(x, g, start, |y|, quad);
  }

  lemma ConvertMoved(c: Char, sp: Spec, n: nat, y: seq<Arg>, args: seq<Arg>, last: nat)
    ensures var r, m := Convert(c, sp, args, last), Convert(c, Moved(sp, n, |y|), y + args, last);
      m.body == r.body && m.k == r.k + |y| && m.last == r.last && Padded(m.body, Moved(sp, n, |y|)) == Padded(r.body, sp)
  {
    ArgMoved(y, args, sp.k);
    hide IntAt, StrAt, Numeral, Fixed, Clipped, Repeat, SignedOf;
  }

  /** A part prints the same wherever it and its arguments stand. */
  lemma {:induction false} RenderedMoved(x: CString, g: CString, i: nat, y: seq<Arg>, args: seq<Arg>, k: nat, last: nat, quad: seq<Char>)
    requires i <= |g|
    ensures Rendered(x + g, |x| + i, y + args, |y| + k, last, quad) == Rendered(g, i, args, k, last, quad)
    decreases |g| - i, 1
  {
    hide Rendered, SpecAt, Convert, Padded;
    if i == |g| {
      RenderedEnd(g, args, k, last, quad);
      RenderedEnd(x + g, y + args, |y| + k, last, quad);
    } else if g[i] != 37 {
      RenderedPlain(g, i, args, k, last, quad);
      RenderedPlain(x + g, |x| + i, y + args, |y| + k, last, quad);
      RenderedMoved(x, g, i + 1, y, args, k, last, quad);
    } else {
      DirectiveMoved(x, g, i, y, args, k, last, quad);
    }
  }

  lemma {:induction false} DirectiveMoved(x: CString, g: CString, i: nat, y: seq<Arg>, args: seq<Arg>, k: nat, last: nat, quad: seq<Char>)
    requires i < |g| && g[i] == 37
    ensures Rendered(x + g, |x| + i, y + args, |y| + k, last, quad) == Rendered(g, i, args, k, last, quad)
    decreases |g| - i, 0
  {
    hide Rendered, SpecAt, Convert, Padded;
    var f, j := x + g, |x| + i;
    SpecMoved(x, g, i + 1, y, args, k, quad);
    var sp := SpecAt(g, i + 1, args, k, quad);
    var to := Moved(sp, |x|, |y|);
    assert SpecAt(f, j + 1, y + args, |y| + k, quad) == to && to.at == |x| + sp.at;
    if sp.at == |g| {
      RenderedCut(g, i, args, k, last, quad);
      RenderedCut(f, j, y + args, |y| + k, last, quad);
    } else {
      var c := g[sp.at];
      var r, m := Convert(c, sp, args, last), Convert(c, to, y + args, last);
      ConvertMoved(c, sp, |x|, y, args, last);
      RenderedDirective(g, i, args, k, last, quad, sp, r);
      RenderedDirective(f, j, y + args, |y| + k, last, quad, to, m);
      RenderedMoved(x, g, sp.at + 1, y, args, r.k, r.last, quad);
    }
  }

  // ---------- formats of several parts ----------

  /** A character that is no percent sign prints as itself. */
  lemma TextLaw(c: Char, g: CString, quad: seq<Char>, args: seq<Arg>)
    requires c != 37 && c != 0
    ensures NulFree([c] + g) && Output([c] + g, args, quad) == [c] + Output(g, args, quad)
  {
    hide Rendered, Output;
    assert [] + args == args;
    RenderedPlain([c] + g, 0, args, 0, 0, quad);
    RenderedMoved([c], g, 0, [], args, 0, 0, quad);
    OutputIs(g, args, quad);
    OutputIs([c] + g, args, quad);
  }

  /** How many arguments a directive takes. */
  function Arguments(w: Count, p: Count, c: Char): nat {
    Taken(w) + Taken(p) + if c in {99, 100, 105, 111, 115, 117, 88, 120} then 1 else 0
  }

  lemma ConvertTakes(c: Char, sp: Spec, args: seq<Arg>)
    ensures var r := Convert(c, sp, args, 0);
      r.k == sp.k + (if c in {99, 100, 105, 111, 115, 117, 88, 120} then 1 else 0) && (c !in {111, 88, 120} ==> r.last == 0)
  {
    hide IntAt, StrAt, Numeral, Fixed, Clipped, SignedOf, Modulus;
  }

  /** What a directive looks at is among the arguments it takes. */
  lemma OwnArguments(flags: seq<Char>, w: Count, p: Count, size: seq<Char>, c: Char, quad: seq<Char>, a: seq<Arg>, b: seq<Arg>)
    requires |a| == Arguments(w, p, c)
    ensures Meant(flags, w, p, size, c, quad, a + b) == Meant(flags, w, p, size, c, quad, a)
    ensures var sp := Meant(flags, w, p, size, c, quad, a); Convert(c, sp, a + b, 0) == Convert(c, sp, a, 0)
  {
    hide DirectiveText, FlagsOf, WidthOf, Centered, Convert;
    assert forall k :: 0 <= k < |a| ==> (a + b)[k] == a[k];
    SameConversion(c, Meant(flags, w, p, size, c, quad, a), a, b);
  }

  lemma SameConversion(c: Char, sp: Spec, a: seq<Arg>, b: seq<Arg>)
    requires c in {99, 100, 105, 111, 115, 117, 88, 120} ==> sp.k < |a|
    ensures Convert(c, sp, a + b, 0) == Convert(c, sp, a, 0)
  {
    hide Numeral, Fixed, Clipped, SignedOf, Modulus;
    assert sp.k < |a| ==> (a + b)[sp.k] == a[sp.k];
  }

  /**
   A directive and what follows it print independently, each from its own arguments. Octal and
   hexadecimal conversions are left out, because a quad-sized one looks back at the last shorter one.
   */
  lemma SequenceLaw(flags: seq<Char>, w: Count, p: Count, size: seq<Char>, c: Char, g: CString, quad: seq<Char>, a: seq<Arg>, b: seq<Arg>)
    requires WellWritten(flags, w, p, size, c, quad) && c !in {111, 88, 120}
    requires c !in {69, 71, 101, 102, 103, 110, 112}       // floating point, %n and %p
    requires |a| == Arguments(w, p, c)
    ensures var d := DirectiveText(flags, w, p, size, c);
      NulFree(d) && NulFree(d + g) && Output(d + g, a + b, quad) == Output(d, a, quad) + Output(g, b, quad)
  {
    hide *;
    var d, sp := DirectiveText(flags, w, p, size, c), Meant(flags, w, p, size, c, quad, a);
    DirectiveFirst(flags, w, p, size, c, g, quad, a + b);
    DirectivePrints(flags, w, p, size, c, quad, a);
    OwnArguments(flags, w, p, size, c, quad, a, b);
    ConvertTakes(c, sp, a);
    MeantIs(flags, w, p, size, c, quad, a);
    ArgumentsAre(w, p, c);
    RenderedMoved(d, g, 0, a, b, 0, 0, quad);
    OutputIs(g, b, quad);
  }

  lemma ArgumentsAre(w: Count, p: Count, c: Char)
    ensures Arguments(w, p, c) == Taken(w) + Taken(p) + if c in {99, 100, 105, 111, 115, 117, 88, 120} then 1 else 0
  {
  }

  lemma OutputIs(g: CString, args: seq<Arg>, quad: seq<Char>)
    ensures Output(g, args, quad) == Rendered(g, 0, args, 0, 0, quad)
  {
  }
}
