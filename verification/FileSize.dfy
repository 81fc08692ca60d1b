/**
 `apr_strfsize`: a file size in four characters.
 */
module FileSize {
  import opened Basics
  import opened CStrings
  import opened Numbers
  import Formats

  /** What is shown: a dash, plain bytes, tenths of a unit, or whole units. Unit 0 is K. */
  datatype Shown = Dash | Bytes(n: nat) | Tenths(q: nat, r: nat, u: nat) | Whole(n: nat, u: nat)

  /** `ord` */
  const UNITS: seq<Char> := [75, 77, 71, 84, 80, 69]

  /** The bytes in 1024 to the power of `u`. */
  function Size(u: nat): nat
    requires u <= 6
  {
    match u
    case 0 => 1
    case 1 => 0x400
    case 2 => 0x10_0000
    case 3 => 0x4000_0000
    case 4 => 0x100_0000_0000
    case 5 => 0x4_0000_0000_0000
    case 6 => 0x1000_0000_0000_0000
  }

  /** `%3d` */
  function ThreeWide(n: nat): seq<Char> {
    if n < 10 then [SPACE, SPACE] + Decimal(n) else if n < 100 then [SPACE] + Decimal(n) else Decimal(n)
  }

  /** The four characters. */
  function Render(x: Shown): seq<Char>
    requires x.Tenths? || x.Whole? ==> x.u < 6
  {
    match x
    case Dash => [SPACE, SPACE, MINUS, SPACE]
    case Bytes(n) => ThreeWide(n) + [SPACE]
    case Tenths(q, r, u) => Decimal(q) + [46] + Decimal(r) + [UNITS[u]]
    case Whole(n, u) => ThreeWide(n) + [UNITS[u]]
  }

  function Abs(x: int): nat {
    if x < 0 then -x else x
  }

  /**
   How close the shown value is: tenths to 1/20 + 1/1024 of a unit, whole units to half a
   unit, both measured in bytes.
   */
  predicate Close(x: Shown, size: int) {
    match x
    case Dash => size < 0
    case Bytes(n) => n == size < 973
    case Tenths(q, r, u) =>
      u < 6 && q < 10 && r < 10 && 1024 * Abs((10 * q + r) * Size(u + 1) - 10 * size) <= 522 * Size(u + 1)
    case Whole(n, u) =>
      u < 6 && 9 < n < 974 && 2 * Abs(n * Size(u + 1) - size) <= Size(u + 1)
  }

  /**
   Which value is shown. The unit is the first one that leaves fewer than 973, tenths go up to 9.9 and
   a bit, and both are rounded to the nearest, halves up, from the size in the next smaller unit.
   */
  predicate Chosen(x: Shown, size: int) {
    match x
    case Dash => size < 0
    case Bytes(n) => n == size < 973
    case Tenths(q, r, u) =>
      u < 6 && 973 <= size / Size(u) < 9 * 1024 + 973 && r < 10 && 10 * q + r == (10 * (size / Size(u)) + 512) / 1024
    case Whole(n, u) =>
      u < 6 && 9 * 1024 + 973 <= size / Size(u) < 973 * 1024 && n == (size / Size(u) + 512) / 1024
  }

  lemma Grows(a: int, b: int, p: nat)
    ensures a <= b ==> a * p <= b * p
  {
  }

  lemma Quotient(size: int, q: nat, p: nat, f: nat)
    requires Parts(size, q, p, f)
    ensures p > 0 && size / p == q
  {
    var d := size / p;
    Grows(d + 1, q, p);
    Grows(q + 1, d, p);
  }

  /** The choice made from the size in the unit before. */
  lemma ChoiceMade(size: int, q: nat, u: nat, f: nat)
    requires u < 6 && 973 <= q < 973 * 1024 && Parts(size, q, Size(u), f)
    ensures var h, l := q / 1024, q % 1024;
      var r := (l * 5 + 256) / 512;
      Chosen(if h < 9 || (h == 9 && l < 973) then if r >= 10 then Tenths(h + 1, 0, u) else Tenths(h, r, u)
             else Whole(if l >= 512 then h + 1 else h, u), size)
  {
    Quotient(size, q, Size(u), f);
    hide Size;
  }

  /** `size` is `q` units of `p` bytes and `f` bytes more. */
  predicate Parts(size: int, q: nat, p: nat, f: nat) {
    size == q * p + f && f < p
  }

  lemma Narrower(size: int, q: nat, p: nat, f: nat) returns (g: nat)
    requires Parts(size, q, p, f)
    ensures Parts(size, q / 1024, 1024 * p, g) && g == q % 1024 * p + f
  {
    var h, l := q / 1024, q % 1024;
    g := l * p + f;
    Expand(h, l, p);
    assert h * 1024 + l == q;
    Bounds(l, 1023, p);
  }

  lemma Expand(h: nat, l: nat, p: nat)
    ensures (h * 1024 + l) * p == h * (1024 * p) + l * p
  {
  }

  lemma Bounds(e: int, k: int, p: nat)
    requires -k <= e <= k
    ensures -k * p <= e * p <= k * p
  {
    assert 0 <= (k - e) * p && 0 <= (k + e) * p;
  }

  lemma CloseWhole(size: int, h: nat, l: nat, p: nat, f: nat)
    requires l < 1024 && Parts(size, h, 1024 * p, l * p + f) && f < p
    ensures var n := if l >= 512 then h + 1 else h; 2 * Abs(n * (1024 * p) - size) <= 1024 * p
  {
    if l >= 512 {
      Bounds(1024 - l, 512, p);
      assert (1024 - l) * p == 1024 * p - l * p;
      assert (h + 1) * (1024 * p) == h * (1024 * p) + 1024 * p;
    } else {
      Bounds(l, 511, p);
    }
  }

  lemma TenthsExpand(h: nat, r: nat, l: nat, p: nat)
    ensures (10 * h + r) * (1024 * p) == 10 * (h * (1024 * p)) + 1024 * (r * p)
    ensures (1024 * r - 10 * l) * p == 1024 * (r * p) - 10 * (l * p)
  {
    assert (10 * h + r) * (1024 * p) == (10 * h) * (1024 * p) + r * (1024 * p);
    assert r * (1024 * p) == 1024 * (r * p);
    assert (1024 * r - 10 * l) * p == (1024 * r) * p - (10 * l) * p;
  }

  lemma CloseTenths(size: int, h: nat, l: nat, p: nat, f: nat, r: nat)
    requires l < 1024 && Parts(size, h, 1024 * p, l * p + f) && f < p
    requires r == (l * 5 + 256) / 512
    ensures 1024 * Abs((10 * h + r) * (1024 * p) - 10 * size) <= 522 * (1024 * p)
  {
    // r is l * 10 / 1024 rounded, so 1024 * r lies within 512 of 10 * l.
    assert -512 <= 1024 * r - 10 * l <= 512;
    Bounds(1024 * r - 10 * l, 512, p);
    TenthsExpand(h, r, l, p);
  }

  /** `apr_strfsize`, for any size a 64-bit offset can hold. */
  method Strfsize(size: Int64) returns (shown: Shown, text: seq<Char>)
    ensures Chosen(shown, size) && Close(shown, size) && text == Render(shown) && |text| == 4
  {
    if size < 0 {
      FourCharacters(Dash, size);
      return Dash, Render(Dash);
    }
    if size < 973 {
      FourCharacters(Bytes(size), size);
      return Bytes(size), Render(Bytes(size));
    }
    hide Close, Chosen;
    var rest: nat, o := size, 0;
    ghost var f: nat := 0;
    while true
      invariant o <= 5 && rest >= 973 && Parts(size, rest, Size(o), f)
      decreases 6 - o
    {
      var remain := rest % 1024;
      ghost var p := Size(o);
      ghost var g := Narrower(size, rest, p, f);
      if rest / 1024 < 973 {
        ChoiceMade(size, rest, o, f);
      }
      rest := rest / 1024;
      if rest >= 973 {
        UnitLeft(size, rest, o + 1, g);
        f := g;
        o := o + 1;
        continue;
      }
      if rest < 9 || (rest == 9 && remain < 973) {
        TenthsClose(size, rest, remain, o, f);
        remain := (remain * 5 + 256) / 512;
        if remain >= 10 {
          rest, remain := rest + 1, 0;
        }
        shown := Tenths(rest, remain, o);
      } else {
        WholeClose(size, rest, remain, o, f);
        if remain >= 512 {
          rest := rest + 1;
        }
        shown := Whole(rest, o);
      }
      FourCharacters(shown, size);
      return shown, Render(shown);
    }
  }

  lemma WholeClose(size: int, h: nat, l: nat, u: nat, f: nat)
    requires u < 6 && l < 1024 && 9 <= h < 973 && (h == 9 ==> l >= 973)
    requires f < Size(u) && Parts(size, h, 1024 * Size(u), l * Size(u) + f)
    ensures Close(Whole(if l >= 512 then h + 1 else h, u), size)
  {
    CloseWhole(size, h, l, Size(u), f);
    assert Size(u + 1) == 1024 * Size(u);
    hide Size;
  }

  lemma TenthsClose(size: int, h: nat, l: nat, u: nat, f: nat)
    requires u < 6 && l < 1024 && h <= 9 && (h == 9 ==> l < 973)
    requires f < Size(u) && Parts(size, h, 1024 * Size(u), l * Size(u) + f)
    ensures var r := (l * 5 + 256) / 512;
      Close(if r >= 10 then Tenths(h + 1, 0, u) else Tenths(h, r, u), size)
  {
    var r := (l * 5 + 256) / 512;
    CloseTenths(size, h, l, Size(u), f, r);
    assert Size(u + 1) == 1024 * Size(u);
    hide Size;
    assert r >= 10 ==> r == 10 && h < 9;
  }

  lemma UnitLeft(size: Int64, q: nat, o: nat, f: nat)
    requires o <= 6 && q >= 973 && Parts(size, q, Size(o), f)
    ensures o <= 5
  {
    assert o == 6 ==> q * Size(6) <= size;
  }

  lemma DecimalWidth(n: nat)
    requires n < 1000
    ensures |Decimal(n)| == if n < 10 then 1 else if n < 100 then 2 else 3
  {
    assert n >= 100 ==> |Numeral(n / 10 / 10, 10, false)| == 1;
    assert n >= 10 ==> |Numeral(n / 10, 10, false)| == if n < 100 then 1 else 2;
  }

  lemma FourCharacters(x: Shown, size: int)
    requires Close(x, size)
    ensures |Render(x)| == 4
  {
    match x
    case Dash =>
    case Bytes(n) => DecimalWidth(n);
    case Tenths(q, r, u) => DecimalWidth(q); DecimalWidth(r);
    case Whole(n, u) => DecimalWidth(n);
  }

  /** 1024 to the power of `n`. */
  function Thousands(n: nat): nat {
    if n == 0 then 1 else 1024 * Thousands(n - 1)
  }

  lemma {:induction false} SizeIs(u: nat)
    requires u <= 6
    ensures Size(u) == Thousands(u)
  {
    if u > 0 {
      SizeIs(u - 1);
      SizeMore(u - 1);
    }
    hide Size;
  }

  lemma SizeMore(u: nat)
    requires u < 6
    ensures Size(u + 1) == 1024 * Size(u)
  {
  }

  lemma DigitsAre(n: nat)
    requires n < 1000
    ensures Decimal(n) == if n < 10 then [48 + n] else if n < 100 then [48 + n / 10, 48 + n % 10]
      else [48 + n / 100, 48 + n / 10 % 10, 48 + n % 10]
  {
    assert n >= 100 ==> Numeral(n / 100, 10, false) == [48 + n / 100];
    assert n >= 10 ==> Numeral(n / 10, 10, false) == if n < 100 then [48 + n / 10] else [48 + n / 100, 48 + n / 10 % 10];
  }

  /** The four characters spelled out, and the unit the letter stands for: K is 1024 bytes, and each further letter 1024 times as much. */
  lemma TextLaw(x: Shown, size: int)
    requires Close(x, size)
    ensures x.Dash? ==> Render(x) == [32, 32, 45, 32]
    ensures x.Tenths? ==>
      && x.u < 6 && Size(x.u + 1) == Thousands(x.u + 1)
      && Render(x) == [48 + x.q, 46, 48 + x.r, "KMGTPE"[x.u] as int]
    ensures x.Bytes? || x.Whole? ==>
      var n := x.n;
      && n < 1000 && (x.Whole? ==> x.u < 6 && Size(x.u + 1) == Thousands(x.u + 1))
      && Render(x) == [if n < 100 then 32 else 48 + n / 100, if n < 10 then 32 else 48 + n / 10 % 10, 48 + n % 10,
                       if x.Bytes? then 32 else "KMGTPE"[x.u] as int]
  {
    hide Size, Decimal, Numeral, UNITS, Thousands;
    if x.Tenths? {
      SizeIs(x.u + 1);
      DigitsAre(x.q);
      DigitsAre(x.r);
      LetterIs(x.u);
    } else if x.Whole? {
      SizeIs(x.u + 1);
      DigitsAre(x.n);
      LetterIs(x.u);
    } else if x.Bytes? {
      DigitsAre(x.n);
    }
  }

  lemma LetterIs(u: nat)
    requires u < 6
    ensures UNITS[u] == "KMGTPE"[u] as int
  {
  }

  // ---------- the formats ----------

  const PLAIN_FORMAT: seq<Char> := [37, 51, 100, 32]                  // "%3d "
  const TENTHS_FORMAT: seq<Char> := [37, 100, 46, 37, 100, 37, 99]    // "%d.%d%c"
  const WHOLE_FORMAT: seq<Char> := [37, 51, 100, 37, 99]              // "%3d%c"

  /** `%d` at position `i`, and `%c`; a width of three as well. */
  function Directive(width: Option<nat>, at: nat, k: nat): Formats.Spec {
    Formats.Spec(Formats.NO_FLAGS, width, None, Formats.Plain, at, k)
  }

  /** What comes of a small number, with and without a width. */
  lemma NumberText(n: nat, width: Option<nat>, at: nat, args: seq<Formats.Arg>, k: nat)
    requires n < 1000 && k < |args| && args[k] == Formats.Num(n) && (width == None || width == Some(3))
    ensures var c := Formats.Convert(100, Directive(width, at, k), args, 0);
      && c.k == k + 1 && c.last == 0
      && Formats.Padded(c.body, Directive(width, at, k)) == if width == None then Decimal(n) else ThreeWide(n)
  {
    DecimalWidth(n);
    hide Numeral;
    assert Formats.SignedOf(n, TWO_32) == n;
    assert Repeat(SPACE, 2) == [SPACE, SPACE] && Repeat(SPACE, 1) == [SPACE];
  }

  /** What comes of a unit letter. */
  lemma UnitText(u: nat, at: nat, args: seq<Formats.Arg>, k: nat)
    requires u < 6 && k < |args| && args[k] == Formats.Num(UNITS[u])
    ensures var c := Formats.Convert(99, Directive(None, at, k), args, 0);
      c.k == k + 1 && c.last == 0 && Formats.Padded(c.body, Directive(None, at, k)) == [UNITS[u]]
  {
  }

  lemma PlainSpec(args: seq<Formats.Arg>, quad: seq<Char>)
    requires quad == [] || quad[0] != 100
    ensures Formats.SpecAt(PLAIN_FORMAT, 1, args, 0, quad) == Directive(Some(3), 2, 0)
  {
    assert Formats.FlagsAt(PLAIN_FORMAT, 1, Formats.NO_FLAGS) == (Formats.NO_FLAGS, 1);
    assert Formats.NumberAt(PLAIN_FORMAT, 1, 0) == (3, 2);
    assert PLAIN_FORMAT[2..][0] == 100;
  }

  lemma WholeSpec(args: seq<Formats.Arg>, quad: seq<Char>)
    requires quad == [] || (quad[0] != 100 && quad[0] != 99)
    ensures Formats.SpecAt(WHOLE_FORMAT, 1, args, 0, quad) == Directive(Some(3), 2, 0)
    ensures Formats.SpecAt(WHOLE_FORMAT, 4, args, 1, quad) == Directive(None, 4, 1)
  {
    assert Formats.FlagsAt(WHOLE_FORMAT, 1, Formats.NO_FLAGS) == (Formats.NO_FLAGS, 1);
    assert Formats.NumberAt(WHOLE_FORMAT, 1, 0) == (3, 2);
    assert WHOLE_FORMAT[2..][0] == 100 && WHOLE_FORMAT[4..][0] == 99;
  }

  lemma TenthsSpec(args: seq<Formats.Arg>, quad: seq<Char>)
    requires quad == [] || (quad[0] != 100 && quad[0] != 99)
    ensures Formats.SpecAt(TENTHS_FORMAT, 1, args, 0, quad) == Directive(None, 1, 0)
    ensures Formats.SpecAt(TENTHS_FORMAT, 4, args, 1, quad) == Directive(None, 4, 1)
    ensures Formats.SpecAt(TENTHS_FORMAT, 6, args, 2, quad) == Directive(None, 6, 2)
  {
    assert TENTHS_FORMAT[1..][0] == 100 && TENTHS_FORMAT[4..][0] == 100 && TENTHS_FORMAT[6..][0] == 99;
  }

  /** The format and the arguments for what is shown. */
  function FormatOf(x: Shown): seq<Char>
    requires !x.Dash?
  {
    match x
    case Bytes(_) => PLAIN_FORMAT
    case Tenths(_, _, _) => TENTHS_FORMAT
    case Whole(_, _) => WHOLE_FORMAT
  }

  function ArgsOf(x: Shown): seq<Formats.Arg>
    requires !x.Dash? && (x.Tenths? || x.Whole? ==> x.u < 6)
  {
    match x
    case Bytes(n) => [Formats.Num(n)]
    case Tenths(q, r, u) => [Formats.Num(q), Formats.Num(r), Formats.Num(UNITS[u])]
    case Whole(n, u) => [Formats.Num(n), Formats.Num(UNITS[u])]
  }

  lemma DirectiveAt(width: Option<nat>, at: nat, k: nat)
    ensures Directive(width, at, k).at == at
  {
  }

  /** A unit letter at the end of the format. */
  lemma UnitPrinted(u: nat, f: CString, i: nat, args: seq<Formats.Arg>, k: nat, quad: seq<Char>)
    requires u < 6 && k < |args| && args[k] == Formats.Num(UNITS[u]) && i + 2 == |f| && f[i] == 37 && f[i + 1] == 99
    requires Formats.SpecAt(f, i + 1, args, k, quad) == Directive(None, i + 1, k)
    ensures Formats.Rendered(f, i, args, k, 0, quad) == [UNITS[u]]
  {
    hide Formats.SpecAt, Formats.Convert, Formats.Padded, Formats.Rendered, Directive;
    DirectiveAt(None, i + 1, k);
    UnitText(u, i + 1, args, k);
    Formats.RenderedDirective(f, i, args, k, 0, quad, Directive(None, i + 1, k),
      Formats.Convert(99, Directive(None, i + 1, k), args, 0));
    Formats.RenderedEnd(f, args, k + 1, 0, quad);
  }

  /** A number, and what follows it. */
  lemma NumberPrinted(n: nat, width: Option<nat>, f: CString, i: nat, at: nat, args: seq<Formats.Arg>, k: nat, quad: seq<Char>)
    requires n < 1000 && k < |args| && args[k] == Formats.Num(n) && (width == None || width == Some(3))
    requires i < |f| && f[i] == 37 && at < |f| && f[at] == 100
    requires Formats.SpecAt(f, i + 1, args, k, quad) == Directive(width, at, k)
    ensures Formats.Rendered(f, i, args, k, 0, quad)
      == (if width == None then Decimal(n) else ThreeWide(n)) + Formats.Rendered(f, at + 1, args, k + 1, 0, quad)
  {
    hide Formats.SpecAt, Formats.Convert, Formats.Padded, Formats.Rendered, Directive, ThreeWide;
    DirectiveAt(width, at, k);
    NumberText(n, width, at, args, k);
    Formats.RenderedDirective(f, i, args, k, 0, quad, Directive(width, at, k),
      Formats.Convert(100, Directive(width, at, k), args, 0));
  }

  lemma BytesPrinted(n: nat, args: seq<Formats.Arg>, quad: seq<Char>)
    requires n < 1000 && args == [Formats.Num(n)] && (quad == [] || quad[0] != 100)
    ensures Formats.Output(PLAIN_FORMAT, args, quad) == ThreeWide(n) + [SPACE]
  {
    hide Formats.SpecAt, Formats.Rendered, ThreeWide, Directive;
    PlainSpec(args, quad);
    NumberPrinted(n, Some(3), PLAIN_FORMAT, 0, 2, args, 0, quad);
    Formats.RenderedPlain(PLAIN_FORMAT, 3, args, 1, 0, quad);
    Formats.RenderedEnd(PLAIN_FORMAT, args, 1, 0, quad);
  }

  lemma WholePrinted(n: nat, u: nat, args: seq<Formats.Arg>, quad: seq<Char>)
    requires n < 1000 && u < 6 && args == [Formats.Num(n), Formats.Num(UNITS[u])]
    requires quad == [] || (quad[0] != 100 && quad[0] != 99)
    ensures Formats.Output(WHOLE_FORMAT, args, quad) == ThreeWide(n) + [UNITS[u]]
  {
    hide Formats.SpecAt, Formats.Rendered, ThreeWide, Directive;
    WholeSpec(args, quad);
    UnitPrinted(u, WHOLE_FORMAT, 3, args, 1, quad);
    NumberPrinted(n, Some(3), WHOLE_FORMAT, 0, 2, args, 0, quad);
  }

  lemma TenthsPrinted(q: nat, r: nat, u: nat, args: seq<Formats.Arg>, quad: seq<Char>)
    requires q < 1000 && r < 1000 && u < 6 && args == [Formats.Num(q), Formats.Num(r), Formats.Num(UNITS[u])]
    requires quad == [] || (quad[0] != 100 && quad[0] != 99)
    ensures Formats.Output(TENTHS_FORMAT, args, quad) == Decimal(q) + [46] + Decimal(r) + [UNITS[u]]
  {
    hide Formats.SpecAt, Formats.Rendered, Directive, Numeral;
    TenthsSpec(args, quad);
    UnitPrinted(u, TENTHS_FORMAT, 5, args, 2, quad);
    NumberPrinted(r, None, TENTHS_FORMAT, 3, 4, args, 1, quad);
    Formats.RenderedPlain(TENTHS_FORMAT, 2, args, 1, 0, quad);
    NumberPrinted(q, None, TENTHS_FORMAT, 0, 1, args, 0, quad);
    Regroup(Decimal(q), [46], Decimal(r) + [UNITS[u]]);
    Regroup(Decimal(q) + [46], Decimal(r), [UNITS[u]]);
  }

  /** The four characters are what the formatter prints, whole within the five that `buf` has room for. */
  lemma Printed(x: Shown, size: int, quad: seq<Char>)
    requires Close(x, size) && !x.Dash? && (quad == [] || (quad[0] != 100 && quad[0] != 99))
    ensures Formats.Output(FormatOf(x), ArgsOf(x), quad) == Render(x)
  {
    match x
    case Bytes(n) => BytesPrinted(n, ArgsOf(x), quad);
    case Whole(n, u) => WholePrinted(n, u, ArgsOf(x), quad);
    case Tenths(q, r, u) => TenthsPrinted(q, r, u, ArgsOf(x), quad);
  }
}
