/**
 What each escaping routine writes for each character, and what unescaping makes of each
 sequence, with the characters spelled out as codes.
 */
module EscapeLaws {
  import opened Basics
  import opened Octets
  import opened CharClasses
  import UrlEscape
  import EntityEscape
  import EchoEscape

  /** "0123456789abcdef" */
  const HEX: seq<Byte> := [48, 49, 50, 51, 52, 53, 54, 55, 56, 57, 97, 98, 99, 100, 101, 102]

  predicate Alphanumeric(c: Byte) { 48 <= c <= 57 || 65 <= c <= 90 || 97 <= c <= 122 }

  lemma HexLaw(v: nat)
    requires v < 16
    ensures HexDigit(v) == HEX[v]
  {
    if v < 8 {
    } else if v < 12 {
    }
  }

  // ---------- percent escapes ----------

  /** Urlencoded: letters, digits, `*`, `-`, `.` and `_` stay, a blank becomes `+`, the others are escaped. */
  lemma UrlencodedLaw(c: Byte)
    requires c != 0
    ensures UrlEscape.Escaped([c], true) ==
      if Alphanumeric(c) || c in {42, 45, 46, 95} then [c]
      else if c == 32 then [43]
      else [37, HEX[c / 16], HEX[c % 16]]
  {
    HexLaw(c / 16);
    HexLaw(c % 16);
    hide HexDigit;
    UrlEscape.EscapedMore([c], true);
    UrlEscape.NothingEscaped(true);
    assert [c][1..] == [];
  }

  /** Path segments: the pchar characters of section 3.3 of RFC 3986 stay, all but the semicolon; the others are escaped. */
  lemma PathSegmentLaw(c: Byte)
    requires c != 0
    ensures UrlEscape.Escaped([c], false) ==
      if || Alphanumeric(c) || c in {45, 46, 95, 126}             // unreserved
         || c in {33, 36, 38, 39, 40, 41, 42, 43, 44, 61}         // sub-delims
         || c in {58, 64}
      then [c] else [37, HEX[c / 16], HEX[c % 16]]
  {
    HexLaw(c / 16);
    HexLaw(c % 16);
    hide HexDigit;
    UrlEscape.EscapedMore([c], false);
    UrlEscape.NothingEscaped(false);
    assert [c][1..] == [];
  }

  /** Texts are escaped character by character. */
  lemma {:induction false} UrlLaw(u: seq<Byte>, v: seq<Byte>, form: bool)
    ensures UrlEscape.Escaped(u + v, form) == UrlEscape.Escaped(u, form) + UrlEscape.Escaped(v, form)
  {
    if u == [] {
      UrlEscape.NothingEscaped(form);
      assert u + v == v;
    } else {
      hide UrlEscape.Escaped, UrlEscape.EscapedChar;
      UrlLaw(u[1..], v, form);
      assert (u + v)[0] == u[0] && (u + v)[1..] == u[1..] + v;
      UrlEscape.EscapedMore(u, form);
      UrlEscape.EscapedMore(u + v, form);
      Regroup(UrlEscape.EscapedChar(u[0], form), UrlEscape.Escaped(u[1..], form), UrlEscape.Escaped(v, form));
    }
  }

  // ---------- reading percent escapes ----------

  /** The value of a hexadecimal digit in either case; 16 for anything else. */
  function HexValue(c: Byte): nat {
    if 48 <= c <= 57 then c - 48 else if 65 <= c <= 70 then c - 55 else if 97 <= c <= 102 then c - 87 else 16
  }

  lemma HexRead(h: Byte, l: Byte)
    ensures IsHex(h) <==> HexValue(h) < 16
    ensures HexValue(h) < 16 && HexValue(l) < 16 ==> IsHex(l) && FromHexPair(h, l) == 16 * HexValue(h) + HexValue(l)
  {
  }

  /** Met later, a broken escape outweighs a refused character, and both outweigh success. */
  function Outweighed(r: Report, later: Report): Report {
    if r == Invalid || later == Invalid then Invalid
    else if r == Refused || later == Refused then Refused
    else if r == Done || later == Done then Done else NotFound
  }

  /** The text, and what is reported. */
  function Read(s: seq<Byte>, o: UrlEscape.Options): (seq<Byte>, Report) {
    (UrlEscape.Unescaped(s, o).text, UrlEscape.Unescaped(s, o).Report())
  }

  lemma ReadMore(n: nat, s: seq<Byte>, o: UrlEscape.Options)
    requires s != [] && n == UrlEscape.Width(s)
    ensures var step := UrlEscape.Step(s, o);
      Read(s, o) == (step.text + Read(s[n..], o).0, Outweighed(step.Report(), Read(s[n..], o).1))
  {
    UrlEscape.UnescapedMore(s, o);
    hide UrlEscape.Unescaped, UrlEscape.Step, UrlEscape.Width;
  }

  lemma ReadNothingLaw(o: UrlEscape.Options)
    ensures Read([], o) == ([], NotFound)
  {
  }

  /** Other characters than `%`, and `+` where it stands for a blank, are kept. */
  lemma ReadPlainLaw(c: Byte, t: seq<Byte>, o: UrlEscape.Options)
    requires c != 37
    ensures Read([c] + t, o) ==
      if c == 43 && o.plus then ([32] + Read(t, o).0, Outweighed(Done, Read(t, o).1))
      else ([c] + Read(t, o).0, Read(t, o).1)
  {
    ReadMore(1, [c] + t, o);
    assert ([c] + t)[1..] == t;
    hide Read;
  }

  /**
   A percent sign and two hexadecimal digits stand for an octet. NUL and forbidden octets are
   refused, though written; reserved ones are left as they are.
   */
  lemma ReadEscapeLaw(h: Byte, l: Byte, t: seq<Byte>, o: UrlEscape.Options)
    requires HexValue(h) < 16 && HexValue(l) < 16
    ensures var c: Byte := 16 * HexValue(h) + HexValue(l);
      Read([37, h, l] + t, o) ==
        if c == 0 || (o.forbid.Some? && c in o.forbid.value) then ([c] + Read(t, o).0, Outweighed(Refused, Read(t, o).1))
        else if o.reserved.Some? && c in o.reserved.value then ([37, h, l] + Read(t, o).0, Read(t, o).1)
        else ([c] + Read(t, o).0, Outweighed(Done, Read(t, o).1))
  {
    var s := [37, h, l] + t;
    HexRead(h, l);
    HexRead(l, l);
    ReadMore(3, s, o);
    assert s[3..] == t && s[..3] == [37, h, l];
    hide Read, FromHexPair, IsHex, HexValue;
  }

  /** A percent sign without two hexadecimal digits behind it is kept and makes the text invalid. */
  lemma ReadBrokenLaw(t: seq<Byte>, o: UrlEscape.Options)
    requires |t| < 2 || HexValue(t[0]) == 16 || HexValue(t[1]) == 16
    ensures Read([37] + t, o) == ([37] + Read(t, o).0, Invalid)
  {
    var s := [37] + t;
    if |t| > 1 {
      HexRead(t[0], t[0]);
      HexRead(t[1], t[1]);
      assert s[1] == t[0] && s[2] == t[1];
    }
    ReadMore(1, s, o);
    assert s[1..] == t;
    hide Read, IsHex, HexValue;
  }

  // ---------- echo ----------

  /**
   Printable ASCII stays but for the backslash and, with `quote`, the double quote; seven control
   characters have letters, and what is left is written in hexadecimal.
   */
  lemma EchoLaw(c: Byte, quote: bool)
    requires c != 0
    ensures EchoEscape.Escaped([c], quote) ==
      if c == 7 then [92, 97]
      else if c == 8 then [92, 98]
      else if c == 9 then [92, 116]
      else if c == 10 then [92, 110]
      else if c == 11 then [92, 118]
      else if c == 12 then [92, 102]
      else if c == 13 then [92, 114]
      else if c == 92 then [92, 92]
      else if c == 34 && quote then [92, 34]
      else if 32 <= c <= 126 then [c]
      else [92, 120, HEX[c / 16], HEX[c % 16]]
  {
    HexLaw(c / 16);
    HexLaw(c % 16);
    hide HexDigit;
    EchoEscape.EscapedMore([c], quote);
    EchoEscape.NothingEscaped(quote);
    assert [c][1..] == [];
  }

  lemma {:induction false} EchoTextLaw(u: seq<Byte>, v: seq<Byte>, quote: bool)
    ensures EchoEscape.Escaped(u + v, quote) == EchoEscape.Escaped(u, quote) + EchoEscape.Escaped(v, quote)
  {
    if u == [] {
      EchoEscape.NothingEscaped(quote);
      assert u + v == v;
    } else {
      hide EchoEscape.Escaped, EchoEscape.EscapedChar;
      EchoTextLaw(u[1..], v, quote);
      assert (u + v)[0] == u[0] && (u + v)[1..] == u[1..] + v;
      EchoEscape.EscapedMore(u, quote);
      EchoEscape.EscapedMore(u + v, quote);
      Regroup(EchoEscape.EscapedChar(u[0], quote), EchoEscape.Escaped(u[1..], quote), EchoEscape.Escaped(v, quote));
    }
  }

  // ---------- entities ----------

  /** Four characters have names; with `toasc` the others beyond ASCII are written as a number that is not closed. */
  lemma EntityLaw(c: Byte, toasc: bool)
    requires c != 0
    ensures EntityEscape.Escaped([c], toasc) ==
      if c == 60 then [38, 108, 116, 59]                   // "&lt;"
      else if c == 62 then [38, 103, 116, 59]              // "&gt;"
      else if c == 38 then [38, 97, 109, 112, 59]          // "&amp;"
      else if c == 34 then [38, 113, 117, 111, 116, 59]    // "&quot;"
      else if toasc && c >= 128 then [38, 35, 48 + c / 100, 48 + c / 10 % 10, 48 + c % 10]
      else [c]
  {
    EntityEscape.EscapedChars(c, toasc);
    EntityEscape.EscapedMore([c], toasc);
    EntityEscape.NothingEscaped(toasc);
    assert [c][1..] == [];
  }

  lemma {:induction false} EntityTextLaw(u: seq<Byte>, v: seq<Byte>, toasc: bool)
    ensures EntityEscape.Escaped(u + v, toasc) == EntityEscape.Escaped(u, toasc) + EntityEscape.Escaped(v, toasc)
  {
    if u == [] {
      EntityEscape.NothingEscaped(toasc);
      assert u + v == v;
    } else {
      hide EntityEscape.Escaped, EntityEscape.EscapedChar;
      EntityTextLaw(u[1..], v, toasc);
      assert (u + v)[0] == u[0] && (u + v)[1..] == u[1..] + v;
      EntityEscape.EscapedMore(u, toasc);
      EntityEscape.EscapedMore(u + v, toasc);
      Regroup(EntityEscape.EscapedChar(u[0], toasc), EntityEscape.Escaped(u[1..], toasc), EntityEscape.Escaped(v, toasc));
    }
  }

  // ---------- reading entities ----------

  /** The text, and whether an entity was replaced. */
  function ReadEntities(s: seq<Byte>): (seq<Byte>, bool) {
    (EntityEscape.Unescaped(s).0, EntityEscape.UnescapeReport(s) == Done)
  }

  lemma EntitiesMore(n: nat, s: seq<Byte>)
    requires s != [] && n == EntityEscape.Take(s).width
    ensures var t := EntityEscape.Take(s);
      ReadEntities(s) == (t.text + ReadEntities(s[n..]).0, t.found || ReadEntities(s[n..]).1)
  {
    EntityEscape.UnescapedMore(s);
    hide EntityEscape.Unescaped, EntityEscape.Take;
  }

  /** Nothing is made of other characters than `&`, nor of one with no semicolon behind it. */
  lemma EntityPlainLaw(c: Byte, t: seq<Byte>)
    requires c != 38 || 59 !in t
    ensures ReadEntities([c] + t) == ([c] + ReadEntities(t).0, ReadEntities(t).1)
  {
    var s := [c] + t;
    EntityEscape.SemicolonFirst(s, 1);
    assert forall k :: 1 <= k < |s| ==> s[k] == t[k - 1];
    EntitiesMore(1, s);
    assert s[1..] == t;
    hide ReadEntities;
  }

  /** The number that digits spell. */
  function Spelled(ds: seq<Byte>): int {
    if ds == [] then 0 else Spelled(ds[..|ds| - 1]) * 10 + (ds[|ds| - 1] as int - 48)
  }

  function Tens(n: nat): nat {
    if n == 0 then 1 else 10 * Tens(n - 1)
  }

  lemma {:induction false} SpelledBound(ds: seq<Byte>)
    requires forall k :: 0 <= k < |ds| ==> 48 <= ds[k] <= 57
    ensures 0 <= Spelled(ds) < Tens(|ds|)
  {
    if ds != [] {
      SpelledBound(ds[..|ds| - 1]);
    }
  }

  lemma {:induction false} TensBound(n: nat)
    requires n <= 9
    ensures Tens(n) <= 1000000000
    decreases 9 - n
  {
    if n < 9 {
      TensBound(n + 1);
    } else {
      assert Tens(3) == 1000;
      assert Tens(6) == 1000000;
    }
  }

  /** Up to nine digits are read without wrapping. */
  lemma {:induction false} DigitsRead(s: seq<Byte>, ds: seq<Byte>, j: nat, k: nat)
    requires k <= |ds| <= 9 && j + |ds| <= |s| && s[j..j + |ds|] == ds
    requires forall i :: 0 <= i < |ds| ==> 48 <= ds[i] <= 57
    ensures EntityEscape.Number(s, j + k, j + |ds|, Spelled(ds[..k])) == (j + |ds|, Spelled(ds))
    decreases |ds| - k
  {
    hide EntityEscape.Number, Spelled, Tens;
    EntityEscape.NumberFrom(s, j + k, j + |ds|, Spelled(ds[..k]));
    if k == |ds| {
      assert ds[..k] == ds;
    } else {
      assert s[j + k] == s[j..j + |ds|][k] == ds[k];
      SpelledStep(ds, k);
      DigitsRead(s, ds, j, k + 1);
    }
  }

  lemma SpelledStep(ds: seq<Byte>, k: nat)
    requires k < |ds| <= 9 && forall i :: 0 <= i < |ds| ==> 48 <= ds[i] <= 57
    ensures EntityEscape.Wrapped32(Spelled(ds[..k]) * 10 + ds[k] - 48) == Spelled(ds[..k + 1])
  {
    assert ds[..k + 1][..k] == ds[..k];
    SpelledBound(ds[..k + 1]);
    TensBound(k + 1);
    hide Tens;
  }

  /** A number between `&#` and a semicolon stands for the character with that code, if it can be shown, else for nothing. */
  lemma EntityNumberLaw(ds: seq<Byte>, t: seq<Byte>)
    requires |ds| <= 9 && forall k :: 0 <= k < |ds| ==> 48 <= ds[k] <= 57
    ensures var n := Spelled(ds); var s := [38, 35] + (ds + ([59] + t));
      ReadEntities(s) ==
        if n == 9 || n == 10 || 32 <= n <= 126 || 161 <= n <= 255 then ([n] + ReadEntities(t).0, true) else ReadEntities(t)
  {
    hide *;
    NumberParts(ds, t);
    NumberAt([38, 35] + (ds + ([59] + t)), ds, t);
  }

  lemma NumberAt(s: seq<Byte>, ds: seq<Byte>, t: seq<Byte>)
    requires |ds| <= 9 && forall k :: 0 <= k < |ds| ==> 48 <= ds[k] <= 57
    requires var i := 2 + |ds|;
      && |s| > i && s[0] == 38 && s[1] == 35 && s[2..i] == ds && s[i + 1..] == t
      && EntityEscape.Semicolon(s, 1) == i
    ensures var n := Spelled(ds);
      ReadEntities(s) ==
        if n == 9 || n == 10 || 32 <= n <= 126 || 161 <= n <= 255 then ([n] + ReadEntities(t).0, true) else ReadEntities(t)
  {
    hide *;
    var i, n := 2 + |ds|, Spelled(ds);
    SpelledNothing(ds);
    DigitsRead(s, ds, 2, 0);
    NumberTaken(s, i, n);
    EntitiesMore(i + 1, s);
    assert [] + ReadEntities(t).0 == ReadEntities(t).0;
  }

  lemma SpelledNothing(ds: seq<Byte>)
    ensures Spelled(ds[..0]) == 0
  {
  }

  lemma NumberParts(ds: seq<Byte>, t: seq<Byte>)
    requires forall k :: 0 <= k < |ds| ==> 48 <= ds[k] <= 57
    ensures var s, i := [38, 35] + (ds + ([59] + t)), 2 + |ds|;
      && s[0] == 38 && s[1] == 35 && s[2..i] == ds && s[i + 1..] == t
      && |s| > i && EntityEscape.Semicolon(s, 1) == i
  {
    var s, i := [38, 35] + (ds + ([59] + t)), 2 + |ds|;
    assert s[i] == 59 && forall k :: 2 <= k < i ==> s[k] == ds[k - 2];
    EntityEscape.SemicolonAt(s, 1, i);
  }

  lemma NumberTaken(s: seq<Byte>, i: nat, n: int)
    requires |s| > 2 && s[0] == 38 && s[1] == 35 && EntityEscape.Semicolon(s, 1) == i < |s|
    requires EntityEscape.Number(s, 2, i, 0) == (i, n)
    ensures var t := EntityEscape.Take(s);
      t.width == i + 1
      && (if n == 9 || n == 10 || 32 <= n <= 126 || 161 <= n <= 255 then t.text == [n] && t.found else t.text == [] && !t.found)
  {
    hide EntityEscape.Number, EntityEscape.Semicolon;
  }
}
