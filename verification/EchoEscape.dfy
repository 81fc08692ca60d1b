/**
 `apr_escape_echo`, its writing and its measuring pass, and the reading that undoes it.
 */
module EchoEscape {
  import opened Basics
  import opened Octets
  import opened CharClasses

  const BACKSLASH: Byte := 92
  const QUOTE: Byte := 34
  const LETTER_X: Byte := 120

  /** The letter that stands for a control character behind a backslash. */
  function Letter(c: Byte): Option<Byte> {
    match c
    case 7 => Some(97)
    case 8 => Some(98)
    case 12 => Some(102)
    case 10 => Some(110)
    case 13 => Some(114)
    case 9 => Some(116)
    case 11 => Some(118)
    case 92 => Some(92)
    case _ => None
  }

  function EscapedChar(c: Byte, quote: bool): (t: seq<Byte>)
    ensures 1 <= |t| <= 4
  {
    if !TestChar(c, ECHO) then [c]
    else if Letter(c).Some? then [BACKSLASH, Letter(c).value]
    else if c == QUOTE then (if quote then [BACKSLASH, QUOTE] else [QUOTE])
    else [BACKSLASH, LETTER_X, HexDigit(c / 16), HexDigit(c % 16)]
  }

  function Escaped(s: seq<Byte>, quote: bool): seq<Byte> {
    if s == [] then [] else EscapedChar(s[0], quote) + Escaped(s[1..], quote)
  }

  lemma EscapedMore(s: seq<Byte>, quote: bool)
    requires s != []
    ensures Escaped(s, quote) == EscapedChar(s[0], quote) + Escaped(s[1..], quote)
  {
  }

  lemma NothingEscaped(quote: bool)
    ensures Escaped([], quote) == []
  {
  }

  lemma {:induction false} NotShorter(s: seq<Byte>, quote: bool)
    ensures |Escaped(s, quote)| >= |s|
  {
    if s != [] {
      NotShorter(s[1..], quote);
    }
  }

  /** Success is reported exactly when something changed. */
  function EscapeReport(s: seq<Byte>, quote: bool): Report {
    if Escaped(s, quote) == s then NotFound else Done
  }

  lemma ChangedStep(s: seq<Byte>, quote: bool)
    requires s != []
    ensures Escaped(s, quote) == s <==> |EscapedChar(s[0], quote)| == 1 && Escaped(s[1..], quote) == s[1..]
  {
    EscapedMore(s, quote);
    NotShorter(s[1..], quote);
    FirstChanged(EscapedChar(s[0], quote), Escaped(s[1..], quote), s);
    assert |EscapedChar(s[0], quote)| == 1 ==> EscapedChar(s[0], quote) == [s[0]];
    hide EscapedChar, Escaped;
  }

  /** One round of the writing pass. A backslash already written is replaced where a quote needs none. */
  method EscapeOne(dest: array<Byte>, at: nat, c: Byte, quote: bool, size0: nat, found0: bool, ghost whole: seq<Byte>)
    returns (d: nat, size: nat, found: bool)
    requires Written(dest, at, whole) && at <= |whole| && EscapedChar(c, quote) <= whole[at..]
    modifies dest
    ensures Written(dest, d, whole) && d == at + |EscapedChar(c, quote)| && size == size0 + (d - at)
    ensures found <==> found0 || d > at + 1
  {
    hide Letter, HexDigit, TestChar;
    ghost var text := EscapedChar(c, quote);
    assert forall k :: 0 <= k < |text| ==> whole[at + k] == whole[at..][k] == text[k];
    d, size, found := at, size0, found0;
    if TestChar(c, ECHO) {
      dest[d] := BACKSLASH;
      d, size := d + 1, size + 1;
      var letter := Letter(c);
      if letter.Some? {
        assert dest[..d] == whole[..at] + [BACKSLASH] == whole[..d];
        d := Put(dest, d, letter.value, whole);
        size, found := size + 1, true;
      } else if c == QUOTE {
        if quote {
          assert dest[..d] == whole[..at] + [BACKSLASH] == whole[..d];
          d := Put(dest, d, c, whole);
          size, found := size + 1, true;
        } else {
          dest[d - 1] := c;
          assert dest[..d] == whole[..at] + [c] == whole[..d];
        }
      } else {
        assert dest[..d] == whole[..at] + [BACKSLASH] == whole[..d];
        d := Put(dest, d, LETTER_X, whole);
        d := Put(dest, d, HexDigit(c / 16), whole);
        d := Put(dest, d, HexDigit(c % 16), whole);
        size, found := size + 3, true;
      }
    } else {
      d := Put(dest, d, c, whole);
      size := size + 1;
    }
  }

  /** `apr_escape_echo` with a buffer. */
  method Escape(dest: array<Byte>, s: seq<Byte>, quote: bool) returns (report: Report, size: nat)
    requires |Escaped(s, quote)| < dest.Length
    modifies dest
    ensures report == EscapeReport(s, quote) && size == |Escaped(s, quote)| + 1
    ensures dest[..size - 1] == Escaped(s, quote) && dest[size - 1] == 0
  {
    hide Escaped, EscapedChar;
    ghost var whole := Escaped(s, quote);
    var i, d, found := 0, 0, false;
    size := 1;
    assert s[0..] == s;
    while i < |s|
      invariant 0 <= i <= |s| && 0 <= d <= |whole| && size == d + 1
      invariant Written(dest, d, whole) && whole[d..] == Escaped(s[i..], quote)
      invariant whole == s <==> !found && Escaped(s[i..], quote) == s[i..]
    {
      hide Written;
      EscapedMore(s[i..], quote);
      ChangedStep(s[i..], quote);
      assert s[i..][1..] == s[i + 1..];
      Advance(whole, d, EscapedChar(s[i], quote), Escaped(s[i + 1..], quote));
      d, size, found := EscapeOne(dest, d, s[i], quote, size, found, whole);
      i := i + 1;
    }
    NothingEscaped(quote);
    assert s[i..] == [];
    dest[d] := 0;
    report := if found then Done else NotFound;
  }

  /** The same without a buffer. */
  method MeasureEscape(s: seq<Byte>, quote: bool) returns (report: Report, size: nat)
    ensures report == EscapeReport(s, quote) && size == |Escaped(s, quote)| + 1
  {
    hide Escaped;
    var i, found := 0, false;
    size := 1;
    assert s[0..] == s;
    while i < |s|
      invariant 0 <= i <= |s| && size + |Escaped(s[i..], quote)| == |Escaped(s, quote)| + 1
      invariant Escaped(s, quote) == s <==> !found && Escaped(s[i..], quote) == s[i..]
    {
      hide TestChar, Letter;
      var c := s[i];
      EscapedMore(s[i..], quote);
      ChangedStep(s[i..], quote);
      assert s[i..][1..] == s[i + 1..];
      if TestChar(c, ECHO) {
        size := size + 1;
        if Letter(c).Some? {
          size, found := size + 1, true;
        } else if c == QUOTE {
          if quote {
            size, found := size + 1, true;
          }
        } else {
          size, found := size + 3, true;
        }
      } else {
        size := size + 1;
      }
      i := i + 1;
    }
    NothingEscaped(quote);
    assert s[i..] == [];
    report := if found then Done else NotFound;
  }

  // ---------- reading ----------

  /** The control character a letter stands for. */
  function ControlOf(c: Byte): Byte {
    match c
    case 97 => 7
    case 98 => 8
    case 102 => 12
    case 110 => 10
    case 114 => 13
    case 116 => 9
    case 118 => 11
    case _ => c
  }

  /** What a backslash and the characters behind it mean. */
  function Read(t: seq<Byte>): seq<Byte> {
    if t == [] then []
    else if t[0] != BACKSLASH || |t| == 1 then [t[0]] + Read(t[1..])
    else if t[1] == LETTER_X && |t| > 3 && IsHex(t[2]) && IsHex(t[3]) then [FromHexPair(t[2], t[3])] + Read(t[4..])
    else [ControlOf(t[1])] + Read(t[2..])
  }

  lemma ReadPlain(c: Byte, rest: seq<Byte>)
    requires c != BACKSLASH
    ensures Read([c] + rest) == [c] + Read(rest)
  {
    assert ([c] + rest)[1..] == rest;
  }

  lemma ReadLetter(d: Byte, rest: seq<Byte>)
    requires d != LETTER_X
    ensures Read([BACKSLASH, d] + rest) == [ControlOf(d)] + Read(rest)
  {
    assert ([BACKSLASH, d] + rest)[2..] == rest;
  }

  lemma ReadHex(h: Byte, l: Byte, rest: seq<Byte>)
    requires IsHex(h) && IsHex(l)
    ensures Read([BACKSLASH, LETTER_X, h, l] + rest) == [FromHexPair(h, l)] + Read(rest)
  {
    assert ([BACKSLASH, LETTER_X, h, l] + rest)[4..] == rest;
  }

  lemma ControlBack(c: Byte)
    requires Letter(c).Some?
    ensures Letter(c).value != LETTER_X && ControlOf(Letter(c).value) == c
  {
  }

  /** By the class of the character: as it is, behind a backslash by letter, or as two hexadecimal digits. */
  lemma ReadBack(c: Byte, quote: bool, rest: seq<Byte>)
    ensures Read(EscapedChar(c, quote) + rest) == [c] + Read(rest)
  {
    hide Read, Letter, ControlOf, HexDigit, IsHex, FromHexPair;
    if !TestChar(c, ECHO) || (Letter(c).None? && c == QUOTE && !quote) {
      BackslashEscaped();
      ReadPlain(c, rest);
    } else if Letter(c).Some? {
      ControlBack(c);
      ReadLetter(Letter(c).value, rest);
    } else if c == QUOTE {
      QuoteStays();
      ReadLetter(QUOTE, rest);
    } else {
      HexBack(c);
      ReadHex(HexDigit(c / 16), HexDigit(c % 16), rest);
    }
  }

  lemma BackslashEscaped()
    ensures TestChar(BACKSLASH, ECHO) && Letter(BACKSLASH).Some?
  {
  }

  lemma QuoteStays()
    ensures ControlOf(QUOTE) == QUOTE
  {
  }

  /** No two texts look alike once escaped: what was written can be read back. */
  lemma {:induction false} RoundTrip(s: seq<Byte>, quote: bool)
    ensures Read(Escaped(s, quote)) == s
  {
    if s != [] {
      RoundTrip(s[1..], quote);
      ReadBack(s[0], quote, Escaped(s[1..], quote));
      EscapedMore(s, quote);
      assert [s[0]] + s[1..] == s;
    }
  }
}
