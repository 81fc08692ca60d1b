/**
 Character entities: `apr_escape_entity` and `apr_unescape_entity`, each with its writing
 and its measuring pass.
 */
module EntityEscape {
  import opened Basics
  import opened Octets
  import opened CharClasses
  import CStrings
  import Formats
  import Numbers

  const AMPERSAND: Byte := 38
  const SEMICOLON: Byte := 59
  const HASH: Byte := 35

  // ---------- escaping ----------

  function EntityOf(c: Byte): seq<Byte> {
    if c == 62 then [38, 103, 116, 59]                  // "&gt;"
    else if c == 60 then [38, 108, 116, 59]             // "&lt;"
    else if c == 38 then [38, 97, 109, 112, 59]         // "&amp;"
    else if c == 34 then [38, 113, 117, 111, 116, 59]   // "&quot;"
    else if c == 39 then [38, 97, 112, 111, 115, 59]    // "&apos;"
    else []
  }

  /** What `apr_snprintf` with room for six characters leaves of "&#%3.3d;": the semicolon makes way for the NUL. */
  function Numeric(c: Byte): (t: seq<Byte>)
    ensures |t| == 5
  {
    [AMPERSAND, HASH, 48 + c / 100, 48 + c / 10 % 10, 48 + c % 10]
  }

  /** The characters that `toasc` writes as numbers. */
  predicate High(c: Byte) { c >= 128 }

  /** Whether a character is written as an entity. */
  predicate Replaced(c: Byte, toasc: bool) {
    TestChar(c, XML) || (toasc && High(c))
  }

  function EscapedChar(c: Byte, toasc: bool): seq<Byte> {
    if TestChar(c, XML) then EntityOf(c)
    else if toasc && High(c) then Numeric(c)
    else [c]
  }

  function Escaped(s: seq<Byte>, toasc: bool): seq<Byte> {
    if s == [] then [] else EscapedChar(s[0], toasc) + Escaped(s[1..], toasc)
  }

  lemma EscapedMore(s: seq<Byte>, toasc: bool)
    requires s != []
    ensures Escaped(s, toasc) == EscapedChar(s[0], toasc) + Escaped(s[1..], toasc)
  {
  }

  /** Only four ASCII characters are escaped: the class leaves the apostrophe alone. */
  lemma EscapedChars(c: Byte, toasc: bool)
    requires c != 0
    ensures TestChar(c, XML) <==> c == 62 || c == 60 || c == 38 || c == 34
    ensures |EscapedChar(c, toasc)| > 1 <==> Replaced(c, toasc)
    ensures !Replaced(c, toasc) ==> EscapedChar(c, toasc) == [c]
  {
  }

  lemma {:induction false} NotShorter(s: seq<Byte>, toasc: bool)
    requires 0 !in s
    ensures |Escaped(s, toasc)| >= |s|
  {
    if s != [] {
      NotShorter(s[1..], toasc);
      EscapedChars(s[0], toasc);
    }
  }

  /** Success is reported exactly when something changed. */
  function EscapeReport(s: seq<Byte>, toasc: bool): Report {
    if Escaped(s, toasc) == s then NotFound else Done
  }

  lemma ChangedStep(s: seq<Byte>, toasc: bool)
    requires s != [] && 0 !in s
    ensures Escaped(s, toasc) == s <==> !Replaced(s[0], toasc) && Escaped(s[1..], toasc) == s[1..]
  {
    EscapedMore(s, toasc);
    EscapedChars(s[0], toasc);
    NotShorter(s[1..], toasc);
    EscapedLength(s[0], toasc);
    hide EscapedChar, Escaped, TestChar;
    FirstChanged(EscapedChar(s[0], toasc), Escaped(s[1..], toasc), s);
  }

  /** `apr_escape_entity` with a buffer. */
  method Escape(dest: array<Byte>, s: seq<Byte>, toasc: bool) returns (report: Report, size: nat)
    requires 0 !in s && |Escaped(s, toasc)| < dest.Length
    modifies dest
    ensures report == EscapeReport(s, toasc) && size == |Escaped(s, toasc)| + 1
    ensures dest[..size - 1] == Escaped(s, toasc) && dest[size - 1] == 0
  {
    hide Escaped, EscapedChar, TestChar, Replaced;
    ghost var whole := Escaped(s, toasc);
    var i, d, found := 0, 0, false;
    size := 1;
    assert s[0..] == s;
    while i < |s|
      invariant 0 <= i <= |s| && 0 <= d <= |whole| && size == d + 1
      invariant Written(dest, d, whole) && whole[d..] == Escaped(s[i..], toasc)
      invariant whole == s <==> !found && Escaped(s[i..], toasc) == s[i..]
    {
      hide Written;
      EscapedMore(s[i..], toasc);
      ChangedStep(s[i..], toasc);
      assert s[i..][1..] == s[i + 1..];
      Advance(whole, d, EscapedChar(s[i], toasc), Escaped(s[i + 1..], toasc));
      d, size, found := EscapeOne(dest, d, s[i], toasc, size, found, whole);
      i := i + 1;
    }
    assert s[i..] == [];
    NothingEscaped(toasc);
    dest[d] := 0;
    report := if found then Done else NotFound;
  }

  lemma NothingEscaped(toasc: bool)
    ensures Escaped([], toasc) == []
  {
  }

  /** One round of the writing pass. */
  method EscapeOne(dest: array<Byte>, at: nat, c: Byte, toasc: bool, size0: nat, found0: bool, ghost whole: seq<Byte>)
    returns (d: nat, size: nat, found: bool)
    requires c != 0 && Written(dest, at, whole) && at <= |whole| && EscapedChar(c, toasc) <= whole[at..]
    modifies dest
    ensures Written(dest, d, whole) && d == at + |EscapedChar(c, toasc)| && size == size0 + (d - at)
    ensures found <==> found0 || Replaced(c, toasc)
  {
    hide Written, EntityOf, Numeric;
    ghost var text := EscapedChar(c, toasc);
    assert forall k :: 0 <= k < |text| ==> whole[at + k] == whole[at..][k] == text[k];
    found := found0;
    if TestChar(c, XML) {
      d := PutAll(dest, at, EntityOf(c), whole);
      size, found := size0 + |EntityOf(c)|, true;
    } else if toasc && High(c) {
      d := PutAll(dest, at, Numeric(c), whole);
      size, found := size0 + |Numeric(c)|, true;
    } else {
      d := Put(dest, at, c, whole);
      size := size0 + 1;
    }
  }

  /** `memcpy(d, t, n); d += n` */
  method PutAll(dest: array<Byte>, at: nat, t: seq<Byte>, ghost whole: seq<Byte>) returns (d: nat)
    requires at + |t| <= |whole| && Written(dest, at, whole) && whole[at..at + |t|] == t
    modifies dest
    ensures Written(dest, d, whole) && d == at + |t|
  {
    forall k | 0 <= k < |t| {
      dest[at + k] := t[k];
    }
    d := at + |t|;
    assert forall k :: 0 <= k < |t| ==> dest[at + k] == t[k] == whole[at..at + |t|][k];
    assert dest[..at] == whole[..at];
    assert dest[..d] == dest[..at] + t;
    assert whole[..d] == whole[..at] + whole[at..at + |t|];
  }

  /** The same without a buffer. */
  method MeasureEscape(s: seq<Byte>, toasc: bool) returns (report: Report, size: nat)
    requires 0 !in s
    ensures report == EscapeReport(s, toasc) && size == |Escaped(s, toasc)| + 1
  {
    hide Escaped, EscapedChar, TestChar;
    var i, found := 0, false;
    size := 1;
    assert s[0..] == s;
    while i < |s|
      invariant 0 <= i <= |s| && size + |Escaped(s[i..], toasc)| == |Escaped(s, toasc)| + 1
      invariant Escaped(s, toasc) == s <==> !found && Escaped(s[i..], toasc) == s[i..]
    {
      var c := s[i];
      EscapedMore(s[i..], toasc);
      ChangedStep(s[i..], toasc);
      assert s[i..][1..] == s[i + 1..];
      EscapedLength(c, toasc);
      if TestChar(c, XML) {
        if c == 62 || c == 60 {
          size := size + 4;
        } else if c == 38 {
          size := size + 5;
        } else if c == 34 || c == 39 {
          size := size + 6;
        }
        found := true;
      } else if toasc && High(c) {
        size, found := size + |Numeric(c)|, true;
      } else {
        size := size + 1;
      }
      i := i + 1;
    }
    assert s[i..] == [];
    NothingEscaped(toasc);
    report := if found then Done else NotFound;
  }

  lemma EscapedLength(c: Byte, toasc: bool)
    ensures |EscapedChar(c, toasc)|
      == if !TestChar(c, XML) then (if toasc && High(c) then 5 else 1) else if c == 62 || c == 60 then 4 else if c == 38 then 5
         else if c == 34 || c == 39 then 6 else 0
  {
  }

  // ---------- unescaping ----------

  /** `entlist`: the names of each length. */
  function Names(length: nat): seq<(string, Byte)> {
    match length
    case 2 =>
      [("lt", 60), ("gt", 62)]
    case 3 =>
      [("amp", 38), ("ETH", 208), ("eth", 240)]
    case 4 =>
      [("quot", 34), ("Auml", 196), ("Euml", 203), ("Iuml", 207), ("Ouml", 214), ("Uuml", 220), ("auml", 228),
       ("euml", 235), ("iuml", 239), ("ouml", 246), ("uuml", 252), ("yuml", 255)]
    case 5 =>
      CAPITALS_OF_FIVE + SMALL_OF_FIVE
    case 6 =>
      CAPITALS_OF_SIX + SMALL_OF_SIX
    case _ => []
  }

  const CAPITALS_OF_FIVE: seq<(string, Byte)> :=
    [("Acirc", 194), ("Aring", 197), ("AElig", 198), ("Ecirc", 202), ("Icirc", 206), ("Ocirc", 212), ("Ucirc", 219),
     ("THORN", 222)]

  const SMALL_OF_FIVE: seq<(string, Byte)> :=
    [("szlig", 223), ("acirc", 226), ("aring", 229), ("aelig", 230), ("ecirc", 234), ("icirc", 238), ("ocirc", 244),
     ("ucirc", 251), ("thorn", 254)]

  const CAPITALS_OF_SIX: seq<(string, Byte)> :=
    [("Agrave", 192), ("Aacute", 193), ("Atilde", 195), ("Ccedil", 199), ("Egrave", 200), ("Eacute", 201),
     ("Igrave", 204), ("Iacute", 205), ("Ntilde", 209), ("Ograve", 210), ("Oacute", 211), ("Otilde", 213),
     ("Oslash", 216), ("Ugrave", 217), ("Uacute", 218), ("Yacute", 221)]

  const SMALL_OF_SIX: seq<(string, Byte)> :=
    [("agrave", 224), ("aacute", 225), ("atilde", 227), ("ccedil", 231), ("egrave", 232), ("eacute", 233),
     ("igrave", 236), ("iacute", 237), ("ntilde", 241), ("ograve", 242), ("oacute", 243), ("otilde", 245),
     ("oslash", 248), ("ugrave", 249), ("uacute", 250), ("yacute", 253)]

  predicate Same(name: string, t: seq<Byte>) {
    |name| == |t| && forall k :: 0 <= k < |t| ==> name[k] as int == t[k]
  }

  function Lookup(names: seq<(string, Byte)>, t: seq<Byte>): Option<Byte> {
    if names == [] then None
    else if Same(names[0].0, t) then Some(names[0].1)
    else Lookup(names[1..], t)
  }

  /** The first semicolon from position `i` on, or the end. */
  function Semicolon(s: seq<Byte>, i: nat): (k: nat)
    requires i <= |s|
    ensures i <= k <= |s|
    decreases |s| - i
  {
    if i == |s| || s[i] == SEMICOLON then i else Semicolon(s, i + 1)
  }

  /** A C `int`. */
  function Wrapped32(x: int): int {
    var low := x % 0x1_0000_0000;
    if low < 0x8000_0000 then low else low - 0x1_0000_0000
  }

  /** Where the digits of `s[j..i]` end, and their value. */
  function Number(s: seq<Byte>, j: nat, i: nat, val: int): (nat, int)
    requires i <= |s|
    decreases i - j
  {
    if j < i && IsDigit(s[j]) then Number(s, j + 1, i, Wrapped32(val * 10 + s[j] - 48)) else (j, val)
  }

  /** The numbers an entity may stand for. */
  predicate Showable(val: int) {
    9 <= val <= 10 || 32 <= val <= 126 || 161 <= val <= 255
  }

  /** What is written for the first characters of a text, how many they are, and whether it is an entity. */
  datatype Taken = Taken(text: seq<Byte>, width: nat, found: bool)

  function Take(s: seq<Byte>): (t: Taken)
    requires s != []
    ensures 0 < t.width <= |s| && |t.text| <= 1
  {
    var i := Semicolon(s, 1);
    if s[0] != AMPERSAND || i == |s| then Taken([s[0]], 1, false)
    else if s[1] == HASH then
      var n := Number(s, 2, i, 0);
      if n.0 < i || !Showable(n.1) then Taken([], i + 1, false) else Taken([n.1], i + 1, true)
    else
      match Lookup(Names(i - 1), s[1..i])
      case None => Taken([AMPERSAND], 1, false)
      case Some(c) => Taken([c], i + 1, true)
  }

  function Unescaped(s: seq<Byte>): (r: (seq<Byte>, bool)) {
    if s == [] then ([], false) else
      var t := Take(s);
      var rest := Unescaped(s[t.width..]);
      (t.text + rest.0, t.found || rest.1)
  }

  lemma UnescapedMore(s: seq<Byte>)
    requires s != []
    ensures var t := Take(s); var rest := Unescaped(s[t.width..]); Unescaped(s) == (t.text + rest.0, t.found || rest.1)
  {
  }

  function UnescapeReport(s: seq<Byte>): Report {
    if Unescaped(s).1 then Done else NotFound
  }

  method FindSemicolon(s: seq<Byte>, from: nat) returns (i: nat)
    requires from < |s|
    ensures from + 1 <= i <= |s| && i == from + Semicolon(s[from..], 1)
  {
    i := from + 1;
    while i < |s| && s[i] != SEMICOLON
      invariant from < i <= |s| && Semicolon(s[from..], 1) == Semicolon(s[from..], i - from)
    {
      i := i + 1;
    }
  }

  /** The value of a numeric entity; no result where there is nothing to write. */
  method ReadNumber(s: seq<Byte>, from: nat, i: nat) returns (c: Option<Byte>)
    requires from + 2 <= i <= |s|
    ensures var n := Number(s[from..], 2, i - from, 0);
      c == if n.0 < i - from || !Showable(n.1) then None else Some(n.1)
  {
    var j, val := from + 2, 0;
    ghost var t := s[from..];
    while j < i && IsDigit(s[j])
      invariant from + 2 <= j <= i && Number(t, 2, i - from, 0) == Number(t, j - from, i - from, val)
      decreases i - j
    {
      assert s[j] == t[j - from];
      val := Wrapped32(val * 10 + s[j] - 48);
      j := j + 1;
    }
    assert j < i ==> s[j] == t[j - from];
    if j < i || val <= 8 || (val >= 11 && val <= 31) || (val >= 127 && val <= 160) || val >= 256 {
      c := None;
    } else {
      c := Some(val);
    }
  }

  /** The search through the names of one length. */
  method FindName(t: seq<Byte>) returns (c: Option<Byte>)
    ensures c == Lookup(Names(|t|), t)
  {
    hide Names;
    var names, k := Names(|t|), 0;
    assert names[0..] == names;
    while k < |names|
      invariant 0 <= k <= |names| && Lookup(names[k..], t) == Lookup(names, t)
    {
      if Same(names[k].0, t) {
        return Some(names[k].1);
      }
      assert names[k..][1..] == names[k + 1..];
      k := k + 1;
    }
    c := None;
  }

  /** One round of either pass. */
  method TakeOne(s: seq<Byte>, from: nat) returns (t: Taken)
    requires from < |s|
    ensures t == Take(s[from..])
  {
    hide Names, Lookup, Number, Semicolon;
    if s[from] != AMPERSAND {
      return Taken([s[from]], 1, false);
    }
    var i := FindSemicolon(s, from);
    if i == |s| {
      return Taken([s[from]], 1, false);
    }
    ghost var rest := s[from..];
    assert s[from + 1] == rest[1];
    if s[from + 1] == HASH {
      SemicolonFirst(rest, 1);
      var c := ReadNumber(s, from, i);
      t := if c.None? then Taken([], i - from + 1, false) else Taken([c.value], i - from + 1, true);
    } else {
      assert s[from + 1..i] == rest[1..i - from];
      var c := FindName(s[from + 1..i]);
      t := if c.None? then Taken([AMPERSAND], 1, false) else Taken([c.value], i - from + 1, true);
    }
  }

  lemma {:induction false} SemicolonFirst(s: seq<Byte>, i: nat)
    requires i <= |s|
    ensures var k := Semicolon(s, i);
      (forall j :: i <= j < k ==> s[j] != SEMICOLON) && (k < |s| ==> s[k] == SEMICOLON)
    decreases |s| - i
  {
    if i < |s| && s[i] != SEMICOLON {
      SemicolonFirst(s, i + 1);
    }
  }

  /** `apr_unescape_entity` with a buffer. */
  method Unescape(dest: array<Byte>, s: seq<Byte>) returns (report: Report, size: nat)
    requires |Unescaped(s).0| < dest.Length
    modifies dest
    ensures report == UnescapeReport(s) && size == |Unescaped(s).0| + 1
    ensures dest[..size - 1] == Unescaped(s).0 && dest[size - 1] == 0
  {
    hide Unescaped, Take;
    ghost var whole := Unescaped(s).0;
    var i, d, found := 0, 0, false;
    size := 1;
    assert s[0..] == s;
    while i < |s|
      invariant 0 <= i <= |s| && 0 <= d <= |whole| && size == d + 1
      invariant Written(dest, d, whole) && whole[d..] == Unescaped(s[i..]).0
      invariant Unescaped(s).1 <==> found || Unescaped(s[i..]).1
      decreases |s| - i
    {
      hide Written;
      UnescapedMore(s[i..]);
      var t := TakeOne(s, i);
      assert s[i..][t.width..] == s[i + t.width..];
      ghost var rest := whole[d..];
      if t.text != [] {
        assert whole[d] == rest[0] && whole[d + 1..] == rest[1..];
        d := Put(dest, d, t.text[0], whole);
        size := size + 1;
      }
      i, found := i + t.width, found || t.found;
    }
    assert s[i..] == [] && Unescaped([]) == ([], false) by { NothingUnescaped(); }
    dest[d] := 0;
    report := if found then Done else NotFound;
  }

  lemma NothingUnescaped()
    ensures Unescaped([]) == ([], false)
  {
  }

  /**
   One round of the measuring pass, which repeats the searches of the writing one: how many
   characters are passed, how many are counted, and whether they are an entity.
   */
  method MeasureOne(s: seq<Byte>, from: nat) returns (width: nat, counted: nat, found: bool)
    requires from < |s|
    ensures var t := Take(s[from..]); width == t.width && counted == |t.text| && found == t.found
  {
    hide Names, Lookup, Number, Semicolon;
    width, counted, found := 1, 1, false;
    if s[from] != AMPERSAND {
      return;
    }
    ghost var rest := s[from..];
    var i := 1;
    SemicolonFrom(rest, i);
    while from + i < |s| && s[from + i] != SEMICOLON
      invariant 1 <= i <= |rest| && Semicolon(rest, 1) == Semicolon(rest, i)
    {
      SemicolonFrom(rest, i);
      i := i + 1;
    }
    SemicolonFrom(rest, i);
    if from + i == |s| {
      return;
    }
    if s[from + 1] == HASH {
      SemicolonFirst(rest, 1);
      var j, val := 2, 0;
      while j < i && IsDigit(s[from + j])
        invariant 2 <= j <= i && Number(rest, 2, i, 0) == Number(rest, j, i, val)
        decreases i - j
      {
        NumberFrom(rest, j, i, val);
        val := Wrapped32(val * 10 + s[from + j] - 48);
        j := j + 1;
      }
      NumberFrom(rest, j, i, val);
      width := i + 1;
      if j < i || val <= 8 || (val >= 11 && val <= 31) || (val >= 127 && val <= 160) || val >= 256 {
        counted := 0;
      } else {
        found := true;
      }
    } else {
      assert s[from + 1..from + i] == rest[1..i];
      var c := FindName(s[from + 1..from + i]);
      if c.Some? {
        width, found := i + 1, true;
      }
    }
  }

  lemma SemicolonFrom(s: seq<Byte>, i: nat)
    requires i <= |s|
    ensures Semicolon(s, i) == if i == |s| || s[i] == SEMICOLON then i else Semicolon(s, i + 1)
  {
  }

  lemma NumberFrom(s: seq<Byte>, j: nat, i: nat, val: int)
    requires i <= |s|
    ensures Number(s, j, i, val)
      == if j < i && IsDigit(s[j]) then Number(s, j + 1, i, Wrapped32(val * 10 + s[j] - 48)) else (j, val)
  {
  }

  /** The same without a buffer. */
  method MeasureUnescape(s: seq<Byte>) returns (report: Report, size: nat)
    ensures report == UnescapeReport(s) && size == |Unescaped(s).0| + 1
  {
    hide Unescaped, Take;
    var i, found := 0, false;
    size := 1;
    assert s[0..] == s;
    while i < |s|
      invariant 0 <= i <= |s| && size + |Unescaped(s[i..]).0| == |Unescaped(s).0| + 1
      invariant Unescaped(s).1 <==> found || Unescaped(s[i..]).1
      decreases |s| - i
    {
      UnescapedMore(s[i..]);
      var width, counted, entity := MeasureOne(s, i);
      assert s[i..][width..] == s[i + width..];
      i, size, found := i + width, size + counted, found || entity;
    }
    assert s[i..] == [] && Unescaped([]) == ([], false) by { NothingUnescaped(); }
    report := if found then Done else NotFound;
  }

  // ---------- there and back ----------

  lemma TakeBack(c: Byte, toasc: bool, rest: seq<Byte>)
    requires c != 0 && !(toasc && High(c))
    ensures var e := EscapedChar(c, toasc); Take(e + rest) == Taken([c], |e|, TestChar(c, XML))
  {
    EscapedChars(c, toasc);
    var t := EscapedChar(c, toasc) + rest;
    if c == 62 {
      SemicolonAt(t, 1, 3);
      assert t[1..3] == [103, 116];
      assert Lookup(Names(2)[1..], t[1..3]) == Some(62 as Byte) by { assert Names(2)[1..] == [("gt", 62)]; }
    } else if c == 60 {
      SemicolonAt(t, 1, 3);
      assert t[1..3] == [108, 116];
    } else if c == 38 {
      SemicolonAt(t, 1, 4);
      assert t[1..4] == [97, 109, 112];
    } else if c == 34 {
      SemicolonAt(t, 1, 5);
      assert t[1..5] == [113, 117, 111, 116];
    }
  }

  lemma SemicolonAt(s: seq<Byte>, i: nat, k: nat)
    requires i <= k < |s| && s[k] == SEMICOLON && forall j :: i <= j < k ==> s[j] != SEMICOLON
    ensures Semicolon(s, i) == k
    decreases k - i
  {
  }

  /** How many characters are not ASCII. */
  function Highs(s: seq<Byte>): nat {
    if s == [] then 0 else (if High(s[0]) then 1 else 0) + Highs(s[1..])
  }

  lemma {:induction false} UnescapedEscaped(s: seq<Byte>, toasc: bool)
    requires 0 !in s && (toasc ==> Highs(s) == 0)
    ensures Unescaped(Escaped(s, toasc)) == (s, Escaped(s, toasc) != s)
  {
    if s != [] {
      UnescapedEscaped(s[1..], toasc);
      ChangedStep(s, toasc);
      var e, rest := EscapedChar(s[0], toasc), Escaped(s[1..], toasc);
      TakeBack(s[0], toasc, rest);
      EscapedMore(s, toasc);
      UnescapedMore(Escaped(s, toasc));
      hide Escaped, Unescaped, Take, EscapedChar, TestChar;
      assert (e + rest)[|e|..] == rest;
      assert [s[0]] + s[1..] == s;
    }
  }

  // ---------- what reducing to ASCII loses ----------

  /** "&#%3.3d;" writes six characters, of which five fit. */
  lemma NumericIsCut(c: Byte, quad: seq<CStrings.Char>)
    requires High(c) && (quad == [] || quad[0] != 100)
    ensures
      var t := Formats.Output(FORMAT, [Formats.Num(c)], quad);
      |t| == 6 && t[5] == SEMICOLON && forall k :: 0 <= k < 5 ==> Numeric(c)[k] == t[k]
  {
    var f: CStrings.CString, args := FORMAT, [Formats.Num(c)];
    NumericSpec(args, quad);
    NumericText(c, args);
    var b := Formats.Convert(100, NUMERIC_SPEC, args, 0);
    hide Formats.SpecAt, Formats.Convert, Formats.Padded;
    assert Formats.Rendered(f, 8, args, b.k, b.last, quad) == [];
    assert Formats.Rendered(f, 7, args, b.k, b.last, quad) == [59];
    assert Formats.Rendered(f, 2, args, 0, 0, quad) == Formats.Padded(b.body, NUMERIC_SPEC) + [59];
  }

  /** "&#%3.3d;" */
  const FORMAT: seq<CStrings.Char> := [38, 35, 37, 51, 46, 51, 100, 59]
  const NUMERIC_SPEC := Formats.Spec(Formats.NO_FLAGS, Some(3), Some(3), Formats.Plain, 6, 0)

  lemma NumericSpec(args: seq<Formats.Arg>, quad: seq<CStrings.Char>)
    requires quad == [] || quad[0] != 100
    ensures Formats.SpecAt(FORMAT, 3, args, 0, quad) == NUMERIC_SPEC
  {
    var f: CStrings.CString := FORMAT;
    assert Formats.FlagsAt(f, 3, Formats.NO_FLAGS) == (Formats.NO_FLAGS, 3);
    assert Formats.NumberAt(f, 3, 0) == (3, 4) && Formats.NumberAt(f, 5, 0) == (3, 6);
    assert f[6..][0] == 100;
  }

  lemma NumericText(c: Byte, args: seq<Formats.Arg>)
    requires High(c) && args == [Formats.Num(c)]
    ensures Formats.Padded(Formats.Convert(100, NUMERIC_SPEC, args, 0).body, NUMERIC_SPEC) == Numeric(c)[2..]
  {
    ThreeDigits(c);
    assert Formats.SignedOf(c, Numbers.TWO_32) == c;
  }

  lemma ThreeDigits(c: Byte)
    requires High(c)
    ensures Numbers.Decimal(c) == [48 + c / 100, 48 + c / 10 % 10, 48 + c % 10]
  {
    assert Numbers.Decimal(c / 10 / 10) == [48 + c / 100];
    assert Numbers.Decimal(c / 10) == Numbers.Decimal(c / 10 / 10) + [48 + c / 10 % 10];
  }

  lemma {:induction false} HighsSum(s: seq<Byte>, t: seq<Byte>)
    ensures Highs(s + t) == Highs(s) + Highs(t)
  {
    if s == [] {
      assert s + t == t;
    } else {
      HighsSum(s[1..], t);
      assert (s + t)[1..] == s[1..] + t;
    }
  }

  lemma HighsBehind(s: seq<Byte>, m: nat)
    requires 0 < m <= |s|
    ensures Highs(s) >= (if High(s[0]) then 1 else 0) + Highs(s[m..])
  {
    HighsSum([s[0]], s[1..m]);
    HighsSum([s[0]] + s[1..m], s[m..]);
    assert [s[0]] + s[1..m] + s[m..] == s;
  }

  /** Escaped text is ASCII. */
  lemma {:induction false} EscapedHighs(s: seq<Byte>)
    requires 0 !in s
    ensures Highs(Escaped(s, true)) == 0
  {
    if s != [] {
      EscapedHighs(s[1..]);
      EscapedMore(s, true);
      HighsSum(EscapedChar(s[0], true), Escaped(s[1..], true));
      NoneHigh(EscapedChar(s[0], true)) by { EscapedChars(s[0], true); }
    }
  }

  lemma {:induction false} NoneHigh(t: seq<Byte>)
    requires forall k :: 0 <= k < |t| ==> !High(t[k])
    ensures Highs(t) == 0
  {
    if t != [] {
      NoneHigh(t[1..]);
    }
  }

  /** Without a semicolon nothing is an entity. */
  lemma {:induction false} NoSemicolon(t: seq<Byte>)
    requires SEMICOLON !in t
    ensures Unescaped(t).0 == t
  {
    if t != [] {
      NoSemicolon(t[1..]);
      SemicolonFirst(t, 1);
      assert [t[0]] + t[1..] == t;
    }
  }

  /** Behind a semicolon of escaped text stands escaped text again. */
  lemma {:induction false} BehindSemicolon(s: seq<Byte>) returns (m: nat)
    requires 0 !in s && SEMICOLON in Escaped(s, true)
    ensures 0 < m <= |s|
    ensures var e := Escaped(s, true); var k := Semicolon(e, 0); k < |e| && e[k + 1..] == Escaped(s[m..], true)
  {
    var e, rest := EscapedChar(s[0], true), Escaped(s[1..], true);
    assert s != [];
    EscapedMore(s, true);
    hide *;
    if SEMICOLON in e {
      SemicolonLast(s[0]);
      SemicolonAt(e + rest, 0, |e| - 1);
      m := 1;
      assert (e + rest)[|e|..] == rest;
    } else {
      assert forall k :: 0 <= k < |e| ==> (e + rest)[k] == e[k];
      m := BehindSemicolon(s[1..]);
      SemicolonBehind(e, rest);
      var k := Semicolon(rest, 0);
      assert (e + rest)[|e| + k + 1..] == rest[k + 1..];
      assert s[1..][m..] == s[m + 1..];
      m := m + 1;
    }
  }

  lemma SemicolonLast(c: Byte)
    requires c != 0 && SEMICOLON in EscapedChar(c, true)
    ensures var e := EscapedChar(c, true); e[|e| - 1] == SEMICOLON && forall k :: 0 <= k < |e| - 1 ==> e[k] != SEMICOLON
  {
    EscapedChars(c, true);
  }

  lemma {:induction false} SemicolonBehind(e: seq<Byte>, rest: seq<Byte>)
    requires SEMICOLON !in e
    ensures Semicolon(e + rest, 0) == |e| + Semicolon(rest, 0)
  {
    SemicolonFirst(rest, 0);
    SemicolonFirst(e + rest, 0);
    var i, k := Semicolon(e + rest, 0), Semicolon(rest, 0);
    assert forall j :: 0 <= j < |e| ==> (e + rest)[j] == e[j];
    assert forall j :: 0 <= j < |rest| ==> (e + rest)[|e| + j] == rest[j];
  }

  /**
   Unescaping text reduced to ASCII loses characters that are not ASCII, or else it is shorter.
   Without its semicolon a number reaches to the next one in the text, or to the end.
   */
  lemma {:induction false} HighsLost(s: seq<Byte>)
    requires 0 !in s
    ensures var o := Unescaped(Escaped(s, true)).0;
      && Highs(o) <= Highs(s)
      && (Highs(o) == Highs(s) ==> if Highs(s) == 0 then |o| == |s| else |o| < |s|)
    decreases |s|
  {
    if s != [] {
      var c, e, rest := s[0], EscapedChar(s[0], true), Escaped(s[1..], true);
      EscapedMore(s, true);
      UnescapedMore(e + rest);
      assert (e + rest)[|e|..] == rest;
      if High(c) {
        HighLost(s);
      } else {
        HighsLost(s[1..]);
        TakeBack(c, true, rest);
        HighsSum([c], Unescaped(rest).0);
      }
    }
  }

  /** The number reaches to the end of the text, or swallows what stands before the next semicolon. */
  lemma HighLost(s: seq<Byte>)
    requires 0 !in s && s != [] && High(s[0])
    ensures var o := Unescaped(Escaped(s, true)).0; Highs(o) <= Highs(s) && (Highs(o) == Highs(s) ==> |o| < |s|)
    decreases |s|, 0
  {
    hide *;
    var rest := Escaped(s[1..], true);
    var t := Numeric(s[0]) + rest;
    EscapedMore(s, true);
    NumericOf(s[0]);
    if SEMICOLON in rest {
      var m := BehindSemicolon(s[1..]);
      SemicolonBehind(Numeric(s[0]), rest);
      var k := Semicolon(rest, 0);
      SemicolonFrom(t, 0);
      NumberTaken(t);
      assert t[6 + k..] == rest[k + 1..];
      assert s[1..][m..] == s[m + 1..];
      HighsLost(s[m + 1..]);
      TakenFirst(t);
      HighsBehind(s, m + 1);
    } else {
      EscapedHighs(s);
      NoSemicolon(t);
      HighsBehind(s, |s|);
    }
  }

  lemma NumericOf(c: Byte)
    requires High(c)
    ensures EscapedChar(c, true) == Numeric(c) && SEMICOLON !in Numeric(c)
    ensures Numeric(c)[0] == AMPERSAND && Numeric(c)[1] == HASH && AMPERSAND != SEMICOLON
  {
    EscapedChars(c, true);
  }

  lemma TakenFirst(t: seq<Byte>)
    requires t != [] && |Take(t).text| <= 1
    ensures var o, rest := Unescaped(t).0, Unescaped(t[Take(t).width..]).0;
      |o| == |Take(t).text| + |rest| && Highs(o) <= |Take(t).text| + Highs(rest)
  {
    UnescapedMore(t);
    hide Unescaped, Take;
    HighsSum(Take(t).text, Unescaped(t[Take(t).width..]).0);
  }

  /** A number and a semicolon somewhere behind it are passed as a whole, for one character or none. */
  lemma NumberTaken(t: seq<Byte>)
    requires |t| > 1 && t[0] == AMPERSAND && t[1] == HASH && Semicolon(t, 1) < |t|
    ensures Take(t).width == Semicolon(t, 1) + 1 && |Take(t).text| <= 1
  {
  }

  /**
   Unescaping undoes escaping, and reports success exactly when escaping did, unless the text was
   to be reduced to ASCII and was not ASCII.
   */
  lemma RoundTrip(s: seq<Byte>, toasc: bool)
    requires 0 !in s
    ensures Unescaped(Escaped(s, toasc)).0 == s <==> !toasc || forall k :: 0 <= k < |s| ==> !High(s[k])
    ensures Unescaped(Escaped(s, toasc)).0 == s ==> UnescapeReport(Escaped(s, toasc)) == EscapeReport(s, toasc)
  {
    if toasc {
      HighsLost(s);
      AnyHigh(s);
    }
    if !toasc || Highs(s) == 0 {
      UnescapedEscaped(s, toasc);
    }
  }

  lemma {:induction false} AnyHigh(s: seq<Byte>)
    ensures Highs(s) == 0 <==> forall k :: 0 <= k < |s| ==> !High(s[k])
  {
    if s != [] {
      AnyHigh(s[1..]);
      assert s == [s[0]] + s[1..];
    }
  }
}
