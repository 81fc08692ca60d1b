/**
 Percent escapes: `apr_escape_path_segment`, `apr_escape_urlencoded` and
 `apr_unescape_url`, each with its writing and its measuring pass.
 */
module UrlEscape {
  import opened Basics
  import opened Octets
  import opened CharClasses

  const PERCENT: Byte := 37
  const BLANK: Byte := 32
  const CROSS: Byte := 43   // '+'

  // ---------- escaping ----------

  /** Whether the character is written as a percent escape; `form` tells urlencoded from path segments. */
  predicate Escapes(c: Byte, form: bool) {
    TestChar(c, if form then URLENCODED else PATH_SEGMENT)
  }

  function EscapedChar(c: Byte, form: bool): (t: seq<Byte>)
    ensures |t| == 1 || |t| == 3
  {
    if Escapes(c, form) then [PERCENT, HexDigit(c / 16), HexDigit(c % 16)]
    else if form && c == BLANK then [CROSS]
    else [c]
  }

  function Escaped(s: seq<Byte>, form: bool): seq<Byte> {
    if s == [] then [] else EscapedChar(s[0], form) + Escaped(s[1..], form)
  }

  /** Success is reported exactly when something changed. */
  function EscapeReport(s: seq<Byte>, form: bool): Report {
    if Escaped(s, form) == s then NotFound else Done
  }

  lemma {:induction false} NotShorter(s: seq<Byte>, form: bool)
    ensures |Escaped(s, form)| >= |s|
  {
    if s != [] {
      NotShorter(s[1..], form);
    }
  }

  /** Whether the text changes depends on its characters one by one. */
  lemma ChangedStep(s: seq<Byte>, form: bool)
    requires s != []
    ensures Escaped(s, form) == s <==> EscapedChar(s[0], form) == [s[0]] && Escaped(s[1..], form) == s[1..]
  {
    NotShorter(s[1..], form);
    EscapedMore(s, form);
    hide EscapedChar, Escaped;
    FirstChanged(EscapedChar(s[0], form), Escaped(s[1..], form), s);
  }

  lemma EscapedMore(s: seq<Byte>, form: bool)
    requires s != []
    ensures Escaped(s, form) == EscapedChar(s[0], form) + Escaped(s[1..], form)
  {
  }

  /** One round of the writing pass; `size` lags behind by the one that every round adds. */
  method EscapeOne(dest: array<Byte>, at: nat, c: Byte, form: bool, size0: nat, found0: bool, ghost whole: seq<Byte>)
    returns (d: nat, size: nat, found: bool)
    requires Written(dest, at, whole) && at <= |whole| && EscapedChar(c, form) <= whole[at..]
    modifies dest
    ensures Written(dest, d, whole) && d == at + |EscapedChar(c, form)| && size + 1 == size0 + (d - at)
    ensures found <==> found0 || EscapedChar(c, form) != [c]
  {
    hide Escapes, HexDigit, Written;
    ghost var text := EscapedChar(c, form);
    assert forall k :: 0 <= k < |text| ==> whole[at + k] == whole[at..][k] == text[k];
    d, size, found := at, size0, found0;
    if Escapes(c, form) {
      d := Put(dest, d, PERCENT, whole);
      d := Put(dest, d, HexDigit(c / 16), whole);
      d := Put(dest, d, HexDigit(c % 16), whole);
      size := size + 2;
      found := true;
    } else if form && c == BLANK {
      d := Put(dest, d, CROSS, whole);
      found := true;
    } else {
      d := Put(dest, d, c, whole);
    }
  }

  /** `apr_escape_path_segment` and `apr_escape_urlencoded` with a buffer. */
  method Escape(dest: array<Byte>, s: seq<Byte>, form: bool) returns (report: Report, size: nat)
    requires |Escaped(s, form)| < dest.Length
    modifies dest
    ensures report == EscapeReport(s, form) && size == |Escaped(s, form)| + 1
    ensures dest[..size - 1] == Escaped(s, form) && dest[size - 1] == 0
  {
    hide Escaped, Escapes;
    ghost var whole := Escaped(s, form);
    var i, d, found := 0, 0, false;
    size := 1;
    assert s[0..] == s;
    while i < |s|
      invariant 0 <= i <= |s| && 0 <= d <= |whole| && size == d + 1
      invariant Written(dest, d, whole) && whole[d..] == Escaped(s[i..], form)
      invariant (whole == s) <==> !found && Escaped(s[i..], form) == s[i..]
    {
      hide Written;
      var c := s[i];
      EscapedMore(s[i..], form);
      ChangedStep(s[i..], form);
      assert s[i..][1..] == s[i + 1..];
      Advance(whole, d, EscapedChar(c, form), Escaped(s[i + 1..], form));
      d, size, found := EscapeOne(dest, d, c, form, size, found, whole);
      i, size := i + 1, size + 1;
    }
    NothingEscaped(form);
    assert s[i..] == [];
    dest[d] := 0;
    report := if found then Done else NotFound;
  }

  lemma NothingEscaped(form: bool)
    ensures Escaped([], form) == []
  {
  }

  /** The same without a buffer. */
  method MeasureEscape(s: seq<Byte>, form: bool) returns (report: Report, size: nat)
    ensures report == EscapeReport(s, form) && size == |Escaped(s, form)| + 1
  {
    hide Escaped, Escapes;
    var i, found := 0, false;
    size := 1;
    assert s[0..] == s;
    while i < |s|
      invariant 0 <= i <= |s| && size + |Escaped(s[i..], form)| == |Escaped(s, form)| + 1
      invariant (Escaped(s, form) == s) <==> !found && Escaped(s[i..], form) == s[i..]
    {
      var c := s[i];
      EscapedMore(s[i..], form);
      ChangedStep(s[i..], form);
      assert s[i..][1..] == s[i + 1..];
      if Escapes(c, form) {
        size := size + 2;
        found := true;
      } else if form && c == BLANK {
        found := true;
      }
      i, size := i + 1, size + 1;
    }
    NothingEscaped(form);
    assert s[i..] == [];
    report := if found then Done else NotFound;
  }

  // ---------- unescaping ----------

  /** `plus`, `forbid` and `reserved` */
  datatype Options = Options(plus: bool, forbid: Option<seq<Byte>>, reserved: Option<seq<Byte>>)

  predicate Listed(list: Option<seq<Byte>>, c: Byte) {
    list.Some? && c in list.value
  }

  /** What has been written so far, and what has been met. */
  datatype Outcome = Outcome(text: seq<Byte>, badEscape: bool, badPath: bool, found: bool)
  {
    function Then(next: Outcome): Outcome {
      Outcome(text + next.text, badEscape || next.badEscape, badPath || next.badPath, found || next.found)
    }

    function Report(): Report {
      if badEscape then Invalid else if badPath then Refused else if found then Done else NotFound
    }
  }

  predicate IsEscape(s: seq<Byte>) {
    |s| > 2 && s[0] == PERCENT && IsHex(s[1]) && IsHex(s[2])
  }

  /** How many characters the next step consumes. */
  function Width(s: seq<Byte>): (n: nat)
    requires s != []
    ensures 0 < n <= |s|
  {
    if IsEscape(s) then 3 else 1
  }

  function Step(s: seq<Byte>, o: Options): Outcome
    requires s != []
  {
    if o.plus && s[0] == CROSS then Outcome([BLANK], false, false, true)
    else if s[0] != PERCENT then Outcome([s[0]], false, false, false)
    else if !IsEscape(s) then Outcome([PERCENT], true, false, false)
    else
      var c := FromHexPair(s[1], s[2]);
      if c == 0 || Listed(o.forbid, c) then Outcome([c], false, true, false)
      else if Listed(o.reserved, c) then Outcome(s[..3], false, false, false)
      else Outcome([c], false, false, true)
  }

  function Unescaped(s: seq<Byte>, o: Options): Outcome {
    if s == [] then Outcome([], false, false, false) else Step(s, o).Then(Unescaped(s[Width(s)..], o))
  }

  lemma UnescapedMore(s: seq<Byte>, o: Options)
    requires s != []
    ensures Unescaped(s, o) == Step(s, o).Then(Unescaped(s[Width(s)..], o))
  {
  }

  /** One round of the writing pass. */
  method UnescapeOne(dest: array<Byte>, at: nat, s: seq<Byte>, from: nat, o: Options, ghost whole: seq<Byte>)
    returns (d: nat, i: nat, grown: nat, badesc: bool, badpath: bool, found: bool)
    requires from < |s| && Written(dest, at, whole)
    requires Step(s[from..], o).text <= whole[at..]
    modifies dest
    ensures Written(dest, d, whole) && d == at + grown && grown == |Step(s[from..], o).text| && i == from + Width(s[from..])
    ensures Step(s[from..], o) == Outcome(Step(s[from..], o).text, badesc, badpath, found)
  {
    ghost var text := Step(s[from..], o).text;
    assert forall k :: 0 <= k < |text| ==> whole[at + k] == whole[at..][k] == text[k];
    hide Written, Listed, FromHexPair;
    d, i, grown, badesc, badpath, found := at, from, 0, false, false, false;
    if o.plus && s[i] == CROSS {
      d := Put(dest, d, BLANK, whole);
      found := true;
    } else if s[i] != PERCENT {
      d := Put(dest, d, s[i], whole);
    } else if i + 2 >= |s| || !IsHex(s[i + 1]) || !IsHex(s[i + 2]) {
      badesc := true;
      d := Put(dest, d, PERCENT, whole);
    } else {
      var decoded := FromHexPair(s[i + 1], s[i + 2]);
      if decoded == 0 || Listed(o.forbid, decoded) {
        badpath := true;
        d := Put(dest, d, decoded, whole);
      } else if Listed(o.reserved, decoded) {
        d := Put(dest, d, s[i], whole);
        d := Put(dest, d, s[i + 1], whole);
        d := Put(dest, d, s[i + 2], whole);
        grown := grown + 2;
      } else {
        d := Put(dest, d, decoded, whole);
        found := true;
      }
      i := i + 2;
    }
    i, grown := i + 1, grown + 1;
  }

  /** `apr_unescape_url` with a buffer. */
  method Unescape(dest: array<Byte>, s: seq<Byte>, o: Options) returns (report: Report, size: nat)
    requires |Unescaped(s, o).text| < dest.Length
    modifies dest
    ensures report == Unescaped(s, o).Report() && size == |Unescaped(s, o).text| + 1
    ensures dest[..size - 1] == Unescaped(s, o).text && dest[size - 1] == 0
  {
    hide Unescaped, Step, Width;
    ghost var all := Unescaped(s, o);
    ghost var whole := all.text;
    var i, d, badesc, badpath, found := 0, 0, false, false, false;
    size := 1;
    assert s[0..] == s;
    while i < |s|
      invariant 0 <= i <= |s| && 0 <= d <= |whole| && size == d + 1
      invariant Written(dest, d, whole) && whole[d..] == Unescaped(s[i..], o).text
      invariant all.badEscape <==> badesc || Unescaped(s[i..], o).badEscape
      invariant all.badPath <==> badpath || Unescaped(s[i..], o).badPath
      invariant all.found <==> found || Unescaped(s[i..], o).found
      decreases |s| - i
    {
      UnescapedMore(s[i..], o);
      assert s[i..][Width(s[i..])..] == s[i + Width(s[i..])..];
      hide Written;
      ghost var before := whole[d..];
      ghost var step := Step(s[i..], o);
      var grown, bad, refused, changed;
      d, i, grown, bad, refused, changed := UnescapeOne(dest, d, s, i, o, whole);
      size := size + grown;
      assert whole[d..] == before[|step.text|..];
      badesc, badpath, found := badesc || bad, badpath || refused, found || changed;
    }
    NothingUnescaped(o);
    assert s[i..] == [];
    dest[d] := 0;
    report := Outcome([], badesc, badpath, found).Report();
  }

  lemma NothingUnescaped(o: Options)
    ensures Unescaped([], o) == Outcome([], false, false, false)
  {
  }

  /** The same without a buffer: the length and the report are those of the writing pass. */
  method MeasureUnescape(s: seq<Byte>, o: Options) returns (report: Report, size: nat)
    ensures report == Unescaped(s, o).Report() && size == |Unescaped(s, o).text| + 1
  {
    hide Unescaped, Listed;
    ghost var all := Unescaped(s, o);
    var i, badesc, badpath, found := 0, false, false, false;
    size := 1;
    assert s[0..] == s;
    while i < |s|
      invariant 0 <= i <= |s| && size + |Unescaped(s[i..], o).text| == |all.text| + 1
      invariant all.badEscape <==> badesc || Unescaped(s[i..], o).badEscape
      invariant all.badPath <==> badpath || Unescaped(s[i..], o).badPath
      invariant all.found <==> found || Unescaped(s[i..], o).found
      decreases |s| - i
    {
      ghost var rest := s[i..];
      UnescapedMore(rest, o);
      assert rest[Width(rest)..] == s[i + Width(rest)..];
      if o.plus && s[i] == CROSS {
        found := true;
      } else if s[i] != PERCENT {
      } else if i + 2 >= |s| || !IsHex(s[i + 1]) || !IsHex(s[i + 2]) {
        badesc := true;
      } else {
        var decoded := FromHexPair(s[i + 1], s[i + 2]);
        if decoded == 0 || Listed(o.forbid, decoded) {
          badpath := true;
          i := i + 2;
        } else if Listed(o.reserved, decoded) {
          i, size := i + 2, size + 2;
        } else {
          i := i + 2;
          found := true;
        }
      }
      i, size := i + 1, size + 1;
    }
    NothingUnescaped(o);
    assert s[i..] == [];
    report := Outcome([], badesc, badpath, found).Report();
  }

  // ---------- there and back ----------

  /** The options under which unescaping refuses and reserves nothing. */
  function Plainly(form: bool): Options {
    Options(form, None, None)
  }

  lemma StepBack(c: Byte, form: bool, rest: seq<Byte>)
    requires c != 0
    ensures var t := EscapedChar(c, form) + rest;
      && Width(t) == |EscapedChar(c, form)| && t[Width(t)..] == rest
      && Step(t, Plainly(form)) == Outcome([c], false, false, EscapedChar(c, form) != [c])
  {
    HexBack(c);
    hide HexDigit, FromHexPair, IsHex;
    var e := EscapedChar(c, form);
    assert (e + rest)[|e|..] == rest;
  }

  /** Unescaping undoes escaping, and reports success exactly when escaping did. */
  lemma {:induction false} RoundTrip(s: seq<Byte>, form: bool)
    requires 0 !in s
    ensures Unescaped(Escaped(s, form), Plainly(form)) == Outcome(s, false, false, Escaped(s, form) != s)
    ensures Unescaped(Escaped(s, form), Plainly(form)).Report() == EscapeReport(s, form)
  {
    if s != [] {
      RoundTrip(s[1..], form);
      ChangedStep(s, form);
      StepBack(s[0], form, Escaped(s[1..], form));
      EscapedMore(s, form);
      UnescapedMore(Escaped(s, form), Plainly(form));
      hide Escaped, Unescaped, Step, Width, EscapedChar;
      assert [s[0]] + s[1..] == s;
    }
  }
}
