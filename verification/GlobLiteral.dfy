/**
 Patterns without wildcards. `apr_fnmatch_test` scans a pattern for glob
 characters; when it finds none, the pattern matches one string only. Quoting
 a string gives such a pattern.
 */
module GlobLiteral {
  import opened CStrings
  import opened GlobPattern

  /** The scan of `apr_fnmatch_test` from `i` ends without finding a glob. */
  predicate GlobFree(p: seq<Char>, i: nat, nesting: bool)
    decreases |p| - i
  {
    i < |p| ==>
      && p[i] != QUESTION
      && p[i] != STAR
      && (p[i] == CLOSE ==> !nesting)
      && (if p[i] == BACKSLASH then i + 1 < |p| ==> GlobFree(p, i + 2, nesting)
          else GlobFree(p, i + 1, nesting || p[i] == OPEN))
  }

  /** The text with its escapes removed; a trailing backslash stands for itself. */
  function Unquote(p: seq<Char>, i: nat): seq<Char>
    decreases |p| - i
  {
    if i >= |p| then []
    else if p[i] == BACKSLASH && i + 1 < |p| then [p[i + 1]] + Unquote(p, i + 2)
    else [p[i]] + Unquote(p, i + 1)
  }

  /** `s[k..]` with every character behind a backslash. */
  function Quote(s: seq<Char>, k: nat): seq<Char>
    requires k <= |s|
    decreases |s| - k
  {
    if k == |s| then [] else [BACKSLASH, s[k]] + Quote(s, k + 1)
  }

  lemma {:induction false} MembersStayOpen(p: seq<Char>, i: nat, fl: Flags)
    requires !fl.noescape && GlobFree(p, i, true)
    ensures Members(p, i, fl).Malformed?
    decreases |p| - i, 1
  {
    if i < |p| {
      var k := if Escape(p, i, fl) then i + 1 else i;
      if k < |p| {
        MemberStaysOpen(p, k, fl);
      }
    }
  }

  lemma {:induction false} MemberStaysOpen(p: seq<Char>, k: nat, fl: Flags)
    requires !fl.noescape && k < |p| && GlobFree(p, k + 1, true)
    ensures Member(p, k, fl).Malformed?
    decreases |p| - k, 0
  {
    if At(p, k + 1) == HYPHEN && At(p, k + 2) != CLOSE {
      assert GlobFree(p, k + 2, true);
      var h := if Escape(p, k + 2, fl) then k + 3 else k + 2;
      if h < |p| {
        MembersStayOpen(p, h + 1, fl);
      }
    } else {
      MembersStayOpen(p, k + 1, fl);
    }
  }

  /** Without an unescaped `]` no bracket expression closes. */
  lemma BracketStaysOpen(p: seq<Char>, i: nat, nesting: bool, fl: Flags)
    requires !fl.noescape && i < |p| && p[i] == OPEN && GlobFree(p, i, nesting)
    ensures BracketAt(p, i, fl).Malformed?
  {
    assert GlobFree(p, i + 1, true);
    var f := if Negated(p, i) then i + 2 else i + 1;
    assert GlobFree(p, f, true);
    if At(p, f) != CLOSE {
      MembersStayOpen(p, f, fl);
    }
  }

  /** The position of the character that a literal at `i` spells. */
  function Spelled(p: seq<Char>, i: nat): nat
    requires i < |p|
  {
    if p[i] == BACKSLASH && i + 1 < |p| then i + 1 else i
  }

  /** The first element of a glob-free pattern is a literal or a separator. */
  lemma FirstIsLiteral(p: seq<Char>, i: nat, nesting: bool, fl: Flags) returns (nesting': bool)
    requires i < |p| && !fl.noescape && GlobFree(p, i, nesting)
    ensures Spelled(p, i) + 1 <= |p| && GlobFree(p, Spelled(p, i) + 1, nesting')
    ensures
      var k := Spelled(p, i);
      AtomAt(p, i, fl) == (if fl.pathname && p[k] == SLASH then Separator else Lit(p[k]), k + 1)
  {
    if p[i] == OPEN {
      BracketStaysOpen(p, i, nesting, fl);
    }
    nesting' := nesting || p[i] == OPEN;
  }

  /** The pattern from `i`, unquoted, is the string from `j`. */
  predicate Spells(p: seq<Char>, i: nat, s: seq<Char>, j: nat)
    decreases |p| - i
  {
    if i >= |p| then j == |s|
    else j < |s| && s[j] == p[Spelled(p, i)] && Spells(p, Spelled(p, i) + 1, s, j + 1)
  }

  lemma {:induction false} SpellsUnquote(p: seq<Char>, i: nat, s: seq<Char>, j: nat)
    requires j <= |s|
    ensures Spells(p, i, s, j) <==> s[j..] == Unquote(p, i)
    decreases |p| - i
  {
    if i < |p| && j < |s| {
      var k := Spelled(p, i);
      SpellsUnquote(p, k + 1, s, j + 1);
      var u, t := Unquote(p, k + 1), s[j + 1..];
      assert Unquote(p, i) == [p[k]] + u;
      hide Unquote;
      assert s[j..] == [s[j]] + t;
      assert ([p[k]] + u)[1..] == u && ([s[j]] + t)[1..] == t;
    }
  }

  /** A glob-free pattern matches the text it spells and nothing else. */
  lemma {:induction false} GlobFreeSpells(p: seq<Char>, i: nat, s: seq<Char>, j: nat, nesting: bool, fl: Flags, start: bool)
    requires i <= |p| && j <= |s|
    requires !fl.noescape && !fl.caseBlind && GlobFree(p, i, nesting)
    ensures Matches(p, i, s, j, fl, start) <==> Spells(p, i, s, j)
    decreases |p| - i
  {
    if i < |p| {
      var nesting' := FirstIsLiteral(p, i, nesting, fl);
      if j < |s| {
        var k := Spelled(p, i);
        GlobFreeSpells(p, k + 1, s, j + 1, nesting', fl, fl.pathname && p[k] == SLASH);
      }
    }
  }

  lemma GlobFreeMatchesItself(p: seq<Char>, s: seq<Char>, fl: Flags)
    requires !fl.noescape && !fl.caseBlind && GlobFree(p, 0, false)
    ensures Matches(p, 0, s, 0, fl, true) <==> s == Unquote(p, 0)
  {
    GlobFreeSpells(p, 0, s, 0, false, fl, true);
    SpellsUnquote(p, 0, s, 0);
    assert s[0..] == s;
  }

  /** `apr_fnmatch_test`; 0 means the pattern is a plain name, in escape mode. */
  method FnmatchTest(p: CString) returns (r: int)
    ensures r == 0 || r == 1
    ensures r == 0 ==>
              forall s: seq<Char>, fl: Flags {:trigger Matches(p, 0, s, 0, fl, true)} ::
                !fl.noescape && !fl.caseBlind ==> (Matches(p, 0, s, 0, fl, true) <==> s == Unquote(p, 0))
    ensures r == 0 <==> GlobFree(p, 0, false)
  {
    var i, nesting := 0, 0;
    r := 0;
    while i < |p|
      invariant 0 <= i && 0 <= nesting
      invariant GlobFree(p, 0, false) <==> GlobFree(p, i, nesting > 0)
      decreases |p| - i
    {
      if p[i] == QUESTION || p[i] == STAR {
        return 1;
      } else if p[i] == BACKSLASH {
        i := i + 1;
        if i >= |p| {
          break;
        }
      } else if p[i] == OPEN {
        nesting := nesting + 1;
      } else if p[i] == CLOSE {
        if nesting != 0 {
          return 1;
        }
      }
      i := i + 1;
    }
    forall s: seq<Char>, fl: Flags | !fl.noescape && !fl.caseBlind
      ensures Matches(p, 0, s, 0, fl, true) <==> s == Unquote(p, 0)
    {
      GlobFreeMatchesItself(p, s, fl);
    }
  }

  // ---------- backslashes taken literally ----------

  /** The scan knows nothing of NOESCAPE: there "\\?" is a backslash and a wildcard. */
  lemma EscapeHidesGlob()
    ensures var p: seq<Char>, s: seq<Char> := [BACKSLASH, QUESTION], [BACKSLASH, 97];
      GlobFree(p, 0, false) && Matches(p, 0, s, 0, Flags(true, false, false, false), true) && s != p
  {
    var p: seq<Char>, s: seq<Char> := [BACKSLASH, QUESTION], [BACKSLASH, 97];
    var fl := Flags(true, false, false, false);
    assert Matches(p, 2, s, 2, fl, false);
    assert Matches(p, 1, s, 1, fl, false);
  }

  /** With no backslash in the pattern it makes no difference whether one would escape. */
  lemma {:induction false} SameMembers(p: seq<Char>, i: nat, fl: Flags)
    requires BACKSLASH !in p
    ensures Members(p, i, fl) == Members(p, i, fl.(noescape := !fl.noescape))
    decreases |p| - i, 1
  {
    if i < |p| && p[i] != CLOSE {
      SameMember(p, i, fl);
    }
  }

  lemma {:induction false} SameMember(p: seq<Char>, k: nat, fl: Flags)
    requires BACKSLASH !in p && k < |p|
    ensures Member(p, k, fl) == Member(p, k, fl.(noescape := !fl.noescape))
    decreases |p| - k, 0
  {
    if At(p, k + 1) == HYPHEN && At(p, k + 2) != CLOSE {
      SameMembers(p, k + 3, fl);
    } else {
      SameMembers(p, k + 1, fl);
    }
  }

  lemma SameAtom(p: seq<Char>, i: nat, fl: Flags)
    requires BACKSLASH !in p && i < |p|
    ensures AtomAt(p, i, fl) == AtomAt(p, i, fl.(noescape := !fl.noescape))
  {
    var f := if Negated(p, i) then i + 2 else i + 1;
    if At(p, f) == CLOSE {
      SameMember(p, f, fl);
    } else {
      SameMembers(p, f, fl);
    }
  }

  lemma {:induction false} StillMatches(p: seq<Char>, i: nat, s: seq<Char>, j: nat, fl: Flags, start: bool)
    requires BACKSLASH !in p && i <= |p| && j <= |s| && Matches(p, i, s, j, fl, start)
    ensures Matches(p, i, s, j, fl.(noescape := !fl.noescape), start)
    decreases |p| - i
  {
    if i < |p| {
      var (a, next) := AtomAt(p, i, fl);
      var other := fl.(noescape := !fl.noescape);
      SameAtom(p, i, fl);
      if start && fl.period && At(s, j) == DOT {
        StillMatches(p, next, s, j + 1, fl, false);
      } else if a == Star {
        var k :| j <= k <= |s| && InSegment(s, j, k, fl) && Matches(p, next, s, k, fl, false);
        StillMatches(p, next, s, k, fl, false);
        assert InSegment(s, j, k, other);
      } else {
        StillMatches(p, next, s, j + 1, fl, a == Separator);
        SameAccepts(a, s[j], fl);
      }
    }
  }

  lemma SameAccepts(a: Atom, c: Char, fl: Flags)
    ensures Accepts(a, c, fl) == Accepts(a, c, fl.(noescape := !fl.noescape))
  {
    if a.Class? {
      assert forall k :: 0 <= k < |a.items| ==> InItem(c, a.items[k], fl) == InItem(c, a.items[k], fl.(noescape := !fl.noescape));
    }
  }

  // ---------- which patterns are plain names when backslashes are literal ----------

  predicate IsLiteral(a: Atom) { a.Lit? || a.Separator? }

  /** Every element from `i` on is a literal or a separator. */
  predicate AllLiteral(p: seq<Char>, i: nat, fl: Flags)
    requires i <= |p|
    decreases |p| - i
  {
    i < |p| ==> IsLiteral(AtomAt(p, i, fl).0) && AllLiteral(p, AtomAt(p, i, fl).1, fl)
  }

  /** The pattern matches its own text and nothing else. */
  ghost predicate PlainName(p: seq<Char>, fl: Flags) {
    forall s: seq<Char> {:trigger Matches(p, 0, s, 0, fl, true)} :: Matches(p, 0, s, 0, fl, true) <==> s == p
  }

  lemma {:induction false} LiteralsMatchThemselves(p: seq<Char>, i: nat, s: seq<Char>, j: nat, fl: Flags, start: bool)
    requires fl.noescape && !fl.caseBlind && i <= |p| && j <= |s| && AllLiteral(p, i, fl)
    ensures Matches(p, i, s, j, fl, start) <==> s[j..] == p[i..]
    decreases |p| - i
  {
    if i < |p| {
      assert p[i..] == [p[i]] + p[i + 1..];
      if j < |s| {
        assert s[j..] == [s[j]] + s[j + 1..];
        assert s[j..] == p[i..] <==> s[j] == p[i] && s[j + 1..] == p[i + 1..] by {
          assert s[j..][0] == s[j] && s[j..][1..] == s[j + 1..] && p[i..][0] == p[i] && p[i..][1..] == p[i + 1..];
        }
        LiteralsMatchThemselves(p, i + 1, s, j + 1, fl, false);
        LiteralsMatchThemselves(p, i + 1, s, j + 1, fl, true);
      }
    }
  }

  /** A `*` from `i` on. */
  predicate HasStar(p: seq<Char>, i: nat, fl: Flags)
    requires i <= |p|
    decreases |p| - i
  {
    i < |p| && (AtomAt(p, i, fl).0 == Star || HasStar(p, AtomAt(p, i, fl).1, fl))
  }

  predicate HasAny(p: seq<Char>, i: nat, fl: Flags)
    requires i <= |p|
    decreases |p| - i
  {
    i < |p| && (AtomAt(p, i, fl).0 == Any || HasAny(p, AtomAt(p, i, fl).1, fl))
  }

  function Elements(p: seq<Char>, i: nat, fl: Flags): nat
    requires i <= |p|
    decreases |p| - i
  {
    if i == |p| then 0 else 1 + Elements(p, AtomAt(p, i, fl).1, fl)
  }

  /** A letter that is neither a slash nor a period, and not `c`. */
  function OtherLetter(c: Char): (d: Char)
    ensures d != c && d != SLASH && d != DOT && d != NUL
  {
    if c == 97 then 98 else 97
  }

  /** From `j` on `s` reads what `t` reads from `k` on. */
  ghost predicate SameFrom(s: seq<Char>, j: nat, t: seq<Char>, k: nat) {
    && j <= |s| && k <= |t| && |s| - j == |t| - k
    && (forall x :: j <= x < |s| ==> s[x] == t[x - j + k])
  }

  lemma SameFurther(s: seq<Char>, j: nat, t: seq<Char>, k: nat, x: nat)
    requires SameFrom(s, j, t, k) && j <= x <= |s|
    ensures SameFrom(s, x, t, x - j + k)
  {
  }

  lemma SameRun(s: seq<Char>, j: nat, t: seq<Char>, k: nat, x: nat, fl: Flags)
    requires SameFrom(s, j, t, k) && j <= x <= |s| && InSegment(s, j, x, fl)
    ensures InSegment(t, k, x - j + k, fl)
  {
    forall z | k <= z < x - j + k
      ensures t[z] == s[z - k + j]
    {
    }
  }

  /** What matches depends on the rest of the string only. */
  lemma {:induction false} SameRest(p: seq<Char>, i: nat, s: seq<Char>, j: nat, t: seq<Char>, k: nat, fl: Flags, start: bool)
    requires i <= |p| && SameFrom(s, j, t, k) && Matches(p, i, s, j, fl, start)
    ensures Matches(p, i, t, k, fl, start)
    decreases |p| - i
  {
    if i < |p| {
      var (a, next) := AtomAt(p, i, fl);
      assert At(s, j) == At(t, k);
      if start && fl.period && At(s, j) == DOT {
        SameFurther(s, j, t, k, j + 1);
        SameRest(p, next, s, j + 1, t, k + 1, fl, false);
      } else if a == Star {
        var x :| j <= x <= |s| && InSegment(s, j, x, fl) && Matches(p, next, s, x, fl, false);
        SameFurther(s, j, t, k, x);
        SameRun(s, j, t, k, x, fl);
        hide SameFrom;
        SameRest(p, next, s, x, t, x - j + k, fl, false);
      } else {
        SameFurther(s, j, t, k, j + 1);
        SameRest(p, next, s, j + 1, t, k + 1, fl, a == Separator);
      }
    }
  }

  /** Where there is a `*`, a match can be made longer. */
  lemma {:induction false} LongerMatch(p: seq<Char>, i: nat, s: seq<Char>, j: nat, fl: Flags, start: bool) returns (t: seq<Char>)
    requires i <= |p| && j <= |s| && HasStar(p, i, fl) && Matches(p, i, s, j, fl, start)
    ensures |t| == |s| - j + 1 && Matches(p, i, t, 0, fl, start)
    decreases |p| - i
  {
    var (a, next) := AtomAt(p, i, fl);
    if a == Star && !(start && fl.period && At(s, j) == DOT) {
      var x :| j <= x <= |s| && InSegment(s, j, x, fl) && Matches(p, next, s, x, fl, false);
      t := [OtherLetter(NUL)] + s[j..];
      assert SameFrom(s, j, t, 1);
      SameFurther(s, j, t, 1, x);
      SameRun(s, j, t, 1, x, fl);
      SameRest(p, next, s, x, t, x - j + 1, fl, false);
      assert InSegment(t, 0, x - j + 1, fl);
    } else {
      var u := LongerMatch(p, next, s, j + 1, fl, a == Separator);
      t := [s[j]] + u;
      assert SameFrom(u, 0, t, 1);
      SameRest(p, next, u, 0, t, 1, fl, a == Separator);
    }
  }

  /** Without a `*` every element takes one character. */
  lemma {:induction false} OneEach(p: seq<Char>, i: nat, s: seq<Char>, j: nat, fl: Flags, start: bool)
    requires i <= |p| && j <= |s| && !HasStar(p, i, fl) && Matches(p, i, s, j, fl, start)
    ensures |s| - j == Elements(p, i, fl)
    decreases |p| - i
  {
    if i < |p| {
      var (a, next) := AtomAt(p, i, fl);
      OneEach(p, next, s, j + 1, fl, if start && fl.period && At(s, j) == DOT then false else a == Separator);
    }
  }

  /** A bracket expression is longer than one character, so a pattern of as many elements as characters has none. */
  lemma {:induction false} ElementsFit(p: seq<Char>, i: nat, fl: Flags)
    requires i <= |p| && fl.noescape
    ensures Elements(p, i, fl) <= |p| - i
    ensures Elements(p, i, fl) == |p| - i && !HasStar(p, i, fl) && !HasAny(p, i, fl) ==> AllLiteral(p, i, fl)
    decreases |p| - i
  {
    if i < |p| {
      ElementsFit(p, AtomAt(p, i, fl).1, fl);
    }
  }

  /** Where there is a `?`, a match can be changed. */
  lemma {:induction false} OtherMatch(p: seq<Char>, i: nat, s: seq<Char>, j: nat, fl: Flags, start: bool) returns (t: seq<Char>)
    requires i <= |p| && j <= |s| && HasAny(p, i, fl) && !HasStar(p, i, fl) && Matches(p, i, s, j, fl, start)
    ensures t != s[j..] && Matches(p, i, t, 0, fl, start)
    decreases |p| - i
  {
    var (a, next) := AtomAt(p, i, fl);
    var rest := s[j + 1..];
    assert s[j..] == [s[j]] + rest;
    if a == Any {
      t := [OtherLetter(s[j])] + rest;
      assert SameFrom(s, j + 1, t, 1);
      SameRest(p, next, s, j + 1, t, 1, fl, false);
      assert t[0] != s[j..][0];
    } else {
      var after := a == Separator;
      var u := OtherMatch(p, next, s, j + 1, fl, after);
      t := [s[j]] + u;
      assert SameFrom(u, 0, t, 1);
      SameRest(p, next, u, 0, t, 1, fl, after);
      assert s[j..][1..] == rest;
    }
  }

  /** Under NOESCAPE exactly the patterns that consist of literals and separators are plain names. */
  lemma PlainUnderNoEscape(p: seq<Char>, fl: Flags)
    requires fl.noescape && !fl.caseBlind
    ensures PlainName(p, fl) <==> AllLiteral(p, 0, fl)
  {
    if AllLiteral(p, 0, fl) {
      forall s: seq<Char>
        ensures Matches(p, 0, s, 0, fl, true) <==> s == p
      {
        LiteralsMatchThemselves(p, 0, s, 0, fl, true);
        assert s[0..] == s && p[0..] == p;
      }
    } else if PlainName(p, fl) {
      assert Matches(p, 0, p, 0, fl, true);
      NotPlain(p, fl);
    }
  }

  lemma NotPlain(p: seq<Char>, fl: Flags)
    requires fl.noescape && !fl.caseBlind && Matches(p, 0, p, 0, fl, true) && !AllLiteral(p, 0, fl)
    ensures exists s: seq<Char> :: Matches(p, 0, s, 0, fl, true) && s != p
  {
    if HasStar(p, 0, fl) {
      var t := LongerMatch(p, 0, p, 0, fl, true);
      assert |t| != |p|;
    } else {
      OneEach(p, 0, p, 0, fl, true);
      ElementsFit(p, 0, fl);
      var t := OtherMatch(p, 0, p, 0, fl, true);
      assert p[0..] == p;
    }
  }

  /** So a pattern the scan calls plain is plain in either mode exactly when it would be without escapes as well. */
  lemma GlobFreeInEitherMode(p: seq<Char>, fl: Flags)
    requires !fl.caseBlind && GlobFree(p, 0, false)
    ensures fl.noescape ==> (PlainName(p, fl) <==> AllLiteral(p, 0, fl))
    ensures BACKSLASH !in p ==> PlainName(p, fl)
  {
    if fl.noescape {
      PlainUnderNoEscape(p, fl);
    }
    if BACKSLASH !in p {
      forall s: seq<Char>
        ensures Matches(p, 0, s, 0, fl, true) <==> s == p
      {
        GlobFreeWithoutBackslash(p, s, fl);
      }
    }
  }

  /** The scan is right in either mode for patterns without a backslash. */
  lemma GlobFreeWithoutBackslash(p: seq<Char>, s: seq<Char>, fl: Flags)
    requires !fl.caseBlind && BACKSLASH !in p && GlobFree(p, 0, false)
    ensures Matches(p, 0, s, 0, fl, true) <==> s == p
  {
    var escaping, other := fl.(noescape := false), fl.(noescape := !fl.noescape);
    if Matches(p, 0, s, 0, fl, true) {
      StillMatches(p, 0, s, 0, fl, true);
    }
    if Matches(p, 0, s, 0, other, true) {
      StillMatches(p, 0, s, 0, other, true);
    }
    assert other.(noescape := !other.noescape) == fl && (escaping == fl || escaping == other);
    GlobFreeMatchesItself(p, s, escaping);
    UnquotePlain(p, 0);
    assert p[0..] == p;
  }

  lemma {:induction false} UnquotePlain(p: seq<Char>, i: nat)
    requires BACKSLASH !in p && i <= |p|
    ensures Unquote(p, i) == p[i..]
    decreases |p| - i
  {
    if i < |p| {
      UnquotePlain(p, i + 1);
    }
  }

  /** From `i` on, `q` spells `s[k..]` with every character escaped. */
  predicate Quotes(q: seq<Char>, i: nat, s: seq<Char>, k: nat)
    requires k <= |s|
    decreases |s| - k
  {
    if k == |s| then i == |q|
    else i + 1 < |q| && q[i] == BACKSLASH && q[i + 1] == s[k] && Quotes(q, i + 2, s, k + 1)
  }

  lemma {:induction false} QuoteQuotes(before: seq<Char>, s: seq<Char>, k: nat)
    requires k <= |s|
    ensures Quotes(before + Quote(s, k), |before|, s, k)
    decreases |s| - k
  {
    if k < |s| {
      var before' := before + [BACKSLASH, s[k]];
      QuoteQuotes(before', s, k + 1);
      assert before + Quote(s, k) == before' + Quote(s, k + 1);
    }
  }

  lemma {:induction false} QuotesIsGlobFree(q: seq<Char>, i: nat, s: seq<Char>, k: nat)
    requires k <= |s| && Quotes(q, i, s, k)
    ensures GlobFree(q, i, false) && Spells(q, i, s, k)
    decreases |s| - k
  {
    if k < |s| {
      QuotesIsGlobFree(q, i + 2, s, k + 1);
    }
  }

  /** Quoting turns any string into a pattern for exactly that string. */
  lemma QuoteMatchesOnlyItself(s: seq<Char>, t: seq<Char>, fl: Flags)
    requires !fl.noescape && !fl.caseBlind
    ensures Matches(Quote(s, 0), 0, t, 0, fl, true) <==> t == s
  {
    var q := Quote(s, 0);
    QuoteQuotes([], s, 0);
    assert [] + q == q;
    QuotesIsGlobFree(q, 0, s, 0);
    SpellsUnquote(q, 0, s, 0);
    assert s[0..] == s;
    GlobFreeMatchesItself(q, t, fl);
  }

  // ---------- path separators ----------

  function SlashCount(s: seq<Char>, j: nat): nat
    decreases |s| - j
  {
    if j >= |s| then 0 else (if s[j] == SLASH then 1 else 0) + SlashCount(s, j + 1)
  }

  function SeparatorCount(p: seq<Char>, i: nat, fl: Flags): nat
    decreases |p| - i
  {
    if i >= |p| then 0
    else
      var (a, next) := AtomAt(p, i, fl);
      (if a == Separator then 1 else 0) + SeparatorCount(p, next, fl)
  }

  lemma {:induction false} RunHasNoSlash(s: seq<Char>, j: nat, k: nat, fl: Flags)
    requires j <= k <= |s| && fl.pathname && InSegment(s, j, k, fl)
    ensures SlashCount(s, j) == SlashCount(s, k)
    decreases k - j
  {
    if j < k {
      RunHasNoSlash(s, j + 1, k, fl);
    }
  }

  /** In pathname mode no wildcard and no bracket stands for a slash: the counts agree. */
  lemma {:induction false} SlashesBalance(p: seq<Char>, i: nat, s: seq<Char>, j: nat, fl: Flags, start: bool)
    requires i <= |p| && j <= |s| && fl.pathname && Matches(p, i, s, j, fl, start)
    ensures SlashCount(s, j) == SeparatorCount(p, i, fl)
    decreases |p| - i
  {
    if i < |p| {
      var (a, next) := AtomAt(p, i, fl);
      if start && fl.period && At(s, j) == DOT {
        SlashesBalance(p, next, s, j + 1, fl, false);
      } else if a == Star {
        var k :| j <= k <= |s| && InSegment(s, j, k, fl) && Matches(p, next, s, k, fl, false);
        RunHasNoSlash(s, j, k, fl);
        SlashesBalance(p, next, s, k, fl, false);
      } else {
        SlashesBalance(p, next, s, j + 1, fl, a == Separator);
      }
    }
  }
}
