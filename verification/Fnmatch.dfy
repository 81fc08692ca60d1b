/**
 The matcher of `apr_fnmatch.c`. Pointers into the pattern and the string are
 indices; a negative answer is APR_FNM_NOMATCH, a positive one is 0.
 */
module Fnmatch {
  import opened CStrings
  import opened GlobPattern
  import opened GlobPieces

  const NOMATCH := 1

  lemma InItemsCons(c: Char, item: Item, rest: seq<Item>, fl: Flags)
    ensures InItems(c, [item] + rest, fl) <==> InItem(c, item, fl) || InItems(c, rest, fl)
  {
    var all := [item] + rest;
    assert all[0] == item;
    assert forall k :: 0 <= k < |rest| ==> all[k + 1] == rest[k];
  }

  /** The outcome of a bracket scan seen from a position inside it. */
  ghost predicate Pending(b: Bracket, rest: Bracket, c: Char, hit: bool, fl: Flags) {
    && b.Bracket? == rest.Bracket?
    && (b.Bracket? ==>
          && b.end == rest.end
          && (InItems(c, b.items, fl) <==> hit || InItems(c, rest.items, fl)))
  }

  lemma PendingStep(b: Bracket, item: Item, rest: Bracket, c: Char, hit: bool, fl: Flags)
    requires Pending(b, Cons(item, rest), c, hit, fl)
    ensures Pending(b, rest, c, hit || InItem(c, item, fl), fl)
  {
    if rest.Bracket? {
      InItemsCons(c, item, rest.items, fl);
    }
  }

  /** One member of a bracket expression, a character or a well-formed range. */
  method ScanMember(p: seq<Char>, k: nat, c: Char, fl: Flags)
    returns (ok: bool, hit: bool, i: nat, ghost item: Item)
    requires k < |p|
    ensures !ok ==> Member(p, k, fl).Malformed?
    ensures ok ==> k < i <= |p| && hit == InItem(c, item, fl)
    ensures ok ==> Member(p, k, fl) == Cons(item, Members(p, i, fl))
  {
    i, hit, item := k, false, Single(p[k]);
    if At(p, i + 1) == HYPHEN && At(p, i + 2) != CLOSE {
      var startch := p[i];
      i := if Escape(p, i + 2, fl) then i + 3 else i + 2;
      if i >= |p| || (fl.pathname && p[i] == SLASH) {
        return false, false, i, item;
      }
      item := Range(startch, p[i]);
      if startch <= c <= p[i] {
        hit := true;
      } else if fl.caseBlind && (IsUpper(c) || IsUpper(startch) || IsUpper(p[i]))
                && ToLower(startch) <= ToLower(c) <= ToLower(p[i]) {
        hit := true;
      }
    } else if c == p[i] {
      hit := true;
    } else if fl.caseBlind && (IsUpper(c) || IsUpper(p[i])) && ToLower(c) == ToLower(p[i]) {
      hit := true;
    }
    i := i + 1;
    ok := true;
  }

  /** The bracket branch of `fnmatch_ch`: scans the expression once, looking for `c`. */
  method ScanBracket(p: seq<Char>, i0: nat, c: Char, fl: Flags) returns (closed: bool, result: int, i: nat)
    requires i0 < |p|
    ensures result == 0 || result == NOMATCH
    ensures closed == BracketAt(p, i0, fl).Bracket?
    ensures i == if closed then BracketAt(p, i0, fl).end else i0
    ensures closed ==> (result == 0 <==> (InItems(c, BracketAt(p, i0, fl).items, fl) != Negated(p, i0)))
  {
    ghost var b := BracketAt(p, i0, fl);
    result := NOMATCH;
    i := i0 + 1;
    var negate := At(p, i) == BANG || At(p, i) == CARET;
    if negate {
      i := i + 1;
    }
    var leading := At(p, i) == CLOSE;
    while i < |p|
      invariant result == 0 || result == NOMATCH
      invariant leading ==> i < |p|
      invariant Pending(b, if leading then Member(p, i, fl) else Members(p, i, fl), c, result == 0, fl)
      decreases |p| - i
    {
      ghost var rest := if leading then Member(p, i, fl) else Members(p, i, fl);
      if !leading {
        if p[i] == CLOSE {
          return true, if negate then NOMATCH - result else result, i + 1;
        }
        if Escape(p, i, fl) {
          i := i + 1;
          if i >= |p| {
            break;
          }
        }
        if fl.pathname && p[i] == SLASH {
          break;
        }
      }
      leading := false;
      assert rest == Member(p, i, fl);
      var ok, hit;
      ghost var item;
      ok, hit, i, item := ScanMember(p, i, c, fl);
      if !ok {
        break;
      }
      PendingStep(b, item, Members(p, i, fl), c, result == 0, fl);
      if hit {
        result := 0;
      }
    }
    return false, NOMATCH, i0;
  }

  /** Where a literal at `i` has its character: after the backslash that escapes it. */
  function Unescaped(p: seq<Char>, i: nat, fl: Flags): nat {
    if Escape(p, i, fl) && At(p, i + 1) != NUL then i + 1 else i
  }

  /** `fnmatch_ch` refuses to step over the end or a path separator. */
  predicate Stops(c: Char, fl: Flags) {
    c == NUL || (fl.pathname && c == SLASH)
  }

  /**
   `fnmatch_ch`. How far it advances never depends on which character is tested,
   only on whether that character ends the segment.
   */
  method FnmatchCh(p: CString, i0: nat, s: CString, j0: nat, fl: Flags) returns (result: int, i: nat, j: nat)
    requires i0 <= |p| && j0 <= |s|
    ensures result == 0 || result == NOMATCH
    // the caller's guards hold: one element, one character
    ensures Fixed(p, i0, fl) && !Stops(At(s, j0), fl) ==>
              && i == Next(p, i0, fl) && j == j0 + 1
              && (result == 0 <==> Accepts(AtomAt(p, i0, fl).0, s[j0], fl))
    // a closed bracket expression is stepped over even at the end of the segment
    ensures At(p, i0) == OPEN && BracketAt(p, i0, fl).Bracket? ==>
              i == BracketAt(p, i0, fl).end && j == j0 + 1
    // '?' leaves the end of the segment alone
    ensures At(p, i0) == QUESTION && Stops(At(s, j0), fl) ==>
              result == NOMATCH && i == i0 && j == j0
    // so do all other elements; an escape is advanced to what it escapes
    ensures At(p, i0) != QUESTION && !(At(p, i0) == OPEN && BracketAt(p, i0, fl).Bracket?) ==>
              var k := Unescaped(p, i0, fl);
              && (result == 0 <==> SameChar(At(s, j0), At(p, k), fl))
              && (Stops(At(s, j0), fl) || Stops(At(p, k), fl) ==> i == k && j == j0)
  {
    i, j := i0, j0;
    if At(p, i) == OPEN {
      var closed;
      closed, result, i := ScanBracket(p, i0, At(s, j), fl);
      if closed {
        j := j + 1;
        return;
      }
      result := NOMATCH;
    } else if At(p, i) == QUESTION {
      if Stops(At(s, j), fl) {
        return NOMATCH, i, j;
      }
      return 0, i + 1, j + 1;
    } else if Escape(p, i, fl) && At(p, i + 1) != NUL {
      i := i + 1;
    }
    result := NOMATCH;
    if At(s, j) == At(p, i) {
      result := 0;
    } else if fl.caseBlind && (IsUpper(At(s, j)) || IsUpper(At(p, i))) && ToLower(At(s, j)) == ToLower(At(p, i)) {
      result := 0;
    }
    if Stops(At(s, j), fl) || Stops(At(p, i), fl) {
      return result, i, j;
    }
    i, j := i + 1, j + 1;
  }

  /** The path separator test, `/` or `\/`, that the matcher repeats at each pattern position. */
  predicate AtSeparator(p: seq<Char>, i: nat, fl: Flags)
    ensures AtSeparator(p, i, fl) <==> i < |p| && AtomAt(p, i, fl).0 == Separator
  {
    fl.pathname && (At(p, i) == SLASH || (Escape(p, i, fl) && At(p, i + 1) == SLASH))
  }

  /** The counting loop: how many characters the piece after a `*` takes, and what ends the piece. */
  method CountFixed(p: CString, i: nat, fl: Flags) returns (matchlen: nat, last: bool)
    requires i <= |p|
    ensures matchlen == PieceLength(p, i, fl)
    ensures last <==> var q := PieceEnd(p, i, fl); q == |p| || AtomAt(p, q, fl).0 == Separator
  {
    var m := i;
    matchlen := 0;
    while true
      invariant i <= m <= |p|
      invariant matchlen + PieceLength(p, m, fl) == PieceLength(p, i, fl)
      invariant PieceEnd(p, m, fl) == PieceEnd(p, i, fl)
      decreases |p| - m
    {
      if m == |p| || AtSeparator(p, m, fl) {
        return matchlen, true;
      }
      if p[m] == STAR {
        return matchlen, false;
      }
      ghost var m0 := m;
      if Escape(p, m, fl) && At(p, m + 1) != NUL {
        m := m + 2;
      } else if p[m] == OPEN {
        var _, m', _ := FnmatchCh(p, m, [SPACE], 0, fl);
        m := m';
      } else {
        m := m + 1;
      }
      assert m == Next(p, m0, fl);
      matchlen := matchlen + 1;
    }
  }

  /** One fixed element and the rest of its piece. */
  lemma PieceStep(p: seq<Char>, i: nat, s: seq<Char>, j: nat, e: nat, fl: Flags)
    requires Fixed(p, i, fl) && SegmentEnd(s, j, e, fl) && j < e
    ensures
      var n, accepted := Next(p, i, fl), Accepts(AtomAt(p, i, fl).0, s[j], fl);
      && PieceLength(p, i, fl) == 1 + PieceLength(p, n, fl) && PieceEnd(p, i, fl) == PieceEnd(p, n, fl)
      && (PieceFits(p, i, s, j, fl) <==> accepted && PieceFits(p, n, s, j + 1, fl))
      && (Matches(p, i, s, j, fl, false) <==> accepted && Matches(p, n, s, j + 1, fl, false))
      && SegmentEnd(s, j + 1, e, fl)
  {
  }

  lemma PieceOver(p: seq<Char>, i: nat, s: seq<Char>, j: nat, fl: Flags)
    requires i <= |p|
    ensures !Fixed(p, i, fl) <==> PieceLength(p, i, fl) == 0
    ensures !Fixed(p, i, fl) ==> PieceEnd(p, i, fl) == i && PieceFits(p, i, s, j, fl)
  {
  }

  /**
   The incremental loop: compares the piece at `i0` with the string from `j0`. After
   a `*` (`wild`) a mismatch moves the start by one; otherwise it is final.
   */
  method MatchPiece(p: CString, i0: nat, s: CString, j0: nat, e: nat, wild: bool, matchlen: nat, fl: Flags)
    returns (ok: bool, i: nat, j: nat)
    requires i0 <= |p| && SegmentEnd(s, j0, e, fl)
    requires wild ==> matchlen == PieceLength(p, i0, fl) && j0 + matchlen <= e
    requires wild ==> var q := PieceEnd(p, i0, fl); q < |p| && p[q] == STAR
    ensures i <= |p|
    ensures ok ==> i0 <= i && j0 <= j <= e
    ensures (if wild then Wild(p, i0, s, j0, fl) else Matches(p, i0, s, j0, fl, false)) <==>
            ok && Matches(p, i, s, j, fl, false)
    ensures ok && Fixed(p, i0, fl) && j0 < e ==> i0 < i
  {
    ghost var answer := if wild then Wild(p, i0, s, j0, fl) else Matches(p, i0, s, j0, fl, false);
    ghost var q := PieceEnd(p, i0, fl);
    i, j := i0, j0;
    var strstartseg := j0;
    hide Matches, Wild, PieceFits, PieceLength, PieceEnd;
    while i < |p| && j < e
      invariant i0 <= i <= |p| && j0 <= strstartseg <= j <= e
      invariant i == i0 ==> j == strstartseg
      invariant !wild ==> strstartseg == j0 && answer == Matches(p, i, s, j, fl, false)
      invariant wild ==> answer == Wild(p, i0, s, strstartseg, fl)
      invariant wild ==> PieceEnd(p, i, fl) == q
      invariant wild ==> j + PieceLength(p, i, fl) == strstartseg + matchlen <= e
      invariant wild ==> (PieceFits(p, i, s, j, fl) <==> PieceFits(p, i0, s, strstartseg, fl))
      decreases e - strstartseg, |p| - i
    {
      if p[i] == STAR {
        break;
      }
      if (fl.pathname && s[j] == SLASH) || AtSeparator(p, i, fl) {
        break;
      }
      assert Fixed(p, i, fl);
      PieceStep(p, i, s, j, e, fl);
      var result;
      result, i, j := FnmatchCh(p, i, s, j, fl);
      if result == 0 {
        continue;
      }
      if wild {
        SkipMisfit(p, i0, s, strstartseg, e, fl);
        strstartseg := strstartseg + 1;
        j := strstartseg;
        if j + matchlen > e {
          TooShort(p, i0, s, j, e, fl);
          return false, i, j;
        }
        i := i0;
      } else {
        return false, i, j;
      }
    }
    PieceOver(p, i, s, j, fl);
    if wild {
      LeftmostFit(p, i0, s, strstartseg, e, fl);
    }
    ok := true;
  }

  /** `strchr(string, '/')`, or the end of the string. */
  method FindSegmentEnd(s: CString, j: nat, fl: Flags) returns (e: nat)
    requires j <= |s|
    ensures SegmentEnd(s, j, e, fl)
  {
    e := j;
    while e < |s| && !(fl.pathname && s[e] == SLASH)
      invariant j <= e <= |s| && InSegment(s, j, e, fl)
    {
      e := e + 1;
    }
  }

  /** What is left to show while a group of `*` and `?` is being reduced. */
  ghost predicate Rest(p: seq<Char>, i: nat, s: seq<Char>, j: nat, wild: bool, fl: Flags)
    requires i <= |p| && j <= |s|
  {
    if wild then Wild(p, i, s, j, fl) else Matches(p, i, s, j, fl, false)
  }

  /** The wildcard group loop: n `?` are stepped over, and any number of `*` become one. */
  method ReduceGroup(p: CString, i0: nat, s: CString, j0: nat, e: nat, fl: Flags)
    returns (ok: bool, wild: bool, i: nat, j: nat)
    requires i0 <= |p| && SegmentEnd(s, j0, e, fl)
    ensures i0 <= i <= |p| && j0 <= j <= e
    ensures Matches(p, i0, s, j0, fl, false) <==> ok && Rest(p, i, s, j, wild, fl)
    ensures i == i0 ==> !wild && j == j0
    ensures ok ==> At(p, i) != STAR && At(p, i) != QUESTION
  {
    i, j, wild := i0, j0, false;
    while At(p, i) == STAR || At(p, i) == QUESTION
      invariant i0 <= i <= |p| && j0 <= j <= e
      invariant i == i0 ==> !wild && j == j0
      invariant Matches(p, i0, s, j0, fl, false) <==> Rest(p, i, s, j, wild, fl)
      decreases |p| - i
    {
      if p[i] == STAR {
        if wild {
          StarStar(p, i, s, j, e, fl);
        }
        wild := true;
      } else {
        if wild {
          StarQuestion(p, i, s, j, e, fl);
        }
        if j < e {
          j := j + 1;
        } else {
          return false, wild, i, j;
        }
      }
      i := i + 1;
    }
    ok := true;
  }

  /** The segment loop: matches the pattern up to the end of the string segment `s[j0..e]`. */
  method MatchSegment(p: CString, i0: nat, s: CString, j0: nat, e: nat, fl: Flags)
    returns (ok: bool, i: nat, j: nat)
    requires i0 <= |p| && SegmentEnd(s, j0, e, fl)
    ensures ok ==> i0 <= i <= |p| && j0 <= j <= e
    ensures Matches(p, i0, s, j0, fl, false) <==> ok && Matches(p, i, s, j, fl, false)
    ensures ok && i < |p| ==> AtSeparator(p, i, fl) || (j == e && p[i] != STAR)
  {
    i, j := i0, j0;
    while i < |p|
      invariant i0 <= i <= |p| && j0 <= j <= e
      invariant Matches(p, i0, s, j0, fl, false) <==> Matches(p, i, s, j, fl, false)
      decreases |p| - i
    {
      if j == e && p[i] != STAR {
        break;
      }
      if AtSeparator(p, i, fl) {
        break;
      }
      ghost var i1 := i;
      var wild, matchlen := false, 0;
      ok, wild, i, j := ReduceGroup(p, i, s, j, e, fl);
      if !ok {
        return;
      }
      if wild {
        var last;
        matchlen, last := CountFixed(p, i, fl);
        if j + matchlen > e {
          TooShort(p, i, s, j, e, fl);
          return false, i, j;
        }
        if last {
          TailJump(p, i, s, j, e, fl);
          j := e - matchlen;
          wild := false;
        }
      }
      ok, i, j := MatchPiece(p, i, s, j, e, wild, matchlen, fl);
      if !ok {
        return;
      }
    }
    ok := true;
  }

  /** The leading period rule, applied where a segment begins. */
  method LeadingPeriod(p: CString, i0: nat, s: CString, j0: nat, fl: Flags) returns (ok: bool, i: nat, j: nat)
    requires i0 <= |p| && j0 <= |s|
    ensures i0 <= i <= |p| && j0 <= j <= |s|
    ensures Matches(p, i0, s, j0, fl, true) <==> ok && Matches(p, i, s, j, fl, false)
  {
    i, j := i0, j0;
    if fl.period && At(s, j) == DOT {
      if At(p, i) == DOT {
        i := i + 1;
      } else if Escape(p, i, fl) && At(p, i + 1) == DOT {
        i := i + 2;
      } else {
        return false, i, j;
      }
      j := j + 1;
    }
    ok := true;
  }

  /** Two balanced slashes begin a new segment. */
  lemma SlashStep(p: seq<Char>, i: nat, s: seq<Char>, j: nat, start: bool, fl: Flags)
    requires i < |p| && j < |s| && AtSeparator(p, i, fl) && s[j] == SLASH
    ensures Matches(p, i, s, j, fl, start) <==> Matches(p, Next(p, i, fl), s, j + 1, fl, true)
    ensures Next(p, i, fl) == if p[i] == SLASH then i + 1 else i + 2
  {
  }

  /** `\/` stands for `/`. */
  lemma EscapedSlash(p: seq<Char>, i: nat, s: seq<Char>, j: nat, start: bool, fl: Flags)
    requires i < |p| && j <= |s| && fl.pathname && Escape(p, i, fl) && At(p, i + 1) == SLASH
    ensures Matches(p, i, s, j, fl, start) <==> Matches(p, i + 1, s, j, fl, start)
  {
  }

  /** The slash handling at the head of the outer loop. */
  method Slashes(p: CString, i0: nat, s: CString, j0: nat, ghost start: bool, fl: Flags) returns (i: nat, j: nat)
    requires i0 < |p| && j0 < |s|
    requires start || (AtSeparator(p, i0, fl) && s[j0] == SLASH)
    ensures i0 <= i <= |p| && j0 <= j <= |s|
    ensures !start ==> i0 < i
    ensures Matches(p, i0, s, j0, fl, start) <==> Matches(p, i, s, j, fl, true)
  {
    i, j := i0, j0;
    if fl.pathname && Escape(p, i, fl) && At(p, i + 1) == SLASH {
      EscapedSlash(p, i, s, j, start, fl);
      i := i + 1;
    }
    if fl.pathname && p[i] == SLASH && s[j] == SLASH {
      SlashStep(p, i, s, j, start, fl);
      i, j := i + 1, j + 1;
    }
  }

  /** `apr_fnmatch` answers 0 exactly when the pattern matches. */
  method Fnmatch(p: CString, s: CString, fl: Flags) returns (r: int)
    ensures r == 0 || r == NOMATCH
    ensures r == 0 <==> Matches(p, 0, s, 0, fl, true)
  {
    var i: nat, j: nat := 0, 0;
    var enter := At(p, 0) == STAR;   // the jump to `firstsegment`
    ghost var initial := true;
    while enter || (i < |p| && j < |s|)
      invariant i <= |p| && j <= |s|
      invariant enter ==> initial
      invariant initial ==> i == 0 && j == 0 && enter == (At(p, 0) == STAR)
      invariant Matches(p, 0, s, 0, fl, true) <==> Matches(p, i, s, j, fl, initial)
      invariant !initial && i < |p| ==> AtSeparator(p, i, fl)
      invariant !initial && j < |s| ==> fl.pathname && s[j] == SLASH
      decreases initial, |p| - i
    {
      if !enter {
        i, j := Slashes(p, i, s, j, initial, fl);
      }
      enter, initial := false, false;
      var ok;
      ok, i, j := LeadingPeriod(p, i, s, j, fl);
      if !ok {
        return NOMATCH;
      }
      var e := FindSegmentEnd(s, j, fl);
      ok, i, j := MatchSegment(p, i, s, j, e, fl);
      if !ok {
        return NOMATCH;
      }
      if j < |s| && !(fl.pathname && s[j] == SLASH) {
        return NOMATCH;
      }
      if i < |p| && !AtSeparator(p, i, fl) {
        return NOMATCH;
      }
    }
    if i == |p| && j == |s| {
      return 0;
    }
    return NOMATCH;
  }
}
