/**
 What decides between two strings, read off their text, with the characters spelled out as codes.
 */
module NatLaws {
  import opened Basics
  import opened CStrings
  import opened NatOrder
  import opened NatCompare
  import NatNumbers
  import Numbers

  function Raised(c: Char): Char { if 97 <= c <= 122 then c - 32 else c }

  predicate Blank(c: Char) { c == 32 || 9 <= c <= 13 }

  predicate Numeric(c: Char) { 48 <= c <= 57 }

  /** The same character, or with `fold` the same letter. */
  predicate Alike(c: Char, d: Char, fold: bool) { c == d || (fold && Raised(c) == Raised(d)) }

  predicate AlikeTexts(v: seq<Char>, w: seq<Char>, fold: bool) {
    |v| == |w| && forall i :: 0 <= i < |v| ==> Alike(v[i], w[i], fold)
  }

  /** A run of digits does not continue from `u` into `v`. */
  predicate Parted(u: seq<Char>, v: seq<Char>) {
    u != [] && v != [] ==> !(Numeric(u[|u| - 1]) && Numeric(v[0]))
  }

  // ---------- cutting strings ----------

  lemma RunIs(s: seq<Char>, i: nat)
    ensures RunAt(s, i) == if IsDigit(At(s, i)) then [s[i]] + RunAt(s, i + 1) else []
  {
  }

  lemma TokensAre(s: CString, i: nat, fold: bool)
    requires i <= |s|
    ensures Tokens(s, i, fold) ==
      if i == |s| then [Ch(0)]
      else if IsSpace(s[i]) then Tokens(s, i + 1, fold)
      else if IsDigit(s[i]) then [Run(RunAt(s, i))] + Tokens(s, i + |RunAt(s, i)|, fold)
      else [Ch(Fold(s[i], fold))] + Tokens(s, i + 1, fold)
  {
  }

  /** From two positions the strings read the same. */
  predicate SameRest(s: seq<Char>, m: nat, p: seq<Char>, i: nat) {
    m <= |s| && i <= |p| && s[m..] == p[i..]
  }

  lemma RestChar(s: seq<Char>, m: nat, p: seq<Char>, i: nat)
    requires SameRest(s, m, p, i)
    ensures At(s, m) == At(p, i) && (m < |s| <==> i < |p|)
    ensures i < |p| ==> s[m] == p[i] == At(p, i)
  {
    if i < |p| {
      assert s[m..][0] == p[i..][0];
    }
  }

  lemma RestLater(s: seq<Char>, m: nat, p: seq<Char>, i: nat, k: nat)
    requires SameRest(s, m, p, i) && i + k <= |p|
    ensures SameRest(s, m + k, p, i + k)
  {
    assert |s[m..]| == |p[i..]|;
    assert s[m..][k..] == s[m + k..] && p[i..][k..] == p[i + k..];
  }

  lemma {:induction false} RunSame(s: seq<Char>, m: nat, p: seq<Char>, i: nat)
    requires SameRest(s, m, p, i)
    ensures RunAt(s, m) == RunAt(p, i)
    decreases |p| - i
  {
    hide *;
    RestChar(s, m, p, i);
    RunIs(p, i);
    RunIs(s, m);
    if IsDigit(At(p, i)) && i < |p| {
      RestLater(s, m, p, i, 1);
      RunSame(s, m + 1, p, i + 1);
    }
    NulNoDigit();
  }

  lemma NulNoDigit()
    ensures forall s: seq<Char>, i :: |s| <= i ==> !IsDigit(At(s, i))
  {
  }

  /** The token at `i`, if one begins there, and how many characters are passed. */
  function LeadAt(s: seq<Char>, i: nat, fold: bool): (seq<Token>, nat)
    requires i < |s|
  {
    if IsSpace(s[i]) then ([], 1)
    else if IsDigit(s[i]) then ([Run(RunAt(s, i))], |RunAt(s, i)|)
    else ([Ch(Fold(s[i], fold))], 1)
  }

  lemma LeadSame(s: seq<Char>, m: nat, p: seq<Char>, i: nat, fold: bool)
    requires SameRest(s, m, p, i) && i < |p|
    ensures m < |s| && LeadAt(s, m, fold) == LeadAt(p, i, fold)
    ensures 0 < LeadAt(p, i, fold).1 && i + LeadAt(p, i, fold).1 <= |p|
  {
    hide RunAt;
    RestChar(s, m, p, i);
    RunSame(s, m, p, i);
    RunIs(p, i);
  }

  lemma LeadFirst(s: CString, i: nat, fold: bool)
    requires i < |s|
    ensures var (ts, n) := LeadAt(s, i, fold); i + n <= |s| && Tokens(s, i, fold) == ts + Tokens(s, i + n, fold)
  {
    hide Tokens, RunAt, IsSpace, IsDigit, Fold;
    TokensAre(s, i, fold);
    if IsSpace(s[i]) {
      assert [] + Tokens(s, i + 1, fold) == Tokens(s, i + 1, fold);
    } else if IsDigit(s[i]) {
      RunFits(s, i);
    }
  }

  lemma RunFits(s: seq<Char>, i: nat)
    requires i < |s|
    ensures i + |RunAt(s, i)| <= |s|
  {
  }

  lemma {:induction false} TokensSame(s: CString, m: nat, p: CString, i: nat, fold: bool)
    requires SameRest(s, m, p, i)
    ensures m <= |s| && i <= |p| && Tokens(s, m, fold) == Tokens(p, i, fold)
    decreases |p| - i
  {
    RestChar(s, m, p, i);
    hide Tokens, SameRest, LeadAt;
    if i < |p| {
      LeadSame(s, m, p, i, fold);
      LeadFirst(s, m, fold);
      LeadFirst(p, i, fold);
      var n := LeadAt(p, i, fold).1;
      RestLater(s, m, p, i, n);
      TokensSame(s, m + n, p, i + n, fold);
    } else {
      TokensAre(p, i, fold);
      TokensAre(s, m, fold);
    }
  }

  lemma TokensMoved(x: CString, p: CString, fold: bool)
    ensures Tokens(x + p, |x|, fold) == Tokens(p, 0, fold)
  {
    assert (x + p)[|x|..] == p == p[0..];
    TokensSame(x + p, |x|, p, 0, fold);
  }

  /** The tokens of a text in front of others. */
  function Front(u: seq<Char>, fold: bool): (ts: seq<Token>)
    ensures forall k :: 0 <= k < |ts| ==> WellFormed(ts[k])
  {
    if u == [] then []
    else if IsSpace(u[0]) then Front(u[1..], fold)
    else if IsDigit(u[0]) then
      var r := RunAt(u, 0);
      [Run(r)] + Front(u[|r|..], fold)
    else [Ch(Fold(u[0], fold))] + Front(u[1..], fold)
  }

  lemma FrontMore(u: seq<Char>, fold: bool)
    requires u != []
    ensures var (ts, n) := LeadAt(u, 0, fold); 0 < n <= |u| && Front(u, fold) == ts + Front(u[n..], fold)
  {
    hide RunAt;
    RunIs(u, 0);
  }

  /** A run that does not continue is cut off whole. */
  lemma {:induction false} RunCut(u: seq<Char>, v: seq<Char>, i: nat)
    requires i < |u| && Parted(u, v)
    ensures RunAt(u + v, i) == RunAt(u, i)
    decreases |u| - i
  {
    if IsDigit(u[i]) {
      if i + 1 < |u| {
        RunCut(u, v, i + 1);
      } else {
        assert At(u + v, i + 1) == At(v, 0);
      }
    }
  }

  lemma LeadCut(u: CString, v: CString, fold: bool)
    requires u != [] && Parted(u, v)
    ensures var (ts, n) := LeadAt(u, 0, fold);
      0 < n <= |u| && Tokens(u + v, 0, fold) == ts + Tokens(u[n..] + v, 0, fold)
  {
    hide Tokens, RunAt, Parted;
    RunIs(u, 0);
    RunCut(u, v, 0);
    LeadFirst(u + v, 0, fold);
    var n := LeadAt(u, 0, fold).1;
    TokensMoved(u[..n], u[n..] + v, fold);
    assert u[..n] + (u[n..] + v) == u + v;
  }

  lemma PartedTail(u: seq<Char>, v: seq<Char>, n: nat)
    requires Parted(u, v) && n <= |u|
    ensures Parted(u[n..], v)
  {
  }

  lemma NoFront(fold: bool)
    ensures Front([], fold) == []
  {
  }

  lemma {:induction false} TokensCut(u: CString, v: CString, fold: bool)
    requires Parted(u, v)
    ensures Tokens(u + v, 0, fold) == Front(u, fold) + Tokens(v, 0, fold)
    decreases |u|
  {
    hide Tokens, RunAt, Front, LeadAt, Parted;
    if u == [] {
      NoFront(fold);
      assert u + v == v;
    } else {
      var (ts, n) := LeadAt(u, 0, fold);
      LeadCut(u, v, fold);
      FrontMore(u, fold);
      PartedTail(u, v, n);
      TokensCut(u[n..], v, fold);
      Regroup(ts, Front(u[n..], fold), Tokens(v, 0, fold));
    }
  }

  /** Common tokens in front do not matter. */
  lemma {:induction false} CompareCut(ts: seq<Token>, us: seq<Token>, ws: seq<Token>)
    requires AllWellFormed(ts) && AllWellFormed(us) && AllWellFormed(ws)
    ensures AllWellFormed(ts + us) && AllWellFormed(ts + ws)
    ensures Compare(ts + us, ts + ws) == Compare(us, ws)
  {
    if ts == [] {
      assert ts + us == us && ts + ws == ws;
    } else {
      CompareCut(ts[1..], us, ws);
      assert (ts + us)[1..] == ts[1..] + us && (ts + ws)[1..] == ts[1..] + ws;
      TokensSign(ts[0], ts[0]);
    }
  }

  lemma FoldAlike(c: Char, d: Char, fold: bool)
    ensures Alike(c, d, fold) <==> Fold(c, fold) == Fold(d, fold)
    ensures Alike(c, d, fold) ==> (IsDigit(c) <==> IsDigit(d)) && (IsSpace(c) <==> IsSpace(d)) && (IsDigit(c) ==> c == d)
  {
  }

  lemma {:induction false} RunAlike(v: seq<Char>, w: seq<Char>, i: nat, fold: bool)
    requires AlikeTexts(v, w, fold)
    ensures RunAt(v, i) == RunAt(w, i)
    decreases |v| - i
  {
    if i < |v| {
      FoldAlike(v[i], w[i], fold);
      RunAlike(v, w, i + 1, fold);
    }
  }

  lemma {:induction false} FrontAlike(v: seq<Char>, w: seq<Char>, fold: bool)
    requires AlikeTexts(v, w, fold)
    ensures Front(v, fold) == Front(w, fold)
    decreases |v|
  {
    if v != [] {
      FoldAlike(v[0], w[0], fold);
      RunAlike(v, w, 0, fold);
      var n := if IsDigit(v[0]) then |RunAt(v, 0)| else 1;
      FrontAlike(v[n..], w[n..], fold);
    }
  }

  /** Alike beginnings do not matter. */
  lemma OrderCut(v: CString, w: CString, x: CString, y: CString, fold: bool)
    requires AlikeTexts(v, w, fold) && Parted(v, x) && Parted(w, y)
    ensures Order(v + x, w + y, fold) == Order(x, y, fold)
  {
    TokensCut(v, x, fold);
    TokensCut(w, y, fold);
    FrontAlike(v, w, fold);
    CompareCut(Front(v, fold), Tokens(x, 0, fold), Tokens(y, 0, fold));
  }

  // ---------- the laws ----------

  /**
   Behind alike beginnings the first different characters decide, by their codes, of capitals
   with `fold`. The end of a string counts as 0.
   */
  lemma CharacterLaw(v: CString, w: CString, x: CString, y: CString, fold: bool)
    requires AlikeTexts(v, w, fold) && Parted(v, x) && Parted(w, y)
    requires var c, d: Char := (if x == [] then 0 else x[0]), (if y == [] then 0 else y[0]);
      && !Blank(c) && !Blank(d) && !(Numeric(c) && Numeric(d))
      && !Alike(c, d, fold)
    ensures var c, d: Char := (if x == [] then 0 else x[0]), (if y == [] then 0 else y[0]);
      Order(v + x, w + y, fold) == if (if fold then Raised(c) < Raised(d) else c < d) then -1 else 1
  {
    OrderCut(v, w, x, y, fold);
    FoldAlike(At(x, 0), At(y, 0), fold);
    CharsDecide(x, 0, y, 0, fold);
  }

  /** The number that digits spell. */
  function Spelled(r: seq<Char>): int {
    if r == [] then 0 else Spelled(r[..|r| - 1]) * 10 + (r[|r| - 1] as int - 48)
  }

  function Tens(n: nat): nat {
    if n == 0 then 1 else 10 * Tens(n - 1)
  }

  lemma {:induction false} SpelledIs(r: seq<Char>)
    requires forall i :: 0 <= i < |r| ==> Numeric(r[i])
    ensures (forall i :: 0 <= i < |r| ==> IsDigit(r[i])) && Spelled(r) == NatNumbers.Value(r)
  {
    if r != [] {
      var n := |r| - 1;
      SpelledIs(r[..n]);
      assert Numbers.DigitsOf(r)[..n] == Numbers.DigitsOf(r[..n]);
    }
  }

  lemma {:induction false} TensAre(n: nat)
    ensures Tens(n) == NatNumbers.Pow10(n)
  {
    if n > 0 {
      TensAre(n - 1);
    }
  }

  lemma RunLaw(v: CString, w: CString, r: CString, s: CString, x: CString, y: CString, fold: bool)
    requires AlikeTexts(v, w, fold) && Parted(v, r) && Parted(w, s) && r != [] && s != [] && r != s
    requires (forall i :: 0 <= i < |r| ==> Numeric(r[i])) && (forall i :: 0 <= i < |s| ==> Numeric(s[i]))
    requires Parted(r, x) && Parted(s, y)
    ensures Order(v + (r + x), w + (s + y), fold) == CompareRuns(r, s)
  {
    PartedFront(v, r, x);
    PartedFront(w, s, y);
    hide Left, RunAt, Tokens, Compare, AlikeTexts, Parted, CompareRuns;
    OrderCut(v, w, r + x, s + y, fold);
    RunWhole(r, x);
    RunWhole(s, y);
    RunsDecide(r + x, 0, s + y, 0, fold);
  }

  lemma PartedFront(v: seq<Char>, r: seq<Char>, x: seq<Char>)
    requires Parted(v, r) && r != []
    ensures Parted(v, r + x)
  {
  }

  /** Runs of digits behind alike beginnings decide, by value, or as fractions where one begins with a zero. */
  lemma NumberLaw(v: CString, w: CString, r: CString, s: CString, x: CString, y: CString, fold: bool)
    requires AlikeTexts(v, w, fold) && Parted(v, r) && Parted(w, s) && r != [] && s != [] && r != s
    requires (forall i :: 0 <= i < |r| ==> Numeric(r[i])) && (forall i :: 0 <= i < |s| ==> Numeric(s[i]))
    requires Parted(r, x) && Parted(s, y)
    ensures var o := Order(v + (r + x), w + (s + y), fold);
      if r[0] != 48 && s[0] != 48 then o < 0 <==> Spelled(r) < Spelled(s)
      else
        var a, b := Spelled(r) * Tens(|s|), Spelled(s) * Tens(|r|);
        o < 0 <==> a < b || (a == b && r < s)
  {
    RunLaw(v, w, r, s, x, y, fold);
    SpelledIs(r);
    SpelledIs(s);
    TensAre(|r|);
    TensAre(|s|);
    hide NatNumbers.Value, NatNumbers.Pow10, Left, Spelled, Tens, AlikeTexts, Parted, Order;
    if r[0] != 48 && s[0] != 48 {
      NatNumbers.NumbersByValue(r, s);
    } else {
      NatNumbers.FractionsByValue(r, s);
    }
  }

  lemma RunWhole(r: seq<Char>, x: seq<Char>)
    requires r != [] && Parted(r, x) && forall i :: 0 <= i < |r| ==> Numeric(r[i])
    ensures RunAt(r + x, 0) == r && IsDigit((r + x)[0])
  {
    RunCut(r, x, 0);
    RunAll(r, 0);
    assert r[0..] == r;
  }

  lemma {:induction false} RunAll(r: seq<Char>, i: nat)
    requires i <= |r| && forall k :: 0 <= k < |r| ==> Numeric(r[k])
    ensures RunAt(r, i) == r[i..]
    decreases |r| - i
  {
    if i < |r| {
      RunAll(r, i + 1);
    }
  }

  /** White space does not matter, unless it parts two runs of digits. */
  lemma BlankLaw(u: CString, b: Char, v: CString, c: CString, fold: bool)
    requires Blank(b) && Parted(u, v)
    ensures Order(u + ([b] + v), c, fold) == Order(u + v, c, fold)
  {
    TokensCut(u, [b] + v, fold);
    TokensCut(u, v, fold);
    TokensMoved([b], v, fold);
  }

  /** Strings that differ in the case of letters only are equal with `fold`, and equal ones always. */
  lemma AlikeLaw(a: CString, b: CString, fold: bool)
    requires AlikeTexts(a, b, fold)
    ensures Order(a, b, fold) == 0
  {
    assert a + [] == a && b + [] == b;
    OrderCut(a, b, [], [], fold);
  }
}
