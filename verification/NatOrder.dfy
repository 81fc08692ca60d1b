/**
 What natural order compares: a string is read as a sequence of tokens, white
 space skipped and each run of digits taken as a whole, closed by the NUL.
 */
module NatOrder {
  import opened Basics
  import opened CStrings


  datatype Token = Run(digits: seq<Char>) | Ch(c: Char)

  ghost predicate Digits(r: seq<Char>) {
    r != [] && forall i :: 0 <= i < |r| ==> IsDigit(r[i])
  }

  ghost predicate WellFormed(t: Token) {
    match t
    case Run(r) => Digits(r)
    case Ch(c) => !IsDigit(c)
  }

  /** Case folding, when asked for. */
  function Fold(c: Char, fold: bool): Char {
    if fold then ToUpper(c) else c
  }

  /** The digits from `i` on. */
  function RunAt(s: seq<Char>, i: nat): (r: seq<Char>)
    ensures i + |r| <= |s| || r == []
    ensures forall k :: 0 <= k < |r| ==> r[k] == s[i + k] && IsDigit(r[k])
    ensures !IsDigit(At(s, i + |r|))
    decreases |s| - i
  {
    if IsDigit(At(s, i)) then [s[i]] + RunAt(s, i + 1) else []
  }

  /** The tokens of `s` from position `i` on. */
  function Tokens(s: seq<Char>, i: nat, fold: bool): (ts: seq<Token>)
    requires i <= |s| && NulFree(s)
    ensures ts != [] && forall k :: 0 <= k < |ts| ==> WellFormed(ts[k])
    decreases |s| - i
  {
    if i == |s| then [Ch(NUL)]
    else if IsSpace(s[i]) then Tokens(s, i + 1, fold)
    else if IsDigit(s[i]) then
      var r := RunAt(s, i);
      [Run(r)] + Tokens(s, i + |r|, fold)
    else [Ch(Fold(s[i], fold))] + Tokens(s, i + 1, fold)
  }

  // ---------- comparing tokens ----------

  /** Left-aligned: the first different digit decides, a prefix comes first. */
  function Left(r: seq<Char>, s: seq<Char>): int {
    if r == [] && s == [] then 0
    else if r == [] then -1
    else if s == [] then 1
    else if r[0] < s[0] then -1
    else if r[0] > s[0] then 1
    else Left(r[1..], s[1..])
  }

  /** Right-aligned: the longer run is greater; among equally long ones the first different digit decides. */
  function Right(r: seq<Char>, s: seq<Char>): int {
    if |r| < |s| then -1 else if |r| > |s| then 1 else Left(r, s)
  }

  /** A leading zero makes the comparison left-aligned. */
  function CompareRuns(r: seq<Char>, s: seq<Char>): int
    requires r != [] && s != []
  {
    if r[0] == ZERO || s[0] == ZERO then Left(r, s) else Right(r, s)
  }

  function First(t: Token): Char
    requires t.Run? ==> t.digits != []
  {
    match t
    case Run(r) => r[0]
    case Ch(c) => c
  }

  function CompareChars(c: Char, d: Char): int {
    if c < d then -1 else if c > d then 1 else 0
  }

  function CompareTokens(t: Token, u: Token): int
    requires t.Run? ==> t.digits != []
    requires u.Run? ==> u.digits != []
  {
    if t.Run? && u.Run? then CompareRuns(t.digits, u.digits) else CompareChars(First(t), First(u))
  }

  ghost predicate AllWellFormed(ts: seq<Token>) {
    forall k :: 0 <= k < |ts| ==> WellFormed(ts[k])
  }

  /** The first different token decides. */
  function Compare(ts: seq<Token>, us: seq<Token>): int
    requires AllWellFormed(ts) && AllWellFormed(us)
  {
    if ts == [] || us == [] then |ts| - |us|
    else if CompareTokens(ts[0], us[0]) != 0 then CompareTokens(ts[0], us[0])
    else Compare(ts[1..], us[1..])
  }

  // ---------- it is a total order on token sequences ----------

  lemma {:induction false} LeftSign(r: seq<Char>, s: seq<Char>)
    ensures Left(r, s) == -Left(s, r)
    ensures Left(r, s) == 0 <==> r == s
  {
    if r != [] && s != [] && r[0] == s[0] {
      LeftSign(r[1..], s[1..]);
      assert r == [r[0]] + r[1..] && s == [s[0]] + s[1..];
    }
  }

  lemma {:induction false} LeftTransitive(r: seq<Char>, s: seq<Char>, t: seq<Char>)
    requires Left(r, s) <= 0 && Left(s, t) <= 0
    ensures Left(r, t) <= 0
  {
    if r != [] && s != [] && t != [] && r[0] == s[0] == t[0] {
      LeftTransitive(r[1..], s[1..], t[1..]);
    }
  }

  lemma TokensSign(t: Token, u: Token)
    requires WellFormed(t) && WellFormed(u)
    ensures CompareTokens(t, u) == -CompareTokens(u, t)
    ensures CompareTokens(t, u) == 0 <==> t == u
  {
    if t.Run? && u.Run? {
      LeftSign(t.digits, u.digits);
    }
  }

  lemma RunsTransitive(r: seq<Char>, s: seq<Char>, t: seq<Char>)
    requires Digits(r) && Digits(s) && Digits(t)
    requires CompareRuns(r, s) <= 0 && CompareRuns(s, t) <= 0
    ensures CompareRuns(r, t) <= 0
  {
    if |r| == |s| == |t| || r[0] == ZERO || s[0] == ZERO || t[0] == ZERO {
      if Left(r, s) <= 0 && Left(s, t) <= 0 {
        LeftTransitive(r, s, t);
      }
    }
  }

  /** No character between the digits is not a digit, so a run and a character compare alike whatever the run. */
  lemma TokensTransitive(t: Token, u: Token, w: Token)
    requires WellFormed(t) && WellFormed(u) && WellFormed(w)
    requires CompareTokens(t, u) <= 0 && CompareTokens(u, w) <= 0
    ensures CompareTokens(t, w) <= 0
  {
    if t.Run? && u.Run? && w.Run? {
      RunsTransitive(t.digits, u.digits, w.digits);
    }
  }

  /** Swapping the arguments negates the sign, and only equal sequences compare equal. */
  lemma {:induction false} CompareSign(ts: seq<Token>, us: seq<Token>)
    requires AllWellFormed(ts) && AllWellFormed(us)
    ensures Compare(ts, us) == -Compare(us, ts)
    ensures Compare(ts, us) == 0 <==> ts == us
  {
    if ts != [] && us != [] {
      TokensSign(ts[0], us[0]);
      CompareSign(ts[1..], us[1..]);
      assert ts == [ts[0]] + ts[1..] && us == [us[0]] + us[1..];
    }
  }

  lemma {:induction false} CompareTransitive(ts: seq<Token>, us: seq<Token>, ws: seq<Token>)
    requires AllWellFormed(ts) && AllWellFormed(us) && AllWellFormed(ws)
    requires Compare(ts, us) <= 0 && Compare(us, ws) <= 0
    ensures Compare(ts, ws) <= 0
  {
    if ts != [] && us != [] && ws != [] {
      TokensSign(ts[0], us[0]);
      TokensSign(us[0], ws[0]);
      TokensSign(ts[0], ws[0]);
      TokensTransitive(ts[0], us[0], ws[0]);
      if CompareTokens(ts[0], us[0]) == 0 && CompareTokens(us[0], ws[0]) == 0 {
        CompareTransitive(ts[1..], us[1..], ws[1..]);
      }
    }
  }
}
