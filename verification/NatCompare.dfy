/**
 The comparison loops of `apr_strnatcmp.c`, and the order they induce on strings.
 */
module NatCompare {
  import opened Basics
  import opened CStrings
  import opened NatOrder

  /** `compare_right` on the runs at `i` and `j`. */
  method CompareRight(a: CString, i: nat, b: CString, j: nat) returns (r: int)
    requires i <= |a| && j <= |b|
    ensures r == Right(RunAt(a, i), RunAt(b, j))
  {
    var bias := 0;
    var p, q := i, j;
    while true
      invariant i <= p <= |a| && j <= q <= |b|
      invariant |RunAt(a, i)| - |RunAt(a, p)| == |RunAt(b, j)| - |RunAt(b, q)|
      invariant Left(RunAt(a, i), RunAt(b, j)) == if bias != 0 then bias else Left(RunAt(a, p), RunAt(b, q))
      decreases |a| - p
    {
      if !IsDigit(At(a, p)) && !IsDigit(At(b, q)) {
        return bias;
      } else if !IsDigit(At(a, p)) {
        return -1;
      } else if !IsDigit(At(b, q)) {
        return 1;
      } else if a[p] < b[q] {
        if bias == 0 {
          bias := -1;
        }
      } else if a[p] > b[q] {
        if bias == 0 {
          bias := 1;
        }
      }
      RunStep(a, p);
      RunStep(b, q);
      p, q := p + 1, q + 1;
    }
  }

  /** `compare_left` on the runs at `i` and `j`. */
  method CompareLeft(a: CString, i: nat, b: CString, j: nat) returns (r: int)
    requires i <= |a| && j <= |b|
    ensures r == Left(RunAt(a, i), RunAt(b, j))
  {
    var p, q := i, j;
    while true
      invariant i <= p <= |a| && j <= q <= |b|
      invariant Left(RunAt(a, i), RunAt(b, j)) == Left(RunAt(a, p), RunAt(b, q))
      decreases |a| - p
    {
      if !IsDigit(At(a, p)) && !IsDigit(At(b, q)) {
        return 0;
      } else if !IsDigit(At(a, p)) {
        return -1;
      } else if !IsDigit(At(b, q)) {
        return 1;
      } else if a[p] < b[q] {
        return -1;
      } else if a[p] > b[q] {
        return 1;
      }
      RunStep(a, p);
      RunStep(b, q);
      p, q := p + 1, q + 1;
    }
  }

  lemma RunStep(s: seq<Char>, i: nat)
    requires IsDigit(At(s, i))
    ensures RunAt(s, i) == [s[i]] + RunAt(s, i + 1) && RunAt(s, i)[1..] == RunAt(s, i + 1)
  {
  }

  /** Skips white space, which no token notices. */
  method SkipSpaces(s: CString, i: nat, ghost fold: bool) returns (j: nat)
    requires i <= |s|
    ensures i <= j <= |s| && !IsSpace(At(s, j)) && Tokens(s, j, fold) == Tokens(s, i, fold)
  {
    j := i;
    while IsSpace(At(s, j))
      invariant i <= j <= |s| && Tokens(s, j, fold) == Tokens(s, i, fold)
      decreases |s| - j
    {
      j := j + 1;
    }
  }

  /** The first token at a position that holds no white space, and what follows its first character. */
  lemma FirstToken(s: CString, i: nat, fold: bool)
    requires i <= |s| && !IsSpace(At(s, i))
    ensures
      var ts := Tokens(s, i, fold);
      if i == |s| then ts == [Ch(NUL)]
      else if IsDigit(s[i]) then ts == [Run(RunAt(s, i))] + Tokens(s, i + |RunAt(s, i)|, fold)
      else ts == [Ch(Fold(s[i], fold))] + Tokens(s, i + 1, fold)
  {
  }

  /** Stepping by one inside a run leaves the rest of the run in front of the same tokens. */
  lemma InsideRun(s: CString, i: nat, fold: bool)
    requires i < |s| && IsDigit(s[i])
    ensures
      var rest := Tokens(s, i + |RunAt(s, i)|, fold);
      Tokens(s, i + 1, fold) == if |RunAt(s, i)| == 1 then rest else [Run(RunAt(s, i)[1..])] + rest
  {
    RunStep(s, i);
  }

  /** Equal runs can be compared again one character further on. */
  lemma SameRuns(a: CString, i: nat, b: CString, j: nat, fold: bool)
    requires i < |a| && j < |b| && IsDigit(a[i]) && IsDigit(b[j]) && RunAt(a, i) == RunAt(b, j)
    ensures Compare(Tokens(a, i, fold), Tokens(b, j, fold)) == Compare(Tokens(a, i + 1, fold), Tokens(b, j + 1, fold))
  {
    hide Compare, Left, Tokens, RunAt, Digits, WellFormed, AllWellFormed;
    var r := RunAt(a, i);
    FirstToken(a, i, fold);
    FirstToken(b, j, fold);
    DigitsAt(a, i);
    InsideRun(a, i, fold);
    InsideRun(b, j, fold);
    var ts, us := Tokens(a, i + |r|, fold), Tokens(b, j + |r|, fold);
    SameHead(Run(r), ts, us);
    if |r| > 1 {
      SameHead(Run(r[1..]), ts, us);
    }
  }

  lemma DigitsAt(s: CString, i: nat)
    requires i < |s| && IsDigit(s[i])
    ensures Digits(RunAt(s, i)) && (|RunAt(s, i)| > 1 ==> Digits(RunAt(s, i)[1..]))
  {
  }

  lemma SameHead(t: Token, ts: seq<Token>, us: seq<Token>)
    requires WellFormed(t) && AllWellFormed(ts) && AllWellFormed(us)
    ensures AllWellFormed([t] + ts) && AllWellFormed([t] + us)
    ensures Compare([t] + ts, [t] + us) == Compare(ts, us)
  {
    TokensSign(t, t);
    assert ([t] + ts)[1..] == ts && ([t] + us)[1..] == us;
  }

  lemma DifferentHeads(t: Token, u: Token, ts: seq<Token>, us: seq<Token>)
    requires WellFormed(t) && WellFormed(u) && AllWellFormed(ts) && AllWellFormed(us) && CompareTokens(t, u) != 0
    ensures AllWellFormed([t] + ts) && AllWellFormed([u] + us)
    ensures Compare([t] + ts, [u] + us) == CompareTokens(t, u)
  {
  }

  /** Two runs that differ decide the comparison. */
  lemma RunsDecide(a: CString, i: nat, b: CString, j: nat, fold: bool)
    requires i < |a| && j < |b| && IsDigit(a[i]) && IsDigit(b[j])
    ensures CompareRuns(RunAt(a, i), RunAt(b, j)) == 0 <==> RunAt(a, i) == RunAt(b, j)
    ensures CompareRuns(RunAt(a, i), RunAt(b, j)) != 0 ==>
              Compare(Tokens(a, i, fold), Tokens(b, j, fold)) == CompareRuns(RunAt(a, i), RunAt(b, j))
  {
    hide Compare, Left, Tokens, RunAt;
    FirstToken(a, i, fold);
    FirstToken(b, j, fold);
    DigitsAt(a, i);
    DigitsAt(b, j);
    var t, u := Run(RunAt(a, i)), Run(RunAt(b, j));
    TokensSign(t, u);
    if CompareTokens(t, u) != 0 {
      DifferentHeads(t, u, Tokens(a, i + |RunAt(a, i)|, fold), Tokens(b, j + |RunAt(b, j)|, fold));
    }
  }

  /** Characters that differ decide the comparison, unless both begin runs. */
  lemma CharsDecide(a: CString, i: nat, b: CString, j: nat, fold: bool)
    requires i <= |a| && j <= |b| && !IsSpace(At(a, i)) && !IsSpace(At(b, j))
    requires !(IsDigit(At(a, i)) && IsDigit(At(b, j)))
    ensures var ca, cb := Fold(At(a, i), fold), Fold(At(b, j), fold);
            if ca != cb then Compare(Tokens(a, i, fold), Tokens(b, j, fold)) == CompareChars(ca, cb)
            else
              && (i == |a| <==> j == |b|)
              && if i == |a| then Compare(Tokens(a, i, fold), Tokens(b, j, fold)) == 0
                 else Compare(Tokens(a, i, fold), Tokens(b, j, fold)) == Compare(Tokens(a, i + 1, fold), Tokens(b, j + 1, fold))
  {
    hide Compare, Left, Tokens, RunAt;
    FirstToken(a, i, fold);
    FirstToken(b, j, fold);
    if i < |a| && IsDigit(a[i]) {
      DigitsAt(a, i);
      RunStep(a, i);
    }
    if j < |b| && IsDigit(b[j]) {
      DigitsAt(b, j);
      RunStep(b, j);
    }
    var ts, us := Tokens(a, i, fold), Tokens(b, j, fold);
    assert ts == [ts[0]] + ts[1..] && us == [us[0]] + us[1..];
    if Fold(At(a, i), fold) != Fold(At(b, j), fold) {
      DifferentHeads(ts[0], us[0], ts[1..], us[1..]);
    } else {
      SameHead(ts[0], ts[1..], us[1..]);
      CompareNothing();
    }
  }

  lemma CompareNothing()
    ensures Compare([], []) == 0
  {
  }

  /** `strnatcmp0` compares the token sequences of the two strings. */
  method StrNatCmp(a: CString, b: CString, fold: bool) returns (result: int)
    ensures result == Compare(Tokens(a, 0, fold), Tokens(b, 0, fold))
  {
    hide Compare, Tokens, RunAt, Left;
    var ai, bi := 0, 0;
    while true
      invariant 0 <= ai <= |a| && 0 <= bi <= |b|
      invariant Compare(Tokens(a, ai, fold), Tokens(b, bi, fold)) == Compare(Tokens(a, 0, fold), Tokens(b, 0, fold))
      decreases |a| - ai
    {
      ai := SkipSpaces(a, ai, fold);
      bi := SkipSpaces(b, bi, fold);
      var ca, cb := At(a, ai), At(b, bi);
      if IsDigit(ca) && IsDigit(cb) {
        RunStep(a, ai);
        RunStep(b, bi);
        var fractional := ca == ZERO || cb == ZERO;
        if fractional {
          result := CompareLeft(a, ai, b, bi);
        } else {
          result := CompareRight(a, ai, b, bi);
        }
        RunsDecide(a, ai, b, bi, fold);
        if result != 0 {
          return;
        }
        SameRuns(a, ai, b, bi, fold);
      } else {
        CharsDecide(a, ai, b, bi, fold);
      }
      if ca == NUL && cb == NUL {
        return 0;
      }
      if fold {
        ca, cb := ToUpper(ca), ToUpper(cb);
      }
      if ca < cb {
        return -1;
      } else if ca > cb {
        return 1;
      }
      ai, bi := ai + 1, bi + 1;
    }
  }

  // ---------- the order on strings ----------

  function Order(a: CString, b: CString, fold: bool): int {
    Compare(Tokens(a, 0, fold), Tokens(b, 0, fold))
  }

  /** `apr_strnatcmp` and `apr_strnatcasecmp` are total preorders; strings tie exactly when their tokens agree. */
  lemma TotalPreorder(a: CString, b: CString, c: CString, fold: bool)
    ensures Order(a, b, fold) == -Order(b, a, fold)
    ensures Order(a, b, fold) == 0 <==> Tokens(a, 0, fold) == Tokens(b, 0, fold)
    ensures Order(a, b, fold) <= 0 && Order(b, c, fold) <= 0 ==> Order(a, c, fold) <= 0
    ensures Order(a, b, fold) < 0 && Order(b, c, fold) <= 0 ==> Order(a, c, fold) < 0
    ensures Order(a, b, fold) <= 0 && Order(b, c, fold) < 0 ==> Order(a, c, fold) < 0
  {
    var ts, us, ws := Tokens(a, 0, fold), Tokens(b, 0, fold), Tokens(c, 0, fold);
    CompareSign(ts, us);
    CompareSign(us, ws);
    CompareSign(ts, ws);
    if Order(a, b, fold) <= 0 && Order(b, c, fold) <= 0 {
      CompareTransitive(ts, us, ws);
      if Order(a, c, fold) == 0 {
        CompareSign(ws, us);
      }
    }
  }
}
