/**
 What a command line is cut into, from its text: blanks between arguments, bare words, both
 kinds of quotes and backslashes, with the characters spelled out as codes.
 */
module TokenizerLaws {
  import opened Basics
  import opened CStrings
  import opened Tokenizer

  /** A character of an argument as it is written: itself, or behind a backslash. */
  datatype Mark = Itself(c: Char) | Behind(c: Char)

  function Spelled(ms: seq<Mark>): seq<Char> {
    if ms == [] then [] else (match ms[0] case Itself(c) => [c] case Behind(c) => [92, c]) + Spelled(ms[1..])
  }

  function Meant(ms: seq<Mark>): seq<Char> {
    if ms == [] then [] else [ms[0].c] + Meant(ms[1..])
  }

  /** Nothing among the marks closes the argument, and no backslash is doubled. */
  predicate Inside(ms: seq<Mark>, closing: seq<Char>) {
    forall k :: 0 <= k < |ms| ==> ms[k].c !in {0, 92} && (ms[k].Itself? ==> ms[k].c !in closing)
  }

  function QuotingOf(closing: seq<Char>): Quoting {
    if closing == [34] then Double else if closing == [39] then Single else Bare
  }

  lemma {:induction false} SpelledNulFree(ms: seq<Mark>, closing: seq<Char>)
    requires Inside(ms, closing)
    ensures NulFree(Spelled(ms)) && NulFree(Meant(ms))
  {
    if ms != [] {
      SpelledNulFree(ms[1..], closing);
    }
  }

  lemma {:induction false} CleanSpelled(ms: seq<Mark>, closing: seq<Char>)
    requires Inside(ms, closing)
    ensures Clean(Spelled(ms)) == Meant(ms)
  {
    if ms != [] {
      CleanSpelled(ms[1..], closing);
      var t := Spelled(ms);
      assert if ms[0].Itself? then t[0] == ms[0].c && t[1..] == Spelled(ms[1..])
             else t[0] == 92 && t[1] == ms[0].c && t[2..] == Spelled(ms[1..]);
    }
  }

  lemma SpelledMore(ms: seq<Mark>, tail: seq<Char>)
    requires ms != []
    ensures Spelled(ms) + tail == (if ms[0].Itself? then [ms[0].c] else [92, ms[0].c]) + (Spelled(ms[1..]) + tail)
  {
    Regroup(if ms[0].Itself? then [ms[0].c] else [92, ms[0].c], Spelled(ms[1..]), tail);
  }

  /** One mark is passed as a whole. */
  lemma EndPastMark(s: CString, i: nat, m: Mark, u: seq<Char>, closing: seq<Char>)
    requires closing in [[34], [39], [32, 9]] && Inside([m], closing)
    requires Reads(s, i, (if m.Itself? then [m.c] else [92, m.c]) + u)
    ensures var j := if m.Itself? then i + 1 else i + 2;
      Reads(s, j, u) && End(s, i, QuotingOf(closing)) == End(s, j, QuotingOf(closing))
  {
    assert [m][0] == m;
    ReadsPast(s, i, if m.Itself? then [m.c] else [92, m.c], u);
    assert s[i] == if m.Itself? then m.c else 92;
  }

  lemma {:induction false} EndOfMarks(s: CString, i: nat, ms: seq<Mark>, tail: seq<Char>, closing: seq<Char>)
    requires closing in [[34], [39], [32, 9]] && Inside(ms, closing)
    requires Reads(s, i, Spelled(ms) + tail) && (tail != [] ==> tail[0] in closing)
    ensures End(s, i, QuotingOf(closing)) == i + |Spelled(ms)|
    decreases |ms|
  {
    if ms == [] {
      assert Spelled(ms) + tail == tail;
      assert tail != [] ==> s[i] == s[i..][0];
    } else {
      SpelledMore(ms, tail);
      EndPastMark(s, i, ms[0], Spelled(ms[1..]) + tail, closing);
      var j := if ms[0].Itself? then i + 1 else i + 2;
      hide End, Reads, QuotingOf;
      EndOfMarks(s, j, ms[1..], tail, closing);
    }
  }

  // ---------- what follows an argument ----------

  lemma {:induction false} BlanksMoved(x: CString, g: CString, i: nat)
    requires i <= |g|
    ensures SkipBlanks(x + g, |x| + i) == |x| + SkipBlanks(g, i)
    decreases |g| - i
  {
    if i < |g| && Blank(g[i]) {
      BlanksMoved(x, g, i + 1);
      assert |x| + (i + 1) == |x| + i + 1;
    }
  }

  lemma {:induction false} EndMoved(x: CString, g: CString, i: nat, q: Quoting)
    requires i <= |g|
    ensures End(x + g, |x| + i, q) == |x| + End(g, i, q)
    decreases |g| - i
  {
    if i < |g| {
      assert (x + g)[|x| + i] == g[i] && At(x + g, |x| + i + 1) == At(g, i + 1);
      if g[i] == 92 && Special(At(g, i + 1)) {
        EndMoved(x, g, i + 2, q);
        assert |x| + (i + 2) == |x| + i + 2;
      } else if !Closes(g[i], q) {
        EndMoved(x, g, i + 1, q);
        assert |x| + (i + 1) == |x| + i + 1;
      }
    }
  }

  lemma StartMoved(x: CString, g: CString, i: nat)
    requires i <= |g|
    ensures QuoteAt(x + g, |x| + i) == QuoteAt(g, i) && Start(x + g, |x| + i) == |x| + Start(g, i)
  {
  }

  /** No argument is left, or the next one is `s[t..e]`. */
  lemma RawFrom(s: CString, i: nat, j: nat)
    requires i <= |s| && j == SkipBlanks(s, i)
    ensures j == |s| ==> Raw(s, i) == []
    ensures j < |s| ==>
      var t := Start(s, j);
      var e := End(s, t, QuoteAt(s, j));
      Raw(s, i) == [s[t..e]] + if e < |s| then Raw(s, e + 1) else []
  {
    hide SkipBlanks, End, Start, QuoteAt;
  }

  lemma {:induction false} RawMoved(s: CString, x: CString, g: CString, i: nat)
    requires s == x + g && i <= |g|
    ensures Raw(s, |x| + i) == Raw(g, i)
    decreases |g| - i
  {
    hide *;
    var j := SkipBlanks(g, i);
    BlanksMoved(x, g, i);
    RawFrom(g, i, j);
    RawFrom(s, |x| + i, |x| + j);
    if j < |g| {
      StartMoved(x, g, j);
      var t, q := Start(g, j), QuoteAt(g, j);
      var e := End(g, t, q);
      EndMoved(x, g, t, q);
      assert s[|x| + t..|x| + e] == g[t..e];
      if e < |g| {
        RawMoved(s, x, g, e + 1);
      }
    }
  }

  /** The first argument as it is written, which begins at `at` and ends before `e`. */
  lemma RawFirst(s: CString, at: nat, t: seq<Char>, u: seq<Char>, q: Quoting)
    requires s != [] && SkipBlanks(s, 0) == 0 && Start(s, 0) == at && QuoteAt(s, 0) == q
    requires Reads(s, at, t + u) && End(s, at, q) == at + |t|
    ensures at + |t| <= |s| && (u == [] <==> at + |t| == |s|)
    ensures Raw(s, 0) == [t] + if u == [] then [] else Raw(s, at + |t| + 1)
  {
    hide Raw, SkipBlanks, End, Start, QuoteAt;
    RawStep(s, 0);
    ReadsPast(s, at, t, u);
    assert s[at..at + |t|] == t;
  }

  /** An argument that begins at position 0 or 1 and its closing character, in front of the text `g`. */
  lemma ArgumentFirst(s: CString, at: nat, ms: seq<Mark>, close: seq<Char>, closing: seq<Char>, x: CString, g: CString)
    requires closing in [[34], [39], [32, 9]] && Inside(ms, closing)
    requires s == x + g && |x| == at + |Spelled(ms)| + |close| > 0 && Reads(s, at, Spelled(ms) + (close + g))
    requires s != [] && SkipBlanks(s, 0) == 0 && Start(s, 0) == at && QuoteAt(s, 0) == QuotingOf(closing)
    requires (close == [] && g == []) || (|close| == 1 && close[0] in closing)
    ensures Arguments(s) == [Meant(ms)] + Arguments(g)
  {
    hide *;
    var tail := close + g;
    assert tail != [] ==> tail[0] == close[0];
    EndOfMarks(s, at, ms, tail, closing);
    CleanSpelled(ms, closing);
    RawFirst(s, at, Spelled(ms), tail, QuotingOf(closing));
    if close != [] {
      RawMoved(s, x, g, 0);
    } else {
      RawNothing(g);
    }
    CleanFirst(Spelled(ms), Raw(g, 0));
    ArgumentsAre(s);
    ArgumentsAre(g);
  }

  lemma ArgumentsAre(s: CString)
    ensures Arguments(s) == CleanAll(Raw(s, 0))
  {
  }

  lemma RawNothing(g: CString)
    requires g == []
    ensures Raw(g, 0) == []
  {
  }

  lemma CleanFirst(t: seq<Char>, more: seq<seq<Char>>)
    ensures CleanAll([t] + more) == [Clean(t)] + CleanAll(more)
  {
    assert ([t] + more)[1..] == more;
    hide Clean;
  }

  // ---------- the laws ----------

  /** Blanks and tabs in front of an argument are nothing. */
  lemma BlankLaw(b: Char, g: CString)
    requires b == 32 || b == 9
    ensures NulFree([b] + g) && Arguments([b] + g) == Arguments(g)
  {
    BlanksMoved([b], g, 0);
    RawMoved([b] + g, [b], g, 0);
    RawSkip([b] + g, 0);
    RawSkip([b] + g, 1);
    assert SkipBlanks([b] + g, 0) == SkipBlanks([b] + g, 1);
    hide Raw, SkipBlanks;
  }

  /** Single or double quotes hold an argument together up to the closing quote of the same kind; there the next one may begin. */
  lemma QuotedLaw(quote: Char, ms: seq<Mark>, g: CString)
    requires (quote == 34 || quote == 39) && Inside(ms, [quote])
    ensures var t := [quote] + Spelled(ms) + [quote];
      NulFree(t + g) && Arguments(t + g) == [Meant(ms)] + Arguments(g)
  {
    SpelledNulFree(ms, [quote]);
    var t := [quote] + Spelled(ms) + [quote];
    assert (t + g)[1..] == Spelled(ms) + ([quote] + g);
    hide Spelled, Inside, Arguments, Meant;
    ArgumentFirst(t + g, 1, ms, [quote], [quote], t, g);
  }

  /** An argument whose quote is never closed reaches to the end. */
  lemma UnclosedLaw(quote: Char, ms: seq<Mark>)
    requires (quote == 34 || quote == 39) && Inside(ms, [quote])
    ensures NulFree([quote] + Spelled(ms)) && Arguments([quote] + Spelled(ms)) == [Meant(ms)]
  {
    SpelledNulFree(ms, [quote]);
    var t := [quote] + Spelled(ms);
    assert t[1..] == Spelled(ms) + ([] + []) && t + [] == t;
    hide Spelled, Inside, Meant;
    ArgumentFirst(t, 1, ms, [], [quote], t, []);
    assert Arguments([]) == [];
  }

  /** A bare word starts with no quote and ends at a blank or tab. */
  predicate Word(ms: seq<Mark>) {
    ms != [] && Inside(ms, [32, 9]) && ms[0] != Itself(34) && ms[0] != Itself(39)
  }

  lemma WordStarts(s: CString, ms: seq<Mark>, g: seq<Char>)
    requires Word(ms) && s == Spelled(ms) + g
    ensures s != [] && Spelled(ms) != [] && SkipBlanks(s, 0) == 0 && Start(s, 0) == 0 && QuoteAt(s, 0) == Bare
  {
    SpelledMore(ms, g);
    assert s[0] == if ms[0].Itself? then ms[0].c else 92;
  }

  /** A bare word: quotes inside it are characters like others. */
  lemma WordLaw(ms: seq<Mark>, b: Char, g: CString)
    requires Word(ms) && (b == 32 || b == 9)
    ensures NulFree(Spelled(ms) + [b] + g) && Arguments(Spelled(ms) + [b] + g) == [Meant(ms)] + Arguments(g)
  {
    SpelledNulFree(ms, [32, 9]);
    var t := Spelled(ms) + [b];
    Regroup(Spelled(ms), [b], g);
    hide Spelled, Arguments, Meant;
    WordStarts(t + g, ms, [b] + g);
    hide Inside;
    assert (t + g)[0..] == t + g;
    ArgumentFirst(t + g, 0, ms, [b], [32, 9], t, g);
  }

  /** One at the end of the command line. */
  lemma LastWordLaw(ms: seq<Mark>)
    requires Word(ms)
    ensures NulFree(Spelled(ms)) && Arguments(Spelled(ms)) == [Meant(ms)]
  {
    SpelledNulFree(ms, [32, 9]);
    var t := Spelled(ms);
    assert t[0..] == t == t + ([] + []) && t + [] == t;
    hide Spelled, Meant;
    WordStarts(t, ms, []);
    hide Inside;
    ArgumentFirst(t, 0, ms, [], [32, 9], t, []);
    assert Arguments([]) == [];
  }
}
