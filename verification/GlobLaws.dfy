/**
 What patterns mean, read off their text: one law for each kind of element at the front of
 a pattern, with the characters spelled out as codes. Together they determine the match of
 every well-formed pattern.
 */
module GlobLaws {
  import opened Basics
  import opened CStrings
  import opened GlobPattern

  // ---------- positions do not matter ----------

  function Moved(b: Bracket, n: nat): Bracket {
    if b.Malformed? then b else Bracket(b.items, b.end + n)
  }

  lemma MovedAt(x: seq<Char>, p: seq<Char>, i: nat)
    ensures At(x + p, |x| + i) == At(p, i)
  {
  }

  lemma MembersAre(p: seq<Char>, i: nat, fl: Flags)
    ensures Members(p, i, fl) ==
      if i >= |p| then Malformed
      else if p[i] == CLOSE then Bracket([], i + 1)
      else
        var k := if Escape(p, i, fl) then i + 1 else i;
        if k >= |p| || (fl.pathname && p[k] == SLASH) then Malformed else Member(p, k, fl)
  {
  }

  lemma MemberIs(p: seq<Char>, k: nat, fl: Flags)
    requires k < |p|
    ensures Member(p, k, fl) ==
      if At(p, k + 1) == HYPHEN && At(p, k + 2) != CLOSE then
        var h := if Escape(p, k + 2, fl) then k + 3 else k + 2;
        if h >= |p| || (fl.pathname && p[h] == SLASH) then Malformed
        else Cons(Range(p[k], p[h]), Members(p, h + 1, fl))
      else Cons(Single(p[k]), Members(p, k + 1, fl))
  {
  }

  lemma {:induction false} MembersMoved(x: seq<Char>, p: seq<Char>, i: nat, fl: Flags)
    ensures Members(x + p, |x| + i, fl) == Moved(Members(p, i, fl), |x|)
    decreases |p| - i, 1
  {
    hide Members, Member;
    MembersAre(p, i, fl);
    MembersAre(x + p, |x| + i, fl);
    MovedAt(x, p, i);
    if i < |p| {
      var k := if Escape(p, i, fl) then i + 1 else i;
      MovedAt(x, p, k);
      if k < |p| {
        MemberMoved(x, p, k, fl);
      }
    }
  }

  lemma {:induction false} MemberMoved(x: seq<Char>, p: seq<Char>, k: nat, fl: Flags)
    requires k < |p|
    ensures Member(x + p, |x| + k, fl) == Moved(Member(p, k, fl), |x|)
    decreases |p| - k, 0
  {
    hide Members, Member;
    MemberIs(p, k, fl);
    MemberIs(x + p, |x| + k, fl);
    MovedAt(x, p, k);
    MovedAt(x, p, k + 1);
    MovedAt(x, p, k + 2);
    MovedAt(x, p, k + 3);
    if At(p, k + 1) == HYPHEN && At(p, k + 2) != CLOSE {
      var h := if Escape(p, k + 2, fl) then k + 3 else k + 2;
      if h < |p| {
        MembersMoved(x, p, h + 1, fl);
        assert |x| + (h + 1) == |x| + h + 1;
      }
    } else {
      MembersMoved(x, p, k + 1, fl);
    }
  }

  lemma BracketMoved(x: seq<Char>, p: seq<Char>, i: nat, fl: Flags)
    requires i < |p|
    ensures BracketAt(x + p, |x| + i, fl) == Moved(BracketAt(p, i, fl), |x|)
    ensures Negated(x + p, |x| + i) == Negated(p, i)
  {
    MovedAt(x, p, i + 1);
    var f := if Negated(p, i) then i + 2 else i + 1;
    MovedAt(x, p, f);
    if At(p, f) == CLOSE {
      MemberMoved(x, p, f, fl);
    } else {
      MembersMoved(x, p, f, fl);
    }
  }

  lemma AtomMoved(x: seq<Char>, p: seq<Char>, i: nat, fl: Flags)
    requires i < |p|
    ensures AtomAt(x + p, |x| + i, fl) == (AtomAt(p, i, fl).0, AtomAt(p, i, fl).1 + |x|)
  {
    BracketMoved(x, p, i, fl);
    MovedAt(x, p, i);
    hide BracketAt, Negated;
  }

  /** A pattern means the same wherever it stands. */
  lemma {:induction false} PatternMoved(x: seq<Char>, p: seq<Char>, i: nat, s: seq<Char>, j: nat, fl: Flags, start: bool)
    requires i <= |p| && j <= |s|
    ensures Matches(x + p, |x| + i, s, j, fl, start) <==> Matches(p, i, s, j, fl, start)
    decreases |p| - i
  {
    if i < |p| {
      AtomMoved(x, p, i, fl);
      var n := AtomAt(p, i, fl).1;
      forall k: nat, st | k <= |s|
        ensures Matches(x + p, |x| + n, s, k, fl, st) <==> Matches(p, n, s, k, fl, st)
      {
        PatternMoved(x, p, n, s, k, fl, st);
      }
      hide AtomAt, Accepts;
    }
  }

  lemma SegmentMoved(t: seq<Char>, s: seq<Char>, j: nat, k: nat, fl: Flags)
    ensures InSegment(t + s, |t| + j, |t| + k, fl) <==> InSegment(s, j, k, fl)
  {
    assert forall x :: 0 <= x < |s| ==> (t + s)[|t| + x] == s[x];
    if InSegment(t + s, |t| + j, |t| + k, fl) && fl.pathname {
      forall x | j <= x < k && x < |s|
        ensures s[x] != SLASH
      {
        assert (t + s)[|t| + x] != SLASH;
      }
    }
  }

  /** The run of a `*` in the longer string. */
  lemma RunMoved(p: seq<Char>, n: nat, t: seq<Char>, s: seq<Char>, j: nat, fl: Flags)
    requires n <= |p| && j <= |s|
    requires forall k: nat :: k <= |s| ==> (Matches(p, n, t + s, |t| + k, fl, false) <==> Matches(p, n, s, k, fl, false))
    ensures (exists k :: |t| + j <= k <= |t + s| && InSegment(t + s, |t| + j, k, fl) && Matches(p, n, t + s, k, fl, false))
       <==> (exists k :: j <= k <= |s| && InSegment(s, j, k, fl) && Matches(p, n, s, k, fl, false))
  {
    hide Matches, InSegment;
    if k: nat :| |t| + j <= k <= |t + s| && InSegment(t + s, |t| + j, k, fl) && Matches(p, n, t + s, k, fl, false) {
      SegmentMoved(t, s, j, k - |t|, fl);
      assert Matches(p, n, t + s, |t| + (k - |t|), fl, false);
    }
    if k: nat :| j <= k <= |s| && InSegment(s, j, k, fl) && Matches(p, n, s, k, fl, false) {
      SegmentMoved(t, s, j, k, fl);
      assert Matches(p, n, t + s, |t| + k, fl, false);
    }
  }

  lemma StarMeans(p: seq<Char>, i: nat, s: seq<Char>, j: nat, fl: Flags, start: bool)
    requires i < |p| && AtomAt(p, i, fl).0 == Star && j <= |s| && !(start && fl.period && At(s, j) == DOT)
    ensures Matches(p, i, s, j, fl, start)
      <==> exists k :: j <= k <= |s| && InSegment(s, j, k, fl) && Matches(p, AtomAt(p, i, fl).1, s, k, fl, false)
  {
  }

  /** So does a string. */
  lemma {:induction false} StringMoved(p: seq<Char>, i: nat, t: seq<Char>, s: seq<Char>, j: nat, fl: Flags, start: bool)
    requires i <= |p| && j <= |s|
    ensures Matches(p, i, t + s, |t| + j, fl, start) <==> Matches(p, i, s, j, fl, start)
    decreases |p| - i
  {
    if i < |p| {
      MovedAt(t, s, j);
      var n := AtomAt(p, i, fl).1;
      forall k: nat, st | k <= |s|
        ensures Matches(p, n, t + s, |t| + k, fl, st) <==> Matches(p, n, s, k, fl, st)
      {
        StringMoved(p, n, t, s, k, fl, st);
      }
      hide AtomAt, Accepts, InSegment;
      RunMoved(p, n, t, s, j, fl);
      SegmentMoved(t, s, j, j + 1, fl);
      if AtomAt(p, i, fl).0 == Star && !(start && fl.period && At(s, j) == DOT) {
        StarMeans(p, i, s, j, fl, start);
        StarMeans(p, i, t + s, |t| + j, fl, start);
      }
      if j < |s| {
        StringMoved(p, n, t, s, j + 1, fl, true);
        StringMoved(p, n, t, s, j + 1, fl, false);
        assert |t| + (j + 1) == |t| + j + 1 && (t + s)[|t| + j] == s[j];
      }
    }
  }

  /** What stands behind the first element and the first character. */
  lemma Behind(x: seq<Char>, p: seq<Char>, s: seq<Char>, fl: Flags, start: bool)
    requires s != []
    ensures Matches(x + p, |x|, s, 1, fl, start) <==> Matches(p, 0, s[1..], 0, fl, start)
  {
    hide *;
    assert [s[0]] + s[1..] == s;
    PatternMoved(x, p, 0, s, 1, fl, start);
    StringMoved(p, 0, [s[0]], s[1..], 0, fl, start);
  }

  // ---------- the laws ----------

  function Lowered(c: Char): Char { if 65 <= c <= 90 then c + 32 else c }

  /** The same character, or with `blind` the same letter. */
  predicate Alike(c: Char, d: Char, blind: bool) { c == d || (blind && Lowered(c) == Lowered(d)) }

  /** A wildcard may stand for `c`: a slash separates, and a leading period hides. */
  predicate Visible(c: Char, fl: Flags, start: bool) {
    !(fl.pathname && c == 47) && !(start && fl.period && c == 46)
  }

  /** The empty pattern matches the empty string. */
  lemma EmptyLaw(s: seq<Char>, fl: Flags, start: bool)
    ensures Matches([], 0, s, 0, fl, start) <==> s == []
  {
  }

  /** What follows from the first element being the character `c`. */
  lemma LiteralStep(x: seq<Char>, c: Char, p: seq<Char>, s: seq<Char>, fl: Flags, start: bool)
    requires x != [] && AtomAt(x + p, 0, fl) == (if fl.pathname && c == 47 then Separator else Lit(c), |x|)
    ensures Matches(x + p, 0, s, 0, fl, start)
      <==> s != [] && Alike(c, s[0], fl.caseBlind) && Matches(p, 0, s[1..], 0, fl, fl.pathname && c == 47)
  {
    hide AtomAt;
    if s != [] {
      Behind(x, p, s, fl, fl.pathname && c == 47);
      LiteralAccepts(c, s[0], fl);
      hide Accepts, Alike;
    }
  }

  lemma LiteralAccepts(c: Char, d: Char, fl: Flags)
    ensures Accepts(Lit(c), d, fl) <==> Alike(c, d, fl.caseBlind)
    ensures c == 47 || c == 46 || d == 46 || d == 47 ==> (Alike(c, d, fl.caseBlind) <==> c == d)
  {
  }

  /** A character that is not special stands for itself; so does a bracket that nothing closes. */
  lemma LiteralLaw(c: Char, p: seq<Char>, s: seq<Char>, fl: Flags, start: bool)
    requires c != 42 && c != 63 && (c == 91 ==> 93 !in p) && (c == 92 ==> fl.noescape || p == [])
    ensures Matches([c] + p, 0, s, 0, fl, start)
      <==> s != [] && Alike(c, s[0], fl.caseBlind) && Matches(p, 0, s[1..], 0, fl, fl.pathname && c == 47)
  {
    if c == 91 {
      Unclosed([c] + p, fl);
      hide BracketAt;
    }
    LiteralStep([c], c, p, s, fl, start);
  }

  lemma Unclosed(q: seq<Char>, fl: Flags)
    requires q != [] && q[0] == 91 && 93 !in q
    ensures BracketAt(q, 0, fl).Malformed?
  {
    var f := if Negated(q, 0) then 2 else 1;
    MembersUnclosed(q, f, fl);
  }

  lemma {:induction false} MembersUnclosed(q: seq<Char>, i: nat, fl: Flags)
    requires 93 !in q
    ensures Members(q, i, fl).Malformed?
    decreases |q| - i, 1
  {
    if i < |q| {
      var k := if Escape(q, i, fl) then i + 1 else i;
      if k < |q| {
        MemberUnclosed(q, k, fl);
      }
    }
  }

  lemma {:induction false} MemberUnclosed(q: seq<Char>, k: nat, fl: Flags)
    requires k < |q| && 93 !in q
    ensures Member(q, k, fl).Malformed?
    decreases |q| - k, 0
  {
    if At(q, k + 1) == HYPHEN && At(q, k + 2) != CLOSE {
      var h := if Escape(q, k + 2, fl) then k + 3 else k + 2;
      if h < |q| {
        MembersUnclosed(q, h + 1, fl);
      }
    } else {
      MembersUnclosed(q, k + 1, fl);
    }
  }

  /** A character behind a backslash stands for itself, whatever it is. */
  lemma EscapeLaw(c: Char, p: seq<Char>, s: seq<Char>, fl: Flags, start: bool)
    requires !fl.noescape
    ensures Matches([92, c] + p, 0, s, 0, fl, start)
      <==> s != [] && Alike(c, s[0], fl.caseBlind) && Matches(p, 0, s[1..], 0, fl, fl.pathname && c == 47)
  {
    LiteralStep([92, c], c, p, s, fl, start);
  }

  /** A question mark stands for one visible character. */
  lemma QuestionLaw(p: seq<Char>, s: seq<Char>, fl: Flags, start: bool)
    ensures Matches([63] + p, 0, s, 0, fl, start)
      <==> s != [] && Visible(s[0], fl, start) && Matches(p, 0, s[1..], 0, fl, false)
  {
    assert AtomAt([63] + p, 0, fl) == (Any, 1);
    if s != [] {
      Behind([63], p, s, fl, false);
    }
  }

  /** A star stands for any characters up to the next slash, unless it would hide a leading period. */
  lemma StarLaw(p: seq<Char>, s: seq<Char>, fl: Flags, start: bool)
    ensures Matches([42] + p, 0, s, 0, fl, start)
      <==> (!(start && fl.period && s != [] && s[0] == 46)
            && exists k :: 0 <= k <= |s| && (fl.pathname ==> 47 !in s[..k]) && Matches(p, 0, s[k..], 0, fl, false))
  {
    var q := [42] + p;
    assert AtomAt(q, 0, fl) == (Star, 1);
    forall k: nat | k <= |s|
      ensures Matches(q, 1, s, k, fl, false) <==> Matches(p, 0, s[k..], 0, fl, false)
      ensures InSegment(s, 0, k, fl) <==> (fl.pathname ==> 47 !in s[..k])
    {
      PatternMoved([42], p, 0, s, k, fl, false);
      StringMoved(p, 0, s[..k], s[k..], 0, fl, false);
      assert s[..k] + s[k..] == s;
    }
    if !(start && fl.period && At(s, 0) == DOT) {
      StarMeans(q, 0, s, 0, fl, start);
    }
    hide InSegment, AtomAt;
  }

  // ---------- bracket expressions ----------

  /** A character of a bracket expression as it is written, and a member: one character or a range. */
  datatype Sign = Sign(c: Char, escaped: bool)
  datatype Entry = One(x: Sign) | Span(lo: Sign, hi: Sign)

  function SignText(x: Sign): seq<Char> {
    if x.escaped then [92, x.c] else [x.c]
  }

  function EntryText(e: Entry): (t: seq<Char>)
    ensures t != []
  {
    match e
    case One(x) => SignText(x)
    case Span(lo, hi) => SignText(lo) + ([45] + SignText(hi))
  }

  function EntriesText(es: seq<Entry>): seq<Char> {
    if es == [] then [] else EntryText(es[0]) + EntriesText(es[1..])
  }

  /** A bracket expression: a mark that negates it or none, perhaps a closing bracket in first place, and members. */
  function BracketText(mark: seq<Char>, close: bool, es: seq<Entry>): seq<Char> {
    [91] + (mark + ((if close then [93] else []) + (EntriesText(es) + [93])))
  }

  predicate SignOk(x: Sign, fl: Flags) {
    && !(fl.pathname && x.c == 47)
    && (if x.escaped then !fl.noescape else x.c != 93 && (x.c == 92 ==> fl.noescape))
  }

  predicate EntryOk(e: Entry, fl: Flags) {
    match e
    case One(x) => SignOk(x, fl)
    case Span(lo, hi) => SignOk(lo, fl) && SignOk(hi, fl)
  }

  /** Behind another member a bare hyphen would make a range; it can only be the last. */
  predicate HyphenOk(e: Entry, last: bool) {
    EntryText(e)[0] == 45 ==> last && e == One(Sign(45, false))
  }

  predicate EntriesOk(es: seq<Entry>, first: bool, fl: Flags) {
    && (forall k :: 0 <= k < |es| ==> EntryOk(es[k], fl))
    && (forall k :: (if first then 1 else 0) <= k < |es| ==> HyphenOk(es[k], k == |es| - 1))
  }

  function ItemOf(e: Entry): Item {
    match e
    case One(x) => Single(x.c)
    case Span(lo, hi) => Range(lo.c, hi.c)
  }

  function ItemsOf(es: seq<Entry>): (items: seq<Item>)
    ensures |items| == |es| && forall k :: 0 <= k < |es| ==> items[k] == ItemOf(es[k])
  {
    if es == [] then [] else [ItemOf(es[0])] + ItemsOf(es[1..])
  }

  /** A single character is read as such where no range follows. */
  lemma OneRead(x: Sign, u: seq<Char>, fl: Flags)
    requires SignOk(x, fl) && u != [] && (u[0] == 45 ==> |u| > 1 && u[1] == 93)
    ensures Members(SignText(x) + u, 0, fl) == Cons(Single(x.c), Members(SignText(x) + u, |SignText(x)|, fl))
  {
    hide Members, Member;
    var t, n := SignText(x) + u, |SignText(x)|;
    MembersAre(t, 0, fl);
    MemberIs(t, n - 1, fl);
    MovedAt(SignText(x), u, 0);
    MovedAt(SignText(x), u, 1);
  }

  /** A range is read as such. */
  lemma SpanRead(lo: Sign, hi: Sign, u: seq<Char>, fl: Flags)
    requires SignOk(lo, fl) && SignOk(hi, fl)
    ensures var t := SignText(lo) + ([45] + SignText(hi));
      Members(t + u, 0, fl) == Cons(Range(lo.c, hi.c), Members(t + u, |t|, fl))
  {
    hide Members, Member;
    var t := SignText(lo) + ([45] + SignText(hi));
    var k := |SignText(lo)| - 1;
    MembersAre(t + u, 0, fl);
    MemberIs(t + u, k, fl);
    assert (t + u)[k] == lo.c && At(t + u, k + 1) == 45 && At(t + u, k + 2) == SignText(hi)[0];
    assert (t + u)[|t| - 1] == hi.c;
  }

  /** A member is read as what it is. */
  lemma EntryRead(e: Entry, u: seq<Char>, fl: Flags)
    requires EntryOk(e, fl) && u != [] && (u[0] == 45 ==> |u| > 1 && u[1] == 93)
    ensures Members(EntryText(e) + u, 0, fl) == Cons(ItemOf(e), Moved(Members(u, 0, fl), |EntryText(e)|))
  {
    hide Members, SignText, SignOk;
    MembersMoved(EntryText(e), u, 0, fl);
    match e
    case One(x) => OneRead(x, u, fl);
    case Span(lo, hi) => SpanRead(lo, hi, u, fl);
  }

  lemma EntriesMore(es: seq<Entry>, u: seq<Char>)
    requires es != []
    ensures EntriesText(es) + u == EntryText(es[0]) + (EntriesText(es[1..]) + u)
  {
    hide EntryText;
    Regroup(EntryText(es[0]), EntriesText(es[1..]), u);
  }

  lemma OkMore(es: seq<Entry>, first: bool, fl: Flags)
    requires es != [] && EntriesOk(es, first, fl)
    ensures EntryOk(es[0], fl) && EntriesOk(es[1..], false, fl)
  {
    hide EntryOk;
    forall k | 0 <= k < |es[1..]|
      ensures HyphenOk(es[1..][k], k == |es[1..]| - 1)
    {
      assert HyphenOk(es[k + 1], k + 1 == |es| - 1);
    }
  }

  lemma NoEntries(p: seq<Char>, fl: Flags)
    ensures EntriesText([]) == [] && Members([93] + p, 0, fl) == Bracket([], 1) && ItemsOf([]) == []
  {
  }

  lemma ItemsMore(es: seq<Entry>)
    requires es != []
    ensures ItemsOf(es) == [ItemOf(es[0])] + ItemsOf(es[1..])
  {
  }

  lemma {:induction false} EntriesRead(es: seq<Entry>, first: bool, p: seq<Char>, fl: Flags)
    requires EntriesOk(es, first, fl)
    ensures Members(EntriesText(es) + ([93] + p), 0, fl) == Bracket(ItemsOf(es), |EntriesText(es)| + 1)
  {
    hide Members, EntriesText, EntryText, EntriesOk, EntryOk, ItemsOf, ItemOf;
    if es == [] {
      NoEntries(p, fl);
      assert EntriesText(es) + ([93] + p) == [93] + p;
    } else {
      var u := EntriesText(es[1..]) + ([93] + p);
      OkMore(es, first, fl);
      EntriesRead(es[1..], false, p, fl);
      EntriesMore(es, [93] + p);
      EntriesMore(es, []);
      assert EntriesText(es) + [] == EntriesText(es) && EntriesText(es[1..]) + [] == EntriesText(es[1..]);
      FollowOk(es, first, p, fl);
      EntryRead(es[0], u, fl);
      ItemsMore(es);
    }
  }

  lemma FollowOk(es: seq<Entry>, first: bool, p: seq<Char>, fl: Flags)
    requires es != [] && EntriesOk(es, first, fl)
    ensures var u := EntriesText(es[1..]) + ([93] + p); u[0] == 45 ==> |u| > 1 && u[1] == 93
  {
    if |es| > 1 {
      var u := EntriesText(es[1..]) + ([93] + p);
      assert EntriesText(es[1..]) == EntryText(es[1]) + EntriesText(es[2..]) by { assert es[1..][1..] == es[2..]; }
      assert u[0] == EntryText(es[1])[0];
      assert HyphenOk(es[1], 1 == |es| - 1);
    }
  }

  /** What stands at the front of the members and after it. */
  predicate WellWritten(mark: seq<Char>, close: bool, es: seq<Entry>, fl: Flags) {
    && (mark == [] || mark == [33] || mark == [94])
    && EntriesOk(es, !close, fl)
    && (!close ==> es != [] && (mark == [] ==> EntryText(es[0])[0] != 33 && EntryText(es[0])[0] != 94))
  }

  function BracketItems(close: bool, es: seq<Entry>): seq<Item> {
    (if close then [Single(93)] else []) + ItemsOf(es)
  }

  /** The members with the closing bracket in first place. */
  lemma CloseRead(es: seq<Entry>, p: seq<Char>, fl: Flags)
    requires EntriesOk(es, false, fl)
    ensures Member([93] + (EntriesText(es) + ([93] + p)), 0, fl)
      == Bracket(BracketItems(true, es), |EntriesText(es)| + 2)
  {
    hide Member, Members, EntriesText, EntriesOk, ItemsOf;
    var u := EntriesText(es) + ([93] + p);
    EntriesRead(es, false, p, fl);
    AfterClose(es, p, fl);
    MemberIs([93] + u, 0, fl);
    MovedAt([93], u, 0);
    MovedAt([93], u, 1);
    MembersMoved([93], u, 0, fl);
  }

  lemma AfterClose(es: seq<Entry>, p: seq<Char>, fl: Flags)
    requires EntriesOk(es, false, fl)
    ensures var u := EntriesText(es) + ([93] + p); u[0] == 45 ==> |u| > 1 && u[1] == 93
  {
    if es != [] {
      var u := EntriesText(es) + ([93] + p);
      assert EntriesText(es) == EntryText(es[0]) + EntriesText(es[1..]);
      assert u[0] == EntryText(es[0])[0];
      assert HyphenOk(es[0], 0 == |es| - 1);
    }
  }

  /** The first character behind the mark, where it is no closing bracket. */
  lemma FirstBare(es: seq<Entry>, v: seq<Char>, fl: Flags)
    requires EntriesOk(es, true, fl) && es != []
    ensures var t := EntriesText(es) + v; t != [] && t[0] != 93 && t[0] == EntryText(es[0])[0]
  {
    assert EntryOk(es[0], fl);
    assert EntriesText(es) == EntryText(es[0]) + EntriesText(es[1..]);
  }

  lemma BracketParts(mark: seq<Char>, close: bool, es: seq<Entry>, p: seq<Char>)
    ensures BracketText(mark, close, es) + p
      == ([91] + mark) + ((if close then [93] else []) + (EntriesText(es) + ([93] + p)))
  {
  }

  lemma BracketRead(mark: seq<Char>, close: bool, es: seq<Entry>, p: seq<Char>, fl: Flags)
    requires WellWritten(mark, close, es, fl)
    ensures var b, q := BracketText(mark, close, es), BracketText(mark, close, es) + p;
      && BracketAt(q, 0, fl) == Bracket(BracketItems(close, es), |b|)
      && (Negated(q, 0) <==> mark != [])
  {
    hide EntriesOk, EntriesText, ItemsOf, EntryText, BracketText, BracketAt, Negated;
    TextLength(mark, close, es);
    BracketParts(mark, close, es, p);
    var v := EntriesText(es) + ([93] + p);
    if close {
      CloseBracket(mark, es, p, fl);
    } else {
      assert [] + v == v;
      OpenBracket(mark, es, p, fl);
    }
    hide WellWritten;
  }

  lemma OpenBracket(mark: seq<Char>, es: seq<Entry>, p: seq<Char>, fl: Flags)
    requires WellWritten(mark, false, es, fl)
    ensures var q := ([91] + mark) + (EntriesText(es) + ([93] + p));
      && BracketAt(q, 0, fl) == Bracket(ItemsOf(es), 2 + |mark| + |EntriesText(es)|)
      && (Negated(q, 0) <==> mark != [])
  {
    hide EntriesOk, EntriesText, ItemsOf, EntryText, Member, Members, BracketAt, Negated;
    var t := EntriesText(es) + ([93] + p);
    FirstBare(es, [93] + p, fl);
    EntriesRead(es, true, p, fl);
    hide WellWritten;
    HeadRead(mark, t, fl);
    MembersMoved([91] + mark, t, 0, fl);
  }

  lemma CloseBracket(mark: seq<Char>, es: seq<Entry>, p: seq<Char>, fl: Flags)
    requires WellWritten(mark, true, es, fl)
    ensures var q := ([91] + mark) + ([93] + (EntriesText(es) + ([93] + p)));
      && BracketAt(q, 0, fl) == Bracket(BracketItems(true, es), 3 + |mark| + |EntriesText(es)|)
      && (Negated(q, 0) <==> mark != [])
  {
    hide EntriesOk, EntriesText, ItemsOf, EntryText, Member, Members, BracketAt, Negated, BracketItems;
    var t := [93] + (EntriesText(es) + ([93] + p));
    CloseRead(es, p, fl);
    hide WellWritten;
    HeadRead(mark, t, fl);
    MemberMoved([91] + mark, t, 0, fl);
  }

  lemma TextLength(mark: seq<Char>, close: bool, es: seq<Entry>)
    ensures |BracketText(mark, close, es)| == 2 + |mark| + (if close then 1 else 0) + |EntriesText(es)|
  {
  }

  /** Where the members begin. */
  lemma HeadRead(mark: seq<Char>, t: seq<Char>, fl: Flags)
    requires (mark == [] || mark == [33] || mark == [94]) && t != [] && (mark == [] ==> t[0] != 33 && t[0] != 94)
    ensures var q, f := [91] + mark + t, 1 + |mark|;
      && (Negated(q, 0) <==> mark != [])
      && BracketAt(q, 0, fl) == if t[0] == 93 then Member(q, f, fl) else Members(q, f, fl)
  {
    hide Member, Members;
    var q := [91] + mark + t;
    assert q[1 + |mark|] == t[0] && (mark != [] ==> q[1] == mark[0]);
  }

  /** Whether a member allows `c`; with `blind`, letters in either case, and ranges that hold its small letter. */
  predicate Holds(e: Entry, c: Char, blind: bool) {
    match e
    case One(x) => Alike(c, x.c, blind)
    case Span(lo, hi) =>
      || lo.c <= c <= hi.c
      || (&& blind
          && (65 <= c <= 90 || 65 <= lo.c <= 90 || 65 <= hi.c <= 90)
          && Lowered(lo.c) <= Lowered(c) <= Lowered(hi.c))
  }

  predicate AnyHolds(close: bool, es: seq<Entry>, c: Char, blind: bool) {
    (close && c == 93) || exists k :: 0 <= k < |es| && Holds(es[k], c, blind)
  }

  lemma ItemHolds(e: Entry, c: Char, fl: Flags)
    ensures InItem(c, ItemOf(e), fl) <==> Holds(e, c, fl.caseBlind)
  {
  }

  lemma ItemsHold(close: bool, es: seq<Entry>, c: Char, fl: Flags)
    ensures InItems(c, BracketItems(close, es), fl) <==> AnyHolds(close, es, c, fl.caseBlind)
  {
    var items, n := BracketItems(close, es), if close then 1 else 0;
    forall k | 0 <= k < |es|
      ensures InItem(c, items[n + k], fl) <==> Holds(es[k], c, fl.caseBlind)
    {
      ItemHolds(es[k], c, fl);
    }
    assert close ==> (InItem(c, items[0], fl) <==> c == 93);
    hide InItem, Holds;
    if k :| 0 <= k < |items| && InItem(c, items[k], fl) {
      assert k >= n ==> InItem(c, items[n + (k - n)], fl);
    }
  }

  /** A bracket expression stands for one visible character that a member allows, or with a mark, that none allows. */
  lemma BracketLaw(mark: seq<Char>, close: bool, es: seq<Entry>, p: seq<Char>, s: seq<Char>, fl: Flags, start: bool)
    requires WellWritten(mark, close, es, fl)
    ensures Matches(BracketText(mark, close, es) + p, 0, s, 0, fl, start)
      <==> (&& s != [] && Visible(s[0], fl, start)
            && (mark == [] <==> AnyHolds(close, es, s[0], fl.caseBlind))
            && Matches(p, 0, s[1..], 0, fl, false))
  {
    var b := BracketText(mark, close, es);
    BracketRead(mark, close, es, p, fl);
    assert b != [] && (b + p)[0] == 91;
    hide BracketText, BracketAt, Negated, BracketItems, WellWritten;
    assert AtomAt(b + p, 0, fl) == (Class(mark != [], BracketItems(close, es)), |b|);
    if s != [] {
      ItemsHold(close, es, s[0], fl);
      Behind(b, p, s, fl, false);
    }
    hide InItems, AnyHolds;
  }

  // ---------- whole patterns ----------

  predicate Ordinary(c: Char, fl: Flags) {
    c !in {33, 45, 92, 93, 94} && !(fl.pathname && c == 47)
  }

  /** A range allows exactly the characters from `lo` to `hi`, and with a mark exactly the others. */
  lemma RangeLaw(mark: seq<Char>, lo: Char, hi: Char, c: Char, fl: Flags)
    requires (mark == [] || mark == [33] || mark == [94]) && Ordinary(lo, fl) && Ordinary(hi, fl) && !fl.caseBlind
    ensures Matches([91] + mark + [lo, 45, hi, 93], 0, [c], 0, fl, true)
      <==> (mark == [] <==> lo <= c <= hi) && !(fl.pathname && c == 47) && !(fl.period && c == 46)
  {
    var e := Span(Sign(lo, false), Sign(hi, false));
    assert EntriesText([e]) == [lo, 45, hi];
    assert BracketText(mark, false, [e]) + [] == [91] + mark + [lo, 45, hi, 93];
    BracketLaw(mark, false, [e], [], [c], fl, true);
    assert AnyHolds(false, [e], c, false) <==> lo <= c <= hi by {
      assert [e][0] == e;
    }
  }

  function Ones(cs: seq<Char>): (es: seq<Entry>)
    ensures |es| == |cs| && forall k :: 0 <= k < |cs| ==> es[k] == One(Sign(cs[k], false))
  {
    if cs == [] then [] else [One(Sign(cs[0], false))] + Ones(cs[1..])
  }

  lemma {:induction false} OnesText(cs: seq<Char>)
    ensures EntriesText(Ones(cs)) == cs
  {
    if cs != [] {
      OnesText(cs[1..]);
      assert Ones(cs)[1..] == Ones(cs[1..]);
      assert cs == [cs[0]] + cs[1..];
    }
  }

  /** A list allows exactly its characters, and with a mark exactly the others. */
  lemma ListLaw(mark: seq<Char>, cs: seq<Char>, c: Char, fl: Flags)
    requires (mark == [] || mark == [33] || mark == [94]) && cs != [] && !fl.caseBlind
    requires forall k :: 0 <= k < |cs| ==> Ordinary(cs[k], fl)
    ensures Matches([91] + mark + cs + [93], 0, [c], 0, fl, true)
      <==> (mark == [] <==> c in cs) && !(fl.pathname && c == 47) && !(fl.period && c == 46)
  {
    hide WellWritten, BracketText, AnyHolds, Matches, Ones;
    var es := Ones(cs);
    OnesBracket(mark, cs);
    OnesWritten(mark, cs, fl);
    BracketLaw(mark, false, es, [], [c], fl, true);
    OnesHold(cs, c);
    EmptyLaw([c][1..], fl, false);
  }

  lemma OnesBracket(mark: seq<Char>, cs: seq<Char>)
    ensures BracketText(mark, false, Ones(cs)) + [] == [91] + mark + cs + [93]
  {
    OnesText(cs);
  }

  lemma OnesWritten(mark: seq<Char>, cs: seq<Char>, fl: Flags)
    requires (mark == [] || mark == [33] || mark == [94]) && cs != []
    requires forall k :: 0 <= k < |cs| ==> Ordinary(cs[k], fl)
    ensures WellWritten(mark, false, Ones(cs), fl)
  {
    hide EntryOk, HyphenOk, EntryText, Ones;
    var es := Ones(cs);
    forall k | 0 <= k < |es|
      ensures EntryOk(es[k], fl) && HyphenOk(es[k], k == |es| - 1) && EntryText(es[k])[0] == cs[k]
    {
      OneOk(cs[k], k == |es| - 1, fl);
    }
  }

  lemma OneOk(c: Char, last: bool, fl: Flags)
    requires Ordinary(c, fl)
    ensures var e := One(Sign(c, false)); EntryOk(e, fl) && HyphenOk(e, last) && EntryText(e)[0] == c
  {
  }

  lemma OnesHold(cs: seq<Char>, c: Char)
    ensures AnyHolds(false, Ones(cs), c, false) <==> c in cs
  {
    if k :| 0 <= k < |cs| && cs[k] == c {
      assert Holds(Ones(cs)[k], c, false);
    }
  }

  /** A text without special characters matches what differs from it in the case of letters at most, and that only if asked for. */
  lemma {:induction false} PlainLaw(p: seq<Char>, s: seq<Char>, fl: Flags, start: bool)
    requires forall k :: 0 <= k < |p| ==> p[k] !in {42, 63, 91, 92}
    ensures Matches(p, 0, s, 0, fl, start)
      <==> |s| == |p| && forall k :: 0 <= k < |p| ==> Alike(p[k], s[k], fl.caseBlind)
    decreases |p|
  {
    if p != [] {
      var st := fl.pathname && p[0] == 47;
      assert p == [p[0]] + p[1..];
      LiteralLaw(p[0], p[1..], s, fl, start);
      if s != [] {
        PlainLaw(p[1..], s[1..], fl, st);
        hide Matches, Alike;
        assert forall k :: 0 < k < |p| ==> p[k] == p[1..][k - 1];
        assert forall k :: 0 < k < |s| ==> s[k] == s[1..][k - 1];
      }
    }
  }

  /** A leading period is matched by a period only, escaped or not. */
  lemma PeriodLaw(p: seq<Char>, s: seq<Char>, fl: Flags)
    requires fl.period && s != [] && s[0] == 46 && Matches(p, 0, s, 0, fl, true)
    ensures p != [] && (p[0] == 46 || (!fl.noescape && p[0] == 92 && |p| > 1 && p[1] == 46))
  {
  }
}
