/**
 The pattern language of `apr_fnmatch`: what one pattern element is, where it
 ends, which characters it accepts, and when a whole pattern matches a string.
 Positions are indices into the pattern text and the string, so the relation
 can be compared with the pointers of the matcher.
 */
module GlobPattern {
  import opened CStrings

  const STAR: Char := 42
  const QUESTION: Char := 63
  const OPEN: Char := 91
  const BACKSLASH: Char := 92
  const CLOSE: Char := 93
  const BANG: Char := 33
  const CARET: Char := 94
  const HYPHEN: Char := 45
  const DOT: Char := 46
  const SLASH: Char := 47

  /** APR_FNM_NOESCAPE, APR_FNM_PATHNAME, APR_FNM_PERIOD, APR_FNM_CASE_BLIND */
  datatype Flags = Flags(noescape: bool, pathname: bool, period: bool, caseBlind: bool)

  /** One member of a bracket expression: a character or a range. */
  datatype Item = Single(c: Char) | Range(lo: Char, hi: Char)

  datatype Atom =
    | Star
    | Any
    | Lit(c: Char)
    | Class(negate: bool, items: seq<Item>)
    | Separator

  predicate Escape(p: seq<Char>, i: nat, fl: Flags) {
    !fl.noescape && At(p, i) == BACKSLASH
  }

  // ---------- bracket expressions ----------

  /** The members of a bracket expression and the position after its `]`. */
  datatype Bracket = Malformed | Bracket(items: seq<Item>, end: nat)

  function Cons(item: Item, rest: Bracket): Bracket {
    if rest.Malformed? then Malformed else Bracket([item] + rest.items, rest.end)
  }

  /** The members from position `i` up to the closing `]`. */
  function Members(p: seq<Char>, i: nat, fl: Flags): (b: Bracket)
    ensures b.Bracket? ==> i < b.end <= |p|
    decreases |p| - i, 1
  {
    if i >= |p| then Malformed
    else if p[i] == CLOSE then Bracket([], i + 1)
    else
      var k := if Escape(p, i, fl) then i + 1 else i;
      if k >= |p| || (fl.pathname && p[k] == SLASH) then Malformed
      else Member(p, k, fl)
  }

  /** As Members, but what stands at `k` is an ordinary character whatever it is. */
  function Member(p: seq<Char>, k: nat, fl: Flags): (b: Bracket)
    requires k < |p|
    ensures b.Bracket? ==> k < b.end <= |p|
    decreases |p| - k, 0
  {
    if At(p, k + 1) == HYPHEN && At(p, k + 2) != CLOSE then
      var h := if Escape(p, k + 2, fl) then k + 3 else k + 2;
      if h >= |p| || (fl.pathname && p[h] == SLASH) then Malformed
      else Cons(Range(p[k], p[h]), Members(p, h + 1, fl))
    else
      Cons(Single(p[k]), Members(p, k + 1, fl))
  }

  predicate Negated(p: seq<Char>, i: nat) {
    At(p, i + 1) == BANG || At(p, i + 1) == CARET
  }

  /** The bracket expression whose `[` is at `i`; a `]` in first place is a member. */
  function BracketAt(p: seq<Char>, i: nat, fl: Flags): (b: Bracket)
    requires i < |p|
    ensures b.Bracket? ==> i < b.end <= |p|
  {
    var f := if Negated(p, i) then i + 2 else i + 1;
    if At(p, f) == CLOSE then Member(p, f, fl) else Members(p, f, fl)
  }

  // ---------- pattern elements ----------

  /** The pattern element at `i` and the position after it. */
  function AtomAt(p: seq<Char>, i: nat, fl: Flags): (r: (Atom, nat))
    requires i < |p|
    ensures i < r.1 <= |p|
  {
    if p[i] == STAR then (Star, i + 1)
    else if p[i] == QUESTION then (Any, i + 1)
    else if p[i] == OPEN && BracketAt(p, i, fl).Bracket? then
      var b := BracketAt(p, i, fl);
      (Class(Negated(p, i), b.items), b.end)
    else
      var k := if Escape(p, i, fl) && i + 1 < |p| then i + 1 else i;
      if fl.pathname && p[k] == SLASH then (Separator, k + 1) else (Lit(p[k]), k + 1)
  }

  predicate SameChar(c: Char, d: Char, fl: Flags) {
    c == d || (fl.caseBlind && (IsUpper(c) || IsUpper(d)) && ToLower(c) == ToLower(d))
  }

  predicate InItem(c: Char, item: Item, fl: Flags) {
    match item
    case Single(d) => SameChar(c, d, fl)
    case Range(lo, hi) =>
      || lo <= c <= hi
      || (&& fl.caseBlind
          && (IsUpper(c) || IsUpper(lo) || IsUpper(hi))
          && ToLower(lo) <= ToLower(c) <= ToLower(hi))
  }

  predicate InItems(c: Char, items: seq<Item>, fl: Flags) {
    exists k :: 0 <= k < |items| && InItem(c, items[k], fl)
  }

  /** Whether a one-character element accepts `c`. */
  predicate Accepts(a: Atom, c: Char, fl: Flags) {
    match a
    case Any => true
    case Lit(d) => SameChar(c, d, fl)
    case Class(negate, items) => InItems(c, items, fl) != negate
    case Star => false
    case Separator => false
  }

  // ---------- the match relation ----------

  /** `s[j..k]` stays inside one path segment. */
  ghost predicate InSegment(s: seq<Char>, j: nat, k: nat, fl: Flags) {
    fl.pathname ==> forall x :: j <= x < k && x < |s| ==> s[x] != SLASH
  }

  /**
   The pattern from `i` matches the string from `j`. `start` says that `j` is at
   the beginning of the string or, in pathname mode, right after a slash: only
   there does APR_FNM_PERIOD ask for an explicit period.
   */
  ghost predicate Matches(p: seq<Char>, i: nat, s: seq<Char>, j: nat, fl: Flags, start: bool)
    requires i <= |p| && j <= |s|
    decreases |p| - i
  {
    if i == |p| then j == |s|
    else
      var (a, next) := AtomAt(p, i, fl);
      if start && fl.period && At(s, j) == DOT then
        a == Lit(DOT) && j < |s| && Matches(p, next, s, j + 1, fl, false)
      else if a == Star then
        exists k :: j <= k <= |s| && InSegment(s, j, k, fl) && Matches(p, next, s, k, fl, false)
      else if a == Separator then
        j < |s| && s[j] == SLASH && Matches(p, next, s, j + 1, fl, true)
      else
        && j < |s|
        && InSegment(s, j, j + 1, fl)
        && Accepts(a, s[j], fl)
        && Matches(p, next, s, j + 1, fl, false)
  }
}
