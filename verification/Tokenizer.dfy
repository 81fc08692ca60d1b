/**
 `apr_tokenize_to_argv`: one pass counts the arguments of a command line, a second
 one cuts them out and removes their escapes in place. `apr_cpystrn` copies them.
 */
module Tokenizer {
  import opened Basics
  import opened CStrings

  const TAB: Char := 9
  const DOUBLE: Char := 34
  const SINGLE: Char := 39
  const BACKSLASH: Char := 92

  // ---------- what the arguments of a command line are ----------

  predicate Blank(c: Char) { c == SPACE || c == TAB }

  /** The characters a backslash protects while the end of an argument is sought. */
  predicate Special(c: Char) { Blank(c) || c == DOUBLE || c == SINGLE }

  datatype Quoting = Bare | Double | Single

  function QuoteAt(s: CString, i: nat): Quoting {
    if At(s, i) == DOUBLE then Double else if At(s, i) == SINGLE then Single else Bare
  }

  predicate Closes(c: Char, q: Quoting) {
    match q
    case Bare => Blank(c)
    case Double => c == DOUBLE
    case Single => c == SINGLE
  }

  function SkipBlanks(s: CString, i: nat): (j: nat)
    requires i <= |s|
    ensures i <= j <= |s| && (j < |s| ==> !Blank(s[j])) && (i < |s| && !Blank(s[i]) ==> j == i)
    decreases |s| - i
  {
    if i < |s| && Blank(s[i]) then SkipBlanks(s, i + 1) else i
  }

  function Start(s: CString, i: nat): (j: nat)
    requires i <= |s|
    ensures i <= j <= |s|
  {
    if QuoteAt(s, i) == Bare then i else i + 1
  }

  function End(s: CString, i: nat, q: Quoting): (e: nat)
    requires i <= |s|
    ensures i <= e <= |s|
    decreases |s| - i
  {
    if i == |s| then i
    else if s[i] == BACKSLASH && Special(At(s, i + 1)) then End(s, i + 2, q)
    else if Closes(s[i], q) then i
    else End(s, i + 1, q)
  }

  /** The arguments from position `i` on, escapes and all. */
  function Raw(s: CString, i: nat): seq<seq<Char>>
    requires i <= |s|
    decreases |s| - i, 1
  {
    Words(s, SkipBlanks(s, i))
  }

  /** The same, once blanks have been passed. */
  function Words(s: CString, i: nat): seq<seq<Char>>
    requires i <= |s|
    decreases |s| - i, 0
  {
    if i == |s| then [] else
      var t := Start(s, i);
      var e := End(s, t, QuoteAt(s, i));
      [s[t..e]] + if e < |s| then Raw(s, e + 1) else []
  }

  /** Every backslash goes and the character behind it stays; one at the very end just goes. */
  function Clean(t: seq<Char>): (c: seq<Char>)
    ensures |c| <= |t|
  {
    if t == [] then []
    else if t[0] != BACKSLASH then [t[0]] + Clean(t[1..])
    else if |t| == 1 then []
    else [t[1]] + Clean(t[2..])
  }

  function CleanAll(ts: seq<seq<Char>>): (cs: seq<seq<Char>>)
    ensures |cs| == |ts| && forall k :: 0 <= k < |ts| ==> cs[k] == Clean(ts[k])
  {
    if ts == [] then [] else [Clean(ts[0])] + CleanAll(ts[1..])
  }

  function Arguments(s: CString): seq<seq<Char>> {
    CleanAll(Raw(s, 0))
  }

  lemma RawSkip(s: CString, i: nat)
    requires i <= |s|
    ensures Raw(s, SkipBlanks(s, i)) == Raw(s, i)
  {
    hide SkipBlanks, Words;
  }

  lemma RawStep(s: CString, i: nat)
    requires i < |s| && SkipBlanks(s, i) == i
    ensures var e := End(s, Start(s, i), QuoteAt(s, i));
      Raw(s, i) == [s[Start(s, i)..e]] + if e < |s| then Raw(s, e + 1) else []
  {
    hide SkipBlanks, End, Start, QuoteAt;
  }

  // ---------- the macros ----------

  method SkipWhitespace(s: CString, i: nat) returns (j: nat)
    requires i <= |s|
    ensures j == SkipBlanks(s, i)
  {
    j := i;
    while At(s, j) == SPACE || At(s, j) == TAB
      invariant i <= j <= |s| && SkipBlanks(s, j) == SkipBlanks(s, i)
      decreases |s| - j
    {
      j := j + 1;
    }
  }

  method DetermineNextString(s: CString, i: nat, q: Quoting) returns (e: nat)
    requires i <= |s|
    ensures e == End(s, i, q)
  {
    e := i;
    while At(s, e) != NUL
      invariant i <= e <= |s| && End(s, e, q) == End(s, i, q)
      decreases |s| - e
    {
      if At(s, e) == BACKSLASH && Special(At(s, e + 1)) {
        e := e + 2;
      } else if Closes(At(s, e), q) {
        break;
      } else {
        e := e + 1;
      }
    }
  }

  /** The buffer holds the string `t`, NUL included. */
  ghost predicate Holds(a: array<Char>, t: seq<Char>)
    reads a
  {
    |t| < a.Length && a[..|t|] == t && a[|t|] == NUL
  }

  /** `apr_cpystrn` from position `from` of `s`; a null source acts as an empty one. */
  method CopyBounded(dst: array<Char>, s: CString, from: nat, size: nat) returns (d: nat)
    requires from <= |s| && size <= dst.Length
    modifies dst
    ensures size == 0 ==> d == 0 && dst[..] == old(dst[..])
    ensures size > 0 ==> d == (if size - 1 < |s| - from then size - 1 else |s| - from) && Holds(dst, s[from..from + d])
  {
    d := 0;
    if size == 0 {
      return;
    }
    while d < size - 1
      invariant 0 <= d <= size - 1 && from + d <= |s| && dst[..d] == s[from..from + d]
    {
      dst[d] := At(s, from + d);
      if dst[d] == NUL {
        return;
      }
      d := d + 1;
    }
    dst[d] := NUL;
  }

  /** What has not been looked at yet. */
  ghost predicate Rest(a: array<Char>, t: seq<Char>, dirty: nat)
    reads a
  {
    |t| < a.Length && a[|t|] == NUL && forall k :: dirty <= k < |t| ==> a[k] == t[k]
  }

  method CopyOne(a: array<Char>, ghost t: seq<Char>, at: nat, dirty: nat, behind: bool) returns (cleaned: nat, escaped: bool)
    requires at <= dirty < |t| && Rest(a, t, dirty) && (behind ==> at < dirty)
    modifies a
    ensures at <= cleaned <= dirty + 1 && Rest(a, t, dirty + 1) && (escaped ==> cleaned < dirty + 1)
    ensures a[..cleaned] + Unfinished(t, dirty + 1, escaped) == old(a[..at]) + Unfinished(t, dirty, behind)
  {
    UnfinishedStep(t, dirty, behind);
    hide Unfinished;
    cleaned, escaped := at, !behind && a[dirty] == BACKSLASH;
    if !escaped {
      a[cleaned] := a[dirty];
      cleaned := cleaned + 1;
      assert a[..cleaned] == old(a[..at]) + [t[dirty]];
      Regroup(old(a[..at]), [t[dirty]], Unfinished(t, dirty + 1, false));
    }
  }

  /** Compacts the string in place. */
  method RemoveEscapes(a: array<Char>, ghost t: seq<Char>)
    requires NulFree(t) && Holds(a, t)
    modifies a
    ensures Holds(a, Clean(t))
  {
    hide Clean;
    var cleaned, dirty, escaped := 0, 0, false;
    assert a[..cleaned] + Unfinished(t, 0, false) == Clean(t) by { assert t[0..] == t; }
    hide Unfinished;
    while a[dirty] != NUL
      invariant 0 <= cleaned <= dirty <= |t| < a.Length
      invariant Rest(a, t, dirty) && (escaped ==> cleaned < dirty)
      invariant a[..cleaned] + Unfinished(t, dirty, escaped) == Clean(t)
      decreases |t| - dirty
    {
      cleaned, escaped := CopyOne(a, t, cleaned, dirty, escaped);
      dirty := dirty + 1;
    }
    NothingUnfinished(t, escaped);
    a[cleaned] := NUL;
  }

  lemma NothingUnfinished(t: seq<Char>, escaped: bool)
    ensures Unfinished(t, |t|, escaped) == []
  {
  }

  /** What is still to come, behind a backslash or not. */
  function Unfinished(t: seq<Char>, i: nat, escaped: bool): seq<Char>
    requires i <= |t|
  {
    if !escaped then Clean(t[i..])
    else if i == |t| then []
    else [t[i]] + Clean(t[i + 1..])
  }

  lemma UnfinishedStep(t: seq<Char>, i: nat, escaped: bool)
    requires i < |t|
    ensures Unfinished(t, i, escaped)
      == if !escaped && t[i] == BACKSLASH then Unfinished(t, i + 1, true) else [t[i]] + Unfinished(t, i + 1, false)
  {
    assert t[i..][1..] == t[i + 1..];
    if i + 2 <= |t| {
      assert t[i..][2..] == t[i + 2..];
    }
  }

  lemma RawEnd(s: CString)
    ensures Raw(s, |s|) == []
  {
  }

  // ---------- the two passes ----------

  /** The counting pass. One slot more is needed for the closing null. */
  method CountArguments(s: CString) returns (numargs: nat)
    ensures numargs == |Raw(s, 0)| + 1
  {
    hide Raw, End, Start, QuoteAt;
    var ct := SkipWhitespace(s, 0);
    RawSkip(s, 0);
    RawEnd(s);
    numargs := 1;
    while At(s, ct) != NUL
      invariant ct <= |s| && SkipBlanks(s, ct) == ct
      invariant numargs + |Raw(s, ct)| == 1 + |Raw(s, 0)|
      decreases |s| - ct
    {
      var q := QuoteAt(s, ct);
      RawStep(s, ct);
      ct := DetermineNextString(s, Start(s, ct), q);
      if At(s, ct) != NUL {
        ct := ct + 1;
      }
      numargs := numargs + 1;
      RawSkip(s, ct);
      ct := SkipWhitespace(s, ct);
    }
  }

  /** One round of the filling pass. Only behind the last argument does the cursor pass the closing NUL. */
  method NextArgument(s: CString, at: nat) returns (cp: nat, slot: array<Char>)
    requires at <= |s| && Raw(s, at) != []
    ensures fresh(slot) && Holds(slot, Clean(Raw(s, at)[0]))
    ensures if cp <= |s| then Raw(s, at)[1..] == Raw(s, cp) else cp == |s| + 1 && |Raw(s, at)| == 1
  {
    hide Raw, End, Start, QuoteAt, Clean;
    RawSkip(s, at);
    RawEnd(s);
    cp := SkipWhitespace(s, at);
    RawStep(s, cp);
    var q := QuoteAt(s, cp);
    var ct := Start(s, cp);
    cp := DetermineNextString(s, ct, q);
    ghost var token := s[ct..cp];
    cp := cp + 1;
    slot := new Char[cp - ct];
    var d := CopyBounded(slot, s, ct, cp - ct);
    RemoveEscapes(slot, token);
  }

  /** `apr_tokenize_to_argv` */
  method TokenizeToArgv(s: CString) returns (argv: array<array?<Char>>)
    ensures fresh(argv) && argv.Length == |Arguments(s)| + 1 && argv[|Arguments(s)|] == null
    ensures forall k :: 0 <= k < |Arguments(s)| ==> argv[k] != null && fresh(argv[k]) && Holds(argv[k], Arguments(s)[k])
  {
    hide Raw, Clean, Holds;
    var numargs := CountArguments(s);
    argv := new array?<Char>[numargs](_ => null);
    ghost var raw, cleaned := Raw(s, 0), Arguments(s);
    var cp: nat, argnum := 0, 0;
    while argnum < numargs - 1
      invariant 0 <= argnum <= numargs - 1
      invariant argnum < |raw| ==> cp <= |s| && raw[argnum..] == Raw(s, cp)
      invariant forall k :: 0 <= k < argnum ==> argv[k] != null && fresh(argv[k]) && Holds(argv[k], cleaned[k])
    {
      assert raw[argnum..][0] == raw[argnum] && raw[argnum..][1..] == raw[argnum + 1..];
      var slot;
      cp, slot := NextArgument(s, cp);
      argv[argnum] := slot;
      argnum := argnum + 1;
    }
    argv[argnum] := null;
  }

  // ---------- quoting ----------

  /** An argument between double quotes, with a backslash before every double quote and backslash. */
  function Quoted(arg: seq<Char>): seq<Char> {
    [DOUBLE] + Escaped(arg) + [DOUBLE]
  }

  function Escaped(arg: seq<Char>): seq<Char> {
    if arg == [] then [] else Escape(arg[0]) + Escaped(arg[1..])
  }

  function Escape(c: Char): seq<Char> {
    if c == DOUBLE || c == BACKSLASH then [BACKSLASH, c] else [c]
  }

  /** Quoted arguments, a space between them. */
  function Joined(args: seq<seq<Char>>): seq<Char>
    decreases |args|, 0
  {
    if args == [] then []
    else Quoted(args[0]) + More(args[1..])
  }

  function More(args: seq<seq<Char>>): seq<Char>
    decreases |args|, 1
  {
    if args == [] then [] else [SPACE] + Joined(args)
  }

  lemma {:induction false} EscapedNulFree(arg: CString)
    ensures NulFree(Escaped(arg))
  {
    if arg != [] {
      EscapedNulFree(arg[1..]);
    }
  }

  lemma {:induction false} JoinedNulFree(args: seq<CString>)
    ensures NulFree(Joined(args))
  {
    if args != [] {
      EscapedNulFree(args[0]);
      JoinedNulFree(args[1..]);
    }
  }

  function CommandLine(args: seq<CString>): CString {
    JoinedNulFree(args);
    Joined(args)
  }

  predicate EndsInBackslash(arg: seq<Char>) {
    arg != [] && arg[|arg| - 1] == BACKSLASH
  }

  /** From position `i` on the string reads `t`. */
  ghost predicate Reads(s: CString, i: nat, t: seq<Char>) {
    i <= |s| && s[i..] == t
  }

  lemma ReadsPast(s: CString, i: nat, t: seq<Char>, u: seq<Char>)
    requires Reads(s, i, t + u)
    ensures i + |t| <= |s| && Reads(s, i + |t|, u) && forall k :: 0 <= k < |t| ==> s[i + k] == t[k]
  {
    assert forall k :: 0 <= k < |t| ==> s[i + k] == s[i..][k] == t[k];
    assert s[i + |t|..] == s[i..][|t|..] == u;
  }

  /** Two backslashes, the second one possibly protecting what follows. */
  lemma EndBehindBackslash(s: CString, i: nat)
    requires i + 1 < |s| && s[i] == s[i + 1] == BACKSLASH
    ensures Special(At(s, i + 2)) ==> i + 3 <= |s| && End(s, i, Double) == End(s, i + 3, Double)
    ensures !Special(At(s, i + 2)) ==> End(s, i, Double) == End(s, i + 2, Double)
  {
  }

  lemma EscapedMore(arg: seq<Char>, rest: seq<Char>)
    requires arg != []
    ensures Escaped(arg) + rest == Escape(arg[0]) + (Escaped(arg[1..]) + rest)
  {
    hide Escape;
    assert Escaped(arg) == Escape(arg[0]) + Escaped(arg[1..]);
    Regroup(Escape(arg[0]), Escaped(arg[1..]), rest);
  }

  /** An escaped character other than a backslash is passed as a whole. */
  lemma EndPast(s: CString, i: nat, c: Char, u: seq<Char>)
    requires c != BACKSLASH && Reads(s, i, Escape(c) + u)
    ensures i + |Escape(c)| <= |s| && Reads(s, i + |Escape(c)|, u) && End(s, i, Double) == End(s, i + |Escape(c)|, Double)
  {
    ReadsPast(s, i, Escape(c), u);
  }

  lemma EndHere(s: CString, i: nat, tail: seq<Char>)
    requires Reads(s, i, tail) && (tail != [] ==> tail[0] == DOUBLE)
    ensures End(s, i, Double) == i
  {
  }

  lemma SameEnding(arg: seq<Char>)
    requires |arg| > 1
    ensures EndsInBackslash(arg) == EndsInBackslash(arg[1..])
  {
  }

  /** The closing quote or the end is found, unless the backslashes of the argument reach up to the quote. */
  lemma {:induction false} EndOfEscaped(s: CString, i: nat, arg: seq<Char>, tail: seq<Char>)
    requires Reads(s, i, Escaped(arg) + tail) && (tail != [] ==> tail[0] == DOUBLE)
    ensures EndsInBackslash(arg) && tail != [] ==> End(s, i, Double) > i + |Escaped(arg)|
    ensures !EndsInBackslash(arg) || tail == [] ==> End(s, i, Double) == i + |Escaped(arg)|
    decreases |arg|
  {
    if arg == [] {
      assert Escaped(arg) + tail == tail;
      EndHere(s, i, tail);
    } else if arg[0] != BACKSLASH {
      var c := arg[0];
      EscapedMore(arg, tail);
      EndPast(s, i, c, Escaped(arg[1..]) + tail);
      hide End, Escape, Reads;
      EndOfEscaped(s, i + |Escape(c)|, arg[1..], tail);
    } else {
      EndOfEscapedBackslash(s, i, arg, tail);
    }
  }

  lemma NothingEscaped()
    ensures Escaped([]) == []
  {
  }

  lemma {:induction false} EndOfEscapedBackslash(s: CString, i: nat, arg: seq<Char>, tail: seq<Char>)
    requires Reads(s, i, Escaped(arg) + tail) && (tail != [] ==> tail[0] == DOUBLE) && arg != [] && arg[0] == BACKSLASH
    ensures EndsInBackslash(arg) && tail != [] ==> End(s, i, Double) > i + |Escaped(arg)|
    ensures !EndsInBackslash(arg) || tail == [] ==> End(s, i, Double) == i + |Escaped(arg)|
    decreases |arg|, 0
  {
    hide End, Escaped;
    var rest := Escaped(arg[1..]) + tail;
    EscapedMore(arg, tail);
    ReadsPast(s, i, [BACKSLASH, BACKSLASH], rest);
    EndBehindBackslash(s, i);
    if |arg| == 1 {
      NothingEscaped();
      assert rest == tail;
      EndHere(s, i + 2, tail);
    } else {
      var d := arg[1];
      assert arg[1..][1..] == arg[2..];
      EscapedMore(arg[1..], tail);
      ReadsPast(s, i + 2, Escape(d), Escaped(arg[2..]) + tail);
      SameEnding(arg);
      if d == DOUBLE || d == BACKSLASH || !Special(d) {
        EndOfEscaped(s, i + 2, arg[1..], tail);
      } else {
        if |arg| > 2 {
          SameEnding(arg[1..]);
        }
        hide Reads;
        EndOfEscaped(s, i + 3, arg[2..], tail);
      }
    }
  }

  lemma CleanStep(c: Char, rest: seq<Char>)
    ensures Clean(Escape(c) + rest) == [c] + Clean(rest)
  {
    var t := Escape(c) + rest;
    assert t[|Escape(c)|..] == rest;
  }

  lemma {:induction false} CleanEscaped(arg: seq<Char>, rest: seq<Char>)
    ensures Clean(Escaped(arg) + rest) == arg + Clean(rest)
  {
    if arg == [] {
      assert Escaped(arg) + rest == rest;
    } else {
      CleanEscaped(arg[1..], rest);
      hide Clean, Escape, Escaped;
      EscapedMore(arg, rest);
      CleanStep(arg[0], Escaped(arg[1..]) + rest);
      Regroup([arg[0]], arg[1..], Clean(rest));
      assert arg == [arg[0]] + arg[1..];
    }
  }

  /** What is cut off for a quoted argument, and where the cursor is then. */
  lemma FirstRaw(s: CString, i: nat, arg: seq<Char>, more: seq<Char>)
    requires Reads(s, i, Quoted(arg) + more)
    ensures Raw(s, i) != []
    ensures EndsInBackslash(arg) ==> Escaped(arg) + [DOUBLE] <= Raw(s, i)[0]
    ensures !EndsInBackslash(arg) ==> Raw(s, i)[0] == Escaped(arg)
    ensures !EndsInBackslash(arg) ==>
      i + |Quoted(arg)| <= |s| && Reads(s, i + |Quoted(arg)|, more) && Raw(s, i)[1..] == Raw(s, i + |Quoted(arg)|)
  {
    hide Escaped, Raw, EndsInBackslash;
    var inner := Escaped(arg) + ([DOUBLE] + more);
    assert Quoted(arg) + more == [DOUBLE] + inner;
    ReadsPast(s, i, [DOUBLE], inner);
    EndOfEscaped(s, i + 1, arg, [DOUBLE] + more);
    ReadsPast(s, i, Quoted(arg), more);
    RawStep(s, i);
    hide End;
    var e := End(s, i + 1, Double);
    assert s[i + 1..e] == inner[..e - (i + 1)];
    RawEnd(s);
  }

  /** Cutting off the first of some quoted arguments. */
  lemma FirstArgument(s: CString, i: nat, args: seq<seq<Char>>) returns (j: nat)
    requires args != [] && Reads(s, i, Joined(args))
    ensures Raw(s, i) != []
    ensures EndsInBackslash(args[0]) ==> Clean(Raw(s, i)[0]) != args[0]
    ensures !EndsInBackslash(args[0]) ==> Clean(Raw(s, i)[0]) == args[0]
    ensures !EndsInBackslash(args[0]) ==> Reads(s, j, Joined(args[1..])) && Raw(s, i)[1..] == Raw(s, j)
  {
    hide Raw, Escaped, Clean, EndsInBackslash;
    var arg := args[0];
    FirstRaw(s, i, arg, More(args[1..]));
    j := i + |Quoted(arg)|;
    hide Quoted;
    if EndsInBackslash(arg) {
      var token, n := Raw(s, i)[0], |Escaped(arg)|;
      CleanEscaped(arg, token[n..]);
      assert token == Escaped(arg) + token[n..] && token[n] == DOUBLE;
      CleanKeeps(token[n..]);
    } else {
      CleanEscaped(arg, []);
      assert Escaped(arg) + [] == Escaped(arg) && Clean([]) == [] by { CleanNothing(); }
      if args[1..] != [] {
        ReadsPast(s, j, [SPACE], Joined(args[1..]));
        JoinedStarts(args[1..]);
        assert s[j + 1] == s[j + 1..][0];
        RawBlank(s, j);
        j := j + 1;
      }
    }
  }

  lemma CleanNothing()
    ensures Clean([]) == []
  {
  }

  lemma CleanKeeps(t: seq<Char>)
    requires t != [] && t[0] == DOUBLE
    ensures Clean(t) != []
  {
  }

  lemma JoinedStarts(args: seq<seq<Char>>)
    requires args != []
    ensures Joined(args) != [] && Joined(args)[0] == DOUBLE
  {
  }

  lemma RawBlank(s: CString, i: nat)
    requires i + 1 < |s| && Blank(s[i]) && !Blank(s[i + 1])
    ensures Raw(s, i) == Raw(s, i + 1)
  {
    hide Words;
  }

  lemma {:induction false} JoinedFrom(s: CString, i: nat, args: seq<seq<Char>>)
    requires Reads(s, i, Joined(args))
    ensures CleanAll(Raw(s, i)) == args <==> forall k :: 0 <= k < |args| ==> !EndsInBackslash(args[k])
    decreases |args|
  {
    if args == [] {
      assert i == |s|;
    } else {
      hide Raw, Clean, CleanAll, EndsInBackslash, Joined, Reads;
      var j := FirstArgument(s, i, args);
      var raw := Raw(s, i);
      assert args == [args[0]] + args[1..];
      if EndsInBackslash(args[0]) {
        assert CleanAll(raw)[0] != args[0];
      } else {
        JoinedFrom(s, j, args[1..]);
        assert CleanAll(raw)[1..] == CleanAll(Raw(s, j));
        assert forall k :: 1 <= k < |args| ==> args[k] == args[1..][k - 1];
      }
    }
  }

  /** Quoted arguments come back as they were exactly when none of them ends in a backslash. */
  lemma QuotingRoundTrip(args: seq<CString>)
    ensures Arguments(CommandLine(args)) == args <==> forall k :: 0 <= k < |args| ==> !EndsInBackslash(args[k])
  {
    var s := CommandLine(args);
    assert s[0..] == s;
    JoinedFrom(s, 0, args);
  }

  /** A single backslash between quotes swallows the closing one. */
  lemma BackslashLost()
    ensures Arguments(CommandLine([[BACKSLASH]])) != [[BACKSLASH]]
  {
    var args: seq<CString> := [[BACKSLASH]];
    assert EndsInBackslash(args[0]);
    QuotingRoundTrip(args);
  }

  // ---------- backslashes at the end ----------

  /** An argument that is closed does not end in a backslash: that would protect what closes it. */
  lemma {:induction false} ClosedEnd(s: CString, i: nat, q: Quoting)
    requires i <= |s| && End(s, i, q) < |s|
    ensures !EndsInBackslash(s[i..End(s, i, q)])
    decreases |s| - i
  {
    var e := End(s, i, q);
    if s[i] == BACKSLASH && Special(At(s, i + 1)) {
      ClosedEnd(s, i + 2, q);
      LastOf(s, i + 2, e);
      LastOf(s, i, e);
    } else if !Closes(s[i], q) {
      ClosedEnd(s, i + 1, q);
      LastOf(s, i + 1, e);
      LastOf(s, i, e);
      assert Closes(s[e], q) by { EndCloses(s, i + 1, q); }
    }
  }

  lemma {:induction false} EndCloses(s: CString, i: nat, q: Quoting)
    requires i <= |s| && End(s, i, q) < |s|
    ensures Closes(s[End(s, i, q)], q)
    decreases |s| - i
  {
    if s[i] == BACKSLASH && Special(At(s, i + 1)) {
      EndCloses(s, i + 2, q);
    } else if !Closes(s[i], q) {
      EndCloses(s, i + 1, q);
    }
  }

  lemma LastOf(s: CString, i: nat, e: nat)
    requires i <= e <= |s|
    ensures EndsInBackslash(s[i..e]) <==> i < e && s[e - 1] == BACKSLASH
  {
    if i < e {
      assert s[i..e][e - i - 1] == s[e - 1];
    }
  }

  /** Removing escapes leaves a last character that is no backslash alone. */
  lemma {:induction false} CleanEnd(t: seq<Char>)
    requires !EndsInBackslash(t)
    ensures !EndsInBackslash(Clean(t))
    decreases |t|
  {
    if t != [] {
      if t[0] != BACKSLASH {
        CleanEnd(t[1..]);
      } else {
        CleanEnd(t[2..]);
      }
    }
  }

  /** So only the last argument of a command line can end in a backslash, whatever the command line. */
  lemma {:induction false} OnlyLastEndsInBackslash(s: CString, i: nat, k: nat)
    requires i <= |s| && k + 1 < |Raw(s, i)|
    ensures !EndsInBackslash(Clean(Raw(s, i)[k]))
    decreases |s| - i
  {
    var b := SkipBlanks(s, i);
    var t := Start(s, b);
    var e := End(s, t, QuoteAt(s, b));
    assert Raw(s, i) == Words(s, b);
    assert Raw(s, i) == [s[t..e]] + if e < |s| then Raw(s, e + 1) else [];
    hide Raw, Words, End, Clean, EndsInBackslash;
    if k == 0 {
      ClosedEnd(s, t, QuoteAt(s, b));
      CleanEnd(s[t..e]);
    } else {
      OnlyLastEndsInBackslash(s, e + 1, k - 1);
    }
  }

  lemma ArgumentsEnd(s: CString, k: nat)
    requires k + 1 < |Arguments(s)|
    ensures !EndsInBackslash(Arguments(s)[k])
  {
    OnlyLastEndsInBackslash(s, 0, k);
  }

  /** Quoted arguments, a space between them and the last one not closed. */
  function Unclosed(args: seq<seq<Char>>): seq<Char> {
    if args == [] then []
    else if |args| == 1 then [DOUBLE] + Escaped(args[0])
    else Quoted(args[0]) + ([SPACE] + Unclosed(args[1..]))
  }

  lemma {:induction false} UnclosedNulFree(args: seq<CString>)
    ensures NulFree(Unclosed(args))
  {
    if args != [] {
      EscapedNulFree(args[0]);
      UnclosedNulFree(args[1..]);
    }
  }

  /** An argument that is not closed reaches to the end, whatever its last character. */
  lemma OpenRaw(s: CString, i: nat, arg: seq<Char>)
    requires Reads(s, i, [DOUBLE] + Escaped(arg))
    ensures Raw(s, i) == [Escaped(arg)]
  {
    hide Escaped, Raw;
    ReadsPast(s, i, [DOUBLE], Escaped(arg));
    assert Escaped(arg) + [] == Escaped(arg);
    EndOfEscaped(s, i + 1, arg, []);
    RawStep(s, i);
    assert i + 1 + |Escaped(arg)| == |s|;
    assert s[i + 1..|s|] == s[i + 1..] == Escaped(arg);
  }

  /** A closed argument that does not end in a backslash, and something quoted behind it. */
  lemma ClosedRaw(s: CString, i: nat, arg: seq<Char>, rest: seq<Char>)
    requires Reads(s, i, Quoted(arg) + ([SPACE] + rest)) && rest != [] && rest[0] == DOUBLE && !EndsInBackslash(arg)
    ensures var j := i + |Quoted(arg)| + 1;
      j <= |s| && Reads(s, j, rest) && Raw(s, i) == [Escaped(arg)] + Raw(s, j)
  {
    hide Escaped, Raw, EndsInBackslash, Quoted;
    FirstRaw(s, i, arg, [SPACE] + rest);
    var j := i + |Quoted(arg)|;
    ReadsPast(s, j, [SPACE], rest);
    assert s[j + 1] == s[j + 1..][0];
    RawBlank(s, j);
  }

  lemma CleanBack(arg: seq<Char>)
    ensures Clean(Escaped(arg)) == arg
  {
    hide Escaped;
    CleanEscaped(arg, []);
    assert Escaped(arg) + [] == Escaped(arg);
  }

  lemma CleanAllMore(first: seq<Char>, rest: seq<seq<Char>>)
    ensures CleanAll([first] + rest) == [Clean(first)] + CleanAll(rest)
  {
    hide Clean;
    assert ([first] + rest)[1..] == rest;
  }

  lemma {:induction false} UnclosedFrom(s: CString, i: nat, args: seq<seq<Char>>)
    requires Reads(s, i, Unclosed(args)) && forall k :: 0 <= k < |args| - 1 ==> !EndsInBackslash(args[k])
    ensures CleanAll(Raw(s, i)) == args
    decreases |args|
  {
    if args == [] {
      assert i == |s|;
    } else {
      CleanBack(args[0]);
      hide Raw, Clean, CleanAll, EndsInBackslash, Reads, Quoted, Escaped;
      assert args == [args[0]] + args[1..];
      if |args| == 1 {
        OpenRaw(s, i, args[0]);
      } else {
        var j := i + |Quoted(args[0])| + 1;
        ClosedRaw(s, i, args[0], Unclosed(args[1..]));
        UnclosedFrom(s, j, args[1..]);
        CleanAllMore(Escaped(args[0]), Raw(s, j));
      }
    }
  }

  /** The lists of arguments that some command line yields: those where none but the last ends in a backslash. */
  lemma ArgumentLists(args: seq<CString>)
    ensures (exists s: CString :: Arguments(s) == args) <==> forall k :: 0 <= k < |args| - 1 ==> !EndsInBackslash(args[k])
  {
    forall s: CString, k | Arguments(s) == args && 0 <= k < |args| - 1
      ensures !EndsInBackslash(args[k])
    {
      ArgumentsEnd(s, k);
    }
    if forall k :: 0 <= k < |args| - 1 ==> !EndsInBackslash(args[k]) {
      UnclosedNulFree(args);
      var s: CString := Unclosed(args);
      assert s[0..] == s;
      UnclosedFrom(s, 0, args);
      assert Arguments(s) == args;
    }
  }

  /** The last one can: `a` and two backslashes give `a` and one. */
  lemma LastEndsInBackslash()
    ensures Arguments([97, BACKSLASH, BACKSLASH]) == [[97, BACKSLASH]]
  {
    var s: CString := [97, BACKSLASH, BACKSLASH];
    assert End(s, 2, Bare) == 3;
    assert End(s, 1, Bare) == 3;
    assert s[0..3] == s;
    assert Raw(s, 0) == [s];
    var rest: seq<Char> := [BACKSLASH, BACKSLASH];
    assert s[1..] == rest && rest[2..] == [];
    assert Clean(rest) == [BACKSLASH];
    assert Clean(s) == [97, BACKSLASH];
  }
}
