/**
 How a number is read from its text: white space, sign, prefix and digits are spelled out.
 */
module NumberLaws {
  import opened Basics
  import opened CStrings
  import opened Numbers

  const SMALL := "0123456789abcdefghijklmnopqrstuvwxyz"
  const CAPITAL := "0123456789ABCDEFGHIJKLMNOPQRSTUVWXYZ"

  /** `c` is written for the digit `v`. */
  predicate Stands(c: Char, v: nat) {
    v < 36 && (c == SMALL[v] as int || c == CAPITAL[v] as int)
  }

  lemma SmallIs(v: nat)
    requires v < 36
    ensures SMALL[v] as int == if v < 10 then 48 + v else 87 + v
  {
    if v < 9 {
    } else if v < 18 {
    } else if v < 27 {
    }
  }

  lemma CapitalIs(v: nat)
    requires v < 36
    ensures CAPITAL[v] as int == if v < 10 then 48 + v else 55 + v
  {
    if v < 9 {
    } else if v < 18 {
    } else if v < 27 {
    }
  }

  /** The letters of a digit have its value, and other characters have none. */
  lemma DigitLaw(c: Char)
    ensures forall v :: 0 <= v < 36 ==> (DigitOf(c) == v <==> Stands(c, v))
    ensures DigitOf(c) < 36 <==> exists v :: 0 <= v < 36 && Stands(c, v)
  {
    hide SMALL, CAPITAL;
    forall v | 0 <= v < 36
      ensures DigitOf(c) == v <==> Stands(c, v)
    {
      SmallIs(v);
      CapitalIs(v);
    }
    hide Stands;
    if DigitOf(c) < 36 {
      assert Stands(c, DigitOf(c));
    }
  }

  /** A text of digits of the base. */
  predicate Digits(t: seq<Char>, ds: seq<nat>, base: nat) {
    |t| == |ds| && forall k :: 0 <= k < |t| ==> ds[k] < base && Stands(t[k], ds[k])
  }

  /** No digit of the base comes first. */
  predicate Ends(t: seq<Char>, base: nat) {
    t == [] || forall v :: 0 <= v < base ==> !Stands(t[0], v)
  }

  lemma {:induction false} RunIs(s: CString, i: nat, t: seq<Char>, ds: seq<nat>, rest: seq<Char>, base: nat)
    requires base <= 36 && i <= |s| && s[i..] == t + rest && Digits(t, ds, base) && Ends(rest, base)
    ensures Run(s, i, base) == ds
    decreases |t|
  {
    hide Stands;
    if t == [] {
      assert s[i..] == rest;
      assert rest != [] ==> s[i] == s[i..][0];
      DigitLaw(At(s, i));
      assert base == 0 || At(s, i) == 0 || rest != [];
      NulIsNoDigit();
    } else {
      assert s[i] == s[i..][0] == t[0];
      DigitLaw(t[0]);
      assert s[i + 1..] == s[i..][1..] == t[1..] + rest;
      RunIs(s, i + 1, t[1..], ds[1..], rest, base);
      assert ds == [ds[0]] + ds[1..];
    }
  }

  lemma NulIsNoDigit()
    ensures DigitOf(0) == 36
  {
  }

  /** White space: blank, tab, newline, vertical tab, form feed, carriage return. */
  const SPACES: seq<Char> := [32, 9, 10, 11, 12, 13]

  lemma {:induction false} SpaceSkipped(s: CString, i: nat, blanks: seq<Char>, rest: seq<Char>)
    requires i <= |s| && s[i..] == blanks + rest && (forall k :: 0 <= k < |blanks| ==> blanks[k] in SPACES)
    requires rest != [] ==> rest[0] !in SPACES
    ensures SkipSpace(s, i) == i + |blanks| && s[i + |blanks|..] == rest
    decreases |blanks|
  {
    if blanks == [] {
      assert s[i..] == rest;
      assert rest != [] ==> s[i] == s[i..][0];
    } else {
      assert s[i] == s[i..][0] == blanks[0];
      assert s[i + 1..] == s[i..][1..] == blanks[1..] + rest;
      SpaceSkipped(s, i + 1, blanks[1..], rest);
    }
  }

  /** The base that a number is read in: that of its prefix, the one asked for, or for base 0 octal behind a zero and decimal otherwise. */
  function BaseOf(base: int, prefix: seq<Char>, body: seq<Char>): int {
    if prefix != [] then 16 else if base != 0 then base else if body != [] && body[0] == 48 then 8 else 10
  }

  predicate Prefix(prefix: seq<Char>) { prefix == [48, 120] || prefix == [48, 88] }

  /** A prefix only where base 16 or 0 is asked for, and there none is left unread. */
  predicate RightPrefix(base: int, prefix: seq<Char>, body: seq<Char>) {
    if base in {0, 16} then Prefix(prefix) || (prefix == [] && !(|body| > 1 && Prefix(body[..2])))
    else prefix == []
  }

  lemma Following(s: CString, i: nat, t: seq<Char>, u: seq<Char>)
    requires i <= |s| && s[i..] == t + u
    ensures i + |t| <= |s| && s[i + |t|..] == u
    ensures At(s, i) == if t != [] then t[0] else if u != [] then u[0] else 0
    ensures t == [] && |u| > 1 ==> At(s, i + 1) == u[1]
    ensures |t| == 2 ==> At(s, i + 1) == t[1]
  {
    assert s[i..][|t|..] == u;
    assert forall k :: 0 <= k < |t + u| ==> s[i + k] == s[i..][k];
    assert t + u != [] ==> s[i + 0] == (t + u)[0];
    assert |t + u| > 1 ==> s[i + 1] == (t + u)[1];
  }

  /** What stands behind the sign. */
  lemma BaseRead(s: CString, j: nat, prefix: seq<Char>, body: seq<Char>, base: int)
    requires j <= |s| && s[j..] == prefix + body && RightPrefix(base, prefix, body)
    ensures var written := (base == 0 || base == 16) && At(s, j) == ZERO && (At(s, j + 1) == 120 || At(s, j + 1) == 88);
      (written <==> prefix != []) && (written ==> |prefix| == 2) && (!written && base == 0 ==>
        BaseOf(base, prefix, body) == if At(s, j) == ZERO then 8 else 10)
  {
    Following(s, j, prefix, body);
    if |body| > 1 {
      assert body[..2] == [body[0], body[1]];
    } else if prefix == [] {
      assert |s| - j == |body|;
    }
  }

  /** White space, sign and prefix. */
  lemma HeadLaw(s: CString, blanks: seq<Char>, sign: seq<Char>, prefix: seq<Char>, body: seq<Char>, base: int)
    requires s == blanks + (sign + (prefix + body)) && (forall k :: 0 <= k < |blanks| ==> blanks[k] in SPACES)
    requires sign in [[], [43], [45]] && RightPrefix(base, prefix, body)
    requires sign == [] && prefix == [] && body != [] ==> body[0] !in SPACES && body[0] !in {43, 45}
    ensures HeadOf(s, base) == Head(sign == [45], BaseOf(base, prefix, body), |blanks| + |sign| + |prefix|)
    ensures s[|blanks| + |sign| + |prefix|..] == body
  {
    var i, j := |blanks|, |blanks| + |sign|;
    hide SkipSpace, At;
    assert s[0..] == s;
    FirstBehindSpace(sign, prefix, body, base);
    SpaceSkipped(s, 0, blanks, sign + (prefix + body));
    Following(s, i, sign, prefix + body);
    BaseRead(s, j, prefix, body, base);
    Following(s, j, prefix, body);
    hide *;
    PrefixLength(base, prefix, body);
    HeadFrom(s, base, i, j, sign == [45], prefix != [], BaseOf(base, prefix, body));
  }

  lemma PrefixLength(base: int, prefix: seq<Char>, body: seq<Char>)
    requires RightPrefix(base, prefix, body)
    ensures |prefix| == if prefix != [] then 2 else 0
    ensures prefix != [] ==> BaseOf(base, prefix, body) == 16
    ensures prefix == [] && base != 0 ==> BaseOf(base, prefix, body) == base
  {
  }

  lemma HeadFrom(s: CString, base: int, i: nat, j: nat, neg: bool, written: bool, b: int)
    requires i == SkipSpace(s, 0) && neg == (At(s, i) == 45) && j == if neg || At(s, i) == 43 then i + 1 else i
    requires written == ((base == 0 || base == 16) && At(s, j) == ZERO && (At(s, j + 1) == 120 || At(s, j + 1) == 88))
    requires b == if written then 16 else if base != 0 then base else if At(s, j) == ZERO then 8 else 10
    ensures HeadOf(s, base) == Head(neg, b, if written then j + 2 else j)
  {
    hide SkipSpace, At;
  }

  lemma FirstBehindSpace(sign: seq<Char>, prefix: seq<Char>, body: seq<Char>, base: int)
    requires sign in [[], [43], [45]] && RightPrefix(base, prefix, body)
    requires sign == [] && prefix == [] && body != [] ==> body[0] !in SPACES && body[0] !in {43, 45}
    ensures var t, u := sign + (prefix + body), prefix + body;
      (t != [] ==> t[0] !in SPACES) && (sign == [] && u != [] ==> u[0] !in {43, 45})
  {
    var u := prefix + body;
    assert u != [] ==> u[0] == if prefix != [] then 48 else body[0];
  }

  /** A number is read from its sign and digits, in either case of letter, up to the first other character. */
  lemma ReadingLaw(s: CString, blanks: seq<Char>, sign: seq<Char>, prefix: seq<Char>, t: seq<Char>, rest: seq<Char>,
                   ds: seq<nat>, base: int)
    requires s == blanks + (sign + (prefix + (t + rest))) && (forall k :: 0 <= k < |blanks| ==> blanks[k] in SPACES)
    requires sign in [[], [43], [45]] && RightPrefix(base, prefix, t + rest)
    requires sign == [] && prefix == [] && t + rest != [] ==> (t + rest)[0] !in SPACES && (t + rest)[0] !in {43, 45}
    requires base == 0 || 2 <= base <= 36
    requires var b := BaseOf(base, prefix, t + rest); Digits(t, ds, b) && Ends(rest, b)
    ensures var h := HeadOf(s, base);
      && h.neg == (sign == [45]) && 2 <= h.base <= 36 && h.base == BaseOf(base, prefix, t + rest)
      && Run(s, h.at, h.base) == ds
  {
    HeadLaw(s, blanks, sign, prefix, t + rest, base);
    hide HeadOf, Digits, Ends;
    var b := BaseOf(base, prefix, t + rest);
    RunIs(s, |blanks| + |sign| + |prefix|, t, ds, rest, b);
  }
}
