/**
 Octets, and the scan with which every decoder of `apr_encode.c` begins: how far
 the digits reach, and whether anything but padding follows them.
 */
module Octets {
  import opened Basics
  type Byte = b: nat | b < 256

  const PAD: Byte := 61     // '='
  const COLON: Byte := 58

  datatype Status = Success | BadChar

  /** A decoding table: below `limit` are digits, above it are padding or separators. */
  datatype Table = Table(value: Byte -> nat, limit: nat, separated: bool)
  {
    /** What the first scan passes over; only base16 passes over what lies above the limit. */
    predicate Takes(c: Byte) {
      value(c) < limit || (separated && value(c) > limit)
    }
  }

  /** How many leading characters of `text` the first scan passes over. */
  function Lead(text: seq<Byte>, t: Table): (n: nat)
    ensures n <= |text| && (forall k :: 0 <= k < n ==> t.Takes(text[k]))
    ensures n < |text| ==> !t.Takes(text[n])
  {
    if text == [] || !t.Takes(text[0]) then 0 else 1 + Lead(text[1..], t)
  }

  /** Nothing but padding after the first character that is no digit, up to and including the one behind the text. */
  predicate Clean(src: seq<Byte>, slen: nat, t: Table)
    requires slen < |src|
  {
    var n := Lead(src[..slen], t);
    n == slen || forall k :: n < k <= slen ==> t.value(src[k]) > t.limit
  }

  /** The two scans. The second starts one character late, and both look behind the text. */
  method Scan(src: seq<Byte>, slen: nat, t: Table) returns (n: nat, clean: bool)
    requires slen + 2 <= |src|
    ensures n == Lead(src[..slen], t)
    ensures clean <==> Clean(src, slen, t)
  {
    var count: nat, at: nat := slen, 0;
    while t.Takes(src[at]) && count > 0
      invariant at + count == slen
      invariant forall k :: 0 <= k < at ==> t.Takes(src[k])
      decreases count
    {
      at, count := at + 1, count - 1;
    }
    n, at := at, at + 1;
    LeadIs(src[..slen], t, n);
    while t.value(src[at]) > t.limit && count > 0
      invariant at + count == slen + 1 && n < at
      invariant forall k :: n < k < at ==> t.value(src[k]) > t.limit
      decreases count
    {
      at, count := at + 1, count - 1;
    }
    clean := count == 0;
  }

  lemma {:induction false} LeadIs(text: seq<Byte>, t: Table, n: nat)
    requires n <= |text| && (forall k :: 0 <= k < n ==> t.Takes(text[k]))
    requires n < |text| ==> !t.Takes(text[n])
    ensures Lead(text, t) == n
  {
    if n > 0 {
      LeadIs(text[1..], t, n - 1);
    }
  }

  /** Where a character that is neither digit nor padding follows the text, only digits are clean. */
  lemma CleanBeforeNul(src: seq<Byte>, slen: nat, t: Table)
    requires slen < |src| && t.value(src[slen]) == t.limit
    ensures Clean(src, slen, t) <==> forall k :: 0 <= k < slen ==> t.Takes(src[k])
  {
    var n := Lead(src[..slen], t);
    if forall k :: 0 <= k < slen ==> t.Takes(src[k]) {
      LeadIs(src[..slen], t, slen);
    } else if n < slen {
      assert !(t.value(src[slen]) > t.limit);
    }
  }

  /** A number packed from two bit fields falls apart into them. */
  lemma Pack(h: nat, l: nat, k: nat)
    requires k in {2, 4, 8, 16, 32, 64} && l < k
    ensures (h * k + l) / k == h && (h * k + l) % k == l
  {
    if k == 2 {
    } else if k == 4 {
    } else if k == 8 {
    } else if k == 16 {
    } else if k == 32 {
    }
  }

  /** Cutting a number off after eight bits. */
  lemma Truncated(q: nat, o: Byte)
    ensures (q * 256 + o) % 256 == o
  {
  }

  /** The first `at` octets of `whole` are in the buffer. */
  ghost predicate Written(dest: array<Byte>, at: nat, whole: seq<Byte>)
    reads dest
  {
    at <= |whole| <= dest.Length && dest[..at] == whole[..at]
  }

  /** `*bufout++ = c`, where `whole` is what is being written. */
  method Put(dest: array<Byte>, at: nat, c: Byte, ghost whole: seq<Byte>) returns (p: nat)
    requires Written(dest, at, whole) && at < |whole| && whole[at] == c
    modifies dest
    ensures p == at + 1 && Written(dest, p, whole)
  {
    dest[at] := c;
    p := at + 1;
    assert dest[..p] == dest[..at] + [c];
  }

  /** What stands next in `whole`, and what behind it. */
  lemma Advance(whole: seq<Byte>, d: nat, e: seq<Byte>, rest: seq<Byte>)
    requires d <= |whole| && whole[d..] == e + rest
    ensures e <= whole[d..] && d + |e| <= |whole| && whole[d + |e|..] == rest
  {
    assert whole[d..][|e|..] == rest;
  }

  // ---------- digits as text ----------

  /** Digits written in the alphabet `base`. */
  function Text(vs: seq<nat>, base: seq<Byte>): (t: seq<Byte>)
    requires forall k :: 0 <= k < |vs| ==> vs[k] < |base|
    ensures |t| == |vs| && forall k :: 0 <= k < |t| ==> t[k] == base[vs[k]]
  {
    if vs == [] then [] else [base[vs[0]]] + Text(vs[1..], base)
  }

  predicate AllDigits(text: seq<Byte>, t: Table) {
    forall k :: 0 <= k < |text| ==> t.value(text[k]) < t.limit
  }

  /** The digits that characters stand for. */
  function Digits(text: seq<Byte>, t: Table): (vs: seq<nat>)
    requires AllDigits(text, t)
    ensures |vs| == |text| && forall k :: 0 <= k < |vs| ==> vs[k] == t.value(text[k]) < t.limit
  {
    if text == [] then [] else [t.value(text[0])] + Digits(text[1..], t)
  }

  /** The table reads back what the alphabet writes. */
  predicate Reads(t: Table, base: seq<Byte>) {
    |base| <= t.limit && forall v :: 0 <= v < |base| ==> t.value(base[v]) == v
  }

  lemma TextAppend(vs: seq<nat>, ws: seq<nat>, base: seq<Byte>)
    requires forall k :: 0 <= k < |vs| ==> vs[k] < |base|
    requires forall k :: 0 <= k < |ws| ==> ws[k] < |base|
    ensures Text(vs + ws, base) == Text(vs, base) + Text(ws, base)
  {
  }

  lemma CleanBehind(text: seq<Byte>, n: nat, behind: seq<Byte>, t: Table)
    requires t.value(PAD) > t.limit && |behind| > 1
    requires Lead(text, t) == n && forall k :: n <= k < |text| ==> text[k] == PAD
    ensures Clean(text + behind, |text|, t) <==> n == |text| || t.value(behind[0]) > t.limit
  {
    hide Lead;
    var whole := text + behind;
    assert whole[..|text|] == text;
    assert whole[|text|] == behind[0];
    assert forall k :: n < k < |text| ==> whole[k] == PAD;
  }

  lemma DigitsOfText(vs: seq<nat>, base: seq<Byte>, t: Table)
    requires Reads(t, base) && forall k :: 0 <= k < |vs| ==> vs[k] < |base|
    ensures AllDigits(Text(vs, base), t) && Digits(Text(vs, base), t) == vs
  {
    var text := Text(vs, base);
    assert forall k :: 0 <= k < |vs| ==> t.value(base[vs[k]]) == vs[k];
  }

  /** What the scan makes of an encoding, padded or not, and of what lies behind it. */
  lemma ScanOfText(vs: seq<nat>, base: seq<Byte>, pads: nat, behind: seq<Byte>, t: Table)
    requires Reads(t, base) && t.value(PAD) > t.limit && !t.separated && |behind| > 1
    requires forall k :: 0 <= k < |vs| ==> vs[k] < |base|
    ensures var text := Text(vs, base) + Repeat(PAD, pads);
      && Lead(text, t) == |vs| && AllDigits(text[..|vs|], t) && Digits(text[..|vs|], t) == vs
      && (Clean(text + behind, |text|, t) <==> pads == 0 || t.value(behind[0]) > t.limit)
  {
    hide Text, Digits, Repeat, Reads, Lead, Clean;
    var text := Text(vs, base) + Repeat(PAD, pads);
    DigitsOfText(vs, base, t);
    assert text[..|vs|] == Text(vs, base);
    assert forall k :: 0 <= k < |vs| ==> text[k] == text[..|vs|][k];
    LeadIs(text, t, |vs|);
    CleanBehind(text, |vs|, behind, t);
  }
}
