/**
 Why the order is called natural: numbers are ordered by their value, and a
 leading zero makes digits a decimal fraction.
 */
module NatNumbers {
  import opened Basics
  import opened CStrings
  import opened NatOrder
  import Numbers

  function Pow10(n: nat): (p: nat)
    ensures p >= 1
  {
    if n == 0 then 1 else 10 * Pow10(n - 1)
  }

  /** The number that a run of digits spells. */
  function Value(r: seq<Char>): nat
    requires forall i :: 0 <= i < |r| ==> IsDigit(r[i])
  {
    Numbers.Value(Numbers.DigitsOf(r), 10)
  }

  /** The same from the front. */
  lemma ValueMore(r: seq<Char>)
    requires r != [] && forall i :: 0 <= i < |r| ==> IsDigit(r[i])
    ensures Value(r) == (r[0] - ZERO) * Pow10(|r| - 1) + Value(r[1..])
  {
    ValueFront(Numbers.DigitsOf(r));
  }

  lemma {:induction false} ValueFront(ds: seq<nat>)
    requires ds != []
    ensures Numbers.Value(ds, 10) == ds[0] * Pow10(|ds| - 1) + Numbers.Value(ds[1..], 10)
  {
    var n := |ds| - 1;
    if n > 0 {
      ValueFront(ds[..n]);
      assert ds[..n][1..] == ds[1..][..n - 1];
    } else {
      assert ds[..0] == [] && ds[1..] == [];
    }
  }

  lemma ValueNothing()
    ensures Value([]) == 0
  {
  }

  lemma Scale(d: int, e: int, p: int)
    requires p >= 1
    ensures d < e ==> d * p + p <= e * p
    ensures d <= 9 ==> d * p + p <= 10 * p
    ensures 1 <= d ==> p <= d * p
    ensures 0 <= d ==> 0 <= d * p
  {
    if d < e {
      assert (d + 1) * p <= e * p;
    }
    if d <= 9 {
      assert (d + 1) * p <= 10 * p;
    }
    if 1 <= d {
      assert 1 * p <= d * p;
    }
  }

  lemma {:induction false} ValueBound(r: seq<Char>)
    requires forall i :: 0 <= i < |r| ==> IsDigit(r[i])
    ensures Value(r) < Pow10(|r|)
  {
    if r == [] {
      ValueNothing();
    } else {
      ValueMore(r);
      ValueBound(r[1..]);
      Scale(r[0] - ZERO, 10, Pow10(|r| - 1));
    }
  }

  /** Equally long runs are ordered by their first different digit, which is their order by value. */
  lemma {:induction false} EqualLength(r: seq<Char>, s: seq<Char>)
    requires |r| == |s|
    requires forall i :: 0 <= i < |r| ==> IsDigit(r[i]) && IsDigit(s[i])
    ensures Left(r, s) < 0 <==> Value(r) < Value(s)
    ensures Left(r, s) == 0 <==> Value(r) == Value(s)
  {
    hide Value, Pow10;
    if r == [] {
      assert s == [];
    } else {
      var p := Pow10(|r| - 1);
      ValueMore(r);
      ValueMore(s);
      EqualLength(r[1..], s[1..]);
      ValueBound(r[1..]);
      ValueBound(s[1..]);
      Scale(r[0] - ZERO, s[0] - ZERO, p);
      Scale(s[0] - ZERO, r[0] - ZERO, p);
    }
  }

  lemma ShorterIsLess(r: seq<Char>, s: seq<Char>)
    requires Digits(r) && Digits(s) && |r| < |s| && s[0] != ZERO
    ensures Value(r) < Value(s)
  {
    ValueMore(s);
    ValueBound(r);
    PowMonotone(|r|, |s| - 1);
    Scale(s[0] - ZERO, 10, Pow10(|s| - 1));
  }

  lemma {:induction false} PowMonotone(m: nat, n: nat)
    requires m <= n
    ensures Pow10(m) <= Pow10(n)
  {
    if m < n {
      PowMonotone(m, n - 1);
    }
  }

  /** Numbers without a leading zero compare by value. */
  lemma NumbersByValue(r: seq<Char>, s: seq<Char>)
    requires Digits(r) && Digits(s) && r[0] != ZERO && s[0] != ZERO
    ensures CompareRuns(r, s) < 0 <==> Value(r) < Value(s)
    ensures CompareRuns(r, s) == 0 <==> Value(r) == Value(s)
  {
    if |r| == |s| {
      EqualLength(r, s);
    } else if |r| < |s| {
      ShorterIsLess(r, s);
    } else {
      ShorterIsLess(s, r);
    }
  }

  /** With a leading zero the runs compare as decimal fractions, and of equal fractions a prefix comes first. */
  lemma FractionsByValue(r: seq<Char>, s: seq<Char>)
    requires forall i :: 0 <= i < |r| ==> IsDigit(r[i])
    requires forall i :: 0 <= i < |s| ==> IsDigit(s[i])
    ensures var x, y := Value(r) * Pow10(|s|), Value(s) * Pow10(|r|);
      Left(r, s) < 0 <==> x < y || (x == y && r < s)
    ensures Left(r, s) == 0 <==> r == s
  {
    LeftSign(r, s);
    if Left(r, s) >= 0 {
      LeftAbove(r, s);
      LeftOfPrefix(r, s);
    } else {
      LeftAbove(s, r);
      if !(r <= s) {
        LeftStrictlyAbove(s, r);
      }
    }
  }

  lemma {:induction false} LeftOfPrefix(r: seq<Char>, s: seq<Char>)
    requires Left(r, s) >= 0
    ensures !(r < s)
    ensures Left(r, s) == 0 ==> r == s
  {
    if r != [] && s != [] && r[0] == s[0] {
      LeftOfPrefix(r[1..], s[1..]);
      assert r == [r[0]] + r[1..] && s == [s[0]] + s[1..];
      PrefixTail(r, s);
    }
  }

  lemma PrefixTail(r: seq<Char>, s: seq<Char>)
    requires r != [] && s != [] && r[0] == s[0]
    ensures r <= s <==> r[1..] <= s[1..]
  {
    assert r == [r[0]] + r[1..] && s == [s[0]] + s[1..];
    assert r[1..] <= s[1..] ==> s == [r[0]] + (r[1..] + s[|r|..]);
  }

  /** Strictly larger, unless the run only goes on where the other one stops. */
  lemma {:induction false} LeftStrictlyAbove(r: seq<Char>, s: seq<Char>)
    requires forall i :: 0 <= i < |r| ==> IsDigit(r[i])
    requires forall i :: 0 <= i < |s| ==> IsDigit(s[i])
    requires Left(r, s) > 0 && !(s <= r)
    ensures Value(r) * Pow10(|s|) > Value(s) * Pow10(|r|)
  {
    hide Value, Pow10;
    var d, e := r[0] - ZERO, s[0] - ZERO;
    var v := Split(r);
    var w := Split(s);
    ValueBound(s[1..]);
    if r[0] == s[0] {
      PrefixTail(s, r);
      LeftStrictlyAbove(r[1..], s[1..]);
      SameDigit(d, v, w);
    } else {
      LargerDigit(d, e, v, w);
    }
  }

  /** The value and the power of a run, and those of its tail. */
  datatype Parts = Parts(value: int, power: int, rest: int, low: int)

  /** `value` is `d` times the lower power of ten and the rest. */
  predicate Leads(p: Parts, d: int) {
    p.low >= 1 && p.rest >= 0 && p.power == 10 * p.low && p.value == d * p.low + p.rest
  }

  lemma Split(r: seq<Char>) returns (p: Parts)
    requires r != [] && forall i :: 0 <= i < |r| ==> IsDigit(r[i])
    ensures Leads(p, r[0] - ZERO)
    ensures p == Parts(Value(r), Pow10(|r|), Value(r[1..]), Pow10(|r[1..]|))
  {
    hide Value;
    ValueMore(r);
    p := Parts(Value(r), Pow10(|r|), Value(r[1..]), Pow10(|r[1..]|));
  }

  lemma SameDigit(d: int, v: Parts, w: Parts)
    requires Leads(v, d) && Leads(w, d)
    ensures v.rest * w.low > w.rest * v.low ==> v.value * w.power > w.value * v.power
    ensures v.rest * w.low >= w.rest * v.low ==> v.value * w.power >= w.value * v.power
  {
    Expanded(d, v, w);
    Expanded(d, w, v);
    assert d * v.low * w.low == d * w.low * v.low;
  }

  lemma Expanded(d: int, v: Parts, w: Parts)
    requires Leads(v, d) && w.power == 10 * w.low
    ensures v.value * w.power == 10 * (d * v.low * w.low) + 10 * (v.rest * w.low)
  {
    assert (d * v.low + v.rest) * (10 * w.low) == (d * v.low) * (10 * w.low) + v.rest * (10 * w.low);
  }

  lemma LargerDigit(d: int, e: int, v: Parts, w: Parts)
    requires d > e && Leads(v, d) && Leads(w, e) && w.rest < w.low
    ensures v.value * w.power > w.value * v.power
  {
    Expanded(d, v, w);
    Expanded(e, w, v);
    Grouped(d, v.low, w.low);
    Grouped(e, w.low, v.low);
    var m, x, y := v.low * w.low, v.rest * w.low, w.rest * v.low;
    assert x >= 0 && y < m by {
      Scale(w.rest, w.low, v.low);
      Scale(0, v.rest + 1, w.low);
      Scale(v.rest, 10, w.low);
    }
    assert d * m >= e * m + m by { Scale(e, d, m); }
    hide Leads;
  }

  lemma Grouped(d: int, a: int, b: int)
    requires a >= 1 && b >= 1
    ensures d * a * b == d * (a * b) && a * b == b * a && a * b >= 1
  {
    Scale(0, a, b);
  }

  /** A run that follows another spells at least as large a fraction. */
  lemma {:induction false} LeftAbove(r: seq<Char>, s: seq<Char>)
    requires forall i :: 0 <= i < |r| ==> IsDigit(r[i])
    requires forall i :: 0 <= i < |s| ==> IsDigit(s[i])
    requires Left(r, s) >= 0
    ensures Value(r) * Pow10(|s|) >= Value(s) * Pow10(|r|)
  {
    if s == [] {
      ValueNothing();
    } else {
      hide Value, Pow10;
      var d, e := r[0] - ZERO, s[0] - ZERO;
      var v := Split(r);
      var w := Split(s);
      ValueBound(s[1..]);
      if r[0] == s[0] {
        LeftAbove(r[1..], s[1..]);
        SameDigit(d, v, w);
      } else {
        LargerDigit(d, e, v, w);
      }
    }
  }
}
