/**
 Base32 and base32hex, sections 6 and 7 of RFC 4648: `apr_encode_base32_binary`
 and `apr_decode_base32_binary`. Shifts, masks and the or of disjoint bits are
 written as multiplication, division, remainder and sum.
 */
module Base32 {
  import opened Basics
  import opened Octets

  type Five = v: nat | v < 32

  /** `base32` and `base32hex` */
  function Letter(v: Five, hex: bool): Byte {
    if hex then (if v < 10 then 48 + v else 65 + (v - 10))
    else if v < 26 then 65 + v
    else 50 + (v - 26)
  }

  function Alphabet(hex: bool): (base: seq<Byte>)
    ensures |base| == 32
  {
    seq(32, v requires 0 <= v < 32 => Letter(v, hex))
  }

  /** `pr2five` and `pr2fivehex` */
  function Value(c: Byte, hex: bool): nat {
    if c == PAD then 128
    else if hex then
      if 48 <= c <= 57 then c - 48
      else if 65 <= c <= 86 then c - 65 + 10
      else 32
    else
      if 65 <= c <= 90 then c - 65
      else if 50 <= c <= 55 then c - 50 + 26
      else 32
  }

  function Fives(hex: bool): Table {
    Table(c => Value(c, hex), 32, false)
  }

  // ---------- what encoding and decoding mean ----------

  /** The 40-bit number of five octets, and of eight groups of five bits. */
  function Number5(bs: seq<nat>): nat requires |bs| == 5 {
    bs[0] * 0x1_0000_0000 + bs[1] * 0x100_0000 + bs[2] * 0x1_0000 + bs[3] * 0x100 + bs[4]
  }

  function Number8(vs: seq<nat>): nat requires |vs| == 8 {
    vs[0] * 0x8_0000_0000 + vs[1] * 0x4000_0000 + vs[2] * 0x200_0000 + vs[3] * 0x10_0000
    + vs[4] * 0x8000 + vs[5] * 0x400 + vs[6] * 0x20 + vs[7]
  }

  /** Five octets as eight groups of five bits. */
  function Eight(a: Byte, b: Byte, c: Byte, d: Byte, e: Byte): (q: seq<Five>)
    ensures |q| == 8
    ensures q[0] == a / 8 && q[1] == a % 8 * 4 + b / 64 && q[2] == b / 2 % 32 && q[3] == b % 2 * 16 + c / 16
    ensures q[4] == c % 16 * 2 + d / 128 && q[5] == d / 4 % 32 && q[6] == d % 4 * 8 + e / 32 && q[7] == e % 32
  {
    [a / 8, a % 8 * 4 + b / 64, b / 2 % 32, b % 2 * 16 + c / 16,
     c % 16 * 2 + d / 128, d / 4 % 32, d % 4 * 8 + e / 32, e % 32]
  }

  // The octets that groups spell: each is the one that consists of the given bit fields.

  predicate Fields0(o: Byte, v: Five, w: Five) { o / 8 == v && o % 8 == w / 4 }

  predicate Fields1(o: Byte, v: Five, w: Five, x: Five) { o / 64 == v % 4 && o / 2 % 32 == w && o % 2 == x / 16 }

  predicate Fields2(o: Byte, v: Five, w: Five) { o / 16 == v % 16 && o % 16 == w / 2 }

  predicate Fields3(o: Byte, v: Five, w: Five, x: Five) { o / 128 == v % 2 && o / 4 % 32 == w && o % 4 == x / 8 }

  predicate Fields4(o: Byte, v: Five, w: Five) { o / 32 == v % 8 && o % 32 == w }

  ghost function Oct0(v: Five, w: Five): (o: Byte)
    ensures Fields0(o, v, w)
  {
    Shifted0(v, w);
    var o: Byte :| Fields0(o, v, w);
    o
  }

  ghost function Oct1(v: Five, w: Five, x: Five): (o: Byte)
    ensures Fields1(o, v, w, x)
  {
    Shifted1(v, w, x);
    var o: Byte :| Fields1(o, v, w, x);
    o
  }

  ghost function Oct2(v: Five, w: Five): (o: Byte)
    ensures Fields2(o, v, w)
  {
    Shifted2(v, w);
    var o: Byte :| Fields2(o, v, w);
    o
  }

  ghost function Oct3(v: Five, w: Five, x: Five): (o: Byte)
    ensures Fields3(o, v, w, x)
  {
    Shifted3(v, w, x);
    var o: Byte :| Fields3(o, v, w, x);
    o
  }

  ghost function Oct4(v: Five, w: Five): (o: Byte)
    ensures Fields4(o, v, w)
  {
    Shifted4(v, w);
    var o: Byte :| Fields4(o, v, w);
    o
  }

  // The decoder computes them: shifted, combined and cut off after eight bits.

  lemma Shifted0(v: Five, w: Five)
    ensures Fields0((v as nat * 8 + w / 4) % 256, v, w)
  {
    Pack(v, w / 4, 8);
  }

  lemma Shifted1(v: Five, w: Five, x: Five)
    ensures Fields1((v as nat * 64 + w as nat * 2 + x / 16) % 256, v, w, x)
  {
    Truncated(v / 4, v % 4 * 64 + w * 2 + x / 16);
    Pack(v % 4 * 32 + w, x / 16, 2);
    Pack(v % 4, w, 32);
  }

  lemma Shifted2(v: Five, w: Five)
    ensures Fields2((v as nat * 16 + w / 2) % 256, v, w)
  {
    Truncated(v / 16, v % 16 * 16 + w / 2);
    Pack(v % 16, w / 2, 16);
  }

  lemma Shifted3(v: Five, w: Five, x: Five)
    ensures Fields3((v as nat * 128 + w as nat * 4 + x / 8) % 256, v, w, x)
  {
    Truncated(v / 2, v % 2 * 128 + w * 4 + x / 8);
    Pack(v % 2 * 32 + w, x / 8, 4);
    Pack(v % 2, w, 32);
  }

  lemma Shifted4(v: Five, w: Five)
    ensures Fields4((v as nat * 32 + w) % 256, v, w)
  {
    Truncated(v / 8, v % 8 * 32 + w);
    Pack(v % 8, w, 32);
  }

  lemma SplitOdd(b: Byte)
    ensures b == b / 64 * 64 + b / 2 % 32 * 2 + b % 2
  {
    assert b / 2 / 32 == b / 64;
  }

  lemma SplitFour(d: Byte)
    ensures d == d / 128 * 128 + d / 4 % 32 * 4 + d % 4
  {
    assert d / 4 / 32 == d / 128;
  }

  // No other octet has these fields.

  lemma Only0(o: Byte, v: Five, w: Five)
    requires Fields0(o, v, w)
    ensures o == Oct0(v, w)
  {
  }

  lemma Only1(o: Byte, v: Five, w: Five, x: Five)
    requires Fields1(o, v, w, x)
    ensures o == Oct1(v, w, x)
  {
    SplitOdd(o);
    SplitOdd(Oct1(v, w, x));
  }

  lemma Only2(o: Byte, v: Five, w: Five)
    requires Fields2(o, v, w)
    ensures o == Oct2(v, w)
  {
  }

  lemma Only3(o: Byte, v: Five, w: Five, x: Five)
    requires Fields3(o, v, w, x)
    ensures o == Oct3(v, w, x)
  {
    SplitFour(o);
    SplitFour(Oct3(v, w, x));
  }

  lemma Only4(o: Byte, v: Five, w: Five)
    requires Fields4(o, v, w)
    ensures o == Oct4(v, w)
  {
  }

  /** Eight groups of five bits as five octets. */
  ghost function Quintet(vs: seq<Five>): (t: seq<Byte>)
    requires |vs| == 8
    ensures |t| == 5 && t[0] == Oct0(vs[0], vs[1]) && t[1] == Oct1(vs[1], vs[2], vs[3]) && t[2] == Oct2(vs[3], vs[4])
    ensures t[3] == Oct3(vs[4], vs[5], vs[6]) && t[4] == Oct4(vs[6], vs[7])
  {
    [Oct0(vs[0], vs[1]), Oct1(vs[1], vs[2], vs[3]), Oct2(vs[3], vs[4]), Oct3(vs[4], vs[5], vs[6]), Oct4(vs[6], vs[7])]
  }

  lemma SameNumber(a: Byte, b: Byte, c: Byte, d: Byte, e: Byte)
    ensures Number8(Eight(a, b, c, d, e)) == Number5([a, b, c, d, e])
  {
    SplitOdd(b);
    SplitFour(d);
    assert a == a / 8 * 8 + a % 8 && c == c / 16 * 16 + c % 16 && e == e / 32 * 32 + e % 32;
  }

  lemma EightBack(a: Byte, b: Byte, c: Byte, d: Byte, e: Byte)
    ensures Quintet(Eight(a, b, c, d, e)) == [a, b, c, d, e]
  {
    var q := Eight(a, b, c, d, e);
    hide Oct0, Oct1, Oct2, Oct3, Oct4;
    Pack(a % 8, b / 64, 4);
    Pack(b % 2, c / 16, 16);
    Pack(c % 16, d / 128, 2);
    Pack(d % 4, e / 32, 8);
    Only0(a, q[0], q[1]);
    Only1(b, q[1], q[2], q[3]);
    Only2(c, q[3], q[4]);
    Only3(d, q[4], q[5], q[6]);
    Only4(e, q[6], q[7]);
  }

  lemma QuintetBack(vs: seq<Five>)
    requires |vs| == 8
    ensures var t := Quintet(vs); Eight(t[0], t[1], t[2], t[3], t[4]) == vs
  {
    var t := Quintet(vs);
    var q := Eight(t[0], t[1], t[2], t[3], t[4]);
    hide Oct0, Oct1, Oct2, Oct3, Oct4;
    assert q[0] == vs[0] && q[1] == vs[1];
    assert q[2] == vs[2] && q[3] == vs[3];
    assert q[4] == vs[4] && q[5] == vs[5];
    assert q[6] == vs[6] && q[7] == vs[7];
  }

  /** Octet `k` of `src`, zero bits where there is none. */
  function OrZero(src: seq<Byte>, k: nat): Byte {
    if k < |src| then src[k] else 0
  }

  /** How many groups hold up to five octets. */
  function PartLength(n: nat): (m: nat)
    requires n <= 5
    ensures m <= 8
  {
    match n
    case 0 => 0
    case 1 => 2
    case 2 => 4
    case 3 => 5
    case 4 => 7
    case _ => 8
  }

  /** How many octets up to eight groups complete. */
  function WholeLength(m: nat): (n: nat)
    requires m <= 8
    ensures n <= 5
  {
    if m < 2 then 0 else if m < 4 then 1 else if m < 5 then 2 else if m < 7 then 3 else if m < 8 then 4 else 5
  }

  /** The groups of up to five octets, filled up with zero bits. */
  function Part(src: seq<Byte>): (q: seq<Five>)
    requires |src| <= 5
    ensures |q| == PartLength(|src|)
  {
    Eight(OrZero(src, 0), OrZero(src, 1), OrZero(src, 2), OrZero(src, 3), OrZero(src, 4))[..PartLength(|src|)]
  }

  /** The five-bit groups of the source. */
  function Groups(src: seq<Byte>): seq<Five> {
    if |src| < 5 then Part(src) else Part(src[..5]) + Groups(src[5..])
  }

  function Filled(vs: seq<Five>): (q: seq<Five>)
    requires |vs| <= 8
    ensures |q| == 8 && forall k :: 0 <= k < 8 ==> q[k] == if k < |vs| then vs[k] else 0
    decreases 8 - |vs|
  {
    if |vs| == 8 then vs else Filled(vs + [0])
  }

  /** The octets that up to eight groups spell, left-over bits dropped. */
  ghost function Whole(vs: seq<Five>): (bs: seq<Byte>)
    requires |vs| <= 8
    ensures |bs| == WholeLength(|vs|)
  {
    Quintet(Filled(vs))[..WholeLength(|vs|)]
  }

  /** The octets that five-bit groups spell. */
  ghost function Bytes(vs: seq<Five>): seq<Byte> {
    if |vs| < 8 then Whole(vs) else Whole(vs[..8]) + Bytes(vs[8..])
  }

  lemma {:induction false} GroupsLength(src: seq<Byte>)
    ensures |Groups(src)| == (8 * |src| + 4) / 5
  {
    hide Part;
    if |src| >= 5 {
      GroupsLength(src[5..]);
    }
  }

  lemma {:induction false} BytesLength(vs: seq<Five>)
    ensures |Bytes(vs)| == 5 * |vs| / 8
  {
    hide Whole;
    if |vs| >= 8 {
      BytesLength(vs[8..]);
      assert 5 * |vs| == 5 * 8 + 5 * |vs[8..]|;
    }
  }

  /** Where there are no octets the groups are zero. */
  lemma NoGroups(src: seq<Byte>)
    requires |src| <= 5
    ensures var q := Eight(OrZero(src, 0), OrZero(src, 1), OrZero(src, 2), OrZero(src, 3), OrZero(src, 4));
      forall k :: PartLength(|src|) <= k < 8 ==> q[k] == 0
  {
    hide Eight;
    if |src| == 0 {
    } else if |src| == 1 {
    } else if |src| == 2 {
    } else if |src| == 3 {
    } else if |src| == 4 {
    }
  }

  lemma FilledPart(src: seq<Byte>)
    requires |src| <= 5
    ensures Filled(Part(src))
      == Eight(OrZero(src, 0), OrZero(src, 1), OrZero(src, 2), OrZero(src, 3), OrZero(src, 4))
  {
    NoGroups(src);
    hide Eight, PartLength, OrZero;
  }

  lemma WholeOfPart(src: seq<Byte>)
    requires |src| <= 5
    ensures Whole(Part(src)) == src
  {
    FilledPart(src);
    EightBack(OrZero(src, 0), OrZero(src, 1), OrZero(src, 2), OrZero(src, 3), OrZero(src, 4));
    assert WholeLength(PartLength(|src|)) == |src|;
    hide Part, Filled, Quintet, PartLength, WholeLength, Eight;
  }

  lemma GroupsMore(src: seq<Byte>)
    requires |src| > 4
    ensures Groups(src) == Part(src[..5]) + Groups(src[5..])
  {
  }

  lemma BytesMore(vs: seq<Five>)
    requires |vs| > 7
    ensures Bytes(vs) == Whole(vs[..8]) + Bytes(vs[8..])
  {
  }

  lemma {:induction false} BytesOfGroups(src: seq<Byte>)
    ensures Bytes(Groups(src)) == src
  {
    if |src| < 5 {
      hide Part, Whole;
      WholeOfPart(src);
    } else {
      hide *;
      WholeOfPart(src[..5]);
      BytesOfGroups(src[5..]);
      GroupsMore(src);
      PartOfFullLength(src[..5]);
      var vs := Groups(src);
      assert vs[..8] == Part(src[..5]) && vs[8..] == Groups(src[5..]);
      BytesMore(vs);
    }
  }

  lemma PartOfFullLength(src: seq<Byte>)
    requires |src| == 5
    ensures |Part(src)| == 8 && Part(src) == Eight(src[0], src[1], src[2], src[3], src[4])
  {
  }

  /** The lengths of encodings: their last group completes an octet. */
  predicate Proper(n: nat) {
    n % 8 != 1 && n % 8 != 3 && n % 8 != 6
  }

  /** The bits of the last of `n` groups that belong to no whole octet. */
  function Stray(v: Five, n: nat): (s: nat)
    ensures s <= v
  {
    match n % 8
    case 2 => v % 4
    case 4 => v % 16
    case 5 => v % 2
    case 7 => v % 8
    case _ => 0
  }

  /** Whole octets and no stray bits behind the last one, section 3.5 of RFC 4648. */
  predicate Canonical(vs: seq<Five>) {
    vs != [] ==> Proper(|vs|) && Stray(vs[|vs| - 1], |vs|) == 0
  }

  /** What is left of the groups when only the first octets of a block are kept. */
  lemma ShortBlocks(f: seq<Five>)
    requires |f| == 8
    ensures var t := Quintet(f); var q := Eight(t[0], 0, 0, 0, 0);
      q[0] == f[0] && q[1] == f[1] - f[1] % 4
    ensures var t := Quintet(f); var q := Eight(t[0], t[1], 0, 0, 0);
      q[0] == f[0] && q[1] == f[1] && q[2] == f[2] && q[3] == f[3] - f[3] % 16
    ensures var t := Quintet(f); var q := Eight(t[0], t[1], t[2], 0, 0);
      q[0] == f[0] && q[1] == f[1] && q[2] == f[2] && q[3] == f[3] && q[4] == f[4] - f[4] % 2
    ensures var t := Quintet(f); var q := Eight(t[0], t[1], t[2], t[3], 0);
      q[0] == f[0] && q[1] == f[1] && q[2] == f[2] && q[3] == f[3] && q[4] == f[4] && q[5] == f[5]
      && q[6] == f[6] - f[6] % 8
  {
    hide Quintet, Eight;
    hide Oct0, Oct1, Oct2, Oct3, Oct4;
  }

  lemma PartOfEight(vs: seq<Five>)
    requires |vs| == 8
    ensures Part(Whole(vs)) == vs
  {
    hide Quintet;
    QuintetBack(vs);
    assert Filled(vs) == vs;
  }

  /** The octets that are kept, and zeros for the others. */
  lemma KeptOctets(vs: seq<Five>, k: nat)
    requires |vs| <= 8 && k < 5
    ensures OrZero(Whole(vs), k) == if k < WholeLength(|vs|) then Quintet(Filled(vs))[k] else 0
  {
    hide Quintet, Filled;
  }

  lemma PartOfShort(vs: seq<Five>)
    requires |vs| == 2 || |vs| == 4 || |vs| == 5 || |vs| == 7
    ensures |Part(Whole(vs))| == |vs|
    ensures Part(Whole(vs)) == vs[..|vs| - 1] + [vs[|vs| - 1] - Stray(vs[|vs| - 1], |vs|)]
  {
    hide Part, Whole, Stray;
    forall k | 0 <= k < |vs|
      ensures |Part(Whole(vs))| == |vs| && Part(Whole(vs))[k] == vs[k] - (if k == |vs| - 1 then Stray(vs[k], |vs|) else 0)
    {
      PartOfShortAt(vs, k);
    }
    assert |Part(Whole(vs))| == |vs| by { PartOfShortAt(vs, 0); }
  }

  lemma PartOfShortAt(vs: seq<Five>, k: nat)
    requires (|vs| == 2 || |vs| == 4 || |vs| == 5 || |vs| == 7) && k < |vs|
    ensures |Part(Whole(vs))| == |vs|
    ensures Part(Whole(vs))[k] == vs[k] - (if k == |vs| - 1 then Stray(vs[k], |vs|) else 0)
  {
    ShortBlocks(Filled(vs));
    KeptOctets(vs, 0);
    KeptOctets(vs, 1);
    KeptOctets(vs, 2);
    KeptOctets(vs, 3);
    KeptOctets(vs, 4);
    hide Quintet, Eight, Filled, Whole, OrZero;
  }

  lemma PartOfWhole(vs: seq<Five>)
    requires 0 < |vs| <= 8
    ensures |Part(Whole(vs))| == |vs| <==> Proper(|vs|)
    ensures Proper(|vs|) ==> Part(Whole(vs)) == vs[..|vs| - 1] + [vs[|vs| - 1] - Stray(vs[|vs| - 1], |vs|)]
  {
    hide Part, Whole;
    if |vs| == 8 {
      PartOfEight(vs);
    } else if Proper(|vs|) {
      PartOfShort(vs);
    }
  }

  lemma WholeOfFullLength(vs: seq<Five>)
    requires |vs| == 8
    ensures |Whole(vs)| == 5 && Whole(vs) == Quintet(vs)
  {
    hide Quintet;
    assert Filled(vs) == vs;
  }

  lemma GroupsStep(vs: seq<Five>)
    requires |vs| > 8
    ensures Groups(Bytes(vs)) == vs[..8] + Groups(Bytes(vs[8..]))
  {
    hide *;
    PartOfEight(vs[..8]);
    BytesMore(vs);
    WholeOfFullLength(vs[..8]);
    var bs := Bytes(vs);
    assert bs[..5] == Whole(vs[..8]) && bs[5..] == Bytes(vs[8..]);
    GroupsMore(bs);
  }

  lemma GroupsOfPart(vs: seq<Five>)
    requires |vs| <= 8
    ensures Groups(Bytes(vs)) == Part(Whole(vs))
  {
    hide Part, Whole;
    if |vs| == 8 {
      var bs := Bytes(vs);
      assert vs[..8] == vs;
      assert bs == Whole(vs) + Bytes([]);
      assert bs[..5] == bs;
      assert Groups(bs) == Part(bs) + Groups([]);
    }
  }

  lemma CanonicalStep(vs: seq<Five>)
    requires |vs| > 8
    ensures Canonical(vs[8..]) <==> Canonical(vs)
  {
    assert |vs[8..]| % 8 == |vs| % 8;
  }

  lemma SameButLast(vs: seq<Five>, last: Five)
    requires vs != []
    ensures vs[..|vs| - 1] + [last] == vs <==> last == vs[|vs| - 1]
  {
    var other := vs[..|vs| - 1] + [last];
    assert other[|vs| - 1] == last;
    assert last == vs[|vs| - 1] ==> other == vs;
  }

  lemma GroupsOfShort(vs: seq<Five>)
    requires 0 < |vs| <= 8
    ensures Groups(Bytes(vs)) == vs <==> Canonical(vs)
  {
    hide Groups, Bytes, Part, Whole, Stray, Proper;
    GroupsOfPart(vs);
    PartOfWhole(vs);
    var last := vs[|vs| - 1];
    SameButLast(vs, last - Stray(last, |vs|));
  }

  /** The other way round: groups come back exactly when they are what an encoder writes. */
  lemma {:induction false} GroupsOfBytes(vs: seq<Five>)
    ensures Groups(Bytes(vs)) == vs <==> Canonical(vs)
  {
    if |vs| > 8 {
      hide *;
      GroupsOfBytes(vs[8..]);
      GroupsStep(vs);
      CanonicalStep(vs);
      var rest := Groups(Bytes(vs[8..]));
      assert (vs[..8] + rest)[8..] == rest;
      assert vs == vs[..8] + vs[8..];
    } else if vs != [] {
      GroupsOfShort(vs);
    }
  }

  /** How many padding characters fill the last group of eight. */
  function Padding(n: nat): nat {
    match n % 5
    case 0 => 0
    case 1 => 6
    case 2 => 4
    case 3 => 3
    case _ => 1
  }

  /** The encoding of `src`, without the closing NUL. */
  function Encoded(src: seq<Byte>, hex: bool, nopad: bool): seq<Byte> {
    Text(Groups(src), Alphabet(hex)) + (if nopad then [] else Repeat(PAD, Padding(|src|)))
  }

  function Quintets(text: seq<Byte>, hex: bool): (vs: seq<Five>)
    requires AllDigits(text, Fives(hex))
    ensures vs == Digits(text, Fives(hex))
  {
    Digits(text, Fives(hex))
  }

  ghost function Decoded(text: seq<Byte>, hex: bool): seq<Byte> {
    Bytes(Quintets(text[..Lead(text, Fives(hex))], hex))
  }

  predicate Accepted(src: seq<Byte>, slen: nat, hex: bool, relaxed: bool)
    requires slen < |src|
  {
    Proper(Lead(src[..slen], Fives(hex))) && (relaxed || Clean(src, slen, Fives(hex)))
  }

  // ---------- the encoder ----------

  lemma EncodedStep(src: seq<Byte>, hex: bool, nopad: bool)
    requires |src| > 4
    ensures Encoded(src, hex, nopad)
      == Text(Eight(src[0], src[1], src[2], src[3], src[4]), Alphabet(hex)) + Encoded(src[5..], hex, nopad)
  {
    hide Eight, Text, Repeat, Groups, Padding, Alphabet, Part;
    GroupsMore(src);
    PartOfFullLength(src[..5]);
    assert Padding(|src|) == Padding(|src[5..]|) by { SamePadding(|src|); }
    TextAppend(Part(src[..5]), Groups(src[5..]), Alphabet(hex));
  }

  lemma SamePadding(n: nat)
    requires n > 4
    ensures Padding(n) == Padding(n - 5)
  {
  }

  /** One round of the main loop. */
  method PutEight(dest: array<Byte>, at: nat, a: Byte, b: Byte, c: Byte, d: Byte, e: Byte,
                  base: seq<Byte>, ghost whole: seq<Byte>)
    returns (p: nat)
    requires |base| == 32 && at + 8 <= |whole| && Written(dest, at, whole)
    requires whole[at..at + 8] == Text(Eight(a, b, c, d, e), base)
    modifies dest
    ensures p == at + 8 && Written(dest, p, whole)
  {
    hide Text, Eight, Written;
    ghost var text := whole[at..at + 8];
    assert forall k :: 0 <= k < 8 ==> whole[at + k] == text[k];
    p := Put(dest, at, base[a / 8], whole);
    p := Put(dest, p, base[a % 8 * 4 + b / 64], whole);
    p := Put(dest, p, base[b / 2 % 32], whole);
    p := Put(dest, p, base[b % 2 * 16 + c / 16], whole);
    p := Put(dest, p, base[c % 16 * 2 + d / 128], whole);
    p := Put(dest, p, base[d / 4 % 32], whole);
    p := Put(dest, p, base[d % 4 * 8 + e / 32], whole);
    p := Put(dest, p, base[e % 32], whole);
  }

  /** What the text for fewer than five octets consists of: the groups' letters and the padding. */
  ghost predicate Tail(t: seq<Byte>, rest: seq<Byte>, base: seq<Byte>, nopad: bool)
    requires |rest| < 5 && |base| == 32
  {
    var n := PartLength(|rest|);
    var q := Eight(OrZero(rest, 0), OrZero(rest, 1), OrZero(rest, 2), OrZero(rest, 3), OrZero(rest, 4));
    && |t| == (if rest == [] then 0 else if nopad then n else 8)
    && (forall k :: 0 <= k < n ==> t[k] == base[q[k]])
    && (forall k :: n <= k < |t| ==> t[k] == PAD)
  }

  lemma TailAt(whole: seq<Byte>, at: nat, rest: seq<Byte>, base: seq<Byte>, nopad: bool)
    requires |rest| < 5 && |base| == 32 && at <= |whole| && Tail(whole[at..], rest, base, nopad)
    ensures
      var n := PartLength(|rest|);
      var q := Eight(OrZero(rest, 0), OrZero(rest, 1), OrZero(rest, 2), OrZero(rest, 3), OrZero(rest, 4));
      && |whole| == at + (if rest == [] then 0 else if nopad then n else 8)
      && (forall k :: at <= k < at + n ==> whole[k] == base[q[k - at]])
      && (forall k :: at + n <= k < |whole| ==> whole[k] == PAD)
  {
    hide Eight;
    assert forall k :: at <= k < |whole| ==> whole[k] == whole[at..][k - at];
  }

  lemma RestEncoded(rest: seq<Byte>, hex: bool, nopad: bool)
    requires |rest| < 5
    ensures Tail(Encoded(rest, hex, nopad), rest, Alphabet(hex), nopad)
  {
    hide Eight, Text, Repeat, Alphabet;
    assert Groups(rest) == Part(rest);
  }

  // The four tails: what one to four octets behind the last whole block need besides their first letter.

  method PutLastOne(dest: array<Byte>, at: nat, src: seq<Byte>, i: nat, base: seq<Byte>, nopad: bool, ghost whole: seq<Byte>)
    returns (p: nat)
    requires |base| == 32 && i + 1 == |src| && at < |whole| && Written(dest, at + 1, whole)
    requires Tail(whole[at..], src[i..], base, nopad)
    modifies dest
    ensures p == |whole| && Written(dest, p, whole)
  {
    hide Eight, Written, Tail;
    TailAt(whole, at, src[i..], base, nopad);
    p := at + 1;
    p := Put(dest, p, base[src[i] % 8 * 4], whole);
    if !nopad {
      p := Put(dest, p, PAD, whole);
      p := Put(dest, p, PAD, whole);
      p := Put(dest, p, PAD, whole);
      p := Put(dest, p, PAD, whole);
      p := Put(dest, p, PAD, whole);
      p := Put(dest, p, PAD, whole);
    }
  }

  method PutLastTwo(dest: array<Byte>, at: nat, src: seq<Byte>, i: nat, base: seq<Byte>, nopad: bool, ghost whole: seq<Byte>)
    returns (p: nat)
    requires |base| == 32 && i + 2 == |src| && at < |whole| && Written(dest, at + 1, whole)
    requires Tail(whole[at..], src[i..], base, nopad)
    modifies dest
    ensures p == |whole| && Written(dest, p, whole)
  {
    hide Eight, Written, Tail;
    TailAt(whole, at, src[i..], base, nopad);
    p := at + 1;
    p := Put(dest, p, base[src[i] % 8 * 4 + src[i + 1] / 64], whole);
    p := Put(dest, p, base[src[i + 1] / 2 % 32], whole);
    p := Put(dest, p, base[src[i + 1] % 2 * 16], whole);
    if !nopad {
      p := Put(dest, p, PAD, whole);
      p := Put(dest, p, PAD, whole);
      p := Put(dest, p, PAD, whole);
      p := Put(dest, p, PAD, whole);
    }
  }

  method PutLastThree(dest: array<Byte>, at: nat, src: seq<Byte>, i: nat, base: seq<Byte>, nopad: bool, ghost whole: seq<Byte>)
    returns (p: nat)
    requires |base| == 32 && i + 3 == |src| && at < |whole| && Written(dest, at + 1, whole)
    requires Tail(whole[at..], src[i..], base, nopad)
    modifies dest
    ensures p == |whole| && Written(dest, p, whole)
  {
    hide Eight, Written, Tail;
    TailAt(whole, at, src[i..], base, nopad);
    p := at + 1;
    p := Put(dest, p, base[src[i] % 8 * 4 + src[i + 1] / 64], whole);
    p := Put(dest, p, base[src[i + 1] / 2 % 32], whole);
    p := Put(dest, p, base[src[i + 1] % 2 * 16 + src[i + 2] / 16], whole);
    p := Put(dest, p, base[src[i + 2] % 16 * 2], whole);
    if !nopad {
      p := Put(dest, p, PAD, whole);
      p := Put(dest, p, PAD, whole);
      p := Put(dest, p, PAD, whole);
    }
  }

  method PutLastFour(dest: array<Byte>, at: nat, src: seq<Byte>, i: nat, base: seq<Byte>, nopad: bool, ghost whole: seq<Byte>)
    returns (p: nat)
    requires |base| == 32 && i + 4 == |src| && at < |whole| && Written(dest, at + 1, whole)
    requires Tail(whole[at..], src[i..], base, nopad)
    modifies dest
    ensures p == |whole| && Written(dest, p, whole)
  {
    hide Eight, Written, Tail;
    TailAt(whole, at, src[i..], base, nopad);
    p := at + 1;
    p := Put(dest, p, base[src[i] % 8 * 4 + src[i + 1] / 64], whole);
    p := Put(dest, p, base[src[i + 1] / 2 % 32], whole);
    p := Put(dest, p, base[src[i + 1] % 2 * 16 + src[i + 2] / 16], whole);
    p := Put(dest, p, base[src[i + 2] % 16 * 2 + src[i + 3] / 128], whole);
    p := Put(dest, p, base[src[i + 3] / 4 % 32], whole);
    p := Put(dest, p, base[src[i + 3] % 4 * 8], whole);
    if !nopad {
      p := Put(dest, p, PAD, whole);
    }
  }

  /** What follows the main loop. */
  method PutRest(dest: array<Byte>, at: nat, src: seq<Byte>, i: nat, hex: bool, nopad: bool, ghost whole: seq<Byte>)
    returns (p: nat)
    requires i <= |src| < i + 5 && at <= |whole| && Written(dest, at, whole)
    requires whole[at..] == Encoded(src[i..], hex, nopad)
    modifies dest
    ensures p == |whole| && Written(dest, p, whole)
  {
    RestEncoded(src[i..], hex, nopad);
    var base := Alphabet(hex);
    TailAt(whole, at, src[i..], base, nopad);
    hide Encoded, Alphabet, Written, Tail, Eight;
    p := at;
    if i < |src| {
      p := Put(dest, p, base[src[i] / 8], whole);
      if i == |src| - 1 {
        p := PutLastOne(dest, at, src, i, base, nopad, whole);
      } else if i == |src| - 2 {
        p := PutLastTwo(dest, at, src, i, base, nopad, whole);
      } else if i == |src| - 3 {
        p := PutLastThree(dest, at, src, i, base, nopad, whole);
      } else {
        p := PutLastFour(dest, at, src, i, base, nopad, whole);
      }
    }
  }

  /** `apr_encode_base32_binary` with a destination. */
  method Encode(dest: array<Byte>, src: seq<Byte>, hex: bool, nopad: bool) returns (len: nat)
    requires dest.Length > |Encoded(src, hex, nopad)|
    modifies dest
    ensures len < dest.Length && dest[..len] == Encoded(src, hex, nopad) && dest[len] == 0
  {
    hide Encoded, Alphabet, Text;
    ghost var whole := Encoded(src, hex, nopad);
    var i, p, base := 0, 0, Alphabet(hex);
    while i < |src| - 4
      invariant 0 <= i <= |src| && p <= |whole|
      invariant Written(dest, p, whole) && whole[p..] == Encoded(src[i..], hex, nopad)
    {
      EncodedStep(src[i..], hex, nopad);
      assert src[i..][5..] == src[i + 5..] && whole[p..][..8] == whole[p..p + 8] && whole[p..][8..] == whole[p + 8..];
      p := PutEight(dest, p, src[i], src[i + 1], src[i + 2], src[i + 3], src[i + 4], base, whole);
      i := i + 5;
    }
    p := PutRest(dest, p, src, i, hex, nopad, whole);
    len := p;
    dest[p] := 0;
  }

  // ---------- the decoder ----------

  /** The octets that the characters from `i` on spell. */
  ghost function Spelled(text: seq<Byte>, i: nat, hex: bool): seq<Byte>
    requires AllDigits(text, Fives(hex)) && i <= |text|
  {
    Bytes(Quintets(text[i..], hex))
  }

  /** The group that character `k` stands for. */
  function Group(text: seq<Byte>, k: nat, hex: bool): (v: Five)
    requires AllDigits(text, Fives(hex)) && k < |text|
  {
    Fives(hex).value(text[k])
  }

  // `*bufout++` for each of the five octets.

  method PutOct0(dest: array<Byte>, at: nat, v: Five, w: Five, ghost whole: seq<Byte>) returns (p: nat)
    requires Written(dest, at, whole) && at < |whole| && whole[at] == Oct0(v, w)
    modifies dest
    ensures p == at + 1 && Written(dest, p, whole)
  {
    Shifted0(v, w);
    Only0((v as nat * 8 + w / 4) % 256, v, w);
    p := Put(dest, at, (v as nat * 8 + w / 4) % 256, whole);
  }

  method PutOct1(dest: array<Byte>, at: nat, v: Five, w: Five, x: Five, ghost whole: seq<Byte>) returns (p: nat)
    requires Written(dest, at, whole) && at < |whole| && whole[at] == Oct1(v, w, x)
    modifies dest
    ensures p == at + 1 && Written(dest, p, whole)
  {
    Shifted1(v, w, x);
    Only1((v as nat * 64 + w as nat * 2 + x / 16) % 256, v, w, x);
    p := Put(dest, at, (v as nat * 64 + w as nat * 2 + x / 16) % 256, whole);
  }

  method PutOct2(dest: array<Byte>, at: nat, v: Five, w: Five, ghost whole: seq<Byte>) returns (p: nat)
    requires Written(dest, at, whole) && at < |whole| && whole[at] == Oct2(v, w)
    modifies dest
    ensures p == at + 1 && Written(dest, p, whole)
  {
    Shifted2(v, w);
    Only2((v as nat * 16 + w / 2) % 256, v, w);
    p := Put(dest, at, (v as nat * 16 + w / 2) % 256, whole);
  }

  method PutOct3(dest: array<Byte>, at: nat, v: Five, w: Five, x: Five, ghost whole: seq<Byte>) returns (p: nat)
    requires Written(dest, at, whole) && at < |whole| && whole[at] == Oct3(v, w, x)
    modifies dest
    ensures p == at + 1 && Written(dest, p, whole)
  {
    Shifted3(v, w, x);
    Only3((v as nat * 128 + w as nat * 4 + x / 8) % 256, v, w, x);
    p := Put(dest, at, (v as nat * 128 + w as nat * 4 + x / 8) % 256, whole);
  }

  method PutOct4(dest: array<Byte>, at: nat, v: Five, w: Five, ghost whole: seq<Byte>) returns (p: nat)
    requires Written(dest, at, whole) && at < |whole| && whole[at] == Oct4(v, w)
    modifies dest
    ensures p == at + 1 && Written(dest, p, whole)
  {
    Shifted4(v, w);
    Only4((v as nat * 32 + w) % 256, v, w);
    p := Put(dest, at, (v as nat * 32 + w) % 256, whole);
  }

  lemma SpelledStep(text: seq<Byte>, i: nat, hex: bool)
    requires AllDigits(text, Fives(hex)) && i + 7 < |text|
    ensures var t := Spelled(text, i, hex);
      && |t| >= 5 && t[5..] == Spelled(text, i + 8, hex)
      && t[0] == Oct0(Group(text, i, hex), Group(text, i + 1, hex))
      && t[1] == Oct1(Group(text, i + 1, hex), Group(text, i + 2, hex), Group(text, i + 3, hex))
      && t[2] == Oct2(Group(text, i + 3, hex), Group(text, i + 4, hex))
      && t[3] == Oct3(Group(text, i + 4, hex), Group(text, i + 5, hex), Group(text, i + 6, hex))
      && t[4] == Oct4(Group(text, i + 6, hex), Group(text, i + 7, hex))
  {
    hide Digits, Bytes, Quintet, Whole, Value;
    var vs := Quintets(text[i..], hex);
    BytesMore(vs);
    WholeOfFullLength(vs[..8]);
    assert vs[8..] == Quintets(text[i + 8..], hex);
    assert forall k :: 0 <= k < 8 ==> vs[..8][k] == vs[k] == Group(text, i + k, hex);
  }

  /** One round of the main loop. */
  method PutFive(dest: array<Byte>, at: nat, text: seq<Byte>, i: nat, hex: bool, ghost whole: seq<Byte>) returns (p: nat)
    requires AllDigits(text, Fives(hex)) && i + 7 < |text|
    requires at <= |whole| && Written(dest, at, whole) && whole[at..] == Spelled(text, i, hex)
    modifies dest
    ensures p == at + 5 <= |whole| && Written(dest, p, whole) && whole[p..] == Spelled(text, i + 8, hex)
  {
    hide Spelled, Group, AllDigits, Written;
    hide Oct0, Oct1, Oct2, Oct3, Oct4;
    SpelledStep(text, i, hex);
    ghost var rest := whole[at..];
    assert whole[at + 5..] == rest[5..];
    assert forall k :: 0 <= k < 5 ==> whole[at + k] == rest[k];
    p := PutOct0(dest, at, Group(text, i, hex), Group(text, i + 1, hex), whole);
    p := PutOct1(dest, p, Group(text, i + 1, hex), Group(text, i + 2, hex), Group(text, i + 3, hex), whole);
    p := PutOct2(dest, p, Group(text, i + 3, hex), Group(text, i + 4, hex), whole);
    p := PutOct3(dest, p, Group(text, i + 4, hex), Group(text, i + 5, hex), Group(text, i + 6, hex), whole);
    p := PutOct4(dest, p, Group(text, i + 6, hex), Group(text, i + 7, hex), whole);
  }

  lemma BytesOfShort(vs: seq<Five>)
    requires |vs| <= 8
    ensures Bytes(vs) == Whole(vs)
  {
    hide Whole;
    if |vs| == 8 {
      assert vs[..8] == vs && Bytes([]) == [];
    }
  }

  lemma SpelledShort(text: seq<Byte>, i: nat, hex: bool)
    requires AllDigits(text, Fives(hex)) && i <= |text| <= i + 8
    ensures var t := Spelled(text, i, hex);
      && |t| == WholeLength(|text| - i)
      && (|t| > 0 ==> t[0] == Oct0(Group(text, i, hex), Group(text, i + 1, hex)))
      && (|t| > 1 ==> t[1] == Oct1(Group(text, i + 1, hex), Group(text, i + 2, hex), Group(text, i + 3, hex)))
      && (|t| > 2 ==> t[2] == Oct2(Group(text, i + 3, hex), Group(text, i + 4, hex)))
      && (|t| > 3 ==> t[3] == Oct3(Group(text, i + 4, hex), Group(text, i + 5, hex), Group(text, i + 6, hex)))
      && (|t| > 4 ==> t[4] == Oct4(Group(text, i + 6, hex), Group(text, i + 7, hex)))
  {
    hide Digits, Bytes, Quintet, Value;
    hide Oct0, Oct1, Oct2, Oct3, Oct4;
    var vs := Quintets(text[i..], hex);
    BytesOfShort(vs);
    var f := Filled(vs);
    assert forall k :: 0 <= k < |vs| ==> f[k] == Group(text, i + k, hex);
  }

  /** What follows the main loop, one octet for each complete one. */
  method PutTail(dest: array<Byte>, at: nat, text: seq<Byte>, i: nat, hex: bool, ghost whole: seq<Byte>)
    returns (p: nat, proper: bool)
    requires AllDigits(text, Fives(hex)) && i <= |text| <= i + 8
    requires at <= |whole| && Written(dest, at, whole) && whole[at..] == Spelled(text, i, hex)
    modifies dest
    ensures p == |whole| && Written(dest, p, whole) && (proper <==> Proper(|text| - i))
  {
    hide Spelled, Group, AllDigits, Written;
    hide Oct0, Oct1, Oct2, Oct3, Oct4;
    SpelledShort(text, i, hex);
    ghost var rest := whole[at..];
    assert forall k :: 0 <= k < |rest| ==> whole[at + k] == rest[k];
    var left := |text| - i;
    p, proper := at, left != 1;
    if left >= 2 {
      p := PutOct0(dest, p, Group(text, i, hex), Group(text, i + 1, hex), whole);
    }
    if left == 3 {
      proper := false;
    }
    if left >= 4 {
      p := PutOct1(dest, p, Group(text, i + 1, hex), Group(text, i + 2, hex), Group(text, i + 3, hex), whole);
    }
    if left >= 5 {
      p := PutOct2(dest, p, Group(text, i + 3, hex), Group(text, i + 4, hex), whole);
    }
    if left == 6 {
      proper := false;
    }
    if left >= 7 {
      p := PutOct3(dest, p, Group(text, i + 4, hex), Group(text, i + 5, hex), Group(text, i + 6, hex), whole);
    }
    if left == 8 {
      p := PutOct4(dest, p, Group(text, i + 6, hex), Group(text, i + 7, hex), whole);
    }
  }

  lemma SameProper(rounds: nat, left: nat)
    requires left <= 8
    ensures Proper(8 * rounds + left) <==> Proper(left)
  {
  }

  lemma ProperStep(n: nat)
    requires n > 8
    ensures Proper(n) <==> Proper(n - 8)
  {
  }

  /** The decoding proper, once the scan has told where the digits end. */
  method DecodeDigits(dest: array<Byte>, text: seq<Byte>, hex: bool) returns (len: nat, proper: bool)
    requires AllDigits(text, Fives(hex)) && |Bytes(Quintets(text, hex))| <= dest.Length
    modifies dest
    ensures len <= dest.Length && dest[..len] == Bytes(Quintets(text, hex))
    ensures proper <==> Proper(|text|)
  {
    ghost var whole := Bytes(Quintets(text, hex));
    assert Spelled(text, 0, hex) == whole by { assert text[0..] == text; }
    hide Spelled, Bytes, Digits, AllDigits, Quintets, Proper, Fives, Written;
    var i, p, left := 0, 0, |text|;
    while left > 8
      invariant 0 <= i <= |text| == i + left && (Proper(|text|) <==> Proper(left))
      invariant p <= |whole| && Written(dest, p, whole) && whole[p..] == Spelled(text, i, hex)
    {
      p := PutFive(dest, p, text, i, hex, whole);
      ProperStep(left);
      i, left := i + 8, left - 8;
    }
    len, proper := PutTail(dest, p, text, i, hex, whole);
  }

  /** `apr_decode_base32_binary` with a destination. */
  method Decode(dest: array<Byte>, src: seq<Byte>, slen: nat, hex: bool, relaxed: bool) returns (status: Status, len: nat)
    requires slen + 2 <= |src| && |Decoded(src[..slen], hex)| <= dest.Length
    modifies dest
    ensures len <= dest.Length && dest[..len] == Decoded(src[..slen], hex)
    ensures status == if Accepted(src, slen, hex, relaxed) then Success else BadChar
  {
    hide Bytes, Digits, Value, Proper;
    var n, clean := Scan(src, slen, Fives(hex));
    status := if relaxed || clean then Success else BadChar;
    assert src[..slen][..n] == src[..n];
    var proper;
    len, proper := DecodeDigits(dest, src[..n], hex);
    if !proper {
      status := BadChar;
    }
  }

  // ---------- there and back ----------

  /** The length query of the encoder: room for the padded text and its NUL. */
  function EncodeRoom(slen: nat): nat {
    (slen + 4) / 5 * 8 + 1
  }

  /** The length query of the decoder. */
  function DecodeRoom(slen: nat): nat {
    (slen + 7) / 8 * 5
  }

  lemma RoomEnough(src: seq<Byte>, hex: bool, nopad: bool)
    ensures |Encoded(src, hex, nopad)| < EncodeRoom(|src|)
    ensures !nopad ==> |Encoded(src, hex, nopad)| + 1 == EncodeRoom(|src|)
    ensures |Decoded(src, hex)| <= DecodeRoom(|src|)
  {
    hide Text, Groups, Repeat, Bytes, Digits, Lead, Padding, EncodeRoom, DecodeRoom, Value;
    GroupsLength(src);
    var n := Lead(src, Fives(hex));
    BytesLength(Quintets(src[..n], hex));
    Rooms(|src|, n);
  }

  lemma Rooms(slen: nat, n: nat)
    requires n <= slen
    ensures (8 * slen + 4) / 5 + Padding(slen) + 1 == EncodeRoom(slen)
    ensures 5 * n / 8 <= DecodeRoom(slen)
  {
    var q, r := slen / 5, slen % 5;
    assert slen == 5 * q + r;
    assert (slen + 4) / 5 == q + (r + 4) / 5;
    assert (8 * slen + 4) / 5 == 8 * q + (8 * r + 4) / 5;
  }

  /** Of text with a NUL behind it, strict decoding accepts just the digits whose last group is complete or can be. */
  lemma StrictlyAccepted(src: seq<Byte>, slen: nat, hex: bool)
    requires slen < |src| && src[slen] == 0
    ensures Accepted(src, slen, hex, false) <==> AllDigits(src[..slen], Fives(hex)) && Proper(slen)
  {
    hide Proper;
    CleanBeforeNul(src, slen, Fives(hex));
    var text := src[..slen];
    assert forall k :: 0 <= k < slen ==> text[k] == src[k];
    if AllDigits(text, Fives(hex)) {
      LeadIs(text, Fives(hex), slen);
    }
  }

  lemma ReadsBack(hex: bool)
    ensures Reads(Fives(hex), Alphabet(hex))
    ensures forall c :: Fives(hex).value(c) > 32 <==> c == PAD
  {
    assert forall c :: Fives(hex).value(c) == Value(c, hex);
    var base := Alphabet(hex);
    assert forall v: Five :: base[v] == Letter(v, hex);
  }

  lemma ProperLength(n: nat)
    ensures Proper((8 * n + 4) / 5) && (Padding(n) == 0 <==> n % 5 == 0)
  {
    var q, r := n / 5, n % 5;
    assert (8 * n + 4) / 5 == 8 * q + (8 * r + 4) / 5;
    SameProper(q, (8 * r + 4) / 5);
  }

  /**
   Decoding undoes encoding, in either alphabet, padded or not, whatever lies behind
   the text. Relaxed decoding reports success; strict decoding does so exactly when no
   padding was written or another padding character follows the text.
   */
  lemma RoundTrip(src: seq<Byte>, hex: bool, nopad: bool, behind: seq<Byte>)
    requires |behind| > 1
    ensures var text := Encoded(src, hex, nopad);
      && Decoded(text, hex) == src
      && Accepted(text + behind, |text|, hex, true)
      && (Accepted(text + behind, |text|, hex, false) <==> nopad || |src| % 5 == 0 || behind[0] == PAD)
  {
    hide Letter, Groups, Bytes, Lead, Text, Digits, Value, Clean, Alphabet, Proper, Padding;
    var text := Encoded(src, hex, nopad);
    ReadsBack(hex);
    BytesOfGroups(src);
    GroupsLength(src);
    ProperLength(|src|);
    ScanOfText(Groups(src), Alphabet(hex), if nopad then 0 else Padding(|src|), behind, Fives(hex));
    assert (text + behind)[..|text|] == text;
  }
}
