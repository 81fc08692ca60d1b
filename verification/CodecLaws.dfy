/**
 The encodings of RFC 4648 as numbers: which letter of the alphabet stands where, and
 which octet comes of which letters.
 */
module CodecLaws {
  import opened Basics
  import opened Octets
  import Base64
  import Base32
  import Base16

  const CAPITALS := "ABCDEFGHIJKLMNOPQRSTUVWXYZ"
  const SMALL := "abcdefghijklmnopqrstuvwxyz"
  const DECIMALS := "0123456789"

  lemma CapitalsAre(v: nat)
    requires v < 26
    ensures CAPITALS[v] as int == 65 + v
  {
  }

  lemma SmallAre(v: nat)
    requires v < 26
    ensures SMALL[v] as int == 97 + v
  {
  }

  lemma DecimalsAre(v: nat)
    requires v < 10
    ensures DECIMALS[v] as int == 48 + v
  {
  }

  /** The octet at `k`, and zeros behind the last one. */
  function Octet(src: seq<nat>, k: nat): nat {
    if k < |src| then src[k] else 0
  }

  lemma OctetBehind(src: seq<nat>, n: nat, k: nat)
    requires n <= |src|
    ensures Octet(src[n..], k) == Octet(src, n + k)
  {
  }

  lemma Multiple(m: nat, d: int)
    requires m > 0
    ensures d > 0 ==> m * d >= m
    ensures d < 0 ==> m * d + m <= 0
  {
  }

  lemma Divided(n: nat, q: nat, r: nat, m: nat)
    requires r < m && n == q * m + r
    ensures n / m == q && n % m == r
  {
    var d := n / m - q;
    assert m * d == m * (n / m) - m * q == r - n % m;
    Multiple(m, d);
  }

  /** The bit field `q` of a number, above `r` and below `h`. */
  lemma FieldAt(n: nat, h: nat, q: nat, r: nat, weight: nat, size: nat)
    requires q < size && r < weight && n == (h * size + q) * weight + r
    ensures n / weight % size == q
  {
    Divided(n, h * size + q, r, weight);
    Divided(h * size + q, h, q, size);
  }

  // ---------- base64 ----------

  /** Table 1 and table 2 of RFC 4648. */
  function Alphabet64(url: bool): (t: seq<char>)
    ensures |t| == 64
  {
    CAPITALS + SMALL + DECIMALS + (if url then "-_" else "+/")
  }

  lemma Letter64(v: nat, url: bool)
    requires v < 64
    ensures Base64.Letter(v, url) == Alphabet64(url)[v] as int
  {
    if v < 26 {
      CapitalsAre(v);
    } else if v < 52 {
      SmallAre(v - 26);
    } else if v < 62 {
      DecimalsAre(v - 52);
    }
  }

  /** What character `j` of a block of four is worth. */
  function Weight64(j: nat): nat
    requires j < 4
  {
    if j == 0 then 262144 else if j == 1 then 4096 else if j == 2 then 64 else 1
  }

  /** The three octets of block `i` as a number. */
  function Block3(src: seq<nat>, i: nat): nat {
    Octet(src, 3 * i) * 65536 + Octet(src, 3 * i + 1) * 256 + Octet(src, 3 * i + 2)
  }

  lemma QuadDigits(a: Byte, b: Byte, c: Byte, j: nat)
    requires j < 4
    ensures Base64.Quad(a, b, c)[j] == (a * 65536 + b * 256 + c) / Weight64(j) % 64
  {
    Base64.QuadNumber(a, b, c);
    var q := Base64.Quad(a, b, c);
    hide Base64.Quad;
    var v: nat, w: nat, x: nat, y: nat := q[0], q[1], q[2], q[3];
    var n := a * 65536 + b * 256 + c;
    assert n == v * 262144 + w * 4096 + x * 64 + y;
    if j == 0 {
      FieldAt(n, 0, v, w * 4096 + x * 64 + y, 262144, 64);
    } else if j == 1 {
      FieldAt(n, v, w, x * 64 + y, 4096, 64);
    } else if j == 2 {
      FieldAt(n, v * 64 + w, x, y, 64, 64);
    } else {
      FieldAt(n, v * 4096 + w * 64 + x, y, 0, 1, 64);
    }
  }

  lemma {:induction false} GroupAt64(src: seq<Byte>, k: nat)
    requires k < |Base64.Groups(src)|
    ensures Base64.Groups(src)[k] == Block3(src, k / 4) / Weight64(k % 4) % 64
  {
    if |src| > 2 && k >= 4 {
      Base64.GroupsMore(src);
      GroupAt64(src[3..], k - 4);
      Later64(src, k);
    } else if |src| > 2 {
      Base64.GroupsMore(src);
      QuadDigits(src[0], src[1], src[2], k);
    } else {
      QuadDigits(Octet(src, 0), Octet(src, 1), 0, k);
    }
  }

  lemma Later64(src: seq<Byte>, k: nat)
    requires |src| > 2 && k >= 4
    ensures (k - 4) / 4 == k / 4 - 1 && (k - 4) % 4 == k % 4
    ensures Block3(src[3..], k / 4 - 1) == Block3(src, k / 4)
  {
    var i := 3 * (k / 4 - 1);
    OctetBehind(src, 3, i);
    OctetBehind(src, 3, i + 1);
    OctetBehind(src, 3, i + 2);
  }

  /**
   Character `k` of the text is the letter for six bits of its block of three octets; equal signs fill
   the last block of four. Leaving out the padding takes the other alphabet, as the flags are read.
   */
  lemma Encoded64Law(src: seq<Byte>, url: bool, nopad: bool, k: nat)
    ensures var t := Base64.Encoded(src, url, nopad);
      && |t| == (if nopad then (4 * |src| + 2) / 3 else (|src| + 2) / 3 * 4)
      && (k < |t| ==>
            t[k] == if k < (4 * |src| + 2) / 3
                    then Alphabet64(url || nopad)[Block3(src, k / 4) / Weight64(k % 4) % 64] as int
                    else '=' as int)
  {
    hide Base64.Groups, Base64.Letter, Alphabet64, Block3, Weight64, Base64.Padding, Text, Repeat;
    Base64.GroupsLength(src);
    PaddedLength64(|src|);
    var v := Base64.Groups(src);
    if k < |v| {
      GroupAt64(src, k);
      Letter64(v[k], url || nopad);
    }
  }

  lemma PaddedLength64(n: nat)
    ensures (4 * n + 2) / 3 + Base64.Padding(n) == (n + 2) / 3 * 4
  {
  }

  /** The four groups of block `i` as a number. */
  function Block4(vs: seq<nat>, i: nat): nat {
    Octet(vs, 4 * i) * 262144 + Octet(vs, 4 * i + 1) * 4096 + Octet(vs, 4 * i + 2) * 64 + Octet(vs, 4 * i + 3)
  }

  function Weight256(j: nat): nat
    requires j < 3
  {
    if j == 0 then 65536 else if j == 1 then 256 else 1
  }

  lemma TripleDigits(v: Base64.Six, w: Base64.Six, x: Base64.Six, y: Base64.Six, j: nat)
    requires j < 3
    ensures Base64.Triple(v, w, x, y)[j]
      == (v as nat * 262144 + w as nat * 4096 + x as nat * 64 + y) / Weight256(j) % 256
  {
    Base64.TripleNumber(v, w, x, y);
    var t := Base64.Triple(v, w, x, y);
    hide Base64.Triple;
    var a: nat, b: nat, c: nat := t[0], t[1], t[2];
    var n := v as nat * 262144 + w as nat * 4096 + x as nat * 64 + y;
    assert n == a * 65536 + b * 256 + c;
    if j == 0 {
      FieldAt(n, 0, a, b * 256 + c, 65536, 256);
    } else if j == 1 {
      FieldAt(n, a, b, c, 256, 256);
    } else {
      FieldAt(n, a * 256 + b, c, 0, 1, 256);
    }
  }

  lemma {:induction false} ByteAt64(vs: seq<Base64.Six>, k: nat)
    requires k < |Base64.Bytes(vs)|
    ensures Base64.Bytes(vs)[k] == Block4(vs, k / 3) / Weight256(k % 3) % 256
  {
    if |vs| > 3 && k >= 3 {
      hide Base64.Bytes, Base64.Triple, Block4, Weight256;
      Base64.BytesMore(vs);
      ByteAt64(vs[4..], k - 3);
      LaterByte64(vs, k);
    } else if |vs| > 3 {
      FirstByte64(vs, k);
    } else {
      LastByte64(vs, k);
    }
  }

  lemma FirstByte64(vs: seq<Base64.Six>, k: nat)
    requires |vs| > 3 && k < 3
    ensures k < |Base64.Bytes(vs)| && Base64.Bytes(vs)[k] == Block4(vs, k / 3) / Weight256(k % 3) % 256
  {
    hide Base64.Bytes, Base64.Triple, Weight256;
    Base64.BytesMore(vs);
    TripleDigits(vs[0], vs[1], vs[2], vs[3], k);
  }

  lemma LastByte64(vs: seq<Base64.Six>, k: nat)
    requires |vs| <= 3 && k < |Base64.Bytes(vs)|
    ensures Base64.Bytes(vs)[k] == Block4(vs, k / 3) / Weight256(k % 3) % 256
  {
    TripleDigits(Octet(vs, 0), Octet(vs, 1), Octet(vs, 2), 0, k);
    hide Weight256;
  }

  lemma LaterByte64(vs: seq<Base64.Six>, k: nat)
    requires |vs| > 3 && k >= 3
    ensures (k - 3) / 3 == k / 3 - 1 && (k - 3) % 3 == k % 3
    ensures Block4(vs[4..], k / 3 - 1) == Block4(vs, k / 3)
  {
    var i := 4 * (k / 3 - 1);
    OctetBehind(vs, 4, i);
    OctetBehind(vs, 4, i + 1);
    OctetBehind(vs, 4, i + 2);
    OctetBehind(vs, 4, i + 3);
  }

  /** The characters are letters of either alphabet, for these numbers. */
  ghost predicate Spells64(text: seq<Byte>, vs: seq<nat>) {
    && |text| == |vs|
    && forall k :: 0 <= k < |vs| ==>
         vs[k] < 64 && (text[k] == Alphabet64(false)[vs[k]] as int || text[k] == Alphabet64(true)[vs[k]] as int)
  }

  ghost predicate NoLetter64(c: Byte) {
    forall v :: 0 <= v < 64 ==> c != Alphabet64(false)[v] as int && c != Alphabet64(true)[v] as int
  }

  lemma Value64(c: Byte)
    ensures Base64.Value(c) >= 64 <==> NoLetter64(c)
    ensures forall v :: 0 <= v < 64 && (c == Alphabet64(false)[v] as int || c == Alphabet64(true)[v] as int) ==> Base64.Value(c) == v
  {
    forall v | 0 <= v < 64 && (c == Alphabet64(false)[v] as int || c == Alphabet64(true)[v] as int)
      ensures Base64.Value(c) == v
    {
      Letter64(v, false);
      Letter64(v, true);
    }
    if Base64.Value(c) < 64 {
      Letter64(Base64.Value(c), false);
      Letter64(Base64.Value(c), true);
    }
    hide Alphabet64;
  }

  /** Octet `k` of what letters spell, up to the first character that is none, is eight bits of their block of four. */
  lemma Decoded64Law(text: seq<Byte>, vs: seq<nat>, rest: seq<Byte>, k: nat)
    requires Spells64(text, vs) && (rest != [] ==> NoLetter64(rest[0]))
    ensures var d := Base64.Decoded(text + rest);
      && |d| == 3 * |vs| / 4
      && (k < |d| ==> d[k] == Block4(vs, k / 3) / Weight256(k % 3) % 256)
  {
    var whole := text + rest;
    forall i | 0 <= i < |text|
      ensures Base64.Value(text[i]) == vs[i] < 64
    {
      Value64(text[i]);
    }
    if rest != [] {
      Value64(rest[0]);
    }
    hide Spells64, NoLetter64, Base64.Value;
    LeadIs(whole, Base64.SIXES, |text|);
    assert whole[..|text|] == text;
    assert Base64.Sixes(text) == vs;
    Base64.BytesLength(vs);
    if k < |Base64.Bytes(vs)| {
      ByteAt64(vs, k);
    }
  }

  // ---------- base32 ----------

  /** Table 3 and table 4 of RFC 4648. */
  function Alphabet32(hex: bool): (t: seq<char>)
    ensures |t| == 32
  {
    if hex then DECIMALS + "ABCDEFGHIJKLMNOPQRSTUV" else CAPITALS + "234567"
  }

  lemma Letter32(v: nat, hex: bool)
    requires v < 32
    ensures Base32.Letter(v, hex) == Alphabet32(hex)[v] as int
  {
    if hex {
      if v < 10 {
        DecimalsAre(v);
      }
    } else if v < 26 {
      CapitalsAre(v);
    }
  }

  /** What character `j` of a block of eight is worth. */
  function Weight32(j: nat): nat
    requires j < 8
  {
    if j == 0 then 0x8_0000_0000
    else if j == 1 then 0x4000_0000
    else if j == 2 then 0x200_0000
    else if j == 3 then 0x10_0000
    else if j == 4 then 0x8000
    else if j == 5 then 0x400
    else if j == 6 then 0x20
    else 1
  }

  /** The five octets of block `i` as a number. */
  function Block5(src: seq<nat>, i: nat): nat {
    Octet(src, 5 * i) * 0x1_0000_0000 + Octet(src, 5 * i + 1) * 0x100_0000 + Octet(src, 5 * i + 2) * 0x1_0000
    + Octet(src, 5 * i + 3) * 0x100 + Octet(src, 5 * i + 4)
  }

  lemma EightFields(n: nat, q: seq<nat>, j: nat)
    requires |q| == 8 && (forall i :: 0 <= i < 8 ==> q[i] < 32) && n == Base32.Number8(q) && j < 8
    ensures n / Weight32(j) % 32 == q[j]
  {
    var q0, q1, q2, q3, q4, q5, q6, q7 := q[0], q[1], q[2], q[3], q[4], q[5], q[6], q[7];
    if j == 0 {
      FieldAt(n, 0, q0, q1 * 0x4000_0000 + q2 * 0x200_0000 + q3 * 0x10_0000 + q4 * 0x8000 + q5 * 0x400 + q6 * 0x20 + q7, 0x8_0000_0000, 32);
    } else if j == 1 {
      FieldAt(n, q0, q1, q2 * 0x200_0000 + q3 * 0x10_0000 + q4 * 0x8000 + q5 * 0x400 + q6 * 0x20 + q7, 0x4000_0000, 32);
    } else if j == 2 {
      FieldAt(n, q0 * 32 + q1, q2, q3 * 0x10_0000 + q4 * 0x8000 + q5 * 0x400 + q6 * 0x20 + q7, 0x200_0000, 32);
    } else if j == 3 {
      FieldAt(n, q0 * 1024 + q1 * 32 + q2, q3, q4 * 0x8000 + q5 * 0x400 + q6 * 0x20 + q7, 0x10_0000, 32);
    } else if j == 4 {
      FieldAt(n, q0 * 32768 + q1 * 1024 + q2 * 32 + q3, q4, q5 * 0x400 + q6 * 0x20 + q7, 0x8000, 32);
    } else if j == 5 {
      FieldAt(n, q0 * 1048576 + q1 * 32768 + q2 * 1024 + q3 * 32 + q4, q5, q6 * 0x20 + q7, 0x400, 32);
    } else if j == 6 {
      FieldAt(n, q0 * 33554432 + q1 * 1048576 + q2 * 32768 + q3 * 1024 + q4 * 32 + q5, q6, q7, 0x20, 32);
    } else {
      FieldAt(n, q0 * 1073741824 + q1 * 33554432 + q2 * 1048576 + q3 * 32768 + q4 * 1024 + q5 * 32 + q6, q7, 0, 1, 32);
    }
  }

  lemma EightDigits(a: Byte, b: Byte, c: Byte, d: Byte, e: Byte, j: nat)
    requires j < 8
    ensures Base32.Eight(a, b, c, d, e)[j]
      == (a * 0x1_0000_0000 + b * 0x100_0000 + c * 0x1_0000 + d * 0x100 + e) / Weight32(j) % 32
  {
    Base32.SameNumber(a, b, c, d, e);
    var n := Base32.Number5([a, b, c, d, e]);
    hide Base32.Eight, Base32.Number8, Weight32;
    EightFields(n, Base32.Eight(a, b, c, d, e), j);
  }

  lemma FirstBlock5(src: seq<nat>)
    ensures Block5(src, 0) == Octet(src, 0) * 0x1_0000_0000 + Octet(src, 1) * 0x100_0000 + Octet(src, 2) * 0x1_0000
      + Octet(src, 3) * 0x100 + Octet(src, 4)
  {
  }

  lemma {:induction false} GroupAt32(src: seq<Byte>, k: nat)
    requires k < |Base32.Groups(src)|
    ensures Base32.Groups(src)[k] == Block5(src, k / 8) / Weight32(k % 8) % 32
  {
    hide Base32.Eight, Weight32, Block5;
    if |src| >= 5 && k >= 8 {
      Base32.GroupsMore(src);
      Base32.PartOfFullLength(src[..5]);
      GroupAt32(src[5..], k - 8);
      Later32(src, k);
    } else if |src| >= 5 {
      Base32.GroupsMore(src);
      Base32.PartOfFullLength(src[..5]);
      EightDigits(src[0], src[1], src[2], src[3], src[4], k);
      FirstBlock5(src);
    } else {
      EightDigits(Octet(src, 0), Octet(src, 1), Octet(src, 2), Octet(src, 3), Octet(src, 4), k);
      FirstBlock5(src);
    }
  }

  lemma Later32(src: seq<Byte>, k: nat)
    requires |src| >= 5 && k >= 8
    ensures (k - 8) / 8 == k / 8 - 1 && (k - 8) % 8 == k % 8
    ensures Block5(src[5..], k / 8 - 1) == Block5(src, k / 8)
  {
    var i := 5 * (k / 8 - 1);
    OctetBehind(src, 5, i);
    OctetBehind(src, 5, i + 1);
    OctetBehind(src, 5, i + 2);
    OctetBehind(src, 5, i + 3);
    OctetBehind(src, 5, i + 4);
  }

  /** Character `k` of the text is the letter for five bits of its block of five octets; equal signs fill the last block of eight. */
  lemma Encoded32Law(src: seq<Byte>, hex: bool, nopad: bool, k: nat)
    ensures var t := Base32.Encoded(src, hex, nopad);
      && |t| == (if nopad then (8 * |src| + 4) / 5 else (|src| + 4) / 5 * 8)
      && (k < |t| ==>
            t[k] == if k < (8 * |src| + 4) / 5
                    then Alphabet32(hex)[Block5(src, k / 8) / Weight32(k % 8) % 32] as int
                    else '=' as int)
  {
    hide Base32.Groups, Base32.Letter, Alphabet32, Block5, Weight32, Base32.Padding, Text, Repeat;
    Base32.GroupsLength(src);
    PaddedLength32(|src|);
    var v := Base32.Groups(src);
    if k < |v| {
      GroupAt32(src, k);
      Letter32(v[k], hex);
    }
  }

  lemma PaddedLength32(n: nat)
    ensures (8 * n + 4) / 5 + Base32.Padding(n) == (n + 4) / 5 * 8
  {
  }

  /** The eight groups of block `i` as a number. */
  function Block8(vs: seq<nat>, i: nat): nat {
    Octet(vs, 8 * i) * 0x8_0000_0000 + Octet(vs, 8 * i + 1) * 0x4000_0000 + Octet(vs, 8 * i + 2) * 0x200_0000
    + Octet(vs, 8 * i + 3) * 0x10_0000 + Octet(vs, 8 * i + 4) * 0x8000 + Octet(vs, 8 * i + 5) * 0x400
    + Octet(vs, 8 * i + 6) * 0x20 + Octet(vs, 8 * i + 7)
  }

  function WeightOf5(j: nat): nat
    requires j < 5
  {
    if j == 0 then 0x1_0000_0000
    else if j == 1 then 0x100_0000
    else if j == 2 then 0x1_0000
    else if j == 3 then 0x100
    else 1
  }

  lemma FiveFields(n: nat, t: seq<nat>, j: nat)
    requires |t| == 5 && (forall i :: 0 <= i < 5 ==> t[i] < 256) && n == Base32.Number5(t) && j < 5
    ensures n / WeightOf5(j) % 256 == t[j]
  {
    var a, b, c, d, e := t[0], t[1], t[2], t[3], t[4];
    if j == 0 {
      FieldAt(n, 0, a, b * 0x100_0000 + c * 0x1_0000 + d * 0x100 + e, 0x1_0000_0000, 256);
    } else if j == 1 {
      FieldAt(n, a, b, c * 0x1_0000 + d * 0x100 + e, 0x100_0000, 256);
    } else if j == 2 {
      FieldAt(n, a * 256 + b, c, d * 0x100 + e, 0x1_0000, 256);
    } else if j == 3 {
      FieldAt(n, a * 65536 + b * 256 + c, d, e, 0x100, 256);
    } else {
      FieldAt(n, a * 16777216 + b * 65536 + c * 256 + d, e, 0, 1, 256);
    }
  }

  lemma QuintetDigits(f: seq<Base32.Five>, j: nat)
    requires |f| == 8 && j < 5
    ensures Base32.Quintet(f)[j] == Block8(f, 0) / WeightOf5(j) % 256
  {
    hide Base32.Quintet, Base32.Eight, WeightOf5, Base32.Number8, Base32.Number5, Block8;
    hide Base32.Oct0, Base32.Oct1, Base32.Oct2, Base32.Oct3, Base32.Oct4;
    var t := Base32.Quintet(f);
    Base32.QuintetBack(f);
    Base32.SameNumber(t[0], t[1], t[2], t[3], t[4]);
    FiveListed(t);
    EightNumber(f);
    FiveFields(Base32.Number8(f), t, j);
  }

  lemma FiveListed(t: seq<nat>)
    requires |t| == 5
    ensures Base32.Number5(t) == Base32.Number5([t[0], t[1], t[2], t[3], t[4]])
  {
  }

  lemma EightNumber(f: seq<nat>)
    requires |f| == 8
    ensures Block8(f, 0) == Base32.Number8(f)
  {
  }

  lemma SameBlock8(f: seq<nat>, vs: seq<nat>)
    requires forall i :: 0 <= i < 8 ==> Octet(f, i) == Octet(vs, i)
    ensures Block8(f, 0) == Block8(vs, 0)
  {
  }

  /** The octets of the first block. */
  lemma FirstBlock32(vs: seq<Base32.Five>, k: nat)
    requires k < |Base32.Bytes(vs)| && k < 5
    ensures Base32.Bytes(vs)[k] == Block8(vs, 0) / WeightOf5(k) % 256
  {
    hide Base32.Quintet, WeightOf5, Base32.Filled, Block8;
    if |vs| >= 8 {
      var f := vs[..8];
      Base32.BytesMore(vs);
      Base32.WholeOfFullLength(f);
      QuintetDigits(f, k);
      SameBlock8(f, vs);
    } else {
      QuintetDigits(Base32.Filled(vs), k);
      SameBlock8(Base32.Filled(vs), vs);
    }
  }

  lemma {:induction false} ByteAt32(vs: seq<Base32.Five>, k: nat)
    requires k < |Base32.Bytes(vs)|
    ensures Base32.Bytes(vs)[k] == Block8(vs, k / 5) / WeightOf5(k % 5) % 256
  {
    hide Base32.Quintet, WeightOf5, Base32.Filled, Block8;
    if k < 5 {
      FirstBlock32(vs, k);
    } else {
      Base32.BytesLength(vs);
      hide Base32.Bytes, Base32.Whole;
      Base32.BytesMore(vs);
      Base32.WholeOfFullLength(vs[..8]);
      ByteAt32(vs[8..], k - 5);
      LaterByte32(vs, k);
    }
  }

  lemma LaterByte32(vs: seq<Base32.Five>, k: nat)
    requires |vs| >= 8 && k >= 5
    ensures (k - 5) / 5 == k / 5 - 1 && (k - 5) % 5 == k % 5
    ensures Block8(vs[8..], k / 5 - 1) == Block8(vs, k / 5)
  {
    var i := 8 * (k / 5 - 1);
    OctetBehind(vs, 8, i);
    OctetBehind(vs, 8, i + 1);
    OctetBehind(vs, 8, i + 2);
    OctetBehind(vs, 8, i + 3);
    OctetBehind(vs, 8, i + 4);
    OctetBehind(vs, 8, i + 5);
    OctetBehind(vs, 8, i + 6);
    OctetBehind(vs, 8, i + 7);
  }

  ghost predicate Spells32(text: seq<Byte>, vs: seq<nat>, hex: bool) {
    |text| == |vs| && forall k :: 0 <= k < |vs| ==> vs[k] < 32 && text[k] == Alphabet32(hex)[vs[k]] as int
  }

  ghost predicate NoLetter32(c: Byte, hex: bool) {
    forall v :: 0 <= v < 32 ==> c != Alphabet32(hex)[v] as int
  }

  lemma Value32(c: Byte, hex: bool)
    ensures Base32.Value(c, hex) >= 32 <==> NoLetter32(c, hex)
    ensures forall v :: 0 <= v < 32 && c == Alphabet32(hex)[v] as int ==> Base32.Value(c, hex) == v
  {
    forall v | 0 <= v < 32 && c == Alphabet32(hex)[v] as int
      ensures Base32.Value(c, hex) == v
    {
      Letter32(v, hex);
    }
    if Base32.Value(c, hex) < 32 {
      Letter32(Base32.Value(c, hex), hex);
    }
    hide Alphabet32;
  }

  /** Octet `k` of what letters spell, up to the first character that is none, is eight bits of their block of eight. */
  lemma Decoded32Law(text: seq<Byte>, vs: seq<nat>, rest: seq<Byte>, hex: bool, k: nat)
    requires Spells32(text, vs, hex) && (rest != [] ==> NoLetter32(rest[0], hex))
    ensures var d := Base32.Decoded(text + rest, hex);
      && |d| == 5 * |vs| / 8
      && (k < |d| ==> d[k] == Block8(vs, k / 5) / WeightOf5(k % 5) % 256)
  {
    var whole := text + rest;
    forall i | 0 <= i < |text|
      ensures Base32.Value(text[i], hex) == vs[i] < 32
    {
      Value32(text[i], hex);
    }
    if rest != [] {
      Value32(rest[0], hex);
    }
    hide Spells32, NoLetter32, Base32.Value, Base32.Bytes;
    LeadIs(whole, Base32.Fives(hex), |text|);
    assert whole[..|text|] == text;
    assert Base32.Quintets(text, hex) == vs;
    Base32.BytesLength(vs);
    if k < |Base32.Bytes(vs)| {
      ByteAt32(vs, k);
    }
  }

  // ---------- base16 ----------

  /** Table 5 of RFC 4648, and its letters in lower case. */
  function Alphabet16(lower: bool): (t: seq<char>)
    ensures |t| == 16
  {
    DECIMALS + (if lower then "abcdef" else "ABCDEF")
  }

  lemma Letter16(v: nat, lower: bool)
    requires v < 16
    ensures Base16.Letter(v, lower) == Alphabet16(lower)[v] as int
  {
    if v < 10 {
      DecimalsAre(v);
    }
  }

  lemma HexMore(src: seq<Byte>, colon: bool, lower: bool, first: bool)
    requires src != []
    ensures Base16.Hex(src, colon, lower, first)
      == (if colon && !first then [':' as int] else [])
         + [Alphabet16(lower)[src[0] / 16] as int, Alphabet16(lower)[src[0] % 16] as int]
         + Base16.Hex(src[1..], colon, lower, false)
  {
    Letter16(src[0] / 16, lower);
    Letter16(src[0] % 16, lower);
    hide Base16.Letter, Alphabet16;
  }

  /** Each octet is written as the letters for its upper and lower half, with `colon` a colon between octets. */
  lemma {:induction false} Encoded16Law(src: seq<Byte>, colon: bool, lower: bool, first: bool, k: nat)
    requires k < |src|
    ensures var t := Base16.Hex(src, colon, lower, first);
      var step, at := (if colon then 3 else 2), (if colon then 3 * k + (if first then 0 else 1) else 2 * k);
      && |t| == step * |src| - (if colon && first then 1 else 0)
      && at + 1 < |t| && t[at] == Alphabet16(lower)[src[k] / 16] as int && t[at + 1] == Alphabet16(lower)[src[k] % 16] as int
      && (colon && at > 0 ==> t[at - 1] == ':' as int)
  {
    hide Base16.Hex, Alphabet16;
    HexMore(src, colon, lower, first);
    if |src| > 1 {
      Encoded16Law(src[1..], colon, lower, false, if k > 0 then k - 1 else 0);
    } else {
      NothingHex(colon, lower);
      assert src[1..] == [];
    }
  }

  lemma NothingHex(colon: bool, lower: bool)
    ensures Base16.Hex([], colon, lower, false) == []
  {
  }

  ghost predicate NoLetter16(c: Byte) {
    c != ':' as int && forall v :: 0 <= v < 16 ==> c != Alphabet16(false)[v] as int && c != Alphabet16(true)[v] as int
  }

  lemma Value16(c: Byte)
    ensures Base16.Value(c) == 16 <==> NoLetter16(c)
  {
    forall v | 0 <= v < 16 && (c == Alphabet16(false)[v] as int || c == Alphabet16(true)[v] as int)
      ensures Base16.Value(c) == v
    {
      Letter16(v, false);
      Letter16(v, true);
    }
    if Base16.Value(c) < 16 {
      Letter16(Base16.Value(c), false);
      Letter16(Base16.Value(c), true);
    }
    hide Alphabet16;
  }

  lemma {:induction false} LeadPast(u: seq<Byte>, rest: seq<Byte>)
    requires forall k :: 0 <= k < |u| ==> Base16.Value(u[k]) != 16
    ensures Lead(u + rest, Base16.NIBBLES) == |u| + Lead(rest, Base16.NIBBLES)
    ensures (u + rest)[..Lead(u + rest, Base16.NIBBLES)] == u + rest[..Lead(rest, Base16.NIBBLES)]
  {
    hide Lead;
    var n := Lead(rest, Base16.NIBBLES);
    LeadIs(u + rest, Base16.NIBBLES, |u| + n);
  }

  /** A pair of letters, in either case each, is read as its octet; what follows does not matter. */
  lemma Pair16Law(v: nat, w: nat, up: bool, down: bool, rest: seq<Byte>)
    requires v < 16 && w < 16
    ensures Base16.Decoded([Alphabet16(up)[v] as int, Alphabet16(down)[w] as int] + rest) == [16 * v + w] + Base16.Decoded(rest)
  {
    hide Alphabet16, Lead, Base16.Paired, Base16.Joined, Base16.Value, Base16.Letter;
    Letter16(v, up);
    Letter16(w, down);
    LetterRead(v, up);
    LetterRead(w, down);
    var u: seq<Byte> := [Alphabet16(up)[v] as int, Alphabet16(down)[w] as int];
    var more := rest[..Lead(rest, Base16.NIBBLES)];
    LeadPast(u, rest);
    PairPaired(u[0], u[1], more);
  }

  lemma LetterRead(v: nat, lower: bool)
    requires v < 16
    ensures Base16.Value(Base16.Letter(v, lower)) == v
  {
  }

  lemma PairPaired(c: Byte, d: Byte, more: seq<Byte>)
    requires Base16.Value(c) < 16 && Base16.Value(d) < 16 && Base16.Readable(more)
    ensures Base16.Readable([c, d] + more)
    ensures Base16.Paired([c, d] + more) == [16 * Base16.Value(c) + Base16.Value(d)] + Base16.Paired(more)
  {
    hide Base16.Value;
    assert ([c, d] + more)[2..] == more;
  }

  /** A colon in front is passed over. */
  lemma Colon16Law(rest: seq<Byte>)
    ensures Base16.Decoded([58] + rest) == Base16.Decoded(rest)
  {
    var more := rest[..Lead(rest, Base16.NIBBLES)];
    LeadPast([58], rest);
    assert ([58] + more)[1..] == more;
    hide Lead;
  }

  /** Nothing is read from the first character on that is no letter and no colon. */
  lemma Stop16Law(c: Byte, rest: seq<Byte>)
    requires NoLetter16(c)
    ensures Base16.Decoded([c] + rest) == []
  {
    Value16(c);
    hide NoLetter16;
  }
}
