/**
 Base64 and base64url, sections 4 and 5 of RFC 4648: `apr_encode_base64_binary`
 and `apr_decode_base64_binary`. Shifts, masks and the or of disjoint bits are
 written as multiplication, division, remainder and sum.
 */
module Base64 {
  import opened Basics
  import opened Octets

  type Six = v: nat | v < 64

  /** `base64` and `base64url` */
  function Letter(v: Six, url: bool): Byte {
    if v < 26 then 65 + v
    else if v < 52 then 97 + (v - 26)
    else if v < 62 then 48 + (v - 52)
    else if v == 62 then (if url then 45 else 43)
    else (if url then 95 else 47)
  }

  /** The alphabet as the flags choose it: leaving out the padding switches to the URL-safe one too. */
  function Alphabet(url: bool, nopad: bool): (base: seq<Byte>)
    ensures |base| == 64
  {
    seq(64, v requires 0 <= v < 64 => Letter(v, url || nopad))
  }

  /** `pr2six`: one table reads both alphabets. */
  function Value(c: Byte): nat {
    if 65 <= c <= 90 then c - 65
    else if 97 <= c <= 122 then c - 97 + 26
    else if 48 <= c <= 57 then c - 48 + 52
    else if c == 43 || c == 45 then 62
    else if c == 47 || c == 95 then 63
    else if c == PAD then 128
    else 64
  }

  const SIXES := Table(Value, 64, false)

  // ---------- what encoding and decoding mean ----------

  function Number3(bs: seq<nat>): nat requires |bs| == 3 { bs[0] * 65536 + bs[1] * 256 + bs[2] }
  function Number4(vs: seq<nat>): nat requires |vs| == 4 { vs[0] * 262144 + vs[1] * 4096 + vs[2] * 64 + vs[3] }

  /** Three octets as four groups of six bits. */
  function Quad(a: Byte, b: Byte, c: Byte): (q: seq<Six>)
    ensures |q| == 4
  {
    [a / 4, a % 4 * 16 + b / 16, b % 16 * 4 + c / 64, c % 64]
  }

  lemma FirstOctet(v: Six, w: Six)
    ensures (v * 4 + w / 16) % 256 == v * 4 + w / 16
  {
  }

  lemma SecondOctet(w: Six, x: Six)
    ensures (w * 16 + x / 4) % 256 == w % 16 * 16 + x / 4
  {
    Truncated(w / 16, w % 16 * 16 + x / 4);
  }

  lemma ThirdOctet(x: Six, y: Six)
    ensures (x * 64 + y) % 256 == x % 4 * 64 + y
  {
    Truncated(x / 4, x % 4 * 64 + y);
  }

  lemma QuadNumber(a: Byte, b: Byte, c: Byte)
    ensures Number4(Quad(a, b, c)) == Number3([a, b, c])
  {
  }

  /** Four groups of six bits as three octets. */
  function Triple(v: Six, w: Six, x: Six, y: Six): (t: seq<Byte>)
    ensures |t| == 3
  {
    [(v * 4 + w / 16) % 256, (w * 16 + x / 4) % 256, (x * 64 + y) % 256]
  }

  lemma TripleNumber(v: Six, w: Six, x: Six, y: Six)
    ensures Number3(Triple(v, w, x, y)) == Number4([v, w, x, y])
  {
    FirstOctet(v, w);
    SecondOctet(w, x);
    ThirdOctet(x, y);
  }

  /** The six-bit groups of the source, its last one filled up with zero bits. */
  function Groups(src: seq<Byte>): seq<Six> {
    if src == [] then []
    else if |src| == 1 then Quad(src[0], 0, 0)[..2]
    else if |src| == 2 then Quad(src[0], src[1], 0)[..3]
    else Quad(src[0], src[1], src[2]) + Groups(src[3..])
  }

  /** The octets that six-bit groups spell, left-over bits dropped. */
  function Bytes(vs: seq<Six>): seq<Byte> {
    if |vs| < 2 then []
    else if |vs| == 2 then Triple(vs[0], vs[1], 0, 0)[..1]
    else if |vs| == 3 then Triple(vs[0], vs[1], vs[2], 0)[..2]
    else Triple(vs[0], vs[1], vs[2], vs[3]) + Bytes(vs[4..])
  }

  lemma {:induction false} GroupsLength(src: seq<Byte>)
    ensures |Groups(src)| == (4 * |src| + 2) / 3
  {
    if |src| > 2 {
      GroupsLength(src[3..]);
    }
  }

  lemma {:induction false} BytesLength(vs: seq<Six>)
    ensures |Bytes(vs)| == 3 * |vs| / 4
  {
    if |vs| > 3 {
      BytesLength(vs[4..]);
    }
  }

  /** Whole octets and no stray bits behind the last one, section 3.5 of RFC 4648. */
  predicate Canonical(vs: seq<Six>) {
    && |vs| % 4 != 1
    && (|vs| % 4 == 2 ==> vs[|vs| - 1] % 16 == 0)
    && (|vs| % 4 == 3 ==> vs[|vs| - 1] % 4 == 0)
  }

  lemma QuadBack(a: Byte, b: Byte, c: Byte)
    ensures var q := Quad(a, b, c); Triple(q[0], q[1], q[2], q[3]) == [a, b, c]
  {
    var q := Quad(a, b, c);
    var t := Triple(q[0], q[1], q[2], q[3]);
    QuadNumber(a, b, c);
    TripleNumber(q[0], q[1], q[2], q[3]);
    hide Quad, Triple;
    assert Number3(t) == Number3([a, b, c]);
    assert t[0] == a && t[1] == b && t[2] == c;
  }

  /** The bit fields of the octets. */
  lemma TripleParts(v: Six, w: Six, x: Six, y: Six)
    ensures var t := Triple(v, w, x, y);
      t[0] / 4 == v && t[0] % 4 == w / 16 && t[1] / 16 == w % 16 && t[1] % 16 == x / 4 && t[2] / 64 == x % 4 && t[2] % 64 == y
  {
    FirstOctet(v, w);
    SecondOctet(w, x);
    ThirdOctet(x, y);
    Pack(v, w / 16, 4);
    Pack(w % 16, x / 4, 16);
    Pack(x % 4, y, 64);
  }

  lemma TripleBack(v: Six, w: Six, x: Six, y: Six)
    ensures var t := Triple(v, w, x, y); Quad(t[0], t[1], t[2]) == [v, w, x, y]
  {
    hide Triple;
    TripleParts(v, w, x, y);
  }

  lemma {:induction false} BytesOfGroups(src: seq<Byte>)
    ensures Bytes(Groups(src)) == src
  {
    if |src| > 2 {
      BytesOfGroups(src[3..]);
      hide *;
      QuadBack(src[0], src[1], src[2]);
      GroupsMore(src);
      BytesMore(Groups(src));
      assert Groups(src)[4..] == Groups(src[3..]);
    } else if |src| == 2 {
      QuadBack(src[0], src[1], 0);
    } else if |src| == 1 {
      QuadBack(src[0], 0, 0);
    }
  }

  lemma GroupsMore(src: seq<Byte>)
    requires |src| > 2
    ensures Groups(src) == Quad(src[0], src[1], src[2]) + Groups(src[3..])
  {
  }

  lemma BytesMore(vs: seq<Six>)
    requires |vs| > 3
    ensures Bytes(vs) == Triple(vs[0], vs[1], vs[2], vs[3]) + Bytes(vs[4..])
  {
  }

  lemma GroupsStep(vs: seq<Six>)
    requires |vs| > 3
    ensures Groups(Bytes(vs)) == vs[..4] + Groups(Bytes(vs[4..]))
  {
    hide *;
    BytesMore(vs);
    GroupsMore(Bytes(vs));
    TripleBack(vs[0], vs[1], vs[2], vs[3]);
    var t, bs := Triple(vs[0], vs[1], vs[2], vs[3]), Bytes(vs);
    assert bs[0] == t[0] && bs[1] == t[1] && bs[2] == t[2];
    assert bs[3..] == Bytes(vs[4..]);
    assert vs[..4] == [vs[0], vs[1], vs[2], vs[3]];
  }

  lemma CanonicalStep(vs: seq<Six>)
    requires |vs| > 3
    ensures Canonical(vs[4..]) <==> Canonical(vs)
  {
    assert |vs[4..]| % 4 == |vs| % 4;
  }

  /** The other way round: groups come back exactly when they are what an encoder writes. */
  lemma {:induction false} GroupsOfBytes(vs: seq<Six>)
    ensures Groups(Bytes(vs)) == vs <==> Canonical(vs)
  {
    if |vs| > 3 {
      hide *;
      GroupsOfBytes(vs[4..]);
      GroupsStep(vs);
      CanonicalStep(vs);
      var rest := Groups(Bytes(vs[4..]));
      assert (vs[..4] + rest)[4..] == rest;
      assert vs == vs[..4] + vs[4..];
    } else if |vs| == 3 {
      TailOfThree(vs[0], vs[1], vs[2]);
    } else if |vs| == 2 {
      TailOfTwo(vs[0], vs[1]);
    }
  }

  lemma TailOfThree(v: Six, w: Six, x: Six)
    ensures Groups(Bytes([v, w, x])) == [v, w, x / 4 * 4]
  {
    hide Triple;
    TripleParts(v, w, x, 0);
  }

  lemma TailOfTwo(v: Six, w: Six)
    ensures Groups(Bytes([v, w])) == [v, w / 16 * 16]
  {
    hide Triple;
    TripleParts(v, w, 0, 0);
  }

  /** How many padding characters fill the last group of four. */
  function Padding(n: nat): nat {
    if n % 3 == 0 then 0 else 3 - n % 3
  }

  /** The encoding of `src`, without the closing NUL. */
  function Encoded(src: seq<Byte>, url: bool, nopad: bool): seq<Byte> {
    Text(Groups(src), Alphabet(url, nopad)) + (if nopad then [] else Repeat(PAD, Padding(|src|)))
  }

  function Sixes(text: seq<Byte>): (vs: seq<Six>)
    requires AllDigits(text, SIXES)
    ensures vs == Digits(text, SIXES)
  {
    Digits(text, SIXES)
  }

  function Decoded(text: seq<Byte>): seq<Byte> {
    Bytes(Sixes(text[..Lead(text, SIXES)]))
  }

  predicate Accepted(src: seq<Byte>, slen: nat, relaxed: bool)
    requires slen < |src|
  {
    Lead(src[..slen], SIXES) % 4 != 1 && (relaxed || Clean(src, slen, SIXES))
  }

  /**
   Asking for no padding should only leave the padding out. It also changes the alphabet,
   so the text without padding is a prefix of the padded one exactly when no group is 62 or 63.
   */
  lemma UnpaddedIsPrefix(src: seq<Byte>)
    ensures Encoded(src, false, true) <= Encoded(src, false, false) <==> forall k :: 0 <= k < |Groups(src)| ==> Groups(src)[k] < 62
  {
    hide Groups, Text, Repeat;
    var vs, long, short := Groups(src), Encoded(src, false, false), Encoded(src, false, true);
    assert forall k :: 0 <= k < |vs| ==> long[k] == Letter(vs[k], false) && short[k] == Letter(vs[k], true);
    if forall k :: 0 <= k < |vs| ==> vs[k] < 62 {
      assert short == long[..|vs|];
    } else {
      var k :| 0 <= k < |vs| && vs[k] >= 62;
      assert short[k] != long[k];
    }
  }

  /** The octet 251 begins with group 62: '-' without padding, '+' with it. */
  lemma UnpaddedNotPrefix()
    ensures !(Encoded([251], false, true) <= Encoded([251], false, false))
  {
    assert Groups([251])[0] == 62;
    UnpaddedIsPrefix([251]);
  }

  // ---------- the encoder ----------

  lemma EncodedStep(src: seq<Byte>, url: bool, nopad: bool)
    requires |src| > 2
    ensures Encoded(src, url, nopad) == Text(Quad(src[0], src[1], src[2]), Alphabet(url, nopad)) + Encoded(src[3..], url, nopad)
  {
    hide Quad, Text, Repeat, Padding, Alphabet, Groups;
    GroupsMore(src);
    assert Padding(|src|) == Padding(|src[3..]|) by { SamePadding(|src|); }
    TextAppend(Quad(src[0], src[1], src[2]), Groups(src[3..]), Alphabet(url, nopad));
  }

  lemma SamePadding(n: nat)
    requires n > 2
    ensures Padding(n) == Padding(n - 3)
  {
  }

  /** One round of the main loop. */
  method PutQuad(dest: array<Byte>, at: nat, a: Byte, b: Byte, c: Byte, base: seq<Byte>, ghost whole: seq<Byte>)
    returns (p: nat)
    requires |base| == 64 && at + 4 <= |whole| && Written(dest, at, whole)
    requires whole[at..at + 4] == Text(Quad(a, b, c), base)
    modifies dest
    ensures p == at + 4 && Written(dest, p, whole)
  {
    hide Text, Written;
    ghost var text := whole[at..at + 4];
    assert text[0] == base[a / 4] && text[1] == base[a % 4 * 16 + b / 16];
    assert text[2] == base[b % 16 * 4 + c / 64] && text[3] == base[c % 64];
    p := Put(dest, at, base[a / 4], whole);
    p := Put(dest, p, base[a % 4 * 16 + b / 16], whole);
    p := Put(dest, p, base[b % 16 * 4 + c / 64], whole);
    p := Put(dest, p, base[c % 64], whole);
  }

  lemma RestEncoded(rest: seq<Byte>, url: bool, nopad: bool)
    requires |rest| < 3
    ensures var base, t := Alphabet(url, nopad), Encoded(rest, url, nopad);
      && |t| == (if rest == [] then 0 else if nopad then |rest| + 1 else 4)
      && (rest != [] ==> t[0] == base[rest[0] / 4])
      && (|rest| == 1 ==> t[1] == base[rest[0] % 4 * 16] && (!nopad ==> t[2] == t[3] == PAD))
      && (|rest| == 2 ==> t[1] == base[rest[0] % 4 * 16 + rest[1] / 16] && t[2] == base[rest[1] % 16 * 4])
      && (|rest| == 2 && !nopad ==> t[3] == PAD)
  {
    hide Text, Repeat, Alphabet;
  }

  /** What follows the main loop. */
  method PutRest(dest: array<Byte>, at: nat, src: seq<Byte>, i: nat, url: bool, nopad: bool, ghost whole: seq<Byte>)
    returns (p: nat)
    requires i <= |src| < i + 3 && at <= |whole| && Written(dest, at, whole)
    requires whole[at..] == Encoded(src[i..], url, nopad)
    modifies dest
    ensures p == |whole| && Written(dest, p, whole)
  {
    hide Encoded, Alphabet, Written;
    RestEncoded(src[i..], url, nopad);
    assert forall k :: 0 <= k < |whole[at..]| ==> whole[at + k] == whole[at..][k];
    p := at;
    var base := Alphabet(url, nopad);
    if i < |src| {
      p := Put(dest, p, base[src[i] / 4], whole);
      if i == |src| - 1 {
        p := Put(dest, p, base[src[i] % 4 * 16], whole);
        if !nopad {
          p := Put(dest, p, PAD, whole);
        }
      } else {
        p := Put(dest, p, base[src[i] % 4 * 16 + src[i + 1] / 16], whole);
        p := Put(dest, p, base[src[i + 1] % 16 * 4], whole);
      }
      if !nopad {
        p := Put(dest, p, PAD, whole);
      }
    }
  }

  /** `apr_encode_base64_binary` with a destination. */
  method Encode(dest: array<Byte>, src: seq<Byte>, url: bool, nopad: bool) returns (len: nat)
    requires dest.Length > |Encoded(src, url, nopad)|
    modifies dest
    ensures len < dest.Length && dest[..len] == Encoded(src, url, nopad) && dest[len] == 0
  {
    hide Encoded, Alphabet, Text;
    ghost var whole := Encoded(src, url, nopad);
    var i, p, base := 0, 0, Alphabet(url, nopad);
    while i < |src| - 2
      invariant 0 <= i <= |src| && p <= |whole|
      invariant Written(dest, p, whole) && whole[p..] == Encoded(src[i..], url, nopad)
    {
      EncodedStep(src[i..], url, nopad);
      assert src[i..][3..] == src[i + 3..] && whole[p..][..4] == whole[p..p + 4] && whole[p..][4..] == whole[p + 4..];
      p := PutQuad(dest, p, src[i], src[i + 1], src[i + 2], base, whole);
      i := i + 3;
    }
    p := PutRest(dest, p, src, i, url, nopad, whole);
    len := p;
    dest[p] := 0;
  }

  // ---------- the decoder ----------

  /** The octets that the characters from `i` on spell. */
  function Spelled(text: seq<Byte>, i: nat): seq<Byte>
    requires AllDigits(text, SIXES) && i <= |text|
  {
    Bytes(Sixes(text[i..]))
  }

  lemma SpelledStep(text: seq<Byte>, i: nat)
    requires AllDigits(text, SIXES) && i + 3 < |text|
    ensures Spelled(text, i)
      == Triple(Value(text[i]), Value(text[i + 1]), Value(text[i + 2]), Value(text[i + 3])) + Spelled(text, i + 4)
  {
    hide Value, Triple, Digits, Bytes;
    BytesMore(Sixes(text[i..]));
    assert Sixes(text[i..])[4..] == Sixes(text[i + 4..]);
  }

  /** One round of the main loop. */
  method PutTriple(dest: array<Byte>, at: nat, text: seq<Byte>, i: nat, ghost whole: seq<Byte>) returns (p: nat)
    requires AllDigits(text, SIXES) && i + 3 < |text|
    requires at <= |whole| && Written(dest, at, whole) && whole[at..] == Spelled(text, i)
    modifies dest
    ensures p == at + 3 <= |whole| && Written(dest, p, whole) && whole[p..] == Spelled(text, i + 4)
  {
    hide Value, Spelled, Written;
    SpelledStep(text, i);
    ghost var rest := whole[at..];
    assert whole[at] == rest[0] && whole[at + 1] == rest[1] && whole[at + 2] == rest[2];
    assert whole[at + 3..] == rest[3..];
    p := Put(dest, at, (Value(text[i]) * 4 + Value(text[i + 1]) / 16) % 256, whole);
    p := Put(dest, p, (Value(text[i + 1]) * 16 + Value(text[i + 2]) / 4) % 256, whole);
    p := Put(dest, p, (Value(text[i + 2]) * 64 + Value(text[i + 3])) % 256, whole);
  }

  lemma SpelledShort(text: seq<Byte>, i: nat)
    requires AllDigits(text, SIXES) && i <= |text| <= i + 4
    ensures var t := Spelled(text, i);
      && |t| == (if |text| < i + 2 then 0 else |text| - i - 1)
      && (|t| > 0 ==> t[0] == (Value(text[i]) * 4 + Value(text[i + 1]) / 16) % 256)
      && (|t| > 1 ==> t[1] == (Value(text[i + 1]) * 16 + Value(text[i + 2]) / 4) % 256)
      && (|t| > 2 ==> t[2] == (Value(text[i + 2]) * 64 + Value(text[i + 3])) % 256)
  {
    hide Value, Digits, Bytes;
    BytesShort(Sixes(text[i..]));
  }

  lemma BytesShort(vs: seq<Six>)
    requires |vs| <= 4
    ensures var t := Bytes(vs);
      && |t| == (if |vs| < 2 then 0 else |vs| - 1)
      && (|vs| > 1 ==> t[0] == (vs[0] as nat * 4 + vs[1] / 16) % 256)
      && (|vs| > 2 ==> t[1] == (vs[1] as nat * 16 + vs[2] / 4) % 256)
      && (|vs| > 3 ==> t[2] == (vs[2] as nat * 64 + vs[3]) % 256)
  {
    if |vs| == 4 {
      assert vs[4..] == [];
    }
  }

  /** What follows the main loop, one octet for each complete one. */
  method PutTail(dest: array<Byte>, at: nat, text: seq<Byte>, i: nat, ghost whole: seq<Byte>) returns (p: nat)
    requires AllDigits(text, SIXES) && i <= |text| <= i + 4
    requires at <= |whole| && Written(dest, at, whole) && whole[at..] == Spelled(text, i)
    modifies dest
    ensures p == |whole| && Written(dest, p, whole)
  {
    hide Value, Spelled, Written;
    SpelledShort(text, i);
    assert forall k :: 0 <= k < |whole[at..]| ==> whole[at + k] == whole[at..][k];
    p := at;
    var left := |text| - i;
    if left > 1 {
      p := Put(dest, p, (Value(text[i]) * 4 + Value(text[i + 1]) / 16) % 256, whole);
    }
    if left > 2 {
      p := Put(dest, p, (Value(text[i + 1]) * 16 + Value(text[i + 2]) / 4) % 256, whole);
    }
    if left > 3 {
      p := Put(dest, p, (Value(text[i + 2]) * 64 + Value(text[i + 3])) % 256, whole);
    }
  }

  lemma Leftover(rounds: nat, left: nat)
    requires left <= 4
    ensures (4 * rounds + left) % 4 == 1 <==> left == 1
  {
  }

  /** The decoding proper, once the scan has told where the digits end. */
  method DecodeDigits(dest: array<Byte>, text: seq<Byte>) returns (len: nat, lone: bool)
    requires AllDigits(text, SIXES) && |Bytes(Sixes(text))| <= dest.Length
    modifies dest
    ensures len <= dest.Length && dest[..len] == Bytes(Sixes(text))
    ensures lone <==> |text| % 4 == 1
  {
    ghost var whole := Bytes(Sixes(text));
    assert Spelled(text, 0) == whole by { assert text[0..] == text; }
    hide Spelled, Bytes, Digits, Value, Triple;
    var i, p, left := 0, 0, |text|;
    ghost var rounds := 0;
    while left > 4
      invariant 0 <= i <= |text| == i + left && i == 4 * rounds
      invariant p <= |whole| && Written(dest, p, whole) && whole[p..] == Spelled(text, i)
    {
      p := PutTriple(dest, p, text, i, whole);
      i, left, rounds := i + 4, left - 4, rounds + 1;
    }
    lone := left == 1;
    Leftover(rounds, left);
    len := PutTail(dest, p, text, i, whole);
  }

  /** `apr_decode_base64_binary` with a destination. */
  method Decode(dest: array<Byte>, src: seq<Byte>, slen: nat, relaxed: bool) returns (status: Status, len: nat)
    requires slen + 2 <= |src| && |Decoded(src[..slen])| <= dest.Length
    modifies dest
    ensures len <= dest.Length && dest[..len] == Decoded(src[..slen])
    ensures status == if Accepted(src, slen, relaxed) then Success else BadChar
  {
    hide Bytes, Digits;
    var n, clean := Scan(src, slen, SIXES);
    status := if relaxed || clean then Success else BadChar;
    assert src[..slen][..n] == src[..n];
    var lone;
    len, lone := DecodeDigits(dest, src[..n]);
    if lone {
      status := BadChar;
    }
  }

  // ---------- there and back ----------

  /** The length query of the encoder: room for the padded text and its NUL. */
  function EncodeRoom(slen: nat): nat {
    (slen + 2) / 3 * 4 + 1
  }

  /** The length query of the decoder. */
  function DecodeRoom(slen: nat): nat {
    (slen + 3) / 4 * 3
  }

  lemma RoomEnough(src: seq<Byte>, url: bool, nopad: bool)
    ensures |Encoded(src, url, nopad)| < EncodeRoom(|src|)
    ensures !nopad ==> |Encoded(src, url, nopad)| + 1 == EncodeRoom(|src|)
    ensures |Decoded(src)| <= DecodeRoom(|src|)
  {
    hide Text, Groups, Repeat, Bytes, Digits, Lead, Padding, EncodeRoom, DecodeRoom;
    GroupsLength(src);
    var n := Lead(src, SIXES);
    BytesLength(Sixes(src[..n]));
    Rooms(|src|, n);
  }

  lemma Rooms(slen: nat, n: nat)
    requires n <= slen
    ensures (4 * slen + 2) / 3 + Padding(slen) + 1 == EncodeRoom(slen)
    ensures 3 * n / 4 <= DecodeRoom(slen)
  {
    var q, r := slen / 3, slen % 3;
    assert slen == 3 * q + r;
    assert (slen + 2) / 3 == q + (r + 2) / 3;
    assert (4 * slen + 2) / 3 == 4 * q + (4 * r + 2) / 3;
  }

  /** Of text with a NUL behind it, strict decoding accepts just the digits whose last group is complete or can be. */
  lemma StrictlyAccepted(src: seq<Byte>, slen: nat)
    requires slen < |src| && src[slen] == 0
    ensures Accepted(src, slen, false) <==> AllDigits(src[..slen], SIXES) && slen % 4 != 1
  {
    CleanBeforeNul(src, slen, SIXES);
    var text := src[..slen];
    assert forall k :: 0 <= k < slen ==> text[k] == src[k];
    if AllDigits(text, SIXES) {
      LeadIs(text, SIXES, slen);
    }
  }

  lemma ReadsBack(url: bool, nopad: bool)
    ensures Reads(SIXES, Alphabet(url, nopad))
    ensures forall c :: SIXES.value(c) > 64 <==> c == PAD
  {
    assert forall c :: SIXES.value(c) == Value(c);
    var base := Alphabet(url, nopad);
    assert forall v: Six :: base[v] == Letter(v, url || nopad);
  }

  /**
   Decoding undoes encoding, in either alphabet, padded or not, whatever lies behind
   the text. Relaxed decoding reports success; strict decoding does so exactly when no
   padding was written or another padding character follows the text.
   */
  lemma RoundTrip(src: seq<Byte>, url: bool, nopad: bool, behind: seq<Byte>)
    requires |behind| > 1
    ensures var text := Encoded(src, url, nopad);
      && Decoded(text) == src
      && Accepted(text + behind, |text|, true)
      && (Accepted(text + behind, |text|, false) <==> nopad || |src| % 3 == 0 || behind[0] == PAD)
  {
    hide Letter, Groups, Bytes, Lead, Text, Digits, Value, Clean, Alphabet;
    var text := Encoded(src, url, nopad);
    ReadsBack(url, nopad);
    BytesOfGroups(src);
    GroupsLength(src);
    ScanOfText(Groups(src), Alphabet(url, nopad), if nopad then 0 else Padding(|src|), behind, SIXES);
    assert (text + behind)[..|text|] == text;
  }
}
