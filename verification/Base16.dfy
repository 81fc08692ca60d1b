/**
 Base16, section 8 of RFC 4648, with optional colons between the octets:
 `apr_encode_base16_binary` and `apr_decode_base16_binary`.
 */
module Base16 {
  import opened Octets

  type Nibble = v: nat | v < 16

  /** `base16` and `base16lower` */
  function Letter(v: Nibble, lower: bool): Byte {
    if v < 10 then 48 + v else (if lower then 97 else 65) + (v - 10)
  }

  /** `pr2two`: either case, and 32 for a colon. */
  function Value(c: Byte): (v: nat)
    ensures v <= 16 || v == 32
  {
    if 48 <= c <= 57 then c - 48
    else if 65 <= c <= 70 then c - 65 + 10
    else if 97 <= c <= 102 then c - 97 + 10
    else if c == COLON then 32
    else 16
  }

  const NIBBLES := Table(Value, 16, true)

  // ---------- what encoding and decoding mean ----------

  /** Two letters an octet, a colon before every octet but the first. */
  function Encoded(src: seq<Byte>, colon: bool, lower: bool): seq<Byte> {
    Hex(src, colon, lower, true)
  }

  function Hex(src: seq<Byte>, colon: bool, lower: bool, first: bool): seq<Byte> {
    if src == [] then [] else
      (if colon && !first then [COLON] else [])
      + [Letter(src[0] / 16, lower), Letter(src[0] % 16, lower)]
      + Hex(src[1..], colon, lower, false)
  }

  /** `v << 4 | w`, where `w` may be the 32 of a colon. */
  function Joined(v: Nibble, w: nat): Byte
    requires w < 16 || w == 32
  {
    if w < 16 then v * 16 + w
    else if v / 2 % 2 == 1 then v * 16
    else v * 16 + 32
  }

  predicate Readable(text: seq<Byte>) {
    forall k :: 0 <= k < |text| ==> Value(text[k]) != 16
  }

  /** What the pairing loop makes of digits and colons: it skips colons only where a pair could begin. */
  function Paired(text: seq<Byte>): seq<Byte>
    requires Readable(text)
  {
    if |text| < 2 then []
    else if Value(text[0]) > 16 then Paired(text[1..])
    else [Joined(Value(text[0]), Value(text[1]))] + Paired(text[2..])
  }

  /** Whether the pairing loop leaves a character over. */
  predicate Lone(text: seq<Byte>) {
    if |text| < 2 then |text| == 1
    else if Value(text[0]) > 16 then Lone(text[1..])
    else Lone(text[2..])
  }

  function Decoded(text: seq<Byte>): seq<Byte> {
    Paired(text[..Lead(text, NIBBLES)])
  }

  predicate Accepted(src: seq<Byte>, slen: nat, relaxed: bool)
    requires slen < |src|
  {
    !Lone(src[..Lead(src[..slen], NIBBLES)]) && (relaxed || Clean(src, slen, NIBBLES))
  }

  /** Pairs of digits, each behind any number of colons. */
  predicate Pairs(text: seq<Byte>) {
    text == []
    || (text[0] == COLON && |text| > 1 && Pairs(text[1..]))
    || (|text| > 1 && Value(text[0]) < 16 && Value(text[1]) < 16 && Pairs(text[2..]))
  }

  function Plain(text: seq<Byte>): seq<Byte> {
    if text == [] then []
    else if text[0] == COLON then Plain(text[1..])
    else [text[0]] + Plain(text[1..])
  }

  function ToLower(c: Byte): Byte {
    if 65 <= c <= 70 then c + 32 else c
  }

  function Lower(text: seq<Byte>): seq<Byte> {
    if text == [] then [] else [ToLower(text[0])] + Lower(text[1..])
  }

  /** Pairs are read for what they are: encoding the octets gives the digits back, colons and case aside. */
  lemma {:induction false} PairsAreRead(text: seq<Byte>)
    requires Pairs(text)
    ensures Readable(text)
    ensures !Lone(text) && Encoded(Paired(text), false, true) == Lower(Plain(text))
  {
    if text != [] {
      if text[0] == COLON {
        PairsAreRead(text[1..]);
        assert forall k :: 0 < k < |text| ==> text[k] == text[1..][k - 1];
      } else {
        var rest := text[2..];
        PairsAreRead(rest);
        assert forall k :: 1 < k < |text| ==> text[k] == rest[k - 2];
        var o := Joined(Value(text[0]), Value(text[1]));
        assert Paired(text) == [o] + Paired(rest) && Paired(text)[1..] == Paired(rest);
        JoinedBack(text[0], text[1]);
        hide Plain, Paired, Joined;
        assert Plain(text) == [text[0], text[1]] + Plain(rest) by { PlainPair(text); }
        LowerPair(text[0], text[1], Plain(rest));
        HexStep(Paired(text));
      }
    }
  }

  /** An octet takes the place of at most two digits, of exactly two only in pairs. */
  lemma {:induction false} PairsAreLongest(text: seq<Byte>)
    requires Readable(text) && !Lone(text)
    ensures |Plain(text)| <= 2 * |Paired(text)|
    ensures |Plain(text)| == 2 * |Paired(text)| <==> Pairs(text)
  {
    if text != [] {
      if text[0] == COLON {
        PairsAreLongest(text[1..]);
      } else {
        PairsAreLongest(text[2..]);
        assert text[1..][1..] == text[2..];
        assert Plain(text) == [text[0]] + Plain(text[1..]);
      }
    }
  }

  lemma {:induction false} LowerLength(text: seq<Byte>)
    ensures |Lower(text)| == |text|
  {
    if text != [] {
      LowerLength(text[1..]);
    }
  }

  /** Of digits and colons exactly the pairs are accepted and read as the digits they are. */
  lemma OnlyPairsAreRead(text: seq<Byte>)
    requires Readable(text)
    ensures Pairs(text) <==> !Lone(text) && Encoded(Paired(text), false, true) == Lower(Plain(text))
  {
    if Pairs(text) {
      PairsAreRead(text);
    } else if !Lone(text) {
      PairsAreLongest(text);
      LowerLength(Plain(text));
      HexLength(Paired(text), false, true, true);
    }
  }

  lemma PlainPair(text: seq<Byte>)
    requires |text| > 1 && text[0] != COLON && text[1] != COLON
    ensures Plain(text) == [text[0], text[1]] + Plain(text[2..])
  {
    assert text[1..][1..] == text[2..];
    assert Plain(text) == [text[0]] + Plain(text[1..]);
    assert Plain(text[1..]) == [text[1]] + Plain(text[2..]);
  }

  lemma LowerPair(c: Byte, d: Byte, rest: seq<Byte>)
    ensures Lower([c, d] + rest) == [ToLower(c), ToLower(d)] + Lower(rest)
  {
    var text := [c, d] + rest;
    assert text[1..] == [d] + rest && text[1..][1..] == rest;
    assert Lower(text) == [ToLower(c)] + Lower(text[1..]);
    assert Lower(text[1..]) == [ToLower(d)] + Lower(rest);
  }

  lemma HexStep(src: seq<Byte>)
    requires src != []
    ensures Encoded(src, false, true) == [Letter(src[0] / 16, true), Letter(src[0] % 16, true)] + Encoded(src[1..], false, true)
  {
    hide Letter;
    assert Hex(src[1..], false, true, true) == Hex(src[1..], false, true, false);
  }

  lemma JoinedBack(c: Byte, d: Byte)
    requires Value(c) < 16 && Value(d) < 16
    ensures var o := Joined(Value(c), Value(d)); Letter(o / 16, true) == ToLower(c) && Letter(o % 16, true) == ToLower(d)
  {
    Pack(Value(c), Value(d), 16);
  }

  /**
   A colon inside a pair is not noticed: "4:12" is no sequence of pairs, yet strict
   decoding accepts it and reads the octet 0x60 from "4:".
   */
  lemma SplitPairAccepted()
    ensures var text: seq<Byte> := [52, 58, 49, 50];
      && !Pairs(text) && Decoded(text) == [0x60, 0x12] && Accepted(text + [0, 0], 4, false)
  {
    var text: seq<Byte> := [52, 58, 49, 50];
    assert (text + [0, 0])[..4] == text == text[..4];
    LeadIs(text, NIBBLES, 4);
    assert text[2..] == [49, 50] && text[2..][2..] == [];
    assert Paired(text[2..]) == [0x12];
  }

  // ---------- the encoder ----------

  /** `apr_encode_base16_binary` with a destination. */
  method Encode(dest: array<Byte>, src: seq<Byte>, colon: bool, lower: bool) returns (len: nat)
    requires dest.Length > |Encoded(src, colon, lower)|
    modifies dest
    ensures len < dest.Length && dest[..len] == Encoded(src, colon, lower) && dest[len] == 0
  {
    ghost var whole := Encoded(src, colon, lower);
    var i: nat, p: nat := 0, 0;
    while i < |src|
      invariant 0 <= i <= |src| && p <= |whole|
      invariant Written(dest, p, whole) && whole[p..] == Hex(src[i..], colon, lower, i == 0)
    {
      p := PutOctet(dest, p, src, i, colon, lower, whole);
      i := i + 1;
    }
    len := p;
    dest[p] := 0;
  }

  /** One round of the loop. */
  method PutOctet(dest: array<Byte>, at: nat, src: seq<Byte>, i: nat, colon: bool, lower: bool, ghost whole: seq<Byte>)
    returns (p: nat)
    requires i < |src| && at <= |whole| && Written(dest, at, whole)
    requires whole[at..] == Hex(src[i..], colon, lower, i == 0)
    modifies dest
    ensures p <= |whole| && Written(dest, p, whole) && whole[p..] == Hex(src[i + 1..], colon, lower, false)
  {
    hide Letter, Written;
    ghost var rest := whole[at..];
    ghost var n := if colon && i > 0 then 3 else 2;
    HexMore(src[i..], colon, lower, i == 0);
    assert src[i..][1..] == src[i + 1..];
    assert forall k :: 0 <= k < n ==> whole[at + k] == rest[k];
    assert whole[at + n..] == rest[n..];
    hide Hex;
    p := at;
    if colon && i > 0 {
      p := Put(dest, p, COLON, whole);
    }
    p := Put(dest, p, Letter(src[i] / 16, lower), whole);
    p := Put(dest, p, Letter(src[i] % 16, lower), whole);
  }

  lemma HexMore(src: seq<Byte>, colon: bool, lower: bool, first: bool)
    requires src != []
    ensures var h, n := Hex(src, colon, lower, first), if colon && !first then 3 else 2;
      && |h| >= n && h[n..] == Hex(src[1..], colon, lower, false)
      && (n == 3 ==> h[0] == COLON)
      && h[n - 2] == Letter(src[0] / 16, lower) && h[n - 1] == Letter(src[0] % 16, lower)
  {
    hide Letter;
  }

  // ---------- the decoder ----------

  lemma PairedStep(text: seq<Byte>, i: nat)
    requires Readable(text) && i + 1 < |text|
    ensures if Value(text[i]) > 16 then
              Paired(text[i..]) == Paired(text[i + 1..]) && Lone(text[i..]) == Lone(text[i + 1..])
            else
              && Paired(text[i..]) == [Joined(Value(text[i]), Value(text[i + 1]))] + Paired(text[i + 2..])
              && Lone(text[i..]) == Lone(text[i + 2..])
  {
    hide Value, Joined;
    assert text[i..][1..] == text[i + 1..] && text[i..][2..] == text[i + 2..];
  }

  /** `apr_decode_base16_binary` with a destination. */
  method Decode(dest: array<Byte>, src: seq<Byte>, slen: nat, relaxed: bool) returns (status: Status, len: nat)
    requires slen + 2 <= |src| && |Decoded(src[..slen])| <= dest.Length
    modifies dest
    ensures len <= dest.Length && dest[..len] == Decoded(src[..slen])
    ensures status == if Accepted(src, slen, relaxed) then Success else BadChar
  {
    var n, clean := Scan(src, slen, NIBBLES);
    status := if relaxed || clean then Success else BadChar;
    var text := src[..n];
    assert src[..slen][..n] == text && text[0..] == text;
    var lone;
    len, lone := DecodePairs(dest, text);
    if lone {
      status := BadChar;
    }
  }

  method DecodePairs(dest: array<Byte>, text: seq<Byte>) returns (len: nat, lone: bool)
    requires Readable(text) && |Paired(text)| <= dest.Length
    modifies dest
    ensures len <= dest.Length && dest[..len] == Paired(text)
    ensures lone <==> Lone(text)
  {
    hide Value, Joined;
    ghost var whole := Paired(text);
    var i: nat, p: nat, left := 0, 0, |text|;
    assert text[i..] == text;
    while left >= 2
      invariant 0 <= i <= |text| == i + left && p <= |whole|
      invariant Written(dest, p, whole) && whole[p..] == Paired(text[i..]) && Lone(text[i..]) == Lone(text)
    {
      hide Paired, Lone, Written;
      PairedStep(text, i);
      if Value(text[i]) > 16 {
        i, left := i + 1, left - 1;
      } else {
        assert whole[p] == whole[p..][0] && whole[p + 1..] == whole[p..][1..];
        p := Put(dest, p, Joined(Value(text[i]), Value(text[i + 1])), whole);
        i, left := i + 2, left - 2;
      }
    }
    lone := left == 1;
    len := p;
  }

  /** `apr_decode_base16_binary` without a destination: the same status, and the exact number of octets. */
  method Measure(src: seq<Byte>, slen: nat, relaxed: bool) returns (status: Status, len: nat)
    requires slen + 2 <= |src|
    ensures len == |Decoded(src[..slen])|
    ensures status == if Accepted(src, slen, relaxed) then Success else BadChar
  {
    hide Value, Joined;
    var n, clean := Scan(src, slen, NIBBLES);
    status := if relaxed || clean then Success else BadChar;
    var text := src[..n];
    assert src[..slen][..n] == text && text[0..] == text;
    var i: nat, left := 0, n;
    len := 0;
    while left >= 2
      invariant 0 <= i <= |text| == i + left
      invariant len + |Paired(text[i..])| == |Paired(text)| && Lone(text[i..]) == Lone(text)
    {
      hide Paired, Lone;
      PairedStep(text, i);
      if Value(text[i]) > 16 {
        i, left := i + 1, left - 1;
      } else {
        len := len + 1;
        i, left := i + 2, left - 2;
      }
    }
    if left == 1 {
      status := BadChar;
    }
  }

  // ---------- there and back ----------

  /** The length query of the encoder. */
  function EncodeRoom(slen: nat, colon: bool): nat {
    if colon && slen > 0 then slen * 3 else slen * 2 + 1
  }

  lemma {:induction false} HexLength(src: seq<Byte>, colon: bool, lower: bool, first: bool)
    ensures |Hex(src, colon, lower, first)| == if !colon then 2 * |src| else if first && src != [] then 3 * |src| - 1 else 3 * |src|
  {
    if src != [] {
      HexLength(src[1..], colon, lower, false);
    }
  }

  lemma RoomExact(src: seq<Byte>, colon: bool, lower: bool)
    ensures |Encoded(src, colon, lower)| + 1 == EncodeRoom(|src|, colon)
  {
    HexLength(src, colon, lower, true);
  }

  lemma {:induction false} PairedOfHex(src: seq<Byte>, colon: bool, lower: bool, first: bool)
    ensures var h := Hex(src, colon, lower, first);
      Readable(h) && Paired(h) == src && !Lone(h)
  {
    if src != [] {
      var h, n: nat := Hex(src, colon, lower, first), if colon && !first then 3 else 2;
      PairedOfHex(src[1..], colon, lower, false);
      HexMore(src, colon, lower, first);
      LettersAreRead(src[0], lower);
      ReadableFrom(h, n);
      hide *;
      ColonValue();
      PairedStep(h, n - 2);
      if n == 3 {
        PairedStep(h, 0);
      }
      assert h[0..] == h;
    }
  }

  lemma ReadableFrom(h: seq<Byte>, n: nat)
    requires 2 <= n <= 3 && n <= |h| && Readable(h[n..])
    requires Value(h[0]) != 16 && Value(h[1]) != 16 && Value(h[n - 1]) != 16
    ensures Readable(h)
  {
    hide Value;
    assert forall k :: n <= k < |h| ==> h[k] == h[n..][k - n];
  }

  lemma ColonValue()
    ensures Value(COLON) == 32
  {
  }

  /** Of text with a NUL behind it, strict decoding accepts digits and colons that leave no character over. */
  lemma StrictlyAccepted(src: seq<Byte>, slen: nat)
    requires slen < |src| && src[slen] == 0
    ensures Accepted(src, slen, false) <==> Readable(src[..slen]) && !Lone(src[..slen])
  {
    hide Lone;
    assert forall c :: NIBBLES.Takes(c) <==> Value(c) != 16;
    CleanBeforeNul(src, slen, NIBBLES);
    var text := src[..slen];
    assert forall k :: 0 <= k < slen ==> text[k] == src[k];
    if Readable(text) {
      LeadIs(text, NIBBLES, slen);
      assert text[..slen] == text;
    }
  }

  lemma LettersAreRead(o: Byte, lower: bool)
    ensures Value(Letter(o / 16, lower)) == o / 16 && Value(Letter(o % 16, lower)) == o % 16
    ensures Joined(o / 16, o % 16) == o
  {
  }

  /** Decoding undoes encoding, with and without colons and in either case, and always reports success. */
  lemma RoundTrip(src: seq<Byte>, colon: bool, lower: bool, relaxed: bool, behind: seq<Byte>)
    requires |behind| > 1
    ensures var text := Encoded(src, colon, lower);
      Decoded(text) == src && Accepted(text + behind, |text|, relaxed)
  {
    hide Hex, Paired, Lone;
    var text := Encoded(src, colon, lower);
    PairedOfHex(src, colon, lower, true);
    assert forall c :: NIBBLES.value(c) == Value(c);
    LeadIs(text, NIBBLES, |text|);
    assert text[..|text|] == text == (text + behind)[..|text|];
  }
}
