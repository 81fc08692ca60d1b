/**
 The character classes of `test_char_table`, which decide what the escaping routines
 escape, and the hexadecimal digits they write and read.
 */
module CharClasses {
  import opened Octets

  /** `test_char_table` in its ASCII form. */
  function Class(c: Byte): nat {
    if c == 0 then 224
    else if c == 10 || c == 13 then 223
    else if c < 32 || c > 126 then 222
    else if c == 32 then 6
    else if c == 33 then 16
    else if c == 34 then 127
    else if c == 35 then 22
    else if c == 36 then 17
    else if c == 37 then 23
    else if c == 38 then 49
    else if c == 39 then 17
    else if c == 40 || c == 41 then 145
    else if c == 42 then 129
    else if c == 43 || c == 44 then 80
    else if c == 47 then 18
    else if c == 58 then 16
    else if c == 59 then 87
    else if c == 60 || c == 62 then 119
    else if c == 61 then 16
    else if c == 63 then 23
    else if c == 64 then 16
    else if c == 91 || c == 93 || c == 94 then 23
    else if c == 92 then 223
    else if c == 96 then 23
    else if 123 <= c <= 125 then 23
    else if c == 126 then 17
    else 0
  }

  /** `TEST_CHAR(c, flag)`, for a flag that is a power of two. */
  predicate TestChar(c: Byte, flag: nat)
    requires flag in {2, 8, 16, 32}
  {
    Class(c) / flag % 2 == 1
  }

  const PATH_SEGMENT := 2
  const ECHO := 8
  const URLENCODED := 16
  const XML := 32

  /** `c2x_table` */
  function HexDigit(v: nat): Byte
    requires v < 16
  {
    if v < 10 then 48 + v else 97 + (v - 10)
  }

  predicate IsHex(c: Byte) {
    48 <= c <= 57 || 65 <= c <= 70 || 97 <= c <= 102
  }

  /** One digit of `x2c`, which folds lower case by masking a bit. */
  function FromHex(c: Byte): (v: nat)
    requires IsHex(c)
    ensures v < 16
  {
    if c >= 65 then (if c >= 97 then c - 32 else c) - 65 + 10 else c - 48
  }

  /** `x2c` */
  function FromHexPair(c: Byte, d: Byte): Byte
    requires IsHex(c) && IsHex(d)
  {
    FromHex(c) * 16 + FromHex(d)
  }

  lemma HexBack(c: Byte)
    ensures IsHex(HexDigit(c / 16)) && IsHex(HexDigit(c % 16))
    ensures FromHexPair(HexDigit(c / 16), HexDigit(c % 16)) == c
  {
  }

  /** A text stays the same exactly when its first character does and the rest does. */
  lemma FirstChanged(e: seq<Byte>, rest: seq<Byte>, s: seq<Byte>)
    requires s != [] && |e| >= 1 && |rest| >= |s| - 1
    ensures e + rest == s <==> e == [s[0]] && rest == s[1..]
  {
    if e + rest == s {
      assert |e| == 1;
      assert e[0] == (e + rest)[0];
      assert rest == (e + rest)[1..];
    }
    assert [s[0]] + s[1..] == s;
  }

  /** What the escaping routines report: nothing to do, or the two ways an escape can be refused. */
  datatype Report = Done | NotFound | Invalid | Refused
}
