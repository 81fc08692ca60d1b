/**
 Facts about the match relation that make a single backtrack point enough: the
 elements between two `*` consume a fixed number of characters, so the leftmost
 place where they fit is as good as any other, and the last such piece of a
 segment can only sit at the segment's end.
 */
module GlobPieces {
  import opened CStrings
  import opened GlobPattern

  /** A one-character element stands at `i`. */
  predicate Fixed(p: seq<Char>, i: nat, fl: Flags)
  {
    i < |p| && AtomAt(p, i, fl).0 != Star && AtomAt(p, i, fl).0 != Separator
  }

  function Next(p: seq<Char>, i: nat, fl: Flags): (n: nat)
    requires i < |p|
    ensures i < n <= |p|
  {
    AtomAt(p, i, fl).1
  }

  /** How many one-character elements follow from `i`. */
  function PieceLength(p: seq<Char>, i: nat, fl: Flags): nat
    requires i <= |p|
    decreases |p| - i
  {
    if Fixed(p, i, fl) then 1 + PieceLength(p, Next(p, i, fl), fl) else 0
  }

  /** Where that run of one-character elements ends. */
  function PieceEnd(p: seq<Char>, i: nat, fl: Flags): (q: nat)
    requires i <= |p|
    ensures i <= q <= |p| && !Fixed(p, q, fl)
    decreases |p| - i
  {
    if Fixed(p, i, fl) then PieceEnd(p, Next(p, i, fl), fl) else i
  }

  /** The piece at `i` accepts the characters from `j`, one each. */
  predicate PieceFits(p: seq<Char>, i: nat, s: seq<Char>, j: nat, fl: Flags)
    requires i <= |p|
    decreases |p| - i
  {
    Fixed(p, i, fl) ==>
      && j < |s|
      && Accepts(AtomAt(p, i, fl).0, s[j], fl)
      && PieceFits(p, Next(p, i, fl), s, j + 1, fl)
  }

  /** `e` is the end of the segment in which `j` lies. */
  ghost predicate SegmentEnd(s: seq<Char>, j: nat, e: nat, fl: Flags) {
    && j <= e <= |s|
    && InSegment(s, j, e, fl)
    && (e < |s| ==> fl.pathname && s[e] == SLASH)
  }

  /** What a `*` in front of position `i` asks for. */
  ghost predicate Wild(p: seq<Char>, i: nat, s: seq<Char>, j: nat, fl: Flags)
    requires i <= |p|
  {
    exists k :: j <= k <= |s| && InSegment(s, j, k, fl) && Matches(p, i, s, k, fl, false)
  }

  /** A run never leaves its segment. */
  lemma RunInSegment(s: seq<Char>, j: nat, k: nat, e: nat, fl: Flags)
    requires SegmentEnd(s, j, e, fl) && j <= k <= |s|
    ensures InSegment(s, j, k, fl) <==> k <= e
  {
  }

  /** A fixed piece contributes exactly its length, its fit, and the rest of the pattern. */
  lemma {:induction false} MatchesPiece(p: seq<Char>, i: nat, s: seq<Char>, j: nat, e: nat, fl: Flags)
    requires i <= |p| && SegmentEnd(s, j, e, fl)
    ensures
      var m, q := PieceLength(p, i, fl), PieceEnd(p, i, fl);
      Matches(p, i, s, j, fl, false) <==>
      j + m <= e && PieceFits(p, i, s, j, fl) && Matches(p, q, s, j + m, fl, false)
    decreases |p| - i
  {
    if Fixed(p, i, fl) && j < e {
      MatchesPiece(p, Next(p, i, fl), s, j + 1, e, fl);
    }
  }

  /** A piece followed by the end of its segment's pattern must end where the segment ends. */
  lemma TailJump(p: seq<Char>, i: nat, s: seq<Char>, j: nat, e: nat, fl: Flags)
    requires i <= |p| && SegmentEnd(s, j, e, fl)
    requires var q := PieceEnd(p, i, fl); q == |p| || AtomAt(p, q, fl).0 == Separator
    ensures
      var m := PieceLength(p, i, fl);
      Wild(p, i, s, j, fl) <==> j + m <= e && Matches(p, i, s, e - m, fl, false)
  {
    var m, q := PieceLength(p, i, fl), PieceEnd(p, i, fl);
    forall k | j <= k <= |s| && InSegment(s, j, k, fl) && Matches(p, i, s, k, fl, false)
      ensures k + m == e
    {
      RunInSegment(s, j, k, e, fl);
      MatchesPiece(p, i, s, k, e, fl);
      assert Matches(p, q, s, k + m, fl, false);
    }
    if j + m <= e {
      RunInSegment(s, j, e - m, e, fl);
    }
  }

  /** Too few characters are left for the piece. */
  lemma TooShort(p: seq<Char>, i: nat, s: seq<Char>, j: nat, e: nat, fl: Flags)
    requires i <= |p| && SegmentEnd(s, j, e, fl) && j + PieceLength(p, i, fl) > e
    ensures !Wild(p, i, s, j, fl)
  {
    forall k | j <= k <= |s| && InSegment(s, j, k, fl)
      ensures !Matches(p, i, s, k, fl, false)
    {
      RunInSegment(s, j, k, e, fl);
      MatchesPiece(p, i, s, k, e, fl);
    }
  }

  /** A place where the piece does not fit can be skipped. */
  lemma SkipMisfit(p: seq<Char>, i: nat, s: seq<Char>, j: nat, e: nat, fl: Flags)
    requires i <= |p| && SegmentEnd(s, j, e, fl) && j < e && !PieceFits(p, i, s, j, fl)
    ensures Wild(p, i, s, j, fl) <==> Wild(p, i, s, j + 1, fl)
  {
    MatchesPiece(p, i, s, j, e, fl);
    forall k | j < k <= |s|
      ensures InSegment(s, j, k, fl) <==> InSegment(s, j + 1, k, fl)
    {
      RunInSegment(s, j, k, e, fl);
      RunInSegment(s, j + 1, k, e, fl);
    }
  }

  /** A `*` that can start later can start earlier. */
  lemma WildMonotone(p: seq<Char>, i: nat, s: seq<Char>, j: nat, k: nat, e: nat, fl: Flags)
    requires i <= |p| && SegmentEnd(s, j, e, fl) && j <= k <= e && Wild(p, i, s, k, fl)
    ensures Wild(p, i, s, j, fl)
  {
    var x :| k <= x <= |s| && InSegment(s, k, x, fl) && Matches(p, i, s, x, fl, false);
    RunInSegment(s, k, x, e, fl);
    RunInSegment(s, j, x, e, fl);
  }

  lemma SegmentLater(s: seq<Char>, j: nat, k: nat, e: nat, fl: Flags)
    requires SegmentEnd(s, j, e, fl)
    ensures e <= |s| && (j <= k <= e ==> SegmentEnd(s, k, e, fl))
  {
  }

  /** A later fit leaves the next `*` no more than the leftmost one does. */
  lemma LaterFit(p: seq<Char>, i: nat, s: seq<Char>, j: nat, k: nat, e: nat, fl: Flags)
    requires i <= |p| && SegmentEnd(s, j, e, fl) && j <= k <= |s| && InSegment(s, j, k, fl)
    requires var q := PieceEnd(p, i, fl); q < |p| && AtomAt(p, q, fl).0 == Star
    requires Matches(p, i, s, k, fl, false)
    ensures j + PieceLength(p, i, fl) <= e && Matches(p, PieceEnd(p, i, fl), s, j + PieceLength(p, i, fl), fl, false)
  {
    hide *;
    RunInSegment(s, j, k, e, fl);
    SegmentLater(s, j, k, e, fl);
    var m, q := PieceLength(p, i, fl), PieceEnd(p, i, fl);
    SegmentLater(s, j, j + m, e, fl);
    MatchesPiece(p, i, s, k, e, fl);
    StarMeans(p, q, s, k + m, fl);
    StarMeans(p, q, s, j + m, fl);
    WildMonotone(p, q + 1, s, j + m, k + m, e, fl);
  }

  lemma StarMeans(p: seq<Char>, q: nat, s: seq<Char>, j: nat, fl: Flags)
    requires q < |p| && AtomAt(p, q, fl).0 == Star && j <= |s|
    ensures Matches(p, q, s, j, fl, false) <==> Wild(p, q + 1, s, j, fl)
  {
  }

  /** Between two `*` the leftmost fit loses nothing. */
  lemma LeftmostFit(p: seq<Char>, i: nat, s: seq<Char>, j: nat, e: nat, fl: Flags)
    requires i <= |p| && SegmentEnd(s, j, e, fl)
    requires var q := PieceEnd(p, i, fl); q < |p| && AtomAt(p, q, fl).0 == Star
    requires j + PieceLength(p, i, fl) <= e && PieceFits(p, i, s, j, fl)
    ensures Wild(p, i, s, j, fl) <==>
            Matches(p, PieceEnd(p, i, fl), s, j + PieceLength(p, i, fl), fl, false)
  {
    MatchesPiece(p, i, s, j, e, fl);
    RunInSegment(s, j, j, e, fl);
    hide Matches, PieceLength, PieceEnd, PieceFits;
    if Wild(p, i, s, j, fl) {
      var k :| j <= k <= |s| && InSegment(s, j, k, fl) && Matches(p, i, s, k, fl, false);
      LaterFit(p, i, s, j, k, e, fl);
    }
  }

  /** `**` asks for no more than `*`. */
  lemma StarStar(p: seq<Char>, i: nat, s: seq<Char>, j: nat, e: nat, fl: Flags)
    requires i < |p| && p[i] == STAR && SegmentEnd(s, j, e, fl)
    ensures Wild(p, i, s, j, fl) <==> Wild(p, i + 1, s, j, fl)
  {
    if Wild(p, i, s, j, fl) {
      var k :| j <= k <= |s| && InSegment(s, j, k, fl) && Matches(p, i, s, k, fl, false);
      RunInSegment(s, j, k, e, fl);
      assert Wild(p, i + 1, s, k, fl);
      WildMonotone(p, i + 1, s, j, k, e, fl);
    }
    if Wild(p, i + 1, s, j, fl) {
      assert Matches(p, i, s, j, fl, false);
      RunInSegment(s, j, j, e, fl);
    }
  }

  /** A `?` after a `*` can be taken from the front of the run. */
  lemma StarQuestion(p: seq<Char>, i: nat, s: seq<Char>, j: nat, e: nat, fl: Flags)
    requires i < |p| && p[i] == QUESTION && SegmentEnd(s, j, e, fl)
    ensures Wild(p, i, s, j, fl) <==> j < e && Wild(p, i + 1, s, j + 1, fl)
  {
    if Wild(p, i, s, j, fl) {
      var k :| j <= k <= |s| && InSegment(s, j, k, fl) && Matches(p, i, s, k, fl, false);
      RunInSegment(s, j, k, e, fl);
      assert k < e;
      RunInSegment(s, j + 1, k + 1, e, fl);
    }
    if j < e && Wild(p, i + 1, s, j + 1, fl) {
      var k :| j + 1 <= k <= |s| && InSegment(s, j + 1, k, fl) && Matches(p, i + 1, s, k, fl, false);
      RunInSegment(s, j + 1, k, e, fl);
      RunInSegment(s, j, k - 1, e, fl);
      assert Matches(p, i, s, k - 1, fl, false);
    }
  }
}
