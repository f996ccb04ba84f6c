/**
  The three disc identifiers derived from a table of contents. The MusicBrainz identifier
  is taken up to the string that is hashed.
 */
module DiscId {
  import opened Words
  import opened Tocs

  const LEAD_IN_FRAMES: nat := 150

  // ---------------------------------------------------------------- hexadecimal

  function Pow16(width: nat): (p: nat)
    ensures p > 0
  {
    if width == 0 then 1 else 16 * Pow16(width - 1)
  }

  const UPPER: string := "0123456789ABCDEF"
  const LOWER: string := "0123456789abcdef"

  // Exactly `width` digits, most significant first.
  function Hex(digits: string, n: nat, width: nat): (s: string)
    requires |digits| == 16
    ensures |s| == width
  {
    if width == 0 then "" else Hex(digits, n / 16, width - 1) + [digits[n % 16]]
  }

  ghost predicate DistinctDigits(digits: string) {
    |digits| == 16 && forall i, j :: 0 <= i < j < 16 ==> digits[i] != digits[j]
  }

  lemma {:induction false} HexIsInjective(digits: string, a: nat, b: nat, width: nat)
    requires DistinctDigits(digits) && a < Pow16(width) && b < Pow16(width)
    requires Hex(digits, a, width) == Hex(digits, b, width)
    ensures a == b
  {
    if width > 0 {
      var sa, sb := Hex(digits, a, width), Hex(digits, b, width);
      assert sa[width - 1] == digits[a % 16] && sb[width - 1] == digits[b % 16];
      assert a % 16 == b % 16;
      assert Hex(digits, a / 16, width - 1) == sa[..width - 1] == sb[..width - 1] == Hex(digits, b / 16, width - 1);
      HexIsInjective(digits, a / 16, b / 16, width - 1);
    }
  }

  lemma HexWidths()
    ensures Pow16(2) == 0x100 && Pow16(8) == TWO_32
    ensures DistinctDigits(UPPER) && DistinctDigits(LOWER)
  {
    assert Pow16(2) == 16 * Pow16(1) && Pow16(1) == 16;
    assert Pow16(4) == 16 * Pow16(3) && Pow16(3) == 16 * Pow16(2);
    assert Pow16(6) == 16 * Pow16(5) && Pow16(5) == 16 * Pow16(4);
    assert Pow16(8) == 16 * Pow16(7) && Pow16(7) == 16 * Pow16(6);
  }

  // ---------------------------------------------------------------- MusicBrainz

  // Offset printed for track number i; zero for numbers outside the table.
  function OffsetOf(toc: Toc, i: u8): u32 {
    var idx := (i - toc.firstTrack) % 0x100;
    if i >= toc.firstTrack && i <= toc.lastTrack && idx < |toc.trackOffsets| then toc.trackOffsets[idx] else 0
  }

  // Offsets of track numbers 1..n, eight digits each.
  ghost function OffsetBlocks(toc: Toc, n: nat): (s: string)
    requires n <= 99
    ensures |s| == 8 * n
  {
    if n == 0 then "" else OffsetBlocks(toc, n - 1) + Hex(UPPER, OffsetOf(toc, n), 8)
  }

  function Header(toc: Toc): (s: string)
    ensures |s| == 12
  {
    Hex(UPPER, toc.firstTrack, 2) + Hex(UPPER, toc.lastTrack, 2) + Hex(UPPER, toc.leadoutSector, 8)
  }

  ghost function Preimage(toc: Toc): (s: string)
    ensures |s| == 804
  {
    Header(toc) + OffsetBlocks(toc, 99)
  }

  // The string the MusicBrainz identifier hashes.
  method MusicBrainzPreimage(toc: Toc) returns (s: string)
    ensures s == Preimage(toc)
    ensures |s| == 804
  {
    hide Hex, OffsetOf;
    s := Hex(UPPER, toc.firstTrack, 2);
    s := s + Hex(UPPER, toc.lastTrack, 2);
    s := s + Hex(UPPER, toc.leadoutSector, 8);
    for i := 1 to 100
      invariant s == Header(toc) + OffsetBlocks(toc, i - 1)
    {
      s := s + Hex(UPPER, OffsetOf(toc, i), 8);
    }
  }

  // Consecutive track numbers from at least 1 to at most 99, one offset each.
  ghost predicate WellNumbered(toc: Toc) {
    1 <= toc.firstTrack <= toc.lastTrack <= 99 && |toc.trackOffsets| == toc.lastTrack - toc.firstTrack + 1
  }

  lemma SplitEqual(a: string, b: string, c: string, d: string)
    requires a + b == c + d && |a| == |c|
    ensures a == c && b == d
  {
    assert a == (a + b)[..|a|] == (c + d)[..|a|] == c;
    assert b == (a + b)[|a|..] == (c + d)[|a|..] == d;
  }

  lemma {:induction false} BlocksDetermineOffsets(a: Toc, b: Toc, n: nat)
    requires n <= 99 && OffsetBlocks(a, n) == OffsetBlocks(b, n)
    ensures forall i: u8 :: 1 <= i <= n ==> OffsetOf(a, i) == OffsetOf(b, i)
  {
    hide OffsetOf;
    if n > 0 {
      SplitEqual(OffsetBlocks(a, n - 1), Hex(UPPER, OffsetOf(a, n), 8), OffsetBlocks(b, n - 1), Hex(UPPER, OffsetOf(b, n), 8));
      HexWidths();
      HexIsInjective(UPPER, OffsetOf(a, n), OffsetOf(b, n), 8);
      BlocksDetermineOffsets(a, b, n - 1);
    }
  }

  lemma HeaderDeterminesEnds(a: Toc, b: Toc)
    requires Header(a) == Header(b)
    ensures a.firstTrack == b.firstTrack && a.lastTrack == b.lastTrack && a.leadoutSector == b.leadoutSector
  {
    HexWidths();
    hide Hex;
    var firstA, lastA, outA := Hex(UPPER, a.firstTrack, 2), Hex(UPPER, a.lastTrack, 2), Hex(UPPER, a.leadoutSector, 8);
    var firstB, lastB, outB := Hex(UPPER, b.firstTrack, 2), Hex(UPPER, b.lastTrack, 2), Hex(UPPER, b.leadoutSector, 8);
    SplitEqual(firstA + lastA, outA, firstB + lastB, outB);
    SplitEqual(firstA, lastA, firstB, lastB);
    HexIsInjective(UPPER, a.firstTrack, b.firstTrack, 2);
    HexIsInjective(UPPER, a.lastTrack, b.lastTrack, 2);
    HexIsInjective(UPPER, a.leadoutSector, b.leadoutSector, 8);
  }

  // The hashed string determines a well-numbered table.
  lemma PreimageDeterminesToc(a: Toc, b: Toc)
    requires WellNumbered(a) && WellNumbered(b)
    ensures Preimage(a) == Preimage(b) <==> a == b
  {
    hide OffsetBlocks, Header;
    if Preimage(a) == Preimage(b) {
      SplitEqual(Header(a), OffsetBlocks(a, 99), Header(b), OffsetBlocks(b, 99));
      HeaderDeterminesEnds(a, b);
      BlocksDetermineOffsets(a, b, 99);
      forall k | 0 <= k < |a.trackOffsets|
        ensures a.trackOffsets[k] == b.trackOffsets[k]
      {
        var i: u8 := a.firstTrack + k;
        assert OffsetOf(a, i) == a.trackOffsets[k] && OffsetOf(b, i) == b.trackOffsets[k];
      }
    }
  }

  lemma {:induction false} BlocksFollowOffsets(a: Toc, b: Toc, n: nat)
    requires n <= 99 && forall i: u8 :: 1 <= i <= n ==> OffsetOf(a, i) == OffsetOf(b, i)
    ensures OffsetBlocks(a, n) == OffsetBlocks(b, n)
  {
    hide OffsetOf;
    if n > 0 {
      BlocksFollowOffsets(a, b, n - 1);
    }
  }

  // Track k of the table, counted from 0, has a number the string prints.
  predicate HasNumber(toc: Toc, k: nat) {
    1 <= toc.firstTrack + k <= toc.lastTrack && toc.firstTrack + k <= 99
  }

  function WithOffset(toc: Toc, k: nat, x: u32): Toc
    requires k < |toc.trackOffsets|
  {
    toc.(trackOffsets := toc.trackOffsets[k := x])
  }

  // No change to the offset changes the string.
  ghost predicate Lost(toc: Toc, k: nat)
    requires k < |toc.trackOffsets|
  {
    forall x: u32 :: Preimage(WithOffset(toc, k, x)) == Preimage(toc)
  }

  // An offset is lost exactly when its track has no number between the first and the last.
  lemma LostExactly(toc: Toc, k: nat)
    requires k < |toc.trackOffsets|
    ensures Lost(toc, k) <==> !HasNumber(toc, k)
  {
    hide OffsetBlocks, Header;
    if HasNumber(toc, k) {
      var x: u32 := if toc.trackOffsets[k] == 0 then 1 else 0;
      var other := WithOffset(toc, k, x);
      var i: u8 := toc.firstTrack + k;
      assert OffsetOf(toc, i) == toc.trackOffsets[k] && OffsetOf(other, i) == x;
      if Preimage(other) == Preimage(toc) {
        SplitEqual(Header(toc), OffsetBlocks(toc, 99), Header(other), OffsetBlocks(other, 99));
        BlocksDetermineOffsets(toc, other, 99);
      }
    } else {
      forall x: u32
        ensures Preimage(WithOffset(toc, k, x)) == Preimage(toc)
      {
        UnnumberedIsNotPrinted(toc, k, x);
      }
    }
  }

  lemma UnnumberedIsNotPrinted(toc: Toc, k: nat, x: u32)
    requires k < |toc.trackOffsets| && !HasNumber(toc, k)
    ensures Preimage(WithOffset(toc, k, x)) == Preimage(toc)
  {
    var other := WithOffset(toc, k, x);
    assert Header(other) == Header(toc);
    forall i: u8 | 1 <= i <= 99
      ensures OffsetOf(other, i) == OffsetOf(toc, i)
    {
      assert i >= toc.firstTrack ==> (i - toc.firstTrack) % 0x100 == i - toc.firstTrack;
    }
    hide OffsetOf;
    BlocksFollowOffsets(other, toc, 99);
  }

  // First and last track numbers as on a disc.
  predicate Numbered(toc: Toc) { 1 <= toc.firstTrack <= toc.lastTrack <= 99 }

  // The leading offsets, as many as there are track numbers.
  function Printed(toc: Toc): (offsets: seq<u32>)
    requires Numbered(toc)
    ensures |offsets| <= |toc.trackOffsets|
  {
    var numbers := toc.lastTrack - toc.firstTrack + 1;
    if |toc.trackOffsets| > numbers then toc.trackOffsets[..numbers] else toc.trackOffsets
  }

  lemma PrintedAt(toc: Toc, i: u8)
    requires Numbered(toc)
    ensures OffsetOf(toc, i)
         == if toc.firstTrack <= i < toc.firstTrack + |Printed(toc)| then Printed(toc)[i - toc.firstTrack] else 0
  {
    assert i >= toc.firstTrack ==> (i - toc.firstTrack) % 0x100 == i - toc.firstTrack;
  }

  // The string determines the numbers, the lead-out and the printed offsets of an ordered
  // table, and nothing else.
  lemma PreimageShowsExactly(a: Toc, b: Toc)
    requires Numbered(a) && Numbered(b) && Ordered(a) && Ordered(b)
    ensures Preimage(a) == Preimage(b)
       <==> a.firstTrack == b.firstTrack && a.lastTrack == b.lastTrack && a.leadoutSector == b.leadoutSector
            && Printed(a) == Printed(b)
  {
    hide OffsetBlocks, OffsetOf, Header;
    forall i: u8
      ensures OffsetOf(a, i) == if a.firstTrack <= i < a.firstTrack + |Printed(a)| then Printed(a)[i - a.firstTrack] else 0
      ensures OffsetOf(b, i) == if b.firstTrack <= i < b.firstTrack + |Printed(b)| then Printed(b)[i - b.firstTrack] else 0
    {
      PrintedAt(a, i);
      PrintedAt(b, i);
    }
    if Preimage(a) == Preimage(b) {
      SplitEqual(Header(a), OffsetBlocks(a, 99), Header(b), OffsetBlocks(b, 99));
      HeaderDeterminesEnds(a, b);
      BlocksDetermineOffsets(a, b, 99);
      PrintedNotLonger(a, b);
      PrintedNotLonger(b, a);
      forall k | 0 <= k < |Printed(a)|
        ensures Printed(a)[k] == Printed(b)[k]
      {
        var i: u8 := a.firstTrack + k;
        assert OffsetOf(a, i) == OffsetOf(b, i);
      }
    } else if a.firstTrack == b.firstTrack && a.lastTrack == b.lastTrack && a.leadoutSector == b.leadoutSector
              && Printed(a) == Printed(b) {
      BlocksFollowOffsets(a, b, 99);
      SameHeader(a, b);
    }
  }

  lemma SameHeader(a: Toc, b: Toc)
    requires a.firstTrack == b.firstTrack && a.lastTrack == b.lastTrack && a.leadoutSector == b.leadoutSector
    ensures Header(a) == Header(b)
  {
  }

  // Where a prints nothing, b cannot print an offset: only a first offset can be 0.
  lemma PrintedNotLonger(a: Toc, b: Toc)
    requires Numbered(a) && Numbered(b) && Ordered(a) && Ordered(b)
    requires a.firstTrack == b.firstTrack && a.lastTrack == b.lastTrack
    requires forall i: u8 :: 1 <= i <= 99 ==> OffsetOf(a, i) == OffsetOf(b, i)
    ensures |Printed(b)| <= |Printed(a)|
  {
    var n := |Printed(a)|;
    if n < |Printed(b)| {
      assert b.trackOffsets[n - 1] < b.trackOffsets[n];
      var i: u8 := a.firstTrack + n;
      PrintedAt(a, i);
      PrintedAt(b, i);
      assert false;
    }
  }

  // Of an ordered table some offset is lost exactly when it has more offsets than numbers, and
  // then a shorter table shares its string.
  lemma ShorterTableSharesString(toc: Toc)
    requires Numbered(toc) && Ordered(toc)
    ensures var shorter := toc.(trackOffsets := Printed(toc));
            && Ordered(shorter) && Preimage(shorter) == Preimage(toc)
            && (shorter != toc <==> |toc.trackOffsets| > toc.lastTrack - toc.firstTrack + 1)
            && (shorter != toc <==> exists k :: 0 <= k < |toc.trackOffsets| && Lost(toc, k))
  {
    hide Preimage, Lost;
    var shorter := toc.(trackOffsets := Printed(toc));
    OffsetsAscend(toc, |shorter.trackOffsets| - 1, |toc.trackOffsets| - 1);
    assert Printed(shorter) == Printed(toc);
    PreimageShowsExactly(toc, shorter);
    forall k | 0 <= k < |toc.trackOffsets|
      ensures Lost(toc, k) <==> k >= toc.lastTrack - toc.firstTrack + 1
    {
      LostExactly(toc, k);
    }
    if |toc.trackOffsets| > toc.lastTrack - toc.firstTrack + 1 {
      assert Lost(toc, |toc.trackOffsets| - 1);
    }
  }

  lemma {:induction false} OffsetsAscend(toc: Toc, i: nat, j: nat)
    requires Ordered(toc) && i <= j < |toc.trackOffsets|
    ensures toc.trackOffsets[i] <= toc.trackOffsets[j]
    decreases j
  {
    if i < j {
      OffsetsAscend(toc, i, j - 1);
      assert toc.trackOffsets[j - 1] < toc.trackOffsets[j - 1 + 1];
    }
  }

  // Without a lost offset the string determines the ordered table, gaps in the numbers or not.
  lemma PreimageDeterminesOrderedToc(a: Toc, b: Toc)
    requires Numbered(a) && Numbered(b) && Ordered(a) && Ordered(b)
    requires |a.trackOffsets| <= a.lastTrack - a.firstTrack + 1 && |b.trackOffsets| <= b.lastTrack - b.firstTrack + 1
    ensures Preimage(a) == Preimage(b) <==> a == b
  {
    hide Preimage;
    PreimageShowsExactly(a, b);
  }

  // ---------------------------------------------------------------- digit by digit

  // Digit k from the right stands for the k-th power of sixteen.
  lemma {:induction false} HexDigitAt(digits: string, n: nat, width: nat, k: nat)
    requires |digits| == 16 && k < width
    ensures Hex(digits, n, width)[width - 1 - k] == digits[n / Pow16(k) % 16]
    decreases width
  {
    if k > 0 {
      HexDigitAt(digits, n / 16, width - 1, k - 1);
      DivideTwice(n, Pow16(k - 1));
    }
  }

  lemma DivideTwice(n: nat, p: nat)
    requires p > 0
    ensures n / 16 / p == n / (16 * p)
  {
    var q := n / (16 * p);
    assert n == 16 * p * q + n % (16 * p);
    var r := n % (16 * p);
    assert n / 16 == p * q + r / 16 by {
      assert 16 * p * q == 16 * (p * q);
    }
    assert 0 <= r / 16 < p;
    QuotientIs(p, q, r / 16);
  }

  lemma QuotientIs(p: int, q: int, r: int)
    requires 0 <= r < p
    ensures (p * q + r) / p == q
  {
    var x := p * q + r;
    var d := x / p - q;
    assert x == p * (x / p) + x % p;
    assert p * (x / p) == p * q + p * d;
    assert -p < p * d < p;
    NoMultipleBetween(p, d);
  }

  lemma NoMultipleBetween(p: int, d: int)
    requires -p < p * d < p
    ensures d == 0
  {
  }

  lemma {:induction false} BlockAt(toc: Toc, n: nat, i: u8)
    requires 1 <= i <= n <= 99
    ensures OffsetBlocks(toc, n)[8 * (i as int) - 8..8 * (i as int)] == Hex(UPPER, OffsetOf(toc, i), 8)
  {
    hide OffsetOf, Hex;
    if i < n {
      BlockAt(toc, n - 1, i);
      assert OffsetBlocks(toc, n)[..8 * (n - 1)] == OffsetBlocks(toc, n - 1);
      assert OffsetBlocks(toc, n)[8 * (i as int) - 8..8 * (i as int)]
          == OffsetBlocks(toc, n)[..8 * (n - 1)][8 * (i as int) - 8..8 * (i as int)];
    }
  }

  // Eight hexadecimal digits of the number, in the string from this place.
  ghost predicate Digits8At(digits: string, s: string, at: nat, x: nat)
    requires |digits| == 16 && at + 8 <= |s|
  {
    && s[at] == digits[x / 0x1000_0000 % 16] && s[at + 1] == digits[x / 0x100_0000 % 16]
    && s[at + 2] == digits[x / 0x10_0000 % 16] && s[at + 3] == digits[x / 0x1_0000 % 16]
    && s[at + 4] == digits[x / 0x1000 % 16] && s[at + 5] == digits[x / 0x100 % 16]
    && s[at + 6] == digits[x / 0x10 % 16] && s[at + 7] == digits[x % 16]
  }

  ghost predicate Digits2At(digits: string, s: string, at: nat, x: u8)
    requires |digits| == 16 && at + 2 <= |s|
  {
    s[at] == digits[(x as int) / 16 % 16] && s[at + 1] == digits[(x as int) % 16]
  }

  lemma Powers16()
    ensures Pow16(0) == 1 && Pow16(1) == 0x10 && Pow16(2) == 0x100 && Pow16(3) == 0x1000 && Pow16(4) == 0x1_0000
    ensures Pow16(5) == 0x10_0000 && Pow16(6) == 0x100_0000 && Pow16(7) == 0x1000_0000
  {
    assert Pow16(1) == 16 * Pow16(0);
    assert Pow16(2) == 16 * Pow16(1);
    assert Pow16(3) == 16 * Pow16(2);
    assert Pow16(4) == 16 * Pow16(3);
    assert Pow16(5) == 16 * Pow16(4);
    assert Pow16(6) == 16 * Pow16(5);
    assert Pow16(7) == 16 * Pow16(6);
  }

  lemma HexIsDigits8(digits: string, s: string, at: nat, x: nat)
    requires |digits| == 16 && at + 8 <= |s| && s[at..at + 8] == Hex(digits, x, 8)
    ensures Digits8At(digits, s, at, x)
  {
    Powers16();
    var hex := s[at..at + 8];
    assert hex[0] == s[at] && hex[1] == s[at + 1] && hex[2] == s[at + 2] && hex[3] == s[at + 3];
    assert hex[4] == s[at + 4] && hex[5] == s[at + 5] && hex[6] == s[at + 6] && hex[7] == s[at + 7];
    hide Hex, Pow16;
    HexDigitAt(digits, x, 8, 0);
    HexDigitAt(digits, x, 8, 1);
    HexDigitAt(digits, x, 8, 2);
    HexDigitAt(digits, x, 8, 3);
    HexDigitAt(digits, x, 8, 4);
    HexDigitAt(digits, x, 8, 5);
    HexDigitAt(digits, x, 8, 6);
    HexDigitAt(digits, x, 8, 7);
  }

  lemma HexIsDigits2(digits: string, s: string, at: nat, x: u8)
    requires |digits| == 16 && at + 2 <= |s| && s[at..at + 2] == Hex(digits, x, 2)
    ensures Digits2At(digits, s, at, x)
  {
    Powers16();
    var hex := s[at..at + 2];
    assert hex[0] == s[at] && hex[1] == s[at + 1];
    hide Hex, Pow16;
    HexDigitAt(digits, x, 2, 0);
    HexDigitAt(digits, x, 2, 1);
  }

  lemma PartsOfHeader(toc: Toc)
    ensures Header(toc)[0..2] == Hex(UPPER, toc.firstTrack, 2)
    ensures Header(toc)[2..4] == Hex(UPPER, toc.lastTrack, 2)
    ensures Header(toc)[4..12] == Hex(UPPER, toc.leadoutSector, 8)
  {
    hide Hex;
  }

  lemma PartsOfPreimage(toc: Toc)
    ensures Preimage(toc)[..12] == Header(toc) && Preimage(toc)[12..] == OffsetBlocks(toc, 99)
  {
    hide Header, OffsetBlocks;
  }

  // A slice of a slice, by its place in the whole.
  lemma SliceInside(s: string, lo: nat, hi: nat, from: nat, to: nat)
    requires lo <= hi <= |s| && from <= to <= hi - lo
    ensures s[lo..hi][from..to] == s[lo + from..lo + to]
  {
    var a, b := s[lo..hi][from..to], s[lo + from..lo + to];
    assert forall k :: 0 <= k < to - from ==> a[k] == s[lo + from + k] && b[k] == s[lo + from + k];
  }

  lemma OffsetOfNumber(toc: Toc, i: u8)
    ensures OffsetOf(toc, i)
         == if toc.firstTrack <= i <= toc.lastTrack && i - toc.firstTrack < |toc.trackOffsets|
            then toc.trackOffsets[i - toc.firstTrack] else 0
  {
    assert i >= toc.firstTrack ==> (i - toc.firstTrack) % 0x100 == i - toc.firstTrack;
  }

  lemma HeaderDigits(toc: Toc)
    ensures var (s, digits) := (Preimage(toc), UPPER);
            Digits2At(digits, s, 0, toc.firstTrack) && Digits2At(digits, s, 2, toc.lastTrack)
            && Digits8At(digits, s, 4, toc.leadoutSector)
  {
    PartsOfHeader(toc);
    PartsOfPreimage(toc);
    hide Preimage, Header, Hex, Digits8At, Digits2At;
    var s := Preimage(toc);
    SliceInside(s, 0, 12, 0, 2);
    SliceInside(s, 0, 12, 2, 4);
    SliceInside(s, 0, 12, 4, 12);
    HexIsDigits2(UPPER, s, 0, toc.firstTrack);
    HexIsDigits2(UPPER, s, 2, toc.lastTrack);
    HexIsDigits8(UPPER, s, 4, toc.leadoutSector);
  }

  lemma BlockDigits(toc: Toc, i: u8)
    requires 1 <= i <= 99
    ensures Digits8At(UPPER, Preimage(toc), 4 + 8 * (i as int), OffsetOf(toc, i))
  {
    BlockAt(toc, 99, i);
    PartsOfPreimage(toc);
    hide Preimage, OffsetBlocks, Hex, Digits8At, OffsetOf;
    var s, at := Preimage(toc), 8 * (i as int) - 8;
    SliceInside(s, 12, 804, at, at + 8);
    HexIsDigits8(UPPER, s, 12 + at, OffsetOf(toc, i));
  }

  // The hashed string: two digits each of the first and the last number, eight of the lead-out,
  // then eight for each number from 1 to 99, the offset of the track of that number or zero.
  lemma PreimageDigits(toc: Toc, i: u8)
    requires 1 <= i <= 99
    ensures var (s, digits) := (Preimage(toc), "0123456789ABCDEF");
            && |s| == 804
            && Digits2At(digits, s, 0, toc.firstTrack) && Digits2At(digits, s, 2, toc.lastTrack)
            && Digits8At(digits, s, 4, toc.leadoutSector)
            && Digits8At(digits, s, 4 + 8 * (i as int),
                         if toc.firstTrack <= i <= toc.lastTrack && i - toc.firstTrack < |toc.trackOffsets|
                         then toc.trackOffsets[i - toc.firstTrack] else 0)
  {
    HeaderDigits(toc);
    BlockDigits(toc, i);
    OffsetOfNumber(toc, i);
    hide Preimage, Digits8At, Digits2At, OffsetOf;
  }

  // ---------------------------------------------------------------- FreeDB / CDDB

  ghost function DigitSumOf(n: nat): nat {
    if n == 0 then 0 else n % 10 + DigitSumOf(n / 10)
  }

  method DigitSum(n: u32) returns (sum: nat)
    ensures sum == DigitSumOf(n)
  {
    var rest: nat := n;
    sum := 0;
    while rest > 0
      invariant sum + DigitSumOf(rest) == DigitSumOf(n)
    {
      sum := sum + rest % 10;
      rest := rest / 10;
    }
  }

  // Bitwise or.
  function BitOr(a: nat, b: nat): nat
    decreases a + b
  {
    if a == 0 then b
    else if b == 0 then a
    else 2 * BitOr(a / 2, b / 2) + if a % 2 == 1 || b % 2 == 1 then 1 else 0
  }

  function Pow2(k: nat): nat { if k == 0 then 1 else 2 * Pow2(k - 1) }

  // Disjoint bits: or is addition.
  lemma {:induction false} OrOfDisjoint(high: nat, low: nat, k: nat)
    requires low < Pow2(k)
    ensures BitOr(high * Pow2(k), low) == high * Pow2(k) + low
    decreases k
  {
    if k > 0 {
      var a := high * Pow2(k);
      assert a == 2 * (high * Pow2(k - 1));
      if a != 0 && low != 0 {
        assert a / 2 == high * Pow2(k - 1) && a % 2 == 0;
        OrOfDisjoint(high, low / 2, k - 1);
      }
    }
  }

  ghost function SecondsDigits(offsets: seq<u32>): nat {
    if offsets == [] then 0
    else SecondsDigits(offsets[..|offsets| - 1]) + DigitSumOf(offsets[|offsets| - 1] / 75)
  }

  function FirstOffset(toc: Toc): u32 { if toc.trackOffsets == [] then 0 else toc.trackOffsets[0] }

  // What the arithmetic of the identifier needs of its table.
  predicate Countable(toc: Toc) {
    FirstOffset(toc) <= toc.leadoutSector && toc.firstTrack <= toc.lastTrack && toc.lastTrack - toc.firstTrack < 0xFF
  }

  ghost function PlayingSeconds(toc: Toc): nat
    requires Countable(toc)
  {
    (toc.leadoutSector - FirstOffset(toc)) / 75
  }

  function TrackCount(toc: Toc): (n: nat)
    requires Countable(toc)
    ensures 1 <= n <= 0xFF
  {
    toc.lastTrack - toc.firstTrack + 1
  }

  ghost function CddbNumber(toc: Toc): nat
    requires Countable(toc)
  {
    BitOr(BitOr(Wrap32(SecondsDigits(toc.trackOffsets)) % 0xFF * 0x100_0000,
                Wrap32(PlayingSeconds(toc) * 0x100)),
          TrackCount(toc))
  }

  method CddbDiscid(toc: Toc) returns (s: string)
    requires Countable(toc)
    ensures s == Hex(LOWER, CddbNumber(toc), 8)
  {
    hide Hex, BitOr, DigitSumOf;
    var n: u32 := 0;
    for i := 0 to |toc.trackOffsets|
      invariant n == Wrap32(SecondsDigits(toc.trackOffsets[..i]))
    {
      assert toc.trackOffsets[..i + 1][..i] == toc.trackOffsets[..i];
      var seconds := toc.trackOffsets[i] / 75;
      var digits := DigitSum(seconds);
      WrapAdd(SecondsDigits(toc.trackOffsets[..i]), digits);
      n := Wrap32(n + digits);
    }
    assert toc.trackOffsets[..|toc.trackOffsets|] == toc.trackOffsets;
    var t := (toc.leadoutSector - FirstOffset(toc)) / 75;
    var id := BitOr(BitOr(n % 0xFF * 0x100_0000, Wrap32(t * 0x100)), TrackCount(toc) % 0x100);
    s := Hex(LOWER, id, 8);
  }

  lemma PowersOf2()
    ensures Pow2(8) == 0x100 && Pow2(24) == 0x100_0000
  {
    assert Pow2(4) == 16 && Pow2(8) == 16 * Pow2(4);
    assert Pow2(12) == 16 * Pow2(8) && Pow2(16) == 16 * Pow2(12);
    assert Pow2(20) == 16 * Pow2(16) && Pow2(24) == 16 * Pow2(20);
  }

  // The identifier's bytes are the digit sum modulo 255, the playing seconds and the track
  // count, and the seconds can be read back exactly when they fit 16 bits.
  lemma CddbDecodes(toc: Toc)
    requires Countable(toc) && PlayingSeconds(toc) < 0x1_0000
    ensures var id := CddbNumber(toc);
            && id < TWO_32
            && id / 0x100_0000 == Wrap32(SecondsDigits(toc.trackOffsets)) % 0xFF
            && id / 0x100 % 0x1_0000 == PlayingSeconds(toc)
            && id % 0x100 == TrackCount(toc)
  {
    hide SecondsDigits, BitOr;
    var digits, t, count := Wrap32(SecondsDigits(toc.trackOffsets)) % 0xFF, PlayingSeconds(toc), TrackCount(toc);
    assert Wrap32(t * 0x100) == t * 0x100;
    hide Wrap32, PlayingSeconds;
    OrOfBytes(digits, t, count);
    BytesDecode(digits, t, count);
  }

  lemma BytesDecode(digits: nat, t: nat, count: nat)
    requires digits < 0x100 && t < 0x1_0000 && count < 0x100
    ensures var id := digits * 0x100_0000 + t * 0x100 + count;
            id < TWO_32 && id / 0x100_0000 == digits && id / 0x100 % 0x1_0000 == t && id % 0x100 == count
  {
    var id := digits * 0x100_0000 + t * 0x100 + count;
    assert id / 0x100 == digits * 0x1_0000 + t;
  }

  lemma OrOfBytes(digits: nat, t: nat, count: nat)
    requires digits < 0x100 && t < 0x1_0000 && count < 0x100
    ensures BitOr(BitOr(digits * 0x100_0000, t * 0x100), count) == digits * 0x100_0000 + t * 0x100 + count
  {
    PowersOf2();
    OrOfDisjoint(digits, t * 0x100, 24);
    OrOfDisjoint(digits * 0x1_0000 + t, count, 8);
    assert (digits * 0x1_0000 + t) * 0x100 == digits * 0x100_0000 + t * 0x100;
  }

  lemma OrOfDoubles(a: nat, b: nat)
    ensures BitOr(2 * a, 2 * b) == 2 * BitOr(a, b)
  {
  }

  lemma OrOfMultiples(a: nat, b: nat)
    ensures BitOr(0x100 * a, 0x100 * b) == 0x100 * BitOr(a, b)
  {
    hide BitOr;
    OrOfDoubles(a, b);
    OrOfDoubles(2 * a, 2 * b);
    OrOfDoubles(4 * a, 4 * b);
    OrOfDoubles(8 * a, 8 * b);
    OrOfDoubles(0x10 * a, 0x10 * b);
    OrOfDoubles(0x20 * a, 0x20 * b);
    OrOfDoubles(0x40 * a, 0x40 * b);
    OrOfDoubles(0x80 * a, 0x80 * b);
  }

  lemma WrappedMultiple(t: nat)
    ensures Wrap32(t * 0x100) == 0x100 * (t % 0x100_0000)
  {
  }

  // The lowest byte is the track count, whatever the playing time.
  lemma CountByte(toc: Toc)
    requires Countable(toc)
    ensures CddbNumber(toc) % 0x100 == TrackCount(toc)
  {
    hide SecondsDigits, PlayingSeconds, Wrap32, BitOr;
    WrappedMultiple(PlayingSeconds(toc));
    var digits := Wrap32(SecondsDigits(toc.trackOffsets)) % 0xFF;
    OrWithLowByte(digits * 0x1_0000, PlayingSeconds(toc) % 0x100_0000, TrackCount(toc));
    assert 0x100 * (digits * 0x1_0000) == digits * 0x100_0000;
  }

  lemma OrWithLowByte(high: nat, middle: nat, low: nat)
    requires low < 0x100
    ensures BitOr(BitOr(0x100 * high, 0x100 * middle), low) % 0x100 == low
  {
    PowersOf2();
    hide BitOr, Pow2;
    OrOfMultiples(high, middle);
    OrOfDisjoint(BitOr(high, middle), low, 8);
    LowByte(BitOr(high, middle), low);
  }

  lemma LowByte(high: nat, low: nat)
    requires low < 0x100
    ensures (high * 0x100 + low) % 0x100 == low
  {
  }

  // The playing time can be read back exactly when it fits 16 bits.
  lemma SecondsReadBackExactly(toc: Toc)
    requires Countable(toc)
    ensures CddbNumber(toc) / 0x100 % 0x1_0000 == PlayingSeconds(toc) <==> PlayingSeconds(toc) < 0x1_0000
  {
    if PlayingSeconds(toc) < 0x1_0000 {
      CddbDecodes(toc);
    }
  }

  // ---------------------------------------------------------------- AccurateRip

  function Lsn(sector: u32): u32 { SaturatingSub(sector, LEAD_IN_FRAMES) }

  // An offset at sector 0 of the audio still contributes its track number.
  function LsnOr1(sector: u32): u32 { if Lsn(sector) == 0 then 1 else Lsn(sector) }

  ghost function LsnSum(offsets: seq<u32>): nat {
    if offsets == [] then 0 else LsnSum(offsets[..|offsets| - 1]) + Lsn(offsets[|offsets| - 1])
  }

  // Sum of offset times track number, the first track numbered `first`.
  ghost function LsnProducts(offsets: seq<u32>, first: nat): nat {
    if offsets == [] then 0
    else LsnProducts(offsets[..|offsets| - 1], first) + LsnOr1(offsets[|offsets| - 1]) * (first + |offsets| - 1)
  }

  lemma NoSums(offsets: seq<u32>, first: nat)
    ensures LsnSum(offsets[..0]) == 0 && LsnProducts(offsets[..0], first) == 0
  {
  }

  lemma SumsStep(offsets: seq<u32>, i: nat, first: nat, x: nat, y: nat)
    requires i < |offsets|
    ensures Wrap32(LsnSum(offsets[..i + 1]) + x) == WrappingAdd(Wrap32(LsnSum(offsets[..i]) + x), Lsn(offsets[i]))
    ensures Wrap32(LsnProducts(offsets[..i + 1], first) + y)
         == WrappingAdd(Wrap32(LsnProducts(offsets[..i], first) + y), Wrap32(LsnOr1(offsets[i]) * (first + i)))
  {
    hide Lsn, LsnOr1;
    assert offsets[..i + 1][..i] == offsets[..i];
    var product := LsnOr1(offsets[i]) * (first + i);
    var sum, products := LsnSum(offsets[..i]) + x, LsnProducts(offsets[..i], first) + y;
    assert LsnSum(offsets[..i + 1]) + x == sum + Lsn(offsets[i]);
    assert LsnProducts(offsets[..i + 1], first) + y == products + product;
    WrapAdd(sum, Lsn(offsets[i]));
    WrapAdd(products, Wrap32(product));
    WrapAdd(product, products);
  }

  method AccurateRipIds(toc: Toc) returns (id1: string, id2: string, cddb: string)
    requires Countable(toc)
    ensures id1 == Hex(LOWER, Wrap32(LsnSum(toc.trackOffsets) + Lsn(toc.leadoutSector)), 8)
    ensures id2 == Hex(LOWER, Wrap32(LsnProducts(toc.trackOffsets, toc.firstTrack)
                                     + Lsn(toc.leadoutSector) * (TrackCount(toc) + 1)), 8)
    ensures cddb == Hex(LOWER, CddbNumber(toc), 8)
  {
    hide Hex, CddbNumber, LsnOr1, Lsn, LsnSum, LsnProducts, WrappingAdd;
    var leadout := Lsn(toc.leadoutSector);
    var n1: u32 := leadout;
    var n2: u32 := Wrap32(leadout * (TrackCount(toc) + 1));
    ghost var start := leadout * (TrackCount(toc) + 1);
    NoSums(toc.trackOffsets, toc.firstTrack);
    for i := 0 to |toc.trackOffsets|
      invariant n1 == Wrap32(LsnSum(toc.trackOffsets[..i]) + leadout)
      invariant n2 == Wrap32(LsnProducts(toc.trackOffsets[..i], toc.firstTrack) + start)
    {
      var l := Lsn(toc.trackOffsets[i]);
      var product := LsnOr1(toc.trackOffsets[i]) * (toc.firstTrack + i);
      SumsStep(toc.trackOffsets, i, toc.firstTrack, leadout, start);
      n1 := WrappingAdd(n1, l);
      n2 := WrappingAdd(n2, Wrap32(product));
    }
    assert toc.trackOffsets[..|toc.trackOffsets|] == toc.trackOffsets;
    id1 := Hex(LOWER, n1, 8);
    id2 := Hex(LOWER, n2, 8);
    cddb := CddbDiscid(toc);
  }

  // Seconds are whole seventy-fifths; the digit sum adds decimal digits. An offset counts from
  // the lead-in of 150 sectors, in the second sum as at least 1, times its track number.
  lemma SumsInNumbers(offsets: seq<u32>, x: u32, first: nat, n: nat, digit: nat)
    requires digit < 10
    ensures DigitSumOf(0) == 0 && DigitSumOf(10 * n + digit) == DigitSumOf(n) + digit
    ensures SecondsDigits([]) == 0 && SecondsDigits(offsets + [x]) == SecondsDigits(offsets) + DigitSumOf(x / 75)
    ensures LsnSum([]) == 0 && LsnSum(offsets + [x]) == LsnSum(offsets) + if x < 150 then 0 else x - 150
    ensures LsnProducts([], first) == 0
    ensures LsnProducts(offsets + [x], first)
         == LsnProducts(offsets, first) + (if x <= 150 then 1 else x - 150) * (first + |offsets|)
    ensures Lsn(x) == if x < 150 then 0 else x - 150
  {
    assert (offsets + [x])[..|offsets|] == offsets;
    assert (10 * n + digit) / 10 == n && (10 * n + digit) % 10 == digit;
  }

  // The number counts the tracks from the first to the last and plays from the first offset to
  // the lead-out; its text, and that of the two AccurateRip sums, is eight lower-case digits.
  lemma CddbInNumbers(toc: Toc, x: nat)
    requires Countable(toc) && toc.trackOffsets != []
    ensures TrackCount(toc) == toc.lastTrack - toc.firstTrack + 1
    ensures PlayingSeconds(toc) == (toc.leadoutSector - toc.trackOffsets[0]) / 75
    ensures Digits8At("0123456789abcdef", Hex(LOWER, x, 8), 0, x)
  {
    hide Digits8At, Hex;
    HexIsDigits8(LOWER, Hex(LOWER, x, 8), 0, x);
  }

  // Moving one later track's start by one sector, all else equal, changes the first
  // AccurateRip identifier by one and the second by the track number.
  lemma {:induction false} LaterStartShiftsIds(a: seq<u32>, sector: u32, b: seq<u32>, first: nat)
    requires sector > LEAD_IN_FRAMES && sector + 1 < TWO_32
    ensures LsnSum(a + [sector + 1] + b) == LsnSum(a + [sector] + b) + 1
    ensures LsnProducts(a + [sector + 1] + b, first) == LsnProducts(a + [sector] + b, first) + first + |a|
    decreases |b|
  {
    var x, y := a + [sector + 1] + b, a + [sector] + b;
    if b == [] {
      assert x[..|a|] == a == y[..|a|];
      assert x[|a|] == sector + 1 && y[|a|] == sector;
      assert LsnOr1(sector + 1) * (first + |a|) == LsnOr1(sector) * (first + |a|) + (first + |a|);
    } else {
      var front := b[..|b| - 1];
      LaterStartShiftsIds(a, sector, front, first);
      assert x[..|x| - 1] == a + [sector + 1] + front;
      assert y[..|y| - 1] == a + [sector] + front;
      assert x[|x| - 1] == y[|y| - 1] == b[|b| - 1];
    }
  }
}
