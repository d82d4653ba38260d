/**
 The 16-bit one's complement checksum of an ICMP packet, summed in a 32-bit register and folded
 twice.
 */
module Checksum {
  type Byte = b: int | 0 <= b < 256

  const WORD := 0x1_0000
  const REGISTER := 0x1_0000_0000

  function Word(lo: Byte, hi: Byte): (w: nat)
    ensures w < WORD && w % 256 == lo && w / 256 == hi
  {
    var l: int, h: int := lo, hi;
    l + 256 * h
  }

  /** The words of a packet from byte `i` on, low byte first; an odd last byte is a word of its own. */
  function Sum(b: seq<Byte>, i: nat): nat
    decreases |b| - i
  {
    if i >= |b| then 0
    else if i + 1 == |b| then b[i]
    else Word(b[i], b[i + 1]) + Sum(b, i + 2)
  }

  /** The carries of a sum added back in, twice. */
  function Fold(s: nat): nat {
    var once := s / WORD + s % WORD;
    (once + once / WORD) % WORD
  }

  function ChecksumOf(b: seq<Byte>): nat {
    WORD - 1 - Fold(Sum(b, 0))
  }

  // ----- Folding

  /** Two folds leave no carry: what remains differs by a multiple of 65535, and is zero for zero only. */
  lemma {:induction false} FoldIs(s: nat) returns (q: nat)
    requires s < REGISTER
    ensures s == (WORD - 1) * q + Fold(s) && Fold(s) < WORD && (Fold(s) == 0 <==> s == 0)
  {
    var h, l := s / WORD, s % WORD;
    var once := h + l;
    var h1, l1 := once / WORD, once % WORD;
    assert h < WORD && l < WORD && h1 <= 1;
    assert Fold(s) == if h1 == 0 then once else l1 + 1;
    q := h + h1;
  }

  /** The checksum is zero exactly for sums that are positive multiples of 65535. */
  lemma {:induction false} ZeroMeans(s: nat, t: int)
    requires s < REGISTER && s == (WORD - 1) * t
    ensures Fold(s) == if s == 0 then 0 else WORD - 1
  {
    var q := FoldIs(s);
    assert Fold(s) == (WORD - 1) * (t - q);
  }

  // ----- Sums

  lemma {:induction false} SumBound(b: seq<Byte>, i: nat)
    ensures 2 * Sum(b, i) <= (WORD - 1) * (if i < |b| then |b| - i + (|b| - i) % 2 else 0)
    decreases |b| - i
  {
    if i + 1 < |b| { SumBound(b, i + 2); }
  }

  /** Up to 131074 bytes the register does not overflow. */
  lemma {:induction false} SumFits(b: seq<Byte>)
    requires |b| <= 131074
    ensures Sum(b, 0) < REGISTER
  {
    SumBound(b, 0);
  }

  /** One byte more, and it can. */
  lemma {:induction false} SumOverflows(b: seq<Byte>)
    requires |b| == 131075 && forall i :: 0 <= i < |b| ==> b[i] == 255
    ensures Sum(b, 0) >= REGISTER
  {
    AllOnes(b, 0, 65537);
  }

  lemma {:induction false} AllOnes(b: seq<Byte>, i: nat, words: nat)
    requires i + 2 * words < |b| && forall j :: 0 <= j < |b| ==> b[j] == 255
    ensures Sum(b, i) == (WORD - 1) * words + Sum(b, i + 2 * words)
    ensures Sum(b, i + 2 * words) >= 255
    decreases words
  {
    if words > 0 { AllOnes(b, i + 2, words - 1); }
  }

  ghost function WordAt(b: seq<Byte>, k: nat): int
    requires k + 1 < |b|
  {
    Word(b[k], b[k + 1])
  }

  lemma {:induction false} SumPadded(b: seq<Byte>, i: nat)
    requires |b| % 2 == 1 && i % 2 == 0
    ensures Sum(b + [0], i) == Sum(b, i)
    decreases |b| - i
  {
    if i + 1 < |b| { SumPadded(b, i + 2); }
  }

  /** A packet of odd length has the checksum of the packet with a zero byte behind it. */
  lemma {:induction false} OddIsPadded(b: seq<Byte>)
    requires |b| % 2 == 1
    ensures ChecksumOf(b + [0]) == ChecksumOf(b)
  {
    SumPadded(b, 0);
  }

  /** The order of the two halves of a packet, cut at a word, does not matter to its sum. */
  lemma {:induction false} SumJoined(b: seq<Byte>, c: seq<Byte>, i: nat)
    requires |b| % 2 == 0 && i % 2 == 0 && i <= |b|
    ensures Sum(b + c, i) == Sum(b, i) + Sum(c, 0)
    decreases |b| - i
  {
    if i < |b| {
      SumJoined(b, c, i + 2);
    } else {
      SumShifted(b, c, 0);
    }
  }

  lemma {:induction false} SumShifted(b: seq<Byte>, c: seq<Byte>, i: nat)
    ensures Sum(b + c, |b| + i) == Sum(c, i)
    decreases |c| - i
  {
    if i + 1 < |c| { SumShifted(b, c, i + 2); }
  }

  /** Changing an aligned word changes the sum by as much. */
  lemma {:induction false} SumChanged(b: seq<Byte>, c: seq<Byte>, k: nat, i: nat)
    requires |b| == |c| && k + 1 < |b| && k % 2 == 0 && i % 2 == 0
    requires forall j :: 0 <= j < |b| && j != k && j != k + 1 ==> b[j] == c[j]
    ensures Sum(c, i) == Sum(b, i) + if i <= k then WordAt(c, k) - WordAt(b, k) else 0
    decreases |b| - i
  {
    if i + 1 < |b| { SumChanged(b, c, k, i + 2); }
  }

  /** With its checksum in place of a zero word, a packet has the checksum zero. */
  lemma {:induction false} StampedIsZero(b: seq<Byte>, c: seq<Byte>, k: nat)
    requires |b| == |c| <= 131074 && k + 1 < |b| && k % 2 == 0
    requires forall j :: 0 <= j < |b| && j != k && j != k + 1 ==> b[j] == c[j]
    requires WordAt(b, k) == 0 && WordAt(c, k) == ChecksumOf(b)
    ensures ChecksumOf(c) == 0
  {
    hide Sum, Fold;
    SumFits(b);
    SumFits(c);
    SumChanged(b, c, k, 0);
    var q := FoldIs(Sum(b, 0));
    ZeroMeans(Sum(c, 0), q + 1);
  }

  /** Two sums fold to the same word exactly when they leave the same remainder and are both zero or neither. */
  lemma {:induction false} FoldsAlike(x: nat, y: nat, d: nat)
    requires x < REGISTER && y < REGISTER && x == y + d && d < WORD
    ensures Fold(x) == Fold(y) <==> d == 0 || (d == WORD - 1 && y != 0)
  {
    hide Fold;
    var q := FoldIs(x);
    var r := FoldIs(y);
    assert Fold(x) - Fold(y) == d - (WORD - 1) * (q - r);
  }

  /**
   Changing one aligned word leaves the checksum as it was exactly when the word is swapped for the other
   spelling of zero in a packet with something else in it.
   */
  lemma {:induction false} ChangeIsSeen(b: seq<Byte>, c: seq<Byte>, k: nat)
    requires |b| == |c| <= 131074 && k + 1 < |b| && k % 2 == 0
    requires forall j :: 0 <= j < |b| && j != k && j != k + 1 ==> b[j] == c[j]
    ensures ChecksumOf(b) == ChecksumOf(c) <==>
              || WordAt(b, k) == WordAt(c, k)
              || ({WordAt(b, k), WordAt(c, k)} == {0, WORD - 1} && Sum(b, 0) != WordAt(b, k))
  {
    hide Sum, Fold;
    SumFits(b);
    SumFits(c);
    SumChanged(b, c, k, 0);
    if WordAt(b, k) >= WordAt(c, k) {
      FoldsAlike(Sum(b, 0), Sum(c, 0), WordAt(b, k) - WordAt(c, k));
    } else {
      FoldsAlike(Sum(c, 0), Sum(b, 0), WordAt(c, k) - WordAt(b, k));
    }
  }

  // ----- The program

  /** What the register keeps of a number. */
  function Wrapped(x: nat): (r: nat)
    ensures r < REGISTER && (x < REGISTER ==> r == x)
  {
    x % REGISTER
  }

  lemma {:induction false} WrappedPlus(x: nat, y: nat)
    ensures Wrapped(Wrapped(x) + y) == Wrapped(x + y)
  {
    assert x == REGISTER * (x / REGISTER) + x % REGISTER;
  }

  method Finish(sum: nat) returns (r: int)
    requires sum < REGISTER
    ensures r == WORD - 1 - Fold(sum)
  {
    var cksum := sum / WORD + sum % WORD;
    cksum := cksum + cksum / WORD;
    r := (REGISTER - 1 - cksum) % WORD;
  }

  method ComputeChecksum(buffer: array<Byte>, size: nat) returns (r: int)
    requires size <= buffer.Length
    ensures r == WORD - 1 - Fold(Wrapped(Sum(buffer[..size], 0)))
    ensures size <= 131074 ==> r == ChecksumOf(buffer[..size])
  {
    hide Fold, Wrapped;
    ghost var b := buffer[..size];
    if size <= 131074 { SumFits(b); }
    var cksum: nat, i, left := 0, 0, size;
    while left > 1
      invariant 0 <= left == size - i && 0 <= i && cksum < REGISTER && Wrapped(cksum + Sum(b, i)) == Wrapped(Sum(b, 0))
      decreases left
    {
      WrappedPlus(cksum + Word(buffer[i], buffer[i + 1]), Sum(b, i + 2));
      cksum := Wrapped(cksum + Word(buffer[i], buffer[i + 1]));
      i := i + 2;
      left := left - 2;
    }
    if left != 0 {
      cksum := Wrapped(cksum + buffer[i]);
    }
    r := Finish(cksum);
  }

  /** The checksum field is cleared, and then set to the checksum of the packet. */
  method Stamp(buffer: array<Byte>, size: nat)
    requires 4 <= size <= buffer.Length && size <= 131074
    modifies buffer
    ensures ChecksumOf(buffer[..size]) == 0
    ensures forall i :: 0 <= i < buffer.Length && i != 2 && i != 3 ==> buffer[i] == old(buffer[i])
  {
    buffer[2], buffer[3] := 0, 0;
    ghost var b := buffer[..size];
    var c := ComputeChecksum(buffer, size);
    assert 0 <= c < WORD;
    buffer[2], buffer[3] := c % 256, c / 256;
    StampedIsZero(b, buffer[..size], 2);
  }
}
