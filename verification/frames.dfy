/** The frame layout a log scanner reads: aligned, length-prefixed frames laid
    end to end in a term buffer.

    The byte layout of a header is not modelled. A term buffer is its capacity
    and a function giving, for every offset, the header fields the scanner
    reads there: the frame length (0 while the frame is unwritten) and whether
    the frame is a padding frame. */
module Frames {

  /** 1, 2, 4, 8, ... */
  predicate IsPowerOfTwo(a: int)
    decreases a
  {
    a == 1 || (a > 1 && a % 2 == 0 && IsPowerOfTwo(a / 2))
  }

  lemma PowerOfTwoIsPositive(a: int)
    requires IsPowerOfTwo(a)
    ensures a > 0
  {
  }

  /** A non-zero multiple of a positive number is at least that number away
      from zero. */
  lemma MultipleMagnitude(k: int, a: int)
    requires a > 0
    ensures k >= 1 ==> k * a >= a
    ensures k <= -1 ==> k * a <= -a
  {
  }

  /** `(q * a) % a == 0`, from the defining property of Euclidean division. */
  lemma MultipleHasNoRemainder(q: int, a: int)
    requires a > 0
    ensures (q * a) % a == 0
  {
    var d, m := (q * a) / a, (q * a) % a;
    assert q * a == d * a + m && 0 <= m < a;
    assert (q - d) * a == m;
    MultipleMagnitude(q - d, a);
  }

  /** `align(value, alignment)`: `value` rounded up to the next multiple of
      `alignment`. */
  function Align(value: int, alignment: int): (r: int)
    requires alignment > 0
    ensures r % alignment == 0
    ensures value <= r < value + alignment
  {
    var q := (value + alignment - 1) / alignment;
    MultipleHasNoRemainder(q, alignment);
    q * alignment
  }

  /** No multiple of the alignment lies between a value and its aligned form. */
  lemma AlignIsLeastMultiple(value: int, alignment: int, m: int)
    requires alignment > 0
    requires m % alignment == 0 && m >= value
    ensures Align(value, alignment) <= m
  {
    var r := Align(value, alignment);
    var qr, qm := r / alignment, m / alignment;
    assert r == qr * alignment;
    assert m == qm * alignment;
    var k := qr - qm;
    assert k * alignment == r - m;
    MultipleMagnitude(k, alignment);
  }

  /** Aligning a value that is already a multiple of the alignment leaves it
      unchanged, so aligning twice is aligning once. */
  lemma AlignOfAligned(value: int, alignment: int)
    requires alignment > 0
    requires value % alignment == 0
    ensures Align(value, alignment) == value
    ensures Align(Align(value, alignment), alignment) == Align(value, alignment)
  {
    AlignIsLeastMultiple(value, alignment, value);
  }

  /** The header fields the scanner reads at one offset. */
  datatype FrameHeader = FrameHeader(frameLength: int, isPadding: bool)

  /** A term buffer: its capacity and the header found at each offset. */
  datatype Term = Term(capacity: nat, headerAt: int -> FrameHeader)

  /** The term is well formed from offset `o` onwards: following the chain of
      frames that starts at `o`, each header holds a length that is 0 (the
      writer has not reached it) or positive, each written frame ends within
      the capacity, and a written padding frame is at least a header long and
      fills the term exactly to its capacity. Offsets at or past the capacity
      hold no frame. */
  ghost predicate FramesFrom(t: Term, alignment: int, alignedHeaderLength: int, o: int)
    decreases t.capacity - o
  {
    o >= t.capacity ||
    (0 <= o && alignment > 0 &&
     var h := t.headerAt(o);
     h.frameLength >= 0 &&
     (h.frameLength > 0 ==>
       var next := o + Align(h.frameLength, alignment);
       next <= t.capacity &&
       (h.isPadding ==> next == t.capacity && Align(h.frameLength, alignment) >= alignedHeaderLength) &&
       (!h.isPadding ==> FramesFrom(t, alignment, alignedHeaderLength, next))))
  }

  /** The range from `lo` to `hi` is covered exactly by written data frames
      laid end to end, each taking its aligned length. */
  ghost predicate Tiles(t: Term, alignment: int, lo: int, hi: int)
    decreases hi - lo
  {
    lo == hi ||
    (lo < hi && lo < t.capacity && alignment > 0 &&
     var h := t.headerAt(lo);
     h.frameLength > 0 && !h.isPadding &&
     Tiles(t, alignment, lo + Align(h.frameLength, alignment), hi))
  }

  /** A run of data frames can be extended by the written data frame that
      follows it. */
  lemma {:induction false} TilesExtend(t: Term, alignment: int, lo: int, hi: int)
    requires alignment > 0
    requires Tiles(t, alignment, lo, hi)
    requires hi < t.capacity && t.headerAt(hi).frameLength > 0 && !t.headerAt(hi).isPadding
    ensures Tiles(t, alignment, lo, hi + Align(t.headerAt(hi).frameLength, alignment))
    decreases hi - lo
  {
    var end := hi + Align(t.headerAt(hi).frameLength, alignment);
    if lo == hi {
      assert Tiles(t, alignment, end, end);
    } else {
      var next := lo + Align(t.headerAt(lo).frameLength, alignment);
      TilesExtend(t, alignment, next, hi);
    }
  }

  /** Two runs of data frames from the same start follow the same chain, so the
      shorter is a prefix of the longer and the rest of the longer is itself a
      run of data frames. */
  lemma {:induction false} TilesPrefix(t: Term, alignment: int, lo: int, e1: int, e2: int)
    requires alignment > 0
    requires Tiles(t, alignment, lo, e1) && Tiles(t, alignment, lo, e2)
    requires e1 <= e2
    ensures Tiles(t, alignment, e1, e2)
    decreases e1 - lo
  {
    if lo != e1 {
      var next := lo + Align(t.headerAt(lo).frameLength, alignment);
      TilesPrefix(t, alignment, next, e1, e2);
    }
  }

  /** A run of data frames that does not end at its start begins with a written
      data frame, and that frame ends within the run. */
  lemma TilesFirstFrame(t: Term, alignment: int, lo: int, hi: int)
    requires alignment > 0
    requires Tiles(t, alignment, lo, hi) && lo < hi
    ensures lo < t.capacity
    ensures t.headerAt(lo).frameLength > 0 && !t.headerAt(lo).isPadding
    ensures lo + Align(t.headerAt(lo).frameLength, alignment) <= hi
  {
    TilesMonotone(t, alignment, lo + Align(t.headerAt(lo).frameLength, alignment), hi);
  }

  lemma {:induction false} TilesMonotone(t: Term, alignment: int, lo: int, hi: int)
    requires alignment > 0
    requires Tiles(t, alignment, lo, hi)
    ensures lo <= hi
    decreases hi - lo
  {
    if lo != hi {
      TilesMonotone(t, alignment, lo + Align(t.headerAt(lo).frameLength, alignment), hi);
    }
  }
}
