/** A single-threaded cursor that scans a term buffer for MTU-bounded batches
    of whole, aligned frames.

    The scanner's state is a value: the term it reads, the frame alignment,
    the aligned header length fixed at construction, and the cursor. Each
    operation returns the next state. The availability handler becomes the
    `Notice` a scan returns, and the writer's volatile tail becomes a
    parameter of `Remaining`. */
module LogScanner {
  import opened Outcomes
  import opened Frames

  /** The scanner: its term, the frame alignment, the aligned header length
      and the offset at which the next frame begins. */
  datatype Scanner = Scanner(term: Term, alignment: int, alignedHeaderLength: int, offset: int)

  /** The arguments the availability handler receives: where the batch starts
      and how many bytes it reports. */
  datatype Notice = Notice(offset: int, length: int)

  /** What construction establishes and every operation keeps. */
  ghost predicate Consistent(s: Scanner)
  {
    && IsPowerOfTwo(s.alignment)
    && s.alignment > 0
    && s.alignedHeaderLength > 0
    && s.alignedHeaderLength % s.alignment == 0
    && 0 <= s.offset <= s.term.capacity
  }

  /** A consistent scanner whose cursor sits on a frame boundary of a term
      that is well formed from there on. */
  ghost predicate ReadyToScan(s: Scanner)
  {
    Consistent(s) && FramesFrom(s.term, s.alignment, s.alignedHeaderLength, s.offset)
  }

  /** The constructor: the header length must pass the shared validator,
      which admits only positive lengths, and is then aligned once. */
  function NewScanner(term: Term, alignment: int, headerLength: int, checkHeaderLength: int -> bool)
    : (r: Result<Scanner>)
    requires IsPowerOfTwo(alignment)
    requires forall h :: checkHeaderLength(h) ==> h > 0
    ensures r.Err? <==> !checkHeaderLength(headerLength)
    ensures r.Err? ==> r.error == InvalidHeaderLength
    ensures r.Ok? ==> r.value.offset == 0 && r.value.term == term && r.value.alignment == alignment
    ensures r.Ok? ==> r.value.alignedHeaderLength % alignment == 0
    ensures r.Ok? ==> headerLength <= r.value.alignedHeaderLength < headerLength + alignment
    ensures r.Ok? ==> Consistent(r.value)
  {
    if !checkHeaderLength(headerLength) then Err(InvalidHeaderLength)
    else
      PowerOfTwoIsPositive(alignment);
      Ok(Scanner(term, alignment, Align(headerLength, alignment), 0))
  }

  /** `isComplete()`: a consistent scanner is complete exactly when its
      cursor has reached the capacity. */
  function IsComplete(s: Scanner): (r: bool)
    ensures Consistent(s) ==> (r <==> s.offset == s.term.capacity)
  {
    s.offset >= s.term.capacity
  }

  /** `remaining()`: bytes the writer has published, up to `tail`, that the
      cursor has not yet passed. */
  function Remaining(s: Scanner, tail: int): (r: int)
    ensures s.offset + r == tail
  {
    tail - s.offset
  }

  /** `seek(offset)`: an offset outside 0..capacity is refused and the state
      kept; any other offset becomes the cursor and nothing else changes. */
  function Seek(s: Scanner, offset: int): (r: Result<Scanner>)
    ensures r.Err? <==> offset < 0 || offset > s.term.capacity
    ensures r.Err? ==> r.error == IndexOutOfBounds
    ensures r.Ok? ==> r.value == s.(offset := offset)
    ensures r.Ok? && Consistent(s) ==> Consistent(r.value)
    ensures r.Ok? ==> (IsComplete(r.value) <==> offset == s.term.capacity)
  {
    if offset < 0 || offset > s.term.capacity then Err(IndexOutOfBounds)
    else Ok(s.(offset := offset))
  }

  /** The bytes a frame adds to a reported batch: its aligned length, or only
      the aligned header for a padding frame. */
  function ReportedLength(t: Term, alignment: int, ahl: int, e: int): int
    requires alignment > 0
  {
    if t.headerAt(e).isPadding then ahl else Align(t.headerAt(e).frameLength, alignment)
  }

  /** A batch that started at `o` may end at `e`: the capacity is reached, the
      frame at `e` is unwritten, or adding it would pass the MTU. */
  ghost predicate StopsAt(t: Term, alignment: int, ahl: int, o: int, e: int, mtuLength: int)
    requires alignment > 0
  {
    e >= t.capacity || t.headerAt(e).frameLength == 0 || (e - o) + ReportedLength(t, alignment, ahl, e) > mtuLength
  }

  /** The result of one scan from `o`, stated without the loop: either a run
      of whole data frames that fits the MTU (or is empty) and ends where the
      scan must stop, with nothing skipped; or a run of whole data frames
      followed by a padding frame, of which only the header is reported and
      the rest of the aligned frame is skipped. */
  ghost predicate IsBatch(t: Term, alignment: int, ahl: int, o: int, mtuLength: int, length: int, padding: int)
    requires alignment > 0
  {
    || (&& padding == 0
        && (length == 0 || length <= mtuLength)
        && Tiles(t, alignment, o, o + length)
        && StopsAt(t, alignment, ahl, o, o + length, mtuLength))
    || (var p := o + length - ahl;
        && o <= p < t.capacity
        && Tiles(t, alignment, o, p)
        && t.headerAt(p).frameLength > 0
        && t.headerAt(p).isPadding
        && length <= mtuLength
        && padding == Align(t.headerAt(p).frameLength, alignment) - ahl)
  }

  /** The loop of `scanNext` from an offset before the capacity: gathers whole
      frames until one is unwritten, would pass the MTU, or reaches the end of
      the term, and returns the reported length and the skipped padding. */
  method ScanFrames(t: Term, alignment: int, ahl: int, offset: int, mtuLength: int)
    returns (length: int, padding: int)
    requires alignment > 0 && ahl > 0
    requires 0 <= offset < t.capacity
    requires FramesFrom(t, alignment, ahl, offset)
    ensures length >= 0 && padding >= 0
    ensures length == 0 || length <= mtuLength
    ensures IsBatch(t, alignment, ahl, offset, mtuLength, length, padding)
    ensures offset + length <= t.capacity
    ensures padding > 0 ==> length > 0 && offset + length + padding == t.capacity
    ensures FramesFrom(t, alignment, ahl, offset + length + padding)
  {
    var capacity := t.capacity;
    length := 0;
    padding := 0;
    while true
      invariant 0 <= length && offset + length < capacity
      invariant padding == 0
      invariant length == 0 || length <= mtuLength
      invariant Tiles(t, alignment, offset, offset + length)
      invariant FramesFrom(t, alignment, ahl, offset + length)
      decreases capacity - offset - length
    {
      var e := offset + length;
      var frameLength := t.headerAt(e).frameLength;
      if frameLength == 0 {
        break;
      }
      var alignedFrameLength := Align(frameLength, alignment);
      if t.headerAt(e).isPadding {
        padding := alignedFrameLength - ahl;
        alignedFrameLength := ahl;
      }
      length := length + alignedFrameLength;
      if length > mtuLength {
        length := length - alignedFrameLength;
        padding := 0;
        break;
      }
      if !t.headerAt(e).isPadding {
        TilesExtend(t, alignment, offset, e);
      }
      if offset + length + padding >= capacity {
        break;
      }
    }
  }

  /** `scanNext(handler, mtuLength)`: returns the reported length, the skipped
      padding body, the next state and the handler call, if any. */
  method ScanNext(s: Scanner, mtuLength: int) returns (length: int, padding: int, s': Scanner, notice: Option<Notice>)
    requires ReadyToScan(s)
    ensures IsComplete(s) ==> length == 0 && padding == 0
    ensures length >= 0 && padding >= 0
    ensures mtuLength >= 0 ==> length <= mtuLength
    ensures IsBatch(s.term, s.alignment, s.alignedHeaderLength, s.offset, mtuLength, length, padding)
    ensures length > 0 ==> s' == s.(offset := s.offset + length + padding) && notice == Some(Notice(s.offset, length))
    ensures length == 0 ==> s' == s && notice == None
    ensures padding > 0 ==> s'.offset == s.term.capacity
    ensures s.offset <= s'.offset <= s.term.capacity
    ensures s.offset + length <= s.term.capacity
    ensures forall tail :: Remaining(s', tail) == Remaining(s, tail) - (length + padding)
    ensures ReadyToScan(s')
  {
    length := 0;
    padding := 0;
    s' := s;
    notice := None;
    if !IsComplete(s) {
      length, padding := ScanFrames(s.term, s.alignment, s.alignedHeaderLength, s.offset, mtuLength);
      if length > 0 {
        s' := s.(offset := s.offset + length + padding);
        notice := Some(Notice(s.offset, length));
      }
    } else {
      assert Tiles(s.term, s.alignment, s.offset, s.offset);
      assert StopsAt(s.term, s.alignment, s.alignedHeaderLength, s.offset, s.offset, mtuLength);
    }
  }

  /** Seeking to the capacity completes the scan; one byte further is refused
      and leaves the cursor where it was. */
  lemma SeekBounds(s: Scanner)
    ensures Seek(s, s.term.capacity).Ok? && IsComplete(Seek(s, s.term.capacity).value)
    ensures Seek(s, s.term.capacity + 1) == Err(IndexOutOfBounds)
    ensures Seek(s, -1) == Err(IndexOutOfBounds)
  {
  }

  /** The batch a scan reports is determined by the term, the cursor and the
      MTU alone: two results that both satisfy the batch description agree. */
  lemma BatchIsUnique(t: Term, alignment: int, ahl: int, o: int, mtuLength: int,
                      l1: int, p1: int, l2: int, p2: int)
    requires alignment > 0 && ahl > 0
    requires IsBatch(t, alignment, ahl, o, mtuLength, l1, p1)
    requires IsBatch(t, alignment, ahl, o, mtuLength, l2, p2)
    ensures l1 == l2 && p1 == p2
  {
    BatchEndsOrdered(t, alignment, ahl, o, mtuLength, l1, p1, l2, p2);
    BatchEndsOrdered(t, alignment, ahl, o, mtuLength, l2, p2, l1, p1);
  }

  /** Half of `BatchIsUnique`: a batch cannot end strictly inside another. */
  lemma BatchEndsOrdered(t: Term, alignment: int, ahl: int, o: int, mtuLength: int,
                         l1: int, p1: int, l2: int, p2: int)
    requires alignment > 0 && ahl > 0
    requires IsBatch(t, alignment, ahl, o, mtuLength, l1, p1)
    requires IsBatch(t, alignment, ahl, o, mtuLength, l2, p2)
    ensures l1 >= l2
    ensures l1 == l2 ==> p1 == p2
  {
    var e1, e2 := o + l1, o + l2;
    var pad1 := p1 != 0 || !Tiles(t, alignment, o, e1) || !StopsAt(t, alignment, ahl, o, e1, mtuLength);
    var pad2 := p2 != 0 || !Tiles(t, alignment, o, e2) || !StopsAt(t, alignment, ahl, o, e2, mtuLength);
    if !pad1 && !pad2 {
      // Two data runs: the shorter would end before a frame that still fits.
      if e1 < e2 {
        TilesPrefix(t, alignment, o, e1, e2);
        TilesFirstFrame(t, alignment, e1, e2);
      }
    } else if !pad1 && pad2 {
      // A data run against a run closed by a padding frame at q2.
      var q2 := e2 - ahl;
      if e1 < q2 {
        TilesPrefix(t, alignment, o, e1, q2);
        TilesFirstFrame(t, alignment, e1, q2);
      } else if e1 > q2 {
        TilesPrefix(t, alignment, o, q2, e1);
        TilesFirstFrame(t, alignment, q2, e1);
      }
    } else if pad1 && !pad2 {
      var q1 := e1 - ahl;
      if e2 < q1 {
        TilesPrefix(t, alignment, o, e2, q1);
        TilesFirstFrame(t, alignment, e2, q1);
      } else if e2 > q1 {
        TilesPrefix(t, alignment, o, q1, e2);
        TilesFirstFrame(t, alignment, q1, e2);
      }
    } else {
      // Both runs close with a padding frame: it is the same frame.
      var q1, q2 := e1 - ahl, e2 - ahl;
      if q1 < q2 {
        TilesPrefix(t, alignment, o, q1, q2);
        TilesFirstFrame(t, alignment, q1, q2);
      } else if q2 < q1 {
        TilesPrefix(t, alignment, o, q2, q1);
        TilesFirstFrame(t, alignment, q2, q1);
      }
    }
  }

  /** Nothing at or beyond an unwritten frame on the chain is reported: the
      scan stops at the writer's frontier. */
  lemma BatchStopsAtUnwrittenFrame(t: Term, alignment: int, ahl: int, o: int, mtuLength: int,
                                   length: int, padding: int, u: int)
    requires alignment > 0 && ahl > 0
    requires IsBatch(t, alignment, ahl, o, mtuLength, length, padding)
    requires Tiles(t, alignment, o, u) && t.headerAt(u).frameLength == 0
    ensures o + length <= u
    ensures padding == 0
  {
    var e := o + length;
    if padding == 0 && Tiles(t, alignment, o, e) && StopsAt(t, alignment, ahl, o, e, mtuLength) {
      if u < e {
        TilesPrefix(t, alignment, o, u, e);
        TilesFirstFrame(t, alignment, u, e);
      }
    } else {
      var p := e - ahl;
      if u < p {
        TilesPrefix(t, alignment, o, u, p);
        TilesFirstFrame(t, alignment, u, p);
      } else if p < u {
        TilesPrefix(t, alignment, o, p, u);
        TilesFirstFrame(t, alignment, p, u);
      }
    }
  }

  /** A 128-byte term with 32-byte alignment: a 64-byte data frame at 0 and a
      64-byte padding frame at 64 that fills it to the capacity. */
  function ExampleTerm(): Term
  {
    Term(128, x => if x == 0 then FrameHeader(64, false)
                   else if x == 64 then FrameHeader(64, true)
                   else FrameHeader(0, false))
  }

  /** The example term is well formed from 0 and from 64, and its header
      length of 24 aligns to 32. */
  lemma ExampleTermIsWellFormed()
    ensures NewScanner(ExampleTerm(), 32, 24, h => h > 0).Ok?
    ensures NewScanner(ExampleTerm(), 32, 24, h => h > 0).value.alignedHeaderLength == 32
    ensures ReadyToScan(Scanner(ExampleTerm(), 32, 32, 0))
    ensures ReadyToScan(Scanner(ExampleTerm(), 32, 32, 64))
  {
    var t := ExampleTerm();
    assert IsPowerOfTwo(32) by {
      assert IsPowerOfTwo(1) && IsPowerOfTwo(2) && IsPowerOfTwo(4) && IsPowerOfTwo(8) && IsPowerOfTwo(16);
    }
    AlignOfAligned(64, 32);
    AlignIsLeastMultiple(24, 32, 32);
    assert FramesFrom(t, 32, 32, 64);
    assert FramesFrom(t, 32, 32, 0);
  }

  /** Scanning the example from 0 with an MTU of 64 reports the 64-byte data
      frame and nothing else: the padding header would pass the MTU. */
  lemma ExampleScanFromStart()
    ensures forall l, p :: IsBatch(ExampleTerm(), 32, 32, 0, 64, l, p) ==> l == 64 && p == 0
  {
    var t := ExampleTerm();
    AlignOfAligned(64, 32);
    assert Tiles(t, 32, 64, 64);
    assert Tiles(t, 32, 0, 64);
    assert IsBatch(t, 32, 32, 0, 64, 64, 0);
    forall l, p | IsBatch(t, 32, 32, 0, 64, l, p)
      ensures l == 64 && p == 0
    {
      BatchIsUnique(t, 32, 32, 0, 64, l, p, 64, 0);
    }
  }

  /** Scanning the example from 64 with an MTU of 64 reports only the 32-byte
      padding header and skips the other 32 bytes, up to the capacity. */
  lemma ExampleScanPadding()
    ensures forall l, p :: IsBatch(ExampleTerm(), 32, 32, 64, 64, l, p) ==> l == 32 && p == 32
  {
    var t := ExampleTerm();
    AlignOfAligned(64, 32);
    assert Tiles(t, 32, 64, 64);
    assert IsBatch(t, 32, 32, 64, 64, 32, 32);
    forall l, p | IsBatch(t, 32, 32, 64, 64, l, p)
      ensures l == 32 && p == 32
    {
      BatchIsUnique(t, 32, 32, 64, 64, l, p, 32, 32);
    }
  }

  /** With an MTU of 32 the first frame alone is too large: nothing is
      reported and the cursor stays. */
  lemma ExampleScanOversized()
    ensures forall l, p :: IsBatch(ExampleTerm(), 32, 32, 0, 32, l, p) ==> l == 0 && p == 0
  {
    var t := ExampleTerm();
    AlignOfAligned(64, 32);
    assert Tiles(t, 32, 0, 0);
    assert IsBatch(t, 32, 32, 0, 32, 0, 0);
    forall l, p | IsBatch(t, 32, 32, 0, 32, l, p)
      ensures l == 0 && p == 0
    {
      BatchIsUnique(t, 32, 32, 0, 32, l, p, 0, 0);
    }
  }
}
