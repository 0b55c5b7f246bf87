# Aeron AtomicArray and LogScanner, modelled in Dafny

This project models two independent primitives of the Aeron messaging
transport and proves properties about them.

- **AtomicArray** (`atomic_array.dfy`, module `AtomicArray`) is a
  copy-on-write dynamic array for one writer and many readers. Every
  operation works on one captured snapshot of the backing array. That
  snapshot is a `seq<T>`, and every write is a pure function from the old
  snapshot to the one it publishes. The operations modelled are indexed
  access, first-match search, in-order and circular traversals (plain and
  budget-limited), `add`, `addAll`, `remove`, `contains`, `clear`, `toArray`
  and the snapshot iterator.
- **LogScanner** (`log_scanner.dfy`, module `LogScanner`, on top of
  `frames.dfy`, module `Frames`) is a single-threaded cursor over an
  append-only term buffer of length-prefixed, aligned frames. `ScanNext`
  gathers whole frames into a batch bounded by the MTU (maximum transmission
  unit). It stops at the writer's frontier, a frame whose length is 0. It
  reports only the header of a padding frame and skips the rest of it.
- `outcomes.dfy` (module `Outcomes`) holds the shared `Result`, `Option` and
  `Nullable` types. Java exceptions are `Err` values. A Java `null` argument
  is `Nullable.Null`.

The term buffer is abstract. `Frames.Term` is its capacity plus a function
that gives, for every offset, the two header fields the scanner reads: the
frame length and the padding flag. `FRAME_ALIGNMENT` is a parameter that must
be a power of two. `align(v, a)` is specified arithmetically as "round `v` up
to a multiple of `a`". `Frames.FramesFrom` states the well-formedness of the
buffer, and `ScanNext` requires it. It says: follow the chain of frames from
the cursor; every length is 0 or positive; every written frame ends within
the capacity; and a written padding frame is at least a header long and ends
exactly at the capacity.

`ScanNext` is specified without the loop. `LogScanner.IsBatch` describes the
batch in one of two ways:

- a run of whole data frames that fits the MTU and ends where the scan must
  stop: at the capacity, at an unwritten frame, or before a frame that would
  not fit;
- a run of whole data frames followed by one padding frame, of which only
  the header is reported.

`LogScanner.BatchIsUnique` proves that this description fixes the result.
The worked example lemmas check it against concrete scans.

The model follows the code in these places, where a caller might expect otherwise:

- `addAll` publishes every element before the first null, then throws. A
  failed `addAll` therefore leaves a partial change visible.
- `doLimitedAction` keeps its total within the limit only when each callback
  keeps to the budget it is given. A callback that reports more work than its
  budget pushes the total past the limit.
- `get` with an index outside the snapshot throws from the Java array access.
- `doAction` with a negative start index throws on the first array access.
  `doLimitedAction` throws there too, unless the limit is at most 0: then the
  loop stops before any array access and returns 0.
- `remove(null)` and `contains(null)` throw on a non-empty snapshot, because
  `find` calls `equals` on its argument. On an empty snapshot they return
  false.

## Model

| member | source | states |
|---|---|---|
| AtomicArray.Get | aeron-util/src/main/java/uk/co/real_logic/aeron/util/concurrent/AtomicArray.java:77-80 | the element at a valid index; an index outside the snapshot throws IndexOutOfBounds |
| AtomicArray.FindFirst | aeron-util/src/main/java/uk/co/real_logic/aeron/util/concurrent/AtomicArray.java:88-102 | returns none iff no element matches; otherwise returns an element that matches and has no match before it |
| AtomicArray.ForEach | aeron-util/src/main/java/uk/co/real_logic/aeron/util/concurrent/AtomicArray.java:109-118 | the action receives every element once, in index order |
| AtomicArray.DoActionFromStart | aeron-util/src/main/java/uk/co/real_logic/aeron/util/concurrent/AtomicArray.java:129-132 | `doAction(action)` visits the snapshot in index order and returns the sum of the action's counts |
| AtomicArray.DoAction | aeron-util/src/main/java/uk/co/real_logic/aeron/util/concurrent/AtomicArray.java:144-170 | 0 on an empty snapshot; a negative start throws; otherwise the start is clamped to the last index, every element is visited once in circular order from the start, and the result is the sum of the counts over the whole snapshot |
| AtomicArray.CircularLoop | aeron-util/src/main/java/uk/co/real_logic/aeron/util/concurrent/AtomicArray.java:156-167 | the do-while loop from a valid start visits every element exactly once, in circular order, and the count is the sum of the action over the elements visited |
| AtomicArray.RotateVisitsEachIndexOnce | aeron-util/src/main/java/uk/co/real_logic/aeron/util/concurrent/AtomicArray.java:156-167 | the circular order holds each index exactly once, at a distinct position, and is a permutation of the snapshot |
| AtomicArray.SumOfRotate | aeron-util/src/main/java/uk/co/real_logic/aeron/util/concurrent/AtomicArray.java:156-169 | the total of a circular traversal does not depend on where it starts |
| AtomicArray.DoLimitedAction | aeron-util/src/main/java/uk/co/real_logic/aeron/util/concurrent/AtomicArray.java:183-214 | no call and result 0 on an empty snapshot or a limit of at most 0; a negative start with a positive limit throws; otherwise the calls follow the clamped circular order and cover at most the whole snapshot; each call receives the limit minus the count so far, which is positive; the traversal ends early only once the count reaches the limit; the result is the sum of the calls' counts; if every call keeps to its budget, the result is at most the limit |
| AtomicArray.LimitedLoop | aeron-util/src/main/java/uk/co/real_logic/aeron/util/concurrent/AtomicArray.java:195-211 | the do-while loop checks the limit before every call and wraps the index; it stops before the whole snapshot only when the count has reached the limit |
| AtomicArray.LimitedStep | aeron-util/src/main/java/uk/co/real_logic/aeron/util/concurrent/AtomicArray.java:199-204 | a call made with the next element and the remaining budget keeps the call record in circular order with correct budgets |
| AtomicArray.SpentWithinLimit | aeron-util/src/main/java/uk/co/real_logic/aeron/util/concurrent/AtomicArray.java:199-204 | if each call is given the remaining budget and reports at most that budget, the total stays within the limit |
| AtomicArray.Add | aeron-util/src/main/java/uk/co/real_logic/aeron/util/concurrent/AtomicArray.java:222-235 | a null element throws NullPointer; otherwise the snapshot grows by one, earlier elements are unchanged and in order, the new element is last, and the call returns true |
| AtomicArray.AddThenContains | aeron-util/src/main/java/uk/co/real_logic/aeron/util/concurrent/AtomicArray.java:222-235 | after `add(x)` the array contains `x` and its size has grown by one |
| AtomicArray.Remove | aeron-util/src/main/java/uk/co/real_logic/aeron/util/concurrent/AtomicArray.java:242-250 | a null element throws on a non-empty snapshot and returns false on an empty one; otherwise it returns true iff the element was present, and the size shrinks by one exactly then |
| AtomicArray.RemoveElement | aeron-util/src/main/java/uk/co/real_logic/aeron/util/concurrent/AtomicArray.java:384-403 | a new array is built iff the element is present; it then lacks exactly the first occurrence, the single-element shortcut included; otherwise the old array is returned |
| AtomicArray.RemoveDeletesFirstOccurrence | aeron-util/src/main/java/uk/co/real_logic/aeron/util/concurrent/AtomicArray.java:384-403 | removal drops exactly one copy of the element, at its first index; everything before that index is kept in place and everything after it keeps its order |
| AtomicArray.AddThenRemove | aeron-util/src/main/java/uk/co/real_logic/aeron/util/concurrent/AtomicArray.java:222-250 | adding an absent element and then removing it restores the snapshot, and the removal returns true |
| AtomicArray.RemoveAbsentIsNoOp | aeron-util/src/main/java/uk/co/real_logic/aeron/util/concurrent/AtomicArray.java:242-250 | removing an absent element leaves the contents unchanged and returns false |
| AtomicArray.Iterator | aeron-util/src/main/java/uk/co/real_logic/aeron/util/concurrent/AtomicArray.java:257-260 | a new cursor over the current snapshot yields every element of that snapshot, in index order |
| AtomicArray.HasNext | aeron-util/src/main/java/uk/co/real_logic/aeron/util/concurrent/AtomicArray.java:272-275 | `hasNext()` is true exactly when `next()` would return an element rather than throw |
| AtomicArray.Next | aeron-util/src/main/java/uk/co/real_logic/aeron/util/concurrent/AtomicArray.java:272-286 | `next()` returns the element under the cursor and advances it while one remains; past the end it throws NoSuchElement |
| AtomicArray.IteratorRemove | aeron-util/src/main/java/uk/co/real_logic/aeron/util/concurrent/AtomicArray.java:288-291 | iterator `remove()` always throws UnsupportedOperation |
| AtomicArray.DrainYieldsRest | aeron-util/src/main/java/uk/co/real_logic/aeron/util/concurrent/AtomicArray.java:262-286 | calling `next()` until it fails yields the snapshot from the cursor to the end |
| AtomicArray.IteratorYieldsSnapshot | aeron-util/src/main/java/uk/co/real_logic/aeron/util/concurrent/AtomicArray.java:257-309 | a fresh iterator yields exactly the elements `toArray()` copies, in index order, and then `next()` throws |
| AtomicArray.IsEmpty | aeron-util/src/main/java/uk/co/real_logic/aeron/util/concurrent/AtomicArray.java:294-297 | true iff the snapshot has no element, that is iff the size is 0 |
| AtomicArray.Contains | aeron-util/src/main/java/uk/co/real_logic/aeron/util/concurrent/AtomicArray.java:299-302 | for a non-null argument, true iff the element is in the snapshot; a null argument throws on a non-empty snapshot and is absent from an empty one |
| AtomicArray.ToArray | aeron-util/src/main/java/uk/co/real_logic/aeron/util/concurrent/AtomicArray.java:304-309 | the copy has the snapshot's length and its elements at the same indices |
| AtomicArray.AddAllAppendsUntilNull | aeron-util/src/main/java/uk/co/real_logic/aeron/util/concurrent/AtomicArray.java:321-329 | without nulls, the snapshot becomes the old one followed by the collection's items in iteration order, and the call returns true; otherwise the items before the first null are published and then NullPointer is thrown |
| AtomicArray.Clear | aeron-util/src/main/java/uk/co/real_logic/aeron/util/concurrent/AtomicArray.java:341-344 | the published snapshot is empty |
| AtomicArray.ClearEmpties | aeron-util/src/main/java/uk/co/real_logic/aeron/util/concurrent/AtomicArray.java:341-344 | after `clear()` the array is empty, has size 0, contains nothing, and a removal returns false |
| AtomicArray.AdjustForOverrun | aeron-util/src/main/java/uk/co/real_logic/aeron/util/concurrent/AtomicArray.java:353-361 | an index at or past the length becomes the last index and any other index is kept; a non-negative index ends up a valid index |
| AtomicArray.FindFrom | aeron-util/src/main/java/uk/co/real_logic/aeron/util/concurrent/AtomicArray.java:365-373 | the loop from a given index returns the first later index holding the item, or -1 iff no later index holds it |
| AtomicArray.Find | aeron-util/src/main/java/uk/co/real_logic/aeron/util/concurrent/AtomicArray.java:363-374 | the lowest index holding the item, with no occurrence before it, or -1 iff the item is absent |
| AtomicArray.Append | aeron-util/src/main/java/uk/co/real_logic/aeron/util/concurrent/AtomicArray.java:376-382 | the copy is one longer, keeps the old elements as a prefix and has the new element last |
| Frames.Align | aeron-common/src/main/java/uk/co/real_logic/aeron/common/concurrent/logbuffer/LogScanner.java:120 | the aligned length is a multiple of the alignment, at least the value, and less than the value plus the alignment |
| Frames.AlignIsLeastMultiple | aeron-common/src/main/java/uk/co/real_logic/aeron/common/concurrent/logbuffer/LogScanner.java:120 | no multiple of the alignment lies between a value and its aligned form |
| Frames.AlignOfAligned | aeron-common/src/main/java/uk/co/real_logic/aeron/common/concurrent/logbuffer/LogScanner.java:60 | an already aligned length is kept, so aligning is idempotent |
| Frames.TilesExtend | aeron-common/src/main/java/uk/co/real_logic/aeron/common/concurrent/logbuffer/LogScanner.java:120-128 | adding the next written data frame's aligned length keeps the batch a run of whole frames |
| Frames.TilesPrefix | aeron-common/src/main/java/uk/co/real_logic/aeron/common/concurrent/logbuffer/LogScanner.java:112-137 | two runs of frames from one cursor follow the same chain, so one is a prefix of the other |
| Frames.TilesFirstFrame | aeron-common/src/main/java/uk/co/real_logic/aeron/common/concurrent/logbuffer/LogScanner.java:114-128 | a non-empty run begins with a written data frame that ends inside the run |
| LogScanner.NewScanner | aeron-common/src/main/java/uk/co/real_logic/aeron/common/concurrent/logbuffer/LogScanner.java:54-61 | a header length that fails the validator is refused; otherwise the cursor starts at 0 and the aligned header length is the header length rounded up to the alignment |
| LogScanner.IsComplete | aeron-common/src/main/java/uk/co/real_logic/aeron/common/concurrent/logbuffer/LogScanner.java:78-81 | for a cursor within the term, the scan is complete iff the cursor is at the capacity |
| LogScanner.Remaining | aeron-common/src/main/java/uk/co/real_logic/aeron/common/concurrent/logbuffer/LogScanner.java:88-91 | the cursor plus the remaining bytes is the writer's published tail |
| LogScanner.ScanNext | aeron-common/src/main/java/uk/co/real_logic/aeron/common/concurrent/logbuffer/LogScanner.java:100-147 | a complete scanner reports 0 and stays put. The result is a batch as `IsBatch` describes, never above a non-negative MTU. A positive result moves the cursor by exactly the result plus the skipped padding and notifies the handler once with the old cursor and the result; a zero result leaves the state unchanged and calls nothing. Only the cursor changes. Skipped padding takes the cursor to the capacity, and the cursor stays within the term and on a frame boundary |
| LogScanner.ScanFrames | aeron-common/src/main/java/uk/co/real_logic/aeron/common/concurrent/logbuffer/LogScanner.java:112-137 | the loop from a cursor before the capacity returns a batch as `IsBatch` describes; the reported frames end within the term; skipped padding ends exactly at the capacity; the term is still well formed where the cursor will move |
| LogScanner.Seek | aeron-common/src/main/java/uk/co/real_logic/aeron/common/concurrent/logbuffer/LogScanner.java:155-164 | an offset below 0 or above the capacity is refused and the state kept; otherwise only the cursor changes, and the scan is then complete iff the offset is the capacity |
| LogScanner.SeekBounds | aeron-common/src/main/java/uk/co/real_logic/aeron/common/concurrent/logbuffer/LogScanner.java:155-164 | seeking to the capacity succeeds and completes the scan; the capacity plus one and -1 are refused |
| LogScanner.BatchIsUnique | aeron-common/src/main/java/uk/co/real_logic/aeron/common/concurrent/logbuffer/LogScanner.java:112-143 | the batch description fixes the reported length and the skipped padding, so the scan's contract determines its result |
| LogScanner.BatchEndsOrdered | aeron-common/src/main/java/uk/co/real_logic/aeron/common/concurrent/logbuffer/LogScanner.java:112-137 | no valid batch ends strictly inside another valid batch from the same cursor |
| LogScanner.BatchStopsAtUnwrittenFrame | aeron-common/src/main/java/uk/co/real_logic/aeron/common/concurrent/logbuffer/LogScanner.java:114-118 | nothing at or beyond an unwritten frame on the chain is reported, and no padding is skipped before it |
| LogScanner.ExampleTermIsWellFormed | aeron-common/src/main/java/uk/co/real_logic/aeron/common/concurrent/logbuffer/LogScanner.java:54-61 | a header length of 24 aligns to 32, and the example term is ready to scan from 0 and from 64 |
| LogScanner.ExampleScanFromStart | aeron-common/src/main/java/uk/co/real_logic/aeron/common/concurrent/logbuffer/LogScanner.java:128-135 | from 0 with an MTU of 64, the 64-byte data frame is the whole batch, because the padding header that follows would overflow |
| LogScanner.ExampleScanPadding | aeron-common/src/main/java/uk/co/real_logic/aeron/common/concurrent/logbuffer/LogScanner.java:122-126 | from 64 with an MTU of 64, the padding frame reports its 32-byte header and skips the other 32 bytes |
| LogScanner.ExampleScanOversized | aeron-common/src/main/java/uk/co/real_logic/aeron/common/concurrent/logbuffer/LogScanner.java:130-135 | a first frame larger than the MTU yields an empty batch with nothing skipped |

## Left out

- Concurrency: `AtomicReference`, `lazySet`/`set`, and the volatile reads of
  the tail and of frame lengths. Each operation works on one captured
  snapshot, so snapshot isolation holds by construction. Memory ordering and
  races between writers are not modelled.
- Java's 32-bit `int` overflow: counts, offsets and `length + padding` are
  unbounded integers.
- `toString`, and the methods that always throw UnsupportedOperation:
  `toArray(T[])`, `containsAll`, `removeAll` and `retainAll`. They have no
  logic to verify.
- `size()` is the snapshot's length. It has no separate contract and appears
  in `AddThenContains` and `ClearEmpties`.
- Callbacks are pure Dafny functions. Side effects of `forEach`'s consumer,
  and callbacks that change the array during a traversal, are not modelled.
  Each traversal returns the sequence of calls it made.
- Java `equals` is modelled as Dafny `==`. It is therefore symmetric, so the
  single-element shortcut in `remove(Object[], Object)` agrees with `find`.
- `UnsafeBuffer` and the `FrameDescriptor` helpers are not part of this
  model. `frameLengthVolatile` and `isPaddingFrame` are the term's `headerAt`
  function. `checkHeaderLength` is a parameter, assumed to admit only
  positive lengths. The value of `FRAME_ALIGNMENT` is a parameter that must
  be a power of two.
- The bit trick inside `BitUtil.align` is replaced by its arithmetic meaning.
- `LogBufferPartition` plumbing (`capacity()`, `termBuffer()`). The buffer
  argument of the handler call is dropped. The `offset()` getter is the
  `offset` field of the scanner state. The writer's tail is a parameter of
  `Remaining`.
- LogScanner.ScanNext: requires a term that is well formed from the cursor.
  The Java code does not check this. After a `seek` to an offset that is not
  a frame boundary, the model gives no guarantee.
- AtomicArray.DoLimitedAction: proves the total stays within the limit only
  for callbacks that keep to their budgets, because the code cannot enforce
  more.
