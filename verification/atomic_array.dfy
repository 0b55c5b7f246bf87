/** A copy-on-write dynamic array for one writer and many readers.

    Every read in the Java class captures one snapshot of the backing array
    and works on it; every write builds a fresh array and swaps the reference.
    Here the captured snapshot is a `seq<T>`, every read is a function or
    method of that sequence, and every write is a function from the old
    sequence to the sequence it publishes. The array never holds null; a null
    argument is a `Nullable.Null`, and Java equality is Dafny `==`. */
module AtomicArray {
  import opened Outcomes

  /** What a write leaves behind: the snapshot it publishes and the boolean
      the Java method returns. */
  datatype Written<T> = Written(after: seq<T>, returned: bool)

  /* ---------------- Snapshot reads ---------------- */

  /** `get(index)`: the element at `index`; Java's array access throws when
      the index is outside the snapshot. */
  function Get<T>(a: seq<T>, index: int): (r: Result<T>)
    ensures r.Ok? <==> 0 <= index < |a|
    ensures r.Ok? ==> r.value == a[index]
    ensures r.Err? ==> r.error == IndexOutOfBounds
  {
    if 0 <= index < |a| then Ok(a[index]) else Err(IndexOutOfBounds)
  }

  function Size<T>(a: seq<T>): nat
  {
    |a|
  }

  /** `isEmpty()`: true exactly when the snapshot holds no element. */
  function IsEmpty<T>(a: seq<T>): (r: bool)
    ensures r <==> a == []
  {
    Size(a) == 0
  }

  /** The loop of `find` resumed at index `from`: the first index at or after
      `from` whose element equals `item`, or -1. */
  function FindFrom<T(==)>(a: seq<T>, item: T, from: nat): (r: int)
    requires from <= |a|
    ensures r == -1 || from <= r < |a|
    ensures r != -1 ==> a[r] == item
    ensures r != -1 ==> forall j :: from <= j < r ==> a[j] != item
    ensures r == -1 <==> forall j :: from <= j < |a| ==> a[j] != item
    decreases |a| - from
  {
    if from == |a| then -1
    else if item == a[from] then from
    else FindFrom(a, item, from + 1)
  }

  /** `find(array, item)` for a non-null item: the lowest index holding
      `item`, or -1 when there is none. */
  function Find<T(==)>(a: seq<T>, item: T): (r: int)
    ensures -1 <= r < |a|
    ensures r == -1 <==> item !in a
    ensures r != -1 ==> a[r] == item && item !in a[..r]
  {
    FindFrom(a, item, 0)
  }

  /** `contains(o)`: `find` dereferences its argument once per element, so a
      null argument throws on a non-empty snapshot and is absent from an
      empty one. */
  function Contains<T(==)>(a: seq<T>, o: Nullable<T>): (r: Result<bool>)
    ensures o.NonNull? ==> r.Ok? && (r.value <==> o.value in a)
    ensures o.Null? && a == [] ==> r == Ok(false)
    ensures o.Null? && a != [] ==> r == Err(NullPointer)
  {
    match o
    case Null => if |a| == 0 then Ok(false) else Err(NullPointer)
    case NonNull(x) => Ok(-1 != Find(a, x))
  }

  /** `toArray()`: a defensive copy of the snapshot. */
  function ToArray<T>(a: seq<T>): (r: seq<T>)
    ensures |r| == |a|
    ensures forall i :: 0 <= i < |a| ==> r[i] == a[i]
  {
    a[..]
  }

  /* ---------------- Iteration ---------------- */

  /** The snapshot-scoped cursor returned by `iterator()`. */
  datatype ArrayIterator<T> = ArrayIterator(items: seq<T>, index: nat)

  /** `iterator()`: a cursor over the snapshot taken now, which yields every
      element of that snapshot in index order. */
  function Iterator<T>(a: seq<T>): (r: ArrayIterator<T>)
    ensures Drain(r) == a
  {
    DrainYieldsRest(ArrayIterator(a, 0));
    assert a[0..] == a;
    ArrayIterator(a, 0)
  }

  /** `hasNext()`: true exactly when `next()` would succeed. */
  function HasNext<T>(it: ArrayIterator<T>): (r: bool)
    ensures r <==> Next(it).Ok?
  {
    it.index < |it.items|
  }

  /** `next()`: the element under the cursor and the advanced cursor, or
      NoSuchElement once the snapshot is exhausted. */
  function Next<T>(it: ArrayIterator<T>): (r: Result<(T, ArrayIterator<T>)>)
    ensures r.Ok? <==> it.index < |it.items|
    ensures r.Ok? ==> r.value.0 == it.items[it.index]
    ensures r.Ok? ==> r.value.1 == ArrayIterator(it.items, it.index + 1)
    ensures r.Err? ==> r.error == NoSuchElement
  {
    if it.index >= |it.items| then Err(NoSuchElement)
    else Ok((it.items[it.index], ArrayIterator(it.items, it.index + 1)))
  }

  /** Iterator `remove()`: structural change through a cursor is refused
      whatever the cursor's state. */
  function IteratorRemove<T>(it: ArrayIterator<T>): (r: Result<()>)
    ensures r.Err? && r.error == UnsupportedOperation
  {
    Err(UnsupportedOperation)
  }

  /** Everything a cursor still yields when `next()` is called until it fails. */
  function Drain<T>(it: ArrayIterator<T>): seq<T>
    decreases |it.items| - it.index
  {
    match Next(it)
    case Err(_) => []
    case Ok((x, rest)) => [x] + Drain(rest)
  }

  lemma {:induction false} DrainYieldsRest<T>(it: ArrayIterator<T>)
    requires it.index <= |it.items|
    ensures Drain(it) == it.items[it.index..]
    decreases |it.items| - it.index
  {
    if it.index < |it.items| {
      var rest := ArrayIterator(it.items, it.index + 1);
      DrainYieldsRest(rest);
      assert it.items[it.index..] == [it.items[it.index]] + it.items[it.index + 1..];
    }
  }

  /** A fresh iterator yields exactly the elements `toArray()` copies, in index
      order, and afterwards `next()` fails. */
  lemma IteratorYieldsSnapshot<T>(a: seq<T>)
    ensures Drain(Iterator(a)) == ToArray(a)
    ensures Next(ArrayIterator(a, |a|)) == Err(NoSuchElement)
  {
    DrainYieldsRest(Iterator(a));
    assert a[0..] == a;
  }

  /* ---------------- Writes ---------------- */

  /** `append(oldArray, newElement)`: a copy one longer with the new element last. */
  function Append<T>(a: seq<T>, x: T): (r: seq<T>)
    ensures |r| == |a| + 1
    ensures r[..|a|] == a && r[|a|] == x
  {
    a + [x]
  }

  /** `add(element)`: null is refused and nothing is published; otherwise the
      element is appended and the call returns true. */
  function Add<T>(a: seq<T>, element: Nullable<T>): (r: Result<Written<T>>)
    ensures element.Null? ==> r == Err(NullPointer)
    ensures element.NonNull? ==> r.Ok? && r.value.returned
    ensures element.NonNull? ==> |r.value.after| == |a| + 1
    ensures element.NonNull? ==> r.value.after[..|a|] == a && r.value.after[|a|] == element.value
  {
    match element
    case Null => Err(NullPointer)
    case NonNull(x) => Ok(Written(Append(a, x), true))
  }

  /** The static `remove(oldArray, oldElement)` for a non-null element; the
      flag tells whether a new array was built, which is what `remove(element)`
      returns by comparing references. */
  function RemoveElement<T(==)>(a: seq<T>, x: T): (r: Written<T>)
    ensures r.returned <==> x in a
    ensures x !in a ==> r.after == a
    ensures x in a ==> var k := Find(a, x); r.after == a[..k] + a[k + 1..]
  {
    if |a| == 1 && a[0] == x then Written([], true)
    else
      var index := Find(a, x);
      if index == -1 then Written(a, false)
      else Written(a[..index] + a[index + 1..], true)
  }

  /** `remove(element)`. With a null element the single-element shortcut does
      not match and `find` throws on any non-empty snapshot. */
  function Remove<T(==)>(a: seq<T>, element: Nullable<T>): (r: Result<Written<T>>)
    ensures element.Null? && a == [] ==> r == Ok(Written(a, false))
    ensures element.Null? && a != [] ==> r == Err(NullPointer)
    ensures element.NonNull? ==> r.Ok?
    ensures element.NonNull? ==> (r.value.returned <==> element.value in a)
    ensures element.NonNull? ==> |r.value.after| == if r.value.returned then |a| - 1 else |a|
  {
    match element
    case Null => if |a| == 0 then Ok(Written(a, false)) else Err(NullPointer)
    case NonNull(x) => Ok(RemoveElement(a, x))
  }

  /** Removal takes out exactly one occurrence of the element, leaves every
      earlier element in place and the later ones in their order. */
  lemma RemoveDeletesFirstOccurrence<T>(a: seq<T>, x: T)
    requires x in a
    ensures var r := RemoveElement(a, x).after;
      exists k :: 0 <= k < |a| && a[k] == x && x !in a[..k] &&
        r[..k] == a[..k] && r[k..] == a[k + 1..]
    ensures multiset(RemoveElement(a, x).after) + multiset{x} == multiset(a)
  {
    var k := Find(a, x);
    var r := RemoveElement(a, x).after;
    assert r == a[..k] + a[k + 1..];
    DropAt(a, k);
  }

  /** Dropping the element at `k` keeps the prefix before it and the suffix
      after it, and takes exactly one copy of it out of the multiset. */
  lemma DropAt<T>(a: seq<T>, k: int)
    requires 0 <= k < |a|
    ensures (a[..k] + a[k + 1..])[..k] == a[..k]
    ensures (a[..k] + a[k + 1..])[k..] == a[k + 1..]
    ensures multiset(a[..k] + a[k + 1..]) + multiset{a[k]} == multiset(a)
  {
    assert a == a[..k] + [a[k]] + a[k + 1..];
  }

  /** Adding an element that is not present and then removing it restores the
      snapshot, and both calls report a change. */
  lemma AddThenRemove<T>(a: seq<T>, x: T)
    requires x !in a
    ensures Add(a, NonNull(x)).Ok?
    ensures Remove(Add(a, NonNull(x)).value.after, NonNull(x)) == Ok(Written(a, true))
  {
    var b := a + [x];
    assert Add(a, NonNull(x)).value.after == b;
    FindAppended(a, x);
    assert b[..|a|] + b[|a| + 1..] == a;
    if |a| == 0 {
      assert b == [x];
    }
  }

  /** An element that was absent is found where `append` put it. */
  lemma FindAppended<T>(a: seq<T>, x: T)
    requires x !in a
    ensures Find(a + [x], x) == |a|
  {
    var b := a + [x];
    assert b[|a|] == x;
    assert b[..|a|] == a;
  }

  /** After `add(x)` the array contains `x` and has grown by one. */
  lemma AddThenContains<T>(a: seq<T>, x: T)
    ensures Add(a, NonNull(x)).Ok?
    ensures Contains(Add(a, NonNull(x)).value.after, NonNull(x)) == Ok(true)
    ensures Size(Add(a, NonNull(x)).value.after) == Size(a) + 1
  {
    assert (a + [x])[|a|] == x;
  }

  /** Removing an element that is absent leaves the contents unchanged and
      returns false. */
  lemma RemoveAbsentIsNoOp<T>(a: seq<T>, x: T)
    requires x !in a
    ensures Remove(a, NonNull(x)) == Ok(Written(a, false))
  {
  }

  /** `clear()`: the empty snapshot. */
  function Clear<T>(): (r: seq<T>)
    ensures IsEmpty(r)
  {
    []
  }

  /** Index of the first null in `c`, or `|c|` when it holds none. */
  function FirstNull<T>(c: seq<Nullable<T>>): (k: nat)
    ensures k <= |c|
    ensures forall i :: 0 <= i < k ==> c[i].NonNull?
    ensures k < |c| ==> c[k].Null?
  {
    if |c| == 0 then 0
    else if c[0].Null? then 0
    else 1 + FirstNull(c[1..])
  }

  /** The values of the items of `c` before its first null, in order. */
  function ValuesUntilNull<T>(c: seq<Nullable<T>>): (r: seq<T>)
    ensures |r| == FirstNull(c)
    ensures forall i :: 0 <= i < |r| ==> c[i] == NonNull(r[i])
  {
    if |c| == 0 || c[0].Null? then [] else [c[0].value] + ValuesUntilNull(c[1..])
  }

  /** `addAll(c)`: `add` for each item in iteration order, stopping at the
      first item `add` refuses. The first component is the snapshot left
      published, the second what the call returns or throws. */
  function AddAll<T>(a: seq<T>, c: seq<Nullable<T>>): (seq<T>, Result<bool>)
    decreases |c|
  {
    if |c| == 0 then (a, Ok(true))
    else
      match Add(a, c[0])
      case Err(e) => (a, Err(e))
      case Ok(w) => AddAll(w.after, c[1..])
  }

  /** Every item before the first null is appended in iteration order and
      stays published; the call returns true when there is no null and
      otherwise throws NullPointer. */
  lemma {:induction false} AddAllAppendsUntilNull<T>(a: seq<T>, c: seq<Nullable<T>>)
    ensures AddAll(a, c).0 == a + ValuesUntilNull(c)
    ensures AddAll(a, c).1 == if FirstNull(c) == |c| then Ok(true) else Err(NullPointer)
    decreases |c|
  {
    if |c| > 0 && c[0].NonNull? {
      var b := a + [c[0].value];
      assert AddAll(a, c) == AddAll(b, c[1..]);
      assert FirstNull(c) == 1 + FirstNull(c[1..]);
      assert ValuesUntilNull(c) == [c[0].value] + ValuesUntilNull(c[1..]);
      AddAllAppendsUntilNull(b, c[1..]);
      assert b + ValuesUntilNull(c[1..]) == a + ([c[0].value] + ValuesUntilNull(c[1..]));
    }
  }

  /** Clearing leaves an array that reports itself empty and contains nothing. */
  lemma ClearEmpties<T>(x: T)
    ensures IsEmpty(Clear<T>()) && Size(Clear<T>()) == 0
    ensures Contains(Clear<T>(), NonNull(x)) == Ok(false)
    ensures Remove(Clear<T>(), NonNull(x)) == Ok(Written([], false))
  {
  }

  /* ---------------- Traversals ---------------- */

  /** `findFirst(function)`: the lowest-index element that matches, or none. */
  method FindFirst<T>(a: seq<T>, matches: T -> bool) returns (r: Option<T>)
    ensures r.None? <==> forall i :: 0 <= i < |a| ==> !matches(a[i])
    ensures r.Some? ==> exists i :: 0 <= i < |a| && a[i] == r.value && matches(a[i]) &&
                                   (forall j :: 0 <= j < i ==> !matches(a[j]))
  {
    var i := 0;
    while i < |a|
      invariant 0 <= i <= |a|
      invariant forall j :: 0 <= j < i ==> !matches(a[j])
    {
      if matches(a[i]) {
        return Some(a[i]);
      }
      i := i + 1;
    }
    return None;
  }

  /** `forEach(action)`: the elements handed to the action, one by one. */
  method ForEach<T>(a: seq<T>) returns (visited: seq<T>)
    ensures visited == a
  {
    visited := [];
    for i := 0 to |a|
      invariant visited == a[..i]
    {
      visited := visited + [a[i]];
    }
  }

  /** `adjustForOverrun(index, length)`: a start index past the end is pulled
      back to the last element; any other index is kept. */
  function AdjustForOverrun(index: int, length: int): (r: int)
    ensures r <= index
    ensures r == index || r == length - 1
    ensures 0 <= index && 0 < length ==> 0 <= r < length
    ensures index >= length ==> r == length - 1
  {
    if index >= length then length - 1 else index
  }

  /** The snapshot read circularly from `start`, wrapping to 0 after the end. */
  function Rotate<T>(a: seq<T>, start: nat): (r: seq<T>)
    requires start <= |a|
    ensures |r| == |a|
    ensures forall k :: 0 <= k < |a| - start ==> r[k] == a[start + k]
    ensures forall k :: |a| - start <= k < |a| ==> r[k] == a[start + k - |a|]
  {
    a[start..] + a[..start]
  }

  /** Position of index `j` in the circular order that starts at `start`. */
  function RotatedPosition(n: nat, start: nat, j: nat): int
  {
    if j >= start then j - start else j - start + n
  }

  /** Every index of the snapshot appears exactly once in the circular order:
      index j sits at its own position, distinct indices at distinct positions. */
  lemma RotateVisitsEachIndexOnce<T>(a: seq<T>, start: nat)
    requires start < |a|
    ensures forall j :: 0 <= j < |a| ==>
      RotatedPosition(|a|, start, j) < |a| && Rotate(a, start)[RotatedPosition(|a|, start, j)] == a[j]
    ensures forall i, j :: 0 <= i < j < |a| ==> RotatedPosition(|a|, start, i) != RotatedPosition(|a|, start, j)
    ensures multiset(Rotate(a, start)) == multiset(a)
  {
    assert a == a[..start] + a[start..];
  }

  /** The array index a circular traversal of `n` elements from `start`
      reaches after `k` steps. */
  function Wrapped(n: nat, start: nat, k: nat): int
  {
    if start + k < n then start + k else start + k - n
  }

  /** Advancing the index of a circular traversal and wrapping it at `n`
      brings it back to the start exactly after `n` steps. */
  lemma WrapStep(n: nat, start: nat, k: nat, i: int)
    requires start < n && k < n
    requires i == Wrapped(n, start, k)
    ensures 0 <= i < n
    ensures var i' := if i + 1 == n then 0 else i + 1;
      && (i' == start <==> k + 1 == n)
      && (k + 1 < n ==> i' == Wrapped(n, start, k + 1))
  {
  }

  /** One step of a circular traversal: the k-th element of the circular order
      is the one at the wrapped index i, and the visited prefix grows by it. */
  lemma RotateStep<T>(a: seq<T>, start: nat, k: nat, i: int)
    requires start < |a| && k < |a|
    requires i == Wrapped(|a|, start, k)
    ensures 0 <= i < |a| && Rotate(a, start)[k] == a[i]
    ensures Rotate(a, start)[..k + 1] == Rotate(a, start)[..k] + [a[i]]
  {
  }

  /** The sum of `f` over a sequence, accumulated left to right. */
  function SumOf<T>(f: T -> int, s: seq<T>): int
  {
    if |s| == 0 then 0 else SumOf(f, s[..|s| - 1]) + f(s[|s| - 1])
  }

  lemma {:induction false} SumOfConcat<T>(f: T -> int, s: seq<T>, t: seq<T>)
    ensures SumOf(f, s + t) == SumOf(f, s) + SumOf(f, t)
    decreases |t|
  {
    if |t| > 0 {
      var t' := t[..|t| - 1];
      SumOfConcat(f, s, t');
      assert (s + t)[..|s + t| - 1] == s + t';
    } else {
      assert s + t == s;
    }
  }

  /** The total of a circular traversal does not depend on where it starts. */
  lemma SumOfRotate<T>(f: T -> int, a: seq<T>, start: nat)
    requires start <= |a|
    ensures SumOf(f, Rotate(a, start)) == SumOf(f, a)
  {
    var front, back := a[..start], a[start..];
    assert Rotate(a, start) == back + front;
    assert front + back == a;
    SumOfConcat(f, back, front);
    SumOfConcat(f, front, back);
  }

  /** Calling `f` on one more element adds its result to the sum. */
  lemma SumOfAppend<T>(f: T -> int, s: seq<T>, x: T)
    ensures SumOf(f, s + [x]) == SumOf(f, s) + f(x)
  {
    assert (s + [x])[..|s|] == s;
  }

  /** What holds at the top of `doAction`'s loop: `visited` is the start of
      the circular order, `i` the index of the next element, and the count
      the sum over the elements visited so far. */
  ghost predicate CircularState<T>(a: seq<T>, start: nat, action: T -> int,
                                   visited: seq<T>, actionCount: int, i: int)
  {
    && start < |a|
    && |visited| < |a|
    && i == Wrapped(|a|, start, |visited|)
    && visited == Rotate(a, start)[..|visited|]
    && actionCount == SumOf(action, visited)
  }

  /** One iteration of `doAction`'s loop: the index wraps back to the start
      exactly when every element has been visited, and otherwise the loop
      state is kept. */
  lemma CircularAdvance<T>(a: seq<T>, start: nat, action: T -> int,
                           visited: seq<T>, actionCount: int, i: int)
    requires CircularState(a, start, action, visited, actionCount, i)
    ensures 0 <= i < |a|
    ensures var visited', i' := visited + [a[i]], if i + 1 == |a| then 0 else i + 1;
      && actionCount + action(a[i]) == SumOf(action, visited')
      && (i' == start <==> |visited'| == |a|)
      && (i' == start ==> visited' == Rotate(a, start))
      && (i' != start ==> CircularState(a, start, action, visited', actionCount + action(a[i]), i'))
  {
    WrapStep(|a|, start, |visited|, i);
    RotateStep(a, start, |visited|, i);
    SumOfAppend(action, visited, a[i]);
    if |visited| + 1 == |a| {
      assert Rotate(a, start)[..|a|] == Rotate(a, start);
    }
  }

  /** The do-while loop of `doAction` over a non-empty snapshot from a valid
      start index: it ends when the index wraps back to the start. */
  method CircularLoop<T>(a: seq<T>, start: nat, action: T -> int) returns (actionCount: int, visited: seq<T>)
    requires start < |a|
    ensures visited == Rotate(a, start)
    ensures actionCount == SumOf(action, visited)
  {
    actionCount := 0;
    var i := start;
    visited := [];
    while true
      invariant CircularState(a, start, action, visited, actionCount, i)
      decreases |a| - |visited|
    {
      CircularAdvance(a, start, action, visited, actionCount, i);
      actionCount := actionCount + action(a[i]);
      visited := visited + [a[i]];
      i := i + 1;
      if i == |a| {
        i := 0;
      }
      if i == start {
        break;
      }
    }
  }

  /** `doAction(fromIndex, action)`: every element of the snapshot is handed
      to `action` exactly once, circularly from the clamped start, and the
      counts it returns are summed. A negative start faults on the first
      array access. */
  method DoAction<T>(a: seq<T>, fromIndex: int, action: T -> int) returns (r: Result<int>, visited: seq<T>)
    ensures a == [] ==> r == Ok(0) && visited == []
    ensures a != [] && fromIndex < 0 ==> r == Err(IndexOutOfBounds) && visited == []
    ensures a != [] && fromIndex >= 0 ==>
      var start := if fromIndex >= |a| then |a| - 1 else fromIndex;
      visited == Rotate(a, start) && r == Ok(SumOf(action, a))
  {
    if |a| == 0 {
      return Ok(0), [];
    }
    var start := AdjustForOverrun(fromIndex, |a|);
    if start < 0 {
      return Err(IndexOutOfBounds), [];
    }
    var actionCount;
    actionCount, visited := CircularLoop(a, start, action);
    SumOfRotate(action, a, start);
    r := Ok(actionCount);
  }

  /** `doAction(action)`: the traversal from index 0 visits the snapshot in
      index order. */
  method DoActionFromStart<T>(a: seq<T>, action: T -> int) returns (r: Result<int>, visited: seq<T>)
    ensures visited == a
    ensures r == Ok(SumOf(action, a))
  {
    r, visited := DoAction(a, 0, action);
    if a != [] {
      assert a[0..] + a[..0] == a;
    }
  }

  /** The total the limited action reports for a sequence of (element, budget) calls. */
  function Spent<T>(action: (T, int) -> int, calls: seq<(T, int)>): int
  {
    if |calls| == 0 then 0
    else Spent(action, calls[..|calls| - 1]) + action(calls[|calls| - 1].0, calls[|calls| - 1].1)
  }

  /** Recording one more call adds its result to the total. */
  lemma SpentAppend<T>(action: (T, int) -> int, calls: seq<(T, int)>, c: (T, int))
    ensures Spent(action, calls + [c]) == Spent(action, calls) + action(c.0, c.1)
  {
    assert (calls + [c])[..|calls|] == calls;
  }

  /** The calls hand over the elements of the circular order starting at
      `start`, in that order. */
  ghost predicate FollowsCircle<T>(a: seq<T>, start: nat, calls: seq<(T, int)>)
    requires start <= |a|
  {
    |calls| <= |a| && forall k :: 0 <= k < |calls| ==> calls[k].0 == Rotate(a, start)[k]
  }

  /** Each call is told the part of `limit` that the earlier calls left over,
      and that budget is positive. */
  ghost predicate BudgetsPassed<T>(limit: int, action: (T, int) -> int, calls: seq<(T, int)>)
    decreases |calls|
  {
    |calls| == 0 ||
    (var m := |calls| - 1;
     && BudgetsPassed(limit, action, calls[..m])
     && calls[m].1 == limit - Spent(action, calls[..m])
     && calls[m].1 > 0)
  }

  /** Every call reported no more than the budget it was given. */
  ghost predicate WithinBudgets<T>(action: (T, int) -> int, calls: seq<(T, int)>)
  {
    forall k :: 0 <= k < |calls| ==> action(calls[k].0, calls[k].1) <= calls[k].1
  }

  /** When each call is told the remaining budget and keeps to it, the total
      never passes the limit. */
  lemma SpentWithinLimit<T>(limit: int, action: (T, int) -> int, calls: seq<(T, int)>)
    requires BudgetsPassed(limit, action, calls)
    requires WithinBudgets(action, calls)
    requires |calls| > 0
    ensures Spent(action, calls) <= limit
  {
    var m := |calls| - 1;
    assert calls[m].1 == limit - Spent(action, calls[..m]);
  }

  /** One more call, made with the next element of the circle and the budget
      left, keeps the record well formed. */
  lemma LimitedStep<T>(a: seq<T>, start: nat, limit: int, action: (T, int) -> int,
                       calls: seq<(T, int)>, x: T)
    requires start <= |a| && |calls| < |a|
    requires FollowsCircle(a, start, calls) && BudgetsPassed(limit, action, calls)
    requires x == Rotate(a, start)[|calls|]
    requires Spent(action, calls) < limit
    ensures FollowsCircle(a, start, calls + [(x, limit - Spent(action, calls))])
    ensures BudgetsPassed(limit, action, calls + [(x, limit - Spent(action, calls))])
  {
    var c := (x, limit - Spent(action, calls));
    StepFollowsCircle(a, start, calls, c);
    StepBudgetsPassed(limit, action, calls, c);
  }

  lemma StepFollowsCircle<T>(a: seq<T>, start: nat, calls: seq<(T, int)>, c: (T, int))
    requires start <= |a| && |calls| < |a|
    requires FollowsCircle(a, start, calls)
    requires c.0 == Rotate(a, start)[|calls|]
    ensures FollowsCircle(a, start, calls + [c])
  {
    var calls' := calls + [c];
    forall k | 0 <= k < |calls'|
      ensures calls'[k].0 == Rotate(a, start)[k]
    {
      if k < |calls| {
        assert calls'[k] == calls[k];
      }
    }
  }

  lemma StepBudgetsPassed<T>(limit: int, action: (T, int) -> int, calls: seq<(T, int)>, c: (T, int))
    requires BudgetsPassed(limit, action, calls)
    requires c.1 == limit - Spent(action, calls) && c.1 > 0
    ensures BudgetsPassed(limit, action, calls + [c])
  {
    assert (calls + [c])[..|calls|] == calls;
  }

  /** What holds at the top of `doLimitedAction`'s loop: the calls so far
      follow the circle with the budgets they were due, `i` is the index of
      the next element, and the count is their total. */
  ghost predicate LimitedState<T>(a: seq<T>, start: nat, limit: int, action: (T, int) -> int,
                                  calls: seq<(T, int)>, actionCount: int, i: int)
  {
    && start < |a|
    && |calls| < |a|
    && i == Wrapped(|a|, start, |calls|)
    && FollowsCircle(a, start, calls)
    && BudgetsPassed(limit, action, calls)
    && actionCount == Spent(action, calls)
    && (calls != [] ==> limit > 0)
  }

  /** One iteration of `doLimitedAction`'s loop below the limit: the call gets
      the next element and the budget left; the index wraps back to the start
      exactly when every element has been handed over, and otherwise the loop
      state is kept. */
  lemma LimitedAdvance<T>(a: seq<T>, start: nat, limit: int, action: (T, int) -> int,
                          calls: seq<(T, int)>, actionCount: int, i: int)
    requires LimitedState(a, start, limit, action, calls, actionCount, i)
    requires actionCount < limit
    ensures 0 <= i < |a|
    ensures var calls', i' := calls + [(a[i], limit - actionCount)], if i + 1 == |a| then 0 else i + 1;
      var actionCount' := actionCount + action(a[i], limit - actionCount);
      && actionCount' == Spent(action, calls')
      && FollowsCircle(a, start, calls')
      && BudgetsPassed(limit, action, calls')
      && limit > 0
      && (i' == start <==> |calls'| == |a|)
      && (i' != start ==> LimitedState(a, start, limit, action, calls', actionCount', i'))
  {
    WrapStep(|a|, start, |calls|, i);
    RotateStep(a, start, |calls|, i);
    LimitedStep(a, start, limit, action, calls, a[i]);
    SpentAppend(action, calls, (a[i], limit - actionCount));
  }

  /** The do-while loop of `doLimitedAction` over a non-empty snapshot from a
      valid start index. */
  method LimitedLoop<T>(a: seq<T>, start: nat, actionCountLimit: int, action: (T, int) -> int)
    returns (actionCount: int, calls: seq<(T, int)>)
    requires start < |a|
    ensures actionCount == Spent(action, calls)
    ensures FollowsCircle(a, start, calls)
    ensures BudgetsPassed(actionCountLimit, action, calls)
    ensures calls != [] ==> actionCountLimit > 0
    ensures |calls| < |a| ==> actionCount >= actionCountLimit
  {
    actionCount := 0;
    var i := start;
    calls := [];
    while true
      invariant LimitedState(a, start, actionCountLimit, action, calls, actionCount, i)
      decreases |a| - |calls|
    {
      if actionCount >= actionCountLimit {
        break;
      }
      var budget := actionCountLimit - actionCount;
      LimitedAdvance(a, start, actionCountLimit, action, calls, actionCount, i);
      actionCount := actionCount + action(a[i], budget);
      calls := calls + [(a[i], budget)];
      i := i + 1;
      if i == |a| {
        i := 0;
      }
      if i == start {
        break;
      }
    }
  }

  /** `doLimitedAction(fromIndex, limit, action)`: the circular traversal of
      `doAction`, checked against the limit before every call; each call is
      told the budget still left, which is always positive. The traversal
      stops early only when the limit is reached, and when every call stays
      within its budget so does the total. */
  method DoLimitedAction<T>(a: seq<T>, fromIndex: int, actionCountLimit: int, action: (T, int) -> int)
    returns (r: Result<int>, calls: seq<(T, int)>)
    ensures a == [] || actionCountLimit <= 0 ==> r == Ok(0) && calls == []
    ensures a != [] && actionCountLimit > 0 && fromIndex < 0 ==> r == Err(IndexOutOfBounds) && calls == []
    ensures a != [] && fromIndex >= 0 ==>
      var start := if fromIndex >= |a| then |a| - 1 else fromIndex;
      r == Ok(Spent(action, calls)) && FollowsCircle(a, start, calls)
    ensures BudgetsPassed(actionCountLimit, action, calls)
    ensures r.Ok? && |calls| < |a| ==> r.value >= actionCountLimit
    ensures r.Ok? && WithinBudgets(action, calls) ==> r.value <= actionCountLimit || r.value == 0
  {
    if |a| == 0 {
      return Ok(0), [];
    }
    var start := AdjustForOverrun(fromIndex, |a|);
    if start < 0 {
      // The first iteration either stops on the limit or faults on array[fromIndex].
      if 0 >= actionCountLimit {
        return Ok(0), [];
      }
      return Err(IndexOutOfBounds), [];
    }
    var actionCount;
    actionCount, calls := LimitedLoop(a, start, actionCountLimit, action);
    if calls != [] && WithinBudgets(action, calls) {
      SpentWithinLimit(actionCountLimit, action, calls);
    }
    r := Ok(actionCount);
  }
}
