/**
 * The iterator extensions of `src/extensions/iter.rs`.
 *
 * An inner iterator is modelled by the sequence of items it has still to
 * yield (`rest`); taking its next item drops the head. The iterator adapters
 * are classes whose methods update their fields as `next` does, each with a
 * pure function `Remaining()` giving the items it is still going to yield.
 */
module Iter {
  import opened Wrappers

  datatype Ordering = Less | Equal | Greater

  /** `Ord::cmp` on integers. */
  function Cmp(a: int, b: int): (o: Ordering)
    ensures o == Greater <==> a > b
  {
    if a < b then Less else if a == b then Equal else Greater
  }

  // ---------------------------------------------------------------------
  // is_sorted_by

  /**
   * `is_sorted_by`: walk the items remembering the previous one, and stop
   * with false at the first pair that `ord` calls `Greater`.
   */
  method IsSortedBy<T>(s: seq<T>, ord: (T, T) -> Ordering) returns (sorted: bool)
    ensures sorted <==> forall k :: 0 <= k < |s| - 1 ==> ord(s[k], s[k + 1]) != Greater
  {
    var last: Option<T> := None;
    var i := 0;
    while i < |s|
      invariant 0 <= i <= |s|
      invariant last == if i == 0 then None else Some(s[i - 1])
      invariant forall k :: 0 <= k < i - 1 ==> ord(s[k], s[k + 1]) != Greater
    {
      if last.Some? && ord(last.value, s[i]) == Greater {
        return false;
      }
      last := Some(s[i]);
      i := i + 1;
    }
    return true;
  }

  /**
   * `is_sorted` (`is_sorted_by` with `Ord::cmp`): no adjacent pair is out of
   * order exactly when the whole sequence is ascending.
   */
  lemma {:induction false} AdjacentAscendingIsSorted(s: seq<int>)
    ensures (forall k :: 0 <= k < |s| - 1 ==> Cmp(s[k], s[k + 1]) != Greater)
        <==> forall i, j :: 0 <= i <= j < |s| ==> s[i] <= s[j]
  {
    if forall k :: 0 <= k < |s| - 1 ==> Cmp(s[k], s[k + 1]) != Greater {
      forall i, j | 0 <= i <= j < |s| ensures s[i] <= s[j] {
        var m := i;
        while m < j
          invariant i <= m <= j && s[i] <= s[m]
        {
          assert Cmp(s[m], s[m + 1]) != Greater;
          m := m + 1;
        }
      }
    }
  }

  // ---------------------------------------------------------------------
  // reduce_early_return

  /** The outcome of `reduce_early_return`: fold with `f` until it fails. */
  function Reduce<T, A, E>(s: seq<T>, acc: A, f: (A, T) -> Result<A, E>): (r: Result<A, E>)
    ensures r.Ok? ==> Pulled(s, acc, f) == |s|
    ensures r.Err? ==> 0 < Pulled(s, acc, f)
  {
    if s == [] then Ok(acc)
    else match f(acc, s[0])
      case Ok(next) => Reduce(s[1..], next, f)
      case Err(e) => Err(e)
  }

  /** How many items `reduce_early_return` takes from the iterator. */
  function Pulled<T, A, E>(s: seq<T>, acc: A, f: (A, T) -> Result<A, E>): (n: nat)
    ensures n <= |s|
  {
    if s == [] then 0
    else match f(acc, s[0])
      case Ok(next) => 1 + Pulled(s[1..], next, f)
      case Err(_) => 1
  }

  /** `reduce_early_return`, as the source's loop with its early `return`. */
  method ReduceEarlyReturn<T, A, E>(s: seq<T>, initial: A, f: (A, T) -> Result<A, E>)
    returns (r: Result<A, E>, pulled: nat)
    ensures r == Reduce(s, initial, f)
    ensures pulled == Pulled(s, initial, f)
  {
    var acc := initial;
    var i := 0;
    while i < |s|
      invariant 0 <= i <= |s|
      invariant Reduce(s, initial, f) == Reduce(s[i..], acc, f)
      invariant Pulled(s, initial, f) == i + Pulled(s[i..], acc, f)
    {
      assert s[i..][1..] == s[i + 1..];
      match f(acc, s[i]) {
        case Ok(value) =>
          acc := value;
        case Err(e) =>
          return Err(e), i + 1;
      }
      i := i + 1;
    }
    return Ok(acc), i;
  }

  function FoldLeft<T, A>(g: (A, T) -> A, acc: A, s: seq<T>): A {
    if s == [] then acc else FoldLeft(g, g(acc, s[0]), s[1..])
  }

  /**
   * When `f` never fails the result is the left fold and every item is
   * taken.
   */
  lemma {:induction false} ReduceWithoutErrors<T, A, E>(s: seq<T>, acc: A, f: (A, T) -> Result<A, E>, g: (A, T) -> A)
    requires forall a, x :: f(a, x) == Ok(g(a, x))
    ensures Reduce(s, acc, f) == Ok(FoldLeft(g, acc, s))
    ensures Pulled(s, acc, f) == |s|
  {
    if s != [] {
      ReduceWithoutErrors(s[1..], g(acc, s[0]), f, g);
    }
  }

  /**
   * An error ends the reduction: once a prefix fails, nothing appended after
   * it is looked at, neither for the result nor for the items taken.
   */
  lemma {:induction false} ErrorIgnoresLaterItems<T, A, E>(s: seq<T>, t: seq<T>, acc: A, f: (A, T) -> Result<A, E>)
    requires Reduce(s, acc, f).Err?
    ensures Reduce(s + t, acc, f) == Reduce(s, acc, f)
    ensures Pulled(s + t, acc, f) == Pulled(s, acc, f)
  {
    assert s != [];
    assert (s + t)[0] == s[0] && (s + t)[1..] == s[1..] + t;
    match f(acc, s[0]) {
      case Ok(next) => ErrorIgnoresLaterItems(s[1..], t, next, f);
      case Err(_) =>
    }
  }

  function Product(acc: int, x: int): Result<int, int> {
    if x != 0 then Ok(acc * x) else Err(0)
  }

  /**
   * The two cases of the source's own example: the product of 1..5 is 120,
   * and the 0 at index 3 stops the product before the 4 is taken.
   */
  lemma ProductExamples()
    ensures Reduce([1, 2, 3, 4, 5], 1, Product) == Ok(120)
    ensures Reduce([1, 2, 3, 0, 4, 5], 1, Product) == Err(0)
    ensures Pulled([1, 2, 3, 0, 4, 5], 1, Product) == 4
  {
    var s := [1, 2, 3, 0, 4, 5];
    assert s[1..] == [2, 3, 0, 4, 5] && s[1..][1..] == [3, 0, 4, 5] && s[1..][1..][1..] == [0, 4, 5];
    var u := [1, 2, 3, 4, 5];
    assert u[1..] == [2, 3, 4, 5] && u[1..][1..] == [3, 4, 5] && u[1..][1..][1..] == [4, 5];
    assert u[1..][1..][1..][1..] == [5] && u[1..][1..][1..][1..][1..] == [];
  }

  // ---------------------------------------------------------------------
  // chunked

  function Min(a: nat, b: nat): nat { if a < b then a else b }

  /**
   * The chunks `chunked(window, hop)` is meant to yield from `t`: windows of
   * up to `window` items whose starts are `hop` apart.
   */
  function Chunks<T>(window: nat, hop: nat, t: seq<T>): (r: seq<seq<T>>)
    requires 0 < hop
    ensures r == [] <==> t == [] || window == 0
    ensures forall k :: 0 <= k < |r| ==> 0 < |r[k]| <= window
    ensures r != [] ==> r[0] == t[..Min(window, |t|)]
    decreases |t|
  {
    if t == [] || window == 0 then []
    else [t[..Min(window, |t|)]] + Chunks(window, hop, t[Min(hop, |t|)..])
  }

  /** `ceil(n / d)`: the fewest steps of `d` that cover `n`. */
  function CeilDiv(n: nat, d: nat): (r: nat)
    requires 0 < d
    ensures n <= r * d
    ensures 0 < r ==> (r - 1) * d < n
    decreases n
  {
    if n == 0 then 0
    else if n <= d then 1
    else
      var r := CeilDiv(n - d, d);
      assert (1 + r) * d == d + r * d;
      1 + r
  }

  lemma MulStep(k: nat, d: nat)
    requires 0 < k
    ensures (k - 1) * d + d == k * d
  {}

  /** There are `ceil(|t| / hop)` chunks. */
  lemma {:induction false} ChunksCount<T>(window: nat, hop: nat, t: seq<T>)
    requires 0 < hop && 0 < window
    ensures |Chunks(window, hop, t)| == CeilDiv(|t|, hop)
    decreases |t|
  {
    if t != [] {
      var tail := t[Min(hop, |t|)..];
      ChunksCount(window, hop, tail);
    }
  }

  /** Chunk `k` is the window of `t` that starts at `k * hop`. */
  lemma {:induction false} ChunkAt<T>(window: nat, hop: nat, t: seq<T>, k: nat)
    requires 0 < hop && 0 < window && k < |Chunks(window, hop, t)|
    ensures k * hop < |t| && Chunks(window, hop, t)[k] == t[k * hop .. Min(k * hop + window, |t|)]
    decreases k
  {
    if k > 0 {
      var h := Min(hop, |t|);
      var tail := t[h..];
      assert Chunks(window, hop, t)[k] == Chunks(window, hop, tail)[k - 1];
      ChunkAt(window, hop, tail, k - 1);
      ChunkAfterHop(t, hop, window, k, Chunks(window, hop, tail)[k - 1]);
    }
  }

  /** Chunk `k - 1` of what is left after one hop is chunk `k` of the whole. */
  lemma ChunkAfterHop<T>(t: seq<T>, hop: nat, window: nat, k: nat, c: seq<T>)
    requires 0 < k && 0 < hop
    requires (k - 1) * hop < |t| - Min(hop, |t|)
    requires c == t[Min(hop, |t|)..][(k - 1) * hop .. Min((k - 1) * hop + window, |t| - Min(hop, |t|))]
    ensures k * hop < |t| && c == t[k * hop .. Min(k * hop + window, |t|)]
  {
    var j, n := (k - 1) * hop, |t|;
    assert Min(hop, n) == hop;
    MulStep(k, hop);
    SliceOfSuffix(t, hop, j, Min(j + window, n - hop));
  }

  lemma SliceOfSuffix<T>(t: seq<T>, h: nat, j: nat, e: nat)
    requires h <= |t| && j <= e <= |t| - h
    ensures t[h..][j..e] == t[h + j .. h + e]
  {}

  /**
   * `chunked` as written: draining `min(hop, buffer.len())` items never
   * skips items the buffer does not yet hold, so the hop is in effect
   * `min(hop, window)`.
   */
  function ChunksAsWritten<T>(window: nat, hop: nat, t: seq<T>): (r: seq<seq<T>>)
    requires 0 < hop
    ensures r == [] <==> t == [] || window == 0
    ensures forall k :: 0 <= k < |r| ==> 0 < |r[k]| <= window
    ensures r != [] ==> r[0] == t[..Min(window, |t|)]
    decreases |t|
  {
    if t == [] || window == 0 then []
    else [t[..Min(window, |t|)]] + ChunksAsWritten(window, hop, t[Min(hop, Min(window, |t|))..])
  }

  /** As written, `chunked(window, hop)` is the intended `chunked(window, min(hop, window))`. */
  lemma {:induction false} ChunksAsWrittenClampsHop<T>(window: nat, hop: nat, t: seq<T>)
    requires 0 < hop && 0 < window
    ensures ChunksAsWritten(window, hop, t) == Chunks(window, Min(hop, window), t)
    decreases |t|
  {
    if t != [] {
      assert Min(hop, Min(window, |t|)) == Min(Min(hop, window), |t|);
      ChunksAsWrittenClampsHop(window, hop, t[Min(hop, Min(window, |t|))..]);
    }
  }

  /** With `hop <= window` the code yields the intended chunks. */
  lemma ChunksAsWrittenWithinWindow<T>(window: nat, hop: nat, t: seq<T>)
    requires 0 < hop <= window
    ensures ChunksAsWritten(window, hop, t) == Chunks(window, hop, t)
  {
    ChunksAsWrittenClampsHop(window, hop, t);
  }

  /**
   * With `hop > window` it does not: `(0..6).chunked(2, 3)` yields chunks
   * starting at 0, 2 and 4 instead of 0 and 3.
   */
  lemma HopBeyondWindowExample()
    ensures ChunksAsWritten(2, 3, [0, 1, 2, 3, 4, 5]) == [[0, 1], [2, 3], [4, 5]]
    ensures Chunks(2, 3, [0, 1, 2, 3, 4, 5]) == [[0, 1], [3, 4]]
  {
    var t := [0, 1, 2, 3, 4, 5];
    assert t[..2] == [0, 1] && t[2..] == [2, 3, 4, 5] && t[3..] == [3, 4, 5];
    assert t[2..][..2] == [2, 3] && t[2..][2..] == [4, 5] && [4, 5][..2] == [4, 5] && [4, 5][2..] == [];
    assert t[3..][..2] == [3, 4] && t[3..][3..] == [];
  }

  /**
   * The source's example, for any 15 items (`0..15` among them):
   * `chunked(6, 4)` yields the windows `0..6`, `4..10`, `8..14` and `12..15`,
   * as intended and, since `4 <= 6`, as written.
   */
  lemma ChunkedExample<T>(t: seq<T>)
    requires |t| == 15
    ensures Chunks(6, 4, t) == [t[0..6], t[4..10], t[8..14], t[12..15]]
    ensures ChunksAsWritten(6, 4, t) == [t[0..6], t[4..10], t[8..14], t[12..15]]
  {
    ChunksAsWrittenWithinWindow(6, 4, t);
    ChunksCount(6, 4, t);
    ChunkAt(6, 4, t, 0);
    ChunkAt(6, 4, t, 1);
    ChunkAt(6, 4, t, 2);
    ChunkAt(6, 4, t, 3);
  }

  /**
   * One call of `ChunkedIterator::next` on the buffer and the inner
   * iterator: fill the buffer up to `window` items, yield a copy of it unless
   * it is empty, then drain `min(hop, buffer.len())` items. The chunk is the
   * head of what is still to come, and the items left afterwards are those
   * the rest of the chunks are cut from.
   */
  function ChunkFill(window: nat, buffered: nat, available: nat): nat {
    if buffered < window then Min(window - buffered, available) else 0
  }

  lemma ChunkStepAdvances<T>(window: nat, hop: nat, buffer: seq<T>, rest: seq<T>, full: seq<T>, left: seq<T>)
    requires 0 < hop && |buffer| <= window
    requires full == buffer + rest[..ChunkFill(window, |buffer|, |rest|)]
    requires left == rest[ChunkFill(window, |buffer|, |rest|)..]
    ensures full == [] <==> ChunksAsWritten(window, hop, buffer + rest) == []
    ensures full != [] ==>
      ChunksAsWritten(window, hop, buffer + rest) == [full] + ChunksAsWritten(window, hop, full[Min(hop, |full|)..] + left)
  {
    var t := buffer + rest;
    assert full == t[..Min(window, |t|)];
    if full != [] {
      assert full[Min(hop, |full|)..] + left == t[Min(hop, Min(window, |t|))..];
    }
  }

  class ChunkedIterator<T> {
    var rest: seq<T>
    const window: nat
    const hop: nat
    var buffer: seq<T>

    predicate Valid() reads this {
      |buffer| <= window
    }

    /** The chunks still to come (defined for a nonzero hop). */
    function Remaining(): seq<seq<T>>
      reads this
      requires 0 < hop
    {
      ChunksAsWritten(window, hop, buffer + rest)
    }

    constructor (source: seq<T>, window: nat, hop: nat)
      ensures Valid() && this.rest == source && this.buffer == []
      ensures this.window == window && this.hop == hop
    {
      this.rest := source;
      this.window := window;
      this.hop := hop;
      this.buffer := [];
    }

    method Next() returns (r: Option<seq<T>>)
      requires Valid()
      modifies this
      ensures Valid()
      ensures 0 < hop ==> r == (if old(Remaining()) == [] then None else Some(old(Remaining())[0]))
      ensures 0 < hop ==> Remaining() == if old(Remaining()) == [] then [] else old(Remaining())[1..]
    {
      ghost var fill := ChunkFill(window, |buffer|, |rest|);
      ghost var b0, r0 := buffer, rest;
      ghost var pulled := 0;
      while |buffer| < window
        invariant |buffer| <= window && pulled <= fill
        invariant buffer == b0 + r0[..pulled] && rest == r0[pulled..]
        invariant |buffer| < window && pulled == fill ==> rest == []
        decreases window - |buffer|
      {
        if rest == [] {
          break;
        }
        buffer := buffer + [rest[0]];
        rest := rest[1..];
        pulled := pulled + 1;
      }
      if 0 < hop {
        ChunkStepAdvances(window, hop, b0, r0, buffer, rest);
      }
      if buffer == [] {
        return None;
      }
      r := Some(buffer);
      buffer := buffer[Min(hop, |buffer|)..];
    }

    /** `ExactSizeIterator::len`: `ceil(inner.len() / hop)`, the buffer not counted. */
    function Len(): (n: nat)
      reads this
      requires 0 < hop
      ensures |rest| <= n * hop
      ensures 0 < n ==> (n - 1) * hop < |rest|
    {
      CeilDiv(|rest|, hop)
    }
  }

  /** Before the first `next` with `hop <= window`, `len` counts the chunks to come. */
  lemma ChunkedLenAtStart<T>(window: nat, hop: nat, source: seq<T>)
    requires 0 < hop <= window
    ensures |ChunksAsWritten(window, hop, [] + source)| == CeilDiv(|source|, hop)
  {
    assert [] + source == source;
    ChunksAsWrittenWithinWindow(window, hop, source);
    ChunksCount(window, hop, source);
  }

  // ---------------------------------------------------------------------
  // filter_surrounding

  /** The item at position `i`, if there is one. */
  function At<T>(s: seq<T>, i: int): Option<T> {
    if 0 <= i < |s| then Some(s[i]) else None
  }

  /**
   * What `filter_surrounding(keep)` yields from `s`: the items `s[i]` with
   * `keep(s[i - 1], s[i], s[i + 1])`, a missing neighbour given as `None`.
   */
  function FilterSurrounding<T>(s: seq<T>, keep: (Option<T>, T, Option<T>) -> bool, i: nat): (r: seq<T>)
    requires i <= |s|
    ensures |r| <= |s| - i
    ensures forall x :: x in r ==> x in s[i..]
    decreases |s| - i
  {
    if i == |s| then []
    else (if Kept(s, keep, i) then [s[i]] else []) + FilterSurrounding(s, keep, i + 1)
  }

  /** Position `k` of `s` passes `keep` given its neighbours. */
  predicate Kept<T>(s: seq<T>, keep: (Option<T>, T, Option<T>) -> bool, k: nat)
    requires k < |s|
  {
    keep(At(s, k - 1), s[k], At(s, k + 1))
  }

  /** Exactly the positions from `i` on that pass `keep`, in increasing order. */
  function KeptPositions<T>(s: seq<T>, keep: (Option<T>, T, Option<T>) -> bool, i: nat): (ps: seq<nat>)
    requires i <= |s|
    ensures forall j :: 0 <= j < |ps| ==> i <= ps[j] < |s| && Kept(s, keep, ps[j])
    ensures forall j, j' :: 0 <= j < j' < |ps| ==> ps[j] < ps[j']
    ensures forall k :: i <= k < |s| && Kept(s, keep, k) ==> k in ps
    decreases |s| - i
  {
    if i == |s| then []
    else (if Kept(s, keep, i) then [i] else []) + KeptPositions(s, keep, i + 1)
  }

  /**
   * `filter_surrounding` yields the items at the kept positions, in their
   * order in `s`, and nothing else.
   */
  lemma {:induction false} FilterSurroundingIsKeptSubsequence<T>(s: seq<T>, keep: (Option<T>, T, Option<T>) -> bool, i: nat)
    requires i <= |s|
    ensures |FilterSurrounding(s, keep, i)| == |KeptPositions(s, keep, i)|
    ensures forall j :: 0 <= j < |KeptPositions(s, keep, i)| ==>
      FilterSurrounding(s, keep, i)[j] == s[KeptPositions(s, keep, i)[j]]
    decreases |s| - i
  {
    if i < |s| {
      var r, ps := FilterSurrounding(s, keep, i + 1), KeptPositions(s, keep, i + 1);
      FilterSurroundingIsKeptSubsequence(s, keep, i + 1);
      var x: seq<T>, p: seq<nat> := if Kept(s, keep, i) then [s[i]] else [], if Kept(s, keep, i) then [i] else [];
      assert FilterSurrounding(s, keep, i) == x + r && KeptPositions(s, keep, i) == p + ps;
      PrependPick(s, x, p, r, ps);
    }
  }

  /** Items picked from `s` by positions stay so when both get a same-sized prefix of picks. */
  lemma PrependPick<T>(s: seq<T>, x: seq<T>, p: seq<nat>, r: seq<T>, ps: seq<nat>)
    requires |x| == |p| && forall j :: 0 <= j < |p| ==> p[j] < |s| && x[j] == s[p[j]]
    requires |r| == |ps| && forall j :: 0 <= j < |ps| ==> ps[j] < |s| && r[j] == s[ps[j]]
    ensures |x + r| == |p + ps|
    ensures forall j :: 0 <= j < |p + ps| ==> (p + ps)[j] < |s| && (x + r)[j] == s[(p + ps)[j]]
  {
    forall j | 0 <= j < |p + ps|
      ensures (p + ps)[j] < |s| && (x + r)[j] == s[(p + ps)[j]]
    {
      if j >= |p| {
        assert (p + ps)[j] == ps[j - |p|] && (x + r)[j] == r[j - |p|];
      }
    }
  }

  /**
   * What the iterator still yields from its fields: the element is judged
   * with its neighbours, then the window shifts by one.
   */
  function SurroundingFrom<T>(keep: (Option<T>, T, Option<T>) -> bool,
                              last: Option<T>, element: Option<T>, next: Option<T>, rest: seq<T>): seq<T>
    decreases |rest| + (if next.Some? then 1 else 0) + (if element.Some? then 1 else 0)
  {
    if element.None? then []
    else
      (if keep(last, element.value, next) then [element.value] else [])
      + SurroundingFrom(keep, element, next, At(rest, 0), Tail(rest))
  }

  /** What is left after taking the next item, if any. */
  function Tail<T>(s: seq<T>): (r: seq<T>)
    ensures |r| == if s == [] then 0 else |s| - 1
  {
    if s == [] then [] else s[1..]
  }

  /** The iterator's fields hold the window around position `i` of `s`. */
  lemma {:induction false} SurroundingFromIsFilter<T>(s: seq<T>, keep: (Option<T>, T, Option<T>) -> bool, i: nat)
    requires i <= |s|
    ensures SurroundingFrom(keep, At(s, i - 1), At(s, i), At(s, i + 1), s[Min(i + 2, |s|)..])
        == FilterSurrounding(s, keep, i)
    decreases |s| - i
  {
    if i < |s| {
      SurroundingFromIsFilter(s, keep, i + 1);
      var rest := s[Min(i + 2, |s|)..];
      assert At(rest, 0) == At(s, i + 2);
      assert Tail(rest) == s[Min(i + 3, |s|)..];
    }
  }

  /** The source's example: from 0..4, keep the items with no neighbour equal to 2. */
  lemma SurroundingExample()
    ensures FilterSurrounding([0, 1, 2, 3], (l: Option<int>, e: int, a: Option<int>) => !(l == Some(2) || a == Some(2)), 0) == [0, 2]
  {
    var s := [0, 1, 2, 3];
    var keep := (l: Option<int>, e: int, a: Option<int>) => !(l == Some(2) || a == Some(2));
    assert FilterSurrounding(s, keep, 4) == [];
    assert FilterSurrounding(s, keep, 3) == [];
    assert FilterSurrounding(s, keep, 2) == [2];
    assert FilterSurrounding(s, keep, 1) == [2];
  }

  class SurroundingFilterIterator<T> {
    var rest: seq<T>
    const keep: (Option<T>, T, Option<T>) -> bool
    var last: Option<T>
    var element: Option<T>
    var next: Option<T>

    /** Items are pulled from the inner iterator in order, and once it is empty it stays empty. */
    predicate Valid() reads this {
      (element.None? ==> next.None?) && (next.None? ==> rest == [])
    }

    function Remaining(): seq<T> reads this {
      SurroundingFrom(keep, last, element, next, rest)
    }

    /** `new` takes the first two items of the inner iterator. */
    constructor (source: seq<T>, keep: (Option<T>, T, Option<T>) -> bool)
      ensures Valid() && this.keep == keep
      ensures Remaining() == FilterSurrounding(source, keep, 0)
    {
      this.keep := keep;
      last := None;
      element := At(source, 0);
      next := At(source, 1);
      rest := source[Min(2, |source|)..];
      new;
      SurroundingFromIsFilter(source, keep, 0);
    }

    /**
     * `next`: judge the element, shift the window, and when the element is
     * dropped go on with the next one (the source's recursive call).
     */
    method Next() returns (r: Option<T>)
      requires Valid()
      modifies this
      ensures Valid()
      ensures r == (if old(Remaining()) == [] then None else Some(old(Remaining())[0]))
      ensures Remaining() == if old(Remaining()) == [] then [] else old(Remaining())[1..]
      decreases |rest| + (if next.Some? then 1 else 0) + (if element.Some? then 1 else 0)
    {
      if element.None? {
        return None;
      }
      var kept := keep(last, element.value, next);
      var following := At(rest, 0);
      rest := Tail(rest);
      var current := next;
      next := following;
      last := element;
      element := current;
      if kept {
        r := last;
      } else {
        r := Next();
      }
    }
  }

  // ---------------------------------------------------------------------
  // with_size

  class ExactSizeWrapper<T> {
    var rest: seq<T>
    var consumed: nat
    const size: nat

    /** The announced size is the number of items left. */
    predicate Exact() reads this {
      consumed + |rest| == size
    }

    constructor (source: seq<T>, size: nat)
      ensures rest == source && consumed == 0 && this.size == size
      ensures size == |source| ==> Exact()
    {
      rest := source;
      consumed := 0;
      this.size := size;
    }

    /** `len`: `size - consumed` (the `usize` subtraction panics when it would go below 0). */
    function Len(): (n: nat)
      reads this
      requires consumed <= size
      ensures Exact() ==> n == |rest|
    {
      size - consumed
    }

    method Next() returns (r: Option<T>)
      modifies this
      ensures r == (if old(rest) == [] then None else Some(old(rest)[0]))
      ensures rest == if old(rest) == [] then [] else old(rest)[1..]
      ensures consumed == old(consumed) + (if r.Some? then 1 else 0)
      ensures old(Exact()) ==> Exact()
    {
      if rest == [] {
        r := None;
      } else {
        r := Some(rest[0]);
        rest := rest[1..];
        consumed := consumed + 1;
      }
    }

    method NextBack() returns (r: Option<T>)
      modifies this
      ensures r == (if old(rest) == [] then None else Some(old(rest)[|old(rest)| - 1]))
      ensures rest == if old(rest) == [] then [] else old(rest)[..|old(rest)| - 1]
      ensures consumed == old(consumed) + (if r.Some? then 1 else 0)
      ensures old(Exact()) ==> Exact()
    {
      if rest == [] {
        r := None;
      } else {
        r := Some(rest[|rest| - 1]);
        rest := rest[..|rest| - 1];
        consumed := consumed + 1;
      }
    }
  }

  // ---------------------------------------------------------------------
  // open_border_pairs

  datatype State<T> = Start(first: T) | Middle(left: T, right: T) | End(last: T)

  /** `State::new`: a pair of neighbours, or a border when one side is missing. */
  function NewState<T>(a: Option<T>, b: Option<T>): (r: Option<State<T>>)
    ensures r.None? <==> a.None? && b.None?
    ensures a.None? && b.Some? ==> r == Some(Start(b.value))
    ensures a.Some? && b.Some? ==> r == Some(Middle(a.value, b.value))
    ensures a.Some? && b.None? ==> r == Some(End(a.value))
  {
    match (a, b)
    case (None, None) => None
    case (None, Some(y)) => Some(Start(y))
    case (Some(x), Some(y)) => Some(Middle(x, y))
    case (Some(x), None) => Some(End(x))
  }

  /** The states that follow once `x` has been seen and `rest` is still to come. */
  function PairsAfter<T>(x: T, rest: seq<T>): (r: seq<State<T>>)
    ensures |r| == |rest| + 1
    ensures r[|rest|] == End(if rest == [] then x else rest[|rest| - 1])
    ensures forall k :: 0 <= k < |rest| ==> r[k] == Middle(if k == 0 then x else rest[k - 1], rest[k])
  {
    if rest == [] then [End(x)] else [Middle(x, rest[0])] + PairsAfter(rest[0], rest[1..])
  }

  /** What `open_border_pairs` yields from `s`. */
  function OpenBorderPairs<T>(s: seq<T>): (r: seq<State<T>>)
    ensures r == [] <==> s == []
    ensures s != [] ==> |r| == |s| + 1 && r[0] == Start(s[0]) && r[|s|] == End(s[|s| - 1])
  {
    if s == [] then [] else [Start(s[0])] + PairsAfter(s[0], s[1..])
  }

  /**
   * From `x0 .. x(n-1)` with `n >= 1`: `Start(x0)`, then `Middle(xi, xi+1)`,
   * then `End(x(n-1))`, `n + 1` states in all; nothing from nothing.
   */
  lemma OpenBorderPairsShape<T>(s: seq<T>)
    ensures s == [] ==> OpenBorderPairs(s) == []
    ensures s != [] ==> |OpenBorderPairs(s)| == |s| + 1
    ensures s != [] ==> OpenBorderPairs(s)[0] == Start(s[0])
    ensures s != [] ==> OpenBorderPairs(s)[|s|] == End(s[|s| - 1])
    ensures forall k :: 0 <= k < |s| - 1 ==> OpenBorderPairs(s)[k + 1] == Middle(s[k], s[k + 1])
  {
    if s != [] {
      var r := OpenBorderPairs(s);
      forall k | 0 <= k < |s| - 1 ensures r[k + 1] == Middle(s[k], s[k + 1]) {
        assert r[k + 1] == PairsAfter(s[0], s[1..])[k];
      }
    }
  }

  /** The source's example: `[1, 2, 3]` gives four states. */
  lemma OpenBorderExample()
    ensures OpenBorderPairs([1, 2, 3]) == [Start(1), Middle(1, 2), Middle(2, 3), End(3)]
  {
    assert [1, 2, 3][1..] == [2, 3] && [2, 3][1..] == [3] && [3][1..] == [];
  }

  /** The states still to come, from the iterator's fields. */
  function RemainingPairs<T>(next: Option<T>, rest: seq<T>): seq<State<T>> {
    if next.None? then OpenBorderPairs(rest) else PairsAfter(next.value, rest)
  }

  /** `OpenBorderWindowIterator::len` as written: `inner.len() + 1`. */
  function OpenBorderLen<T>(next: Option<T>, rest: seq<T>): (n: nat)
    ensures 0 < n
    ensures next.Some? || rest != [] ==> n == |RemainingPairs(next, rest)|
  {
    |rest| + 1
  }

  /** `len` is exact except when nothing is left: there it says 1. */
  lemma OpenBorderLenAsWritten<T>(next: Option<T>, rest: seq<T>)
    ensures next.Some? || rest != [] ==> OpenBorderLen(next, rest) == |RemainingPairs(next, rest)|
    ensures next.None? && rest == [] ==> OpenBorderLen(next, rest) == 1 && RemainingPairs(next, rest) == []
  {}

  /** `len` corrected: 0 when neither a held item nor an inner item is left. */
  function OpenBorderLenFixed<T>(next: Option<T>, rest: seq<T>): (n: nat)
    ensures n == |RemainingPairs(next, rest)|
  {
    if next.None? && rest == [] then 0 else |rest| + 1
  }

  class OpenBorderWindowIterator<T> {
    var rest: seq<T>
    var next: Option<T>

    function Remaining(): seq<State<T>> reads this {
      RemainingPairs(next, rest)
    }

    constructor (source: seq<T>)
      ensures Remaining() == OpenBorderPairs(source)
    {
      rest := source;
      next := None;
    }

    /** `next`: the held item and the inner iterator's next item form the next state. */
    method Next() returns (r: Option<State<T>>)
      modifies this
      ensures r == (if old(Remaining()) == [] then None else Some(old(Remaining())[0]))
      ensures Remaining() == if old(Remaining()) == [] then [] else old(Remaining())[1..]
    {
      var last := next;
      if rest == [] {
        next := None;
      } else {
        next := Some(rest[0]);
        rest := rest[1..];
      }
      r := NewState(last, next);
    }

    function Len(): (n: nat) reads this
      ensures next.Some? || rest != [] ==> n == |Remaining()|
    {
      OpenBorderLen(next, rest)
    }
  }
}
