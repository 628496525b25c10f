/**
 * The `Vec` extensions of `src/extensions/vec.rs`: pushing an element and
 * handing back a mutable reference to it, and finding the first element that
 * matches a predicate or pushing a default one.
 *
 * The vector is a class whose `elems` field the methods reassign. The
 * `&mut T` they return is modelled as the index of the referenced slot;
 * writing through it is `Vec.Write`. The predicate and the default closure
 * are pure functions.
 */
module Vecs {
  import opened Wrappers

  /** The index of the first element satisfying `p`, if any (`Iterator::position`). */
  function Position<T>(s: seq<T>, p: T -> bool): (r: Option<nat>)
    ensures r.Some? ==> r.value < |s| && p(s[r.value])
    ensures r.Some? ==> forall j :: 0 <= j < r.value ==> !p(s[j])
    ensures r.None? <==> forall j :: 0 <= j < |s| ==> !p(s[j])
  {
    if s == [] then None
    else if p(s[0]) then Some(0)
    else match Position(s[1..], p)
      case None => None
      case Some(i) => Some(i + 1)
  }

  /** A match at `i` with none before it is the position. */
  lemma PositionUnique<T>(s: seq<T>, p: T -> bool, i: nat)
    requires i < |s| && p(s[i])
    requires forall j :: 0 <= j < i ==> !p(s[j])
    ensures Position(s, p) == Some(i)
  {
  }

  /** The contents and the referenced index after `find_or_push_else`. */
  function FindOrPushed<T>(s: seq<T>, default: T, p: T -> bool): (r: (seq<T>, nat))
    ensures r.1 < |r.0|
  {
    match Position(s, p)
      case Some(i) => (s, i)
      case None => (s + [default], |s|)
  }

  /** A match leaves the vector as it is and refers to the first match. */
  lemma FindOrPushedFound<T>(s: seq<T>, default: T, p: T -> bool, i: nat)
    requires i < |s| && p(s[i])
    requires forall j :: 0 <= j < i ==> !p(s[j])
    ensures FindOrPushed(s, default, p) == (s, i)
  {
    PositionUnique(s, p, i);
  }

  /** Without a match the default is appended and referred to. */
  lemma FindOrPushedAppends<T>(s: seq<T>, default: T, p: T -> bool)
    requires forall j :: 0 <= j < |s| ==> !p(s[j])
    ensures FindOrPushed(s, default, p) == (s + [default], |s|)
  {}

  /** Whatever happens, the referenced slot holds a match or the default, and the old elements stay in front. */
  lemma FindOrPushedSlot<T>(s: seq<T>, default: T, p: T -> bool)
    ensures var (t, i) := FindOrPushed(s, default, p);
      |s| <= |t| <= |s| + 1 && t[..|s|] == s && (p(t[i]) || (i == |s| && t[i] == default))
  {
    var (t, i) := FindOrPushed(s, default, p);
    assert t[..|s|] == s;
  }

  /** `Vec<T>` with the extension traits `PushReturn` and `FindOrPush`. */
  class Vec<T> {
    var elems: seq<T>

    constructor (elems: seq<T>)
      ensures this.elems == elems
    {
      this.elems := elems;
    }

    /** `push_return`: `t` becomes the new last element, and the reference points at it. */
    method PushReturn(t: T) returns (slot: nat)
      modifies this
      ensures elems == old(elems) + [t]
      ensures slot == |elems| - 1 && elems[slot] == t
    {
      elems := elems + [t];
      slot := |elems| - 1;
    }

    /**
     * `find_or_push_else`: the first element matching `pred`, or else
     * `default()` pushed at the end. `default` is called only when nothing matches.
     */
    method FindOrPushElse(default: () -> T, pred: T -> bool) returns (slot: nat)
      modifies this
      ensures (elems, slot) == FindOrPushed(old(elems), default(), pred)
    {
      var i := 0;
      while i < |elems| && !pred(elems[i])
        invariant 0 <= i <= |elems|
        invariant forall j :: 0 <= j < i ==> !pred(elems[j])
      {
        i := i + 1;
      }
      if i < |elems| {
        PositionUnique(elems, pred, i);
        slot := i;
      } else {
        elems := elems + [default()];
        slot := |elems| - 1;
      }
    }

    /** `find_or_push`: `find_or_push_else` with a closure returning `default`. */
    method FindOrPush(default: T, pred: T -> bool) returns (slot: nat)
      modifies this
      ensures (elems, slot) == FindOrPushed(old(elems), default, pred)
    {
      slot := FindOrPushElse(() => default, pred);
    }

    /** `*reference = v` through a returned reference: only that slot changes. */
    method Write(slot: nat, v: T)
      requires slot < |elems|
      modifies this
      ensures elems == old(elems)[slot := v]
    {
      elems := elems[slot := v];
    }
  }

  /** The predicate `|x| *x == v` of the tests. */
  function Is(v: int): int -> bool
  {
    x => x == v
  }

  /** The `find_or_push` test: 1 is found at index 0, and writing 7 there gives [7, 2, 4]. */
  lemma FindExample()
    ensures FindOrPushed([1, 2, 4], 0, Is(1)) == ([1, 2, 4], 0)
    ensures [1, 2, 4][0 := 7] == [7, 2, 4]
  {
    FindOrPushedFound([1, 2, 4], 0, Is(1), 0);
  }

  /** The `find_or_push_non_exiting` test: 3 is missing, so 0 is pushed at index 3; writing 8 gives [1, 2, 4, 8]. */
  lemma PushExample()
    ensures FindOrPushed([1, 2, 4], 0, Is(3)) == ([1, 2, 4, 0], 3)
    ensures [1, 2, 4, 0][3 := 8] == [1, 2, 4, 8]
  {
    assert forall j :: 0 <= j < 3 ==> !Is(3)([1, 2, 4][j]);
    FindOrPushedAppends([1, 2, 4], 0, Is(3));
    assert [1, 2, 4] + [0] == [1, 2, 4, 0];
  }
}
