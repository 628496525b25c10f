/**
 * String ranking (`src/str/filter.rs`): the metrics a candidate string is
 * scored with against the user's input, and `sort_with`, which orders
 * candidates by that score.
 *
 * A `StrMetric` is one of
 *  - `Levenshtein`: the edit distance (see module Levenshtein) divided by the
 *    larger UTF-8 byte length of the two strings;
 *  - `SameStartBoost`: another metric scaled down by the length of the common
 *    prefix;
 *  - a `StrFilter` promoted to a metric by the blanket impl: 0 when the
 *    filter matches, 1 otherwise.
 *
 * Scores are `real`s: the rounding of `f64` arithmetic and NaN are not part
 * of the model, so the one case that yields NaN in the source (`0 / 0` when
 * both strings are empty) is excluded by `Defined`.
 */
module Filter {
  import opened Chars
  import opened Lib
  import opened Levenshtein

  // ---------------------------------------------------------------------
  // Filters

  /** The `StrFilter` implementations of the crate. */
  datatype StrFilter = StartsWithIgnoreCase

  /**
   * `StrFilter::filter`: `StartsWithIgnoreCase` matches when the lowercased
   * input is a prefix of the lowercased option.
   */
  function Matches(f: StrFilter, option: string, input: string): (r: bool)
    ensures r ==> |input| <= |option|
  {
    match f
    case StartsWithIgnoreCase => Lowercase(input) <= Lowercase(option)
  }

  /**
   * `StartsWithIgnoreCase` matches exactly when the option is at least as
   * long as the input and agrees with it, up to ASCII case, on the input's
   * positions.
   */
  lemma StartsWithIgnoreCasePointwise(option: string, input: string)
    ensures Matches(StartsWithIgnoreCase, option, input)
        <==> |input| <= |option| && forall k :: 0 <= k < |input| ==> CompareChar(option[k], input[k], true)
  {
    var lo, li := Lowercase(option), Lowercase(input);
    if |input| <= |option| {
      if li <= lo {
        forall k | 0 <= k < |input|
          ensures CompareChar(option[k], input[k], true)
        {
          assert lo[k] == li[k];
        }
      }
      if forall k :: 0 <= k < |input| ==> CompareChar(option[k], input[k], true) {
        assert forall k :: 0 <= k < |li| ==> lo[..|li|][k] == li[k];
        assert lo[..|li|] == li;
      }
    }
  }

  /** The empty input is a prefix of every option. */
  lemma EmptyInputMatches(option: string)
    ensures Matches(StartsWithIgnoreCase, option, "")
  {
    assert Lowercase("") == [];
  }

  // ---------------------------------------------------------------------
  // Metrics

  /** The `StrMetric` implementations of the crate. */
  datatype Metric =
    | Levenshtein(ignoreCase: bool)
    | SameStartBoost(ignoreCase: bool, sameStartBonus: real, other: Metric)
    | Promoted(filter: StrFilter)

  /** `max(option.len(), input.len())`: the larger length in UTF-8 bytes. */
  function MaxLen(option: string, input: string): (n: nat)
    ensures n == 0 <==> option == [] && input == []
    ensures |option| <= n && |input| <= n
  {
    Max(Utf8Len(option), Utf8Len(input))
  }

  /** The score is a number, not the NaN of `0.0 / 0.0`. */
  predicate Defined(m: Metric, option: string, input: string) {
    m.Promoted? || MaxLen(option, input) > 0
  }

  /**
   * `prefix_len` of `SameStartBoost::distance`: how many leading positions
   * of the two strings compare equal under `compare_char`.
   */
  function PrefixLen(ignoreCase: bool, a: string, b: string): (n: nat)
    ensures n <= |a| && n <= |b|
    ensures forall k :: 0 <= k < n ==> CompareChar(a[k], b[k], ignoreCase)
    ensures n < |a| && n < |b| ==> !CompareChar(a[n], b[n], ignoreCase)
  {
    if a == [] || b == [] || !CompareChar(a[0], b[0], ignoreCase) then 0
    else 1 + PrefixLen(ignoreCase, a[1..], b[1..])
  }

  /** `lev_distance as f64 / max as f64`. */
  function Normalised(d: nat, n: nat): (r: real)
    requires 0 < n
  {
    d as real / n as real
  }

  /** `distance * prefix_factor.mul_add(-bonus, 1.0)` with `prefix_factor = prefix / n`. */
  function Boosted(base: real, prefix: nat, n: nat, bonus: real): (r: real)
    requires 0 < n
  {
    base * (1.0 - Normalised(prefix, n) * bonus)
  }

  /**
   * `StrMetric::distance` of each metric. `mul_add(-bonus, 1.0)` is
   * `1 - factor * bonus`. The promise of the trait: a score between 0 and 1,
   * for every metric whose bonuses lie in [0, 1].
   */
  function Distance(m: Metric, option: string, input: string): (r: real)
    requires Defined(m, option, input)
    ensures BonusesInUnit(m) ==> 0.0 <= r <= 1.0
    ensures m.Promoted? ==> (r == 0.0 <==> Matches(m.filter, option, input)) && (r == 0.0 || r == 1.0)
  {
    match m
    case Levenshtein(ic) =>
      var d, n := EditDistance(ic, option, input), MaxLen(option, input);
      EditDistanceBounds(ic, option, input);
      UnitQuotient(d, n);
      Normalised(d, n)
    case SameStartBoost(ic, bonus, other) =>
      var base, prefix, n := Distance(other, option, input), PrefixLen(ic, option, input), MaxLen(option, input);
      if BonusesInUnit(m) then
        BoostedBounds(base, prefix, n, bonus);
        Boosted(base, prefix, n, bonus)
      else Boosted(base, prefix, n, bonus)
    case Promoted(f) =>
      if Matches(f, option, input) then 0.0 else 1.0
  }

  /**
   * `distance` as the source computes it: the Levenshtein score runs the
   * two-row dynamic program.
   */
  method MetricDistance(m: Metric, option: string, input: string) returns (r: real)
    requires Defined(m, option, input)
    ensures r == Distance(m, option, input)
  {
    match m {
      case Levenshtein(ic) =>
        var d := DynamicDistance(ic, option, input);
        r := Normalised(d, MaxLen(option, input));
      case SameStartBoost(ic, bonus, other) =>
        var base := MetricDistance(other, option, input);
        r := Boosted(base, PrefixLen(ic, option, input), MaxLen(option, input), bonus);
      case Promoted(f) =>
        r := if Matches(f, option, input) then 0.0 else 1.0;
    }
  }

  /** A promoted filter scores 0 when it matches and 1 when it does not. */
  lemma PromotedScore(f: StrFilter, option: string, input: string)
    ensures Distance(Promoted(f), option, input) == 0.0 <==> Matches(f, option, input)
    ensures Distance(Promoted(f), option, input) == 1.0 <==> !Matches(f, option, input)
  {}

  /**
   * The Levenshtein score lies in [0, 1], is 0 exactly for strings that
   * compare equal character by character, and does not depend on the order
   * of its arguments.
   */
  lemma LevenshteinScore(ignoreCase: bool, option: string, input: string)
    requires option != [] || input != []
    ensures 0.0 <= Distance(Levenshtein(ignoreCase), option, input) <= 1.0
    ensures Distance(Levenshtein(ignoreCase), option, input) == 0.0
        <==> |option| == |input| && forall k :: 0 <= k < |option| ==> CompareChar(option[k], input[k], ignoreCase)
    ensures Distance(Levenshtein(ignoreCase), option, input) == Distance(Levenshtein(ignoreCase), input, option)
  {
    EditDistanceBounds(ignoreCase, option, input);
    EditDistanceZero(ignoreCase, option, input);
    EditDistanceSymmetric(ignoreCase, option, input);
    var d, n := EditDistance(ignoreCase, option, input), MaxLen(option, input);
    assert MaxLen(input, option) == n;
    assert d <= n;
    UnitQuotient(d, n);
  }

  lemma UnitQuotient(d: nat, n: nat)
    requires 0 < n && d <= n
    ensures 0.0 <= Normalised(d, n) <= 1.0
    ensures Normalised(d, n) == 0.0 <==> d == 0
  {
    assert Normalised(d, n) * n as real == d as real;
  }

  /** With no bonus the boost returns the inner metric's score unchanged. */
  lemma BoostWithoutBonus(ignoreCase: bool, other: Metric, option: string, input: string)
    requires Defined(SameStartBoost(ignoreCase, 0.0, other), option, input)
    ensures Distance(SameStartBoost(ignoreCase, 0.0, other), option, input) == Distance(other, option, input)
  {}

  /**
   * With a bonus in [0, 1] the boost only ever lowers a nonnegative score,
   * and never below 0; a full-length common prefix scales it by exactly
   * `1 - bonus`.
   */
  lemma BoostBounds(ignoreCase: bool, bonus: real, other: Metric, option: string, input: string)
    requires Defined(SameStartBoost(ignoreCase, bonus, other), option, input)
    requires 0.0 <= bonus <= 1.0 && 0.0 <= Distance(other, option, input)
    ensures 0.0 <= Distance(SameStartBoost(ignoreCase, bonus, other), option, input) <= Distance(other, option, input)
    ensures PrefixLen(ignoreCase, option, input) == MaxLen(option, input) ==>
      Distance(SameStartBoost(ignoreCase, bonus, other), option, input) == Distance(other, option, input) * (1.0 - bonus)
  {
    BoostedBounds(Distance(other, option, input), PrefixLen(ignoreCase, option, input), MaxLen(option, input), bonus);
  }

  lemma BoostedBounds(base: real, prefix: nat, n: nat, bonus: real)
    requires prefix <= n && 0 < n
    requires 0.0 <= base && 0.0 <= bonus <= 1.0
    ensures 0.0 <= Boosted(base, prefix, n, bonus) <= base
    ensures prefix == n ==> Boosted(base, prefix, n, bonus) == base * (1.0 - bonus)
  {
    var factor := Normalised(prefix, n);
    UnitQuotient(prefix, n);
    assert factor * n as real == prefix as real;
    assert 0.0 <= factor * bonus;
    assert bonus - factor * bonus == bonus * (1.0 - factor);
    assert factor * bonus <= 1.0;
    var g := 1.0 - factor * bonus;
    assert 0.0 <= g <= 1.0;
    assert base - base * g == base * (1.0 - g);
    assert 0.0 <= base * g;
  }

  /** Every bonus in a metric lies in [0, 1]. */
  predicate BonusesInUnit(m: Metric) {
    match m
    case Levenshtein(_) => true
    case SameStartBoost(_, bonus, other) => 0.0 <= bonus <= 1.0 && BonusesInUnit(other)
    case Promoted(_) => true
  }

  // ---------------------------------------------------------------------
  // sort_with

  /** `keys[x]` comes before `keys[y]`: a smaller score, or an equal score and an earlier position. */
  predicate Precedes(keys: seq<real>, x: nat, y: nat)
    requires x < |keys| && y < |keys|
  {
    keys[x] < keys[y] || (keys[x] == keys[y] && x < y)
  }

  /** Every position in `o` is below `n`. */
  predicate Within(o: seq<nat>, n: nat) {
    forall k :: 0 <= k < |o| ==> o[k] < n
  }

  /** Positions listed by ascending score, ties in ascending position. */
  predicate Ordered(keys: seq<real>, ps: seq<nat>)
    requires Within(ps, |keys|)
  {
    forall i, j :: 0 <= i < j < |ps| ==> Precedes(keys, ps[i], ps[j])
  }

  /** Positions `lo, lo + 1, ..., hi - 1`. */
  function Range(lo: nat, hi: nat): (r: seq<nat>)
    requires lo <= hi
    ensures |r| == hi - lo
    ensures forall k :: 0 <= k < |r| ==> r[k] == lo + k
    decreases hi - lo
  {
    if lo == hi then [] else [lo] + Range(lo + 1, hi)
  }

  /**
   * Insert position `x`, which is smaller than every position in `ps`, in
   * front of the first position whose score is not smaller than `x`'s.
   */
  function Insert(keys: seq<real>, x: nat, ps: seq<nat>): (r: seq<nat>)
    requires x < |keys| && Within(ps, |keys|)
    ensures multiset(r) == multiset{x} + multiset(ps)
    ensures Within(r, |keys|)
  {
    if ps == [] || keys[x] <= keys[ps[0]] then [x] + ps
    else
      assert ps == [ps[0]] + ps[1..];
      [ps[0]] + Insert(keys, x, ps[1..])
  }

  lemma {:induction false} InsertOrdered(keys: seq<real>, x: nat, ps: seq<nat>)
    requires x < |keys| && Within(ps, |keys|) && Ordered(keys, ps)
    requires forall k :: 0 <= k < |ps| ==> x < ps[k]
    ensures Ordered(keys, Insert(keys, x, ps))
  {
    if ps == [] || keys[x] <= keys[ps[0]] {
      assert forall k :: 0 <= k < |ps| ==> keys[ps[0]] <= keys[ps[k]] by {
        forall k | 0 < k < |ps| ensures keys[ps[0]] <= keys[ps[k]] {
          assert Precedes(keys, ps[0], ps[k]);
        }
      }
    } else {
      var tail := ps[1..];
      InsertOrdered(keys, x, tail);
      var r := Insert(keys, x, tail);
      forall k | 0 <= k < |r| ensures Precedes(keys, ps[0], r[k]) {
        assert r[k] in multiset(r);
        if r[k] != x {
          assert r[k] in multiset(tail);
          var m :| 0 <= m < |tail| && tail[m] == r[k];
          assert Precedes(keys, ps[0], ps[m + 1]);
        }
      }
    }
  }

  /**
   * The stable sort `sorted_by` performs: positions `lo .. |keys|` by
   * ascending score, equal scores keeping their input order.
   */
  function SortFrom(keys: seq<real>, lo: nat): (r: seq<nat>)
    requires lo <= |keys|
    ensures multiset(r) == multiset(Range(lo, |keys|))
    ensures Within(r, |keys|)
    decreases |keys| - lo
  {
    if lo == |keys| then [] else Insert(keys, lo, SortFrom(keys, lo + 1))
  }

  lemma {:induction false} SortFromOrdered(keys: seq<real>, lo: nat)
    requires lo <= |keys|
    ensures Ordered(keys, SortFrom(keys, lo))
    decreases |keys| - lo
  {
    if lo < |keys| {
      var rest := SortFrom(keys, lo + 1);
      SortFromOrdered(keys, lo + 1);
      RangeBounds(rest, lo + 1, |keys|);
      InsertOrdered(keys, lo, rest);
    }
  }

  /** A rearrangement of `Range(lo, hi)` holds only positions in `lo .. hi`. */
  lemma RangeBounds(r: seq<nat>, lo: nat, hi: nat)
    requires lo <= hi && multiset(r) == multiset(Range(lo, hi))
    ensures forall k :: 0 <= k < |r| ==> lo <= r[k] < hi
  {
    forall k | 0 <= k < |r| ensures lo <= r[k] < hi {
      assert r[k] in multiset(Range(lo, hi));
      var m :| 0 <= m < |Range(lo, hi)| && Range(lo, hi)[m] == r[k];
    }
  }

  /** The score of every candidate against the input. */
  function Scores<T>(m: Metric, items: seq<T>, input: string, getStr: T -> string): (keys: seq<real>)
    requires forall k :: 0 <= k < |items| ==> Defined(m, getStr(items[k]), input)
    ensures |keys| == |items|
    ensures forall k :: 0 <= k < |items| ==> keys[k] == Distance(m, getStr(items[k]), input)
  {
    if items == [] then []
    else [Distance(m, getStr(items[0]), input)] + Scores(m, items[1..], input, getStr)
  }

  /** The order `sort_with` puts the candidates in, as positions into `items`. */
  function SortOrder<T>(m: Metric, items: seq<T>, input: string, getStr: T -> string): (order: seq<nat>)
    requires forall k :: 0 <= k < |items| ==> Defined(m, getStr(items[k]), input)
  {
    SortFrom(Scores(m, items, input, getStr), 0)
  }

  /**
   * `sort_with`: the candidates rearranged, each kept as often as it occurs,
   * best score first.
   */
  function SortWith<T>(m: Metric, items: seq<T>, input: string, getStr: T -> string): (r: seq<T>)
    requires forall k :: 0 <= k < |items| ==> Defined(m, getStr(items[k]), input)
    ensures |r| == |items|
    ensures multiset(r) == multiset(items)
    ensures forall k :: 0 <= k < |r| ==> r[k] in items
    ensures forall i, j :: 0 <= i < j < |r| ==> Distance(m, getStr(r[i]), input) <= Distance(m, getStr(r[j]), input)
  {
    SortOrderPicks(m, items, input, getStr);
    Pick(items, SortOrder(m, items, input, getStr))
  }

  /** What `SortWith` promises, stated of the positions the sort picks. */
  lemma SortOrderPicks<T>(m: Metric, items: seq<T>, input: string, getStr: T -> string)
    requires forall k :: 0 <= k < |items| ==> Defined(m, getStr(items[k]), input)
    ensures var order := SortOrder(m, items, input, getStr);
      && Within(order, |items|)
      && |order| == |items|
      && multiset(Pick(items, order)) == multiset(items)
      && (forall k :: 0 <= k < |order| ==> Pick(items, order)[k] in items)
      && (forall i, j :: 0 <= i < j < |order| ==>
            Distance(m, getStr(items[order[i]]), input) <= Distance(m, getStr(items[order[j]]), input))
  {
    var keys := Scores(m, items, input, getStr);
    var order := SortOrder(m, items, input, getStr);
    SortOrderIsPermutation(m, items, input, getStr);
    SortFromOrdered(keys, 0);
    PickPermutation(items, order, Range(0, |items|));
    PickRange(items);
    forall i, j | 0 <= i < j < |order|
      ensures Distance(m, getStr(items[order[i]]), input) <= Distance(m, getStr(items[order[j]]), input)
    {
      assert Precedes(keys, order[i], order[j]);
    }
  }

  /** The elements of `items` at the positions `order`, in that order. */
  function Pick<T>(items: seq<T>, order: seq<nat>): (r: seq<T>)
    requires Within(order, |items|)
    ensures |r| == |order|
    ensures forall k :: 0 <= k < |order| ==> r[k] == items[order[k]]
  {
    seq(|order|, k requires 0 <= k < |order| => items[order[k]])
  }

  lemma PickAppend<T>(items: seq<T>, o1: seq<nat>, o2: seq<nat>)
    requires Within(o1, |items|) && Within(o2, |items|)
    ensures Within(o1 + o2, |items|)
    ensures Pick(items, o1 + o2) == Pick(items, o1) + Pick(items, o2)
  {}

  lemma PickRange<T>(items: seq<T>)
    ensures Within(Range(0, |items|), |items|)
    ensures Pick(items, Range(0, |items|)) == items
  {}

  /** Cutting position `i` out of `o`. */
  lemma CutAt(o: seq<nat>, i: nat, n: nat)
    requires Within(o, n) && i < |o|
    ensures o == o[..i] + [o[i]] + o[i + 1..]
    ensures o[i] < n && Within(o[..i], n) && Within(o[i + 1..], n) && Within(o[..i] + o[i + 1..], n)
    ensures multiset(o[..i] + o[i + 1..]) == multiset(o) - multiset{o[i]}
  {
    assert o == o[..i] + [o[i]] + o[i + 1..];
  }

  /** Moving one position from the front to the middle keeps the picked elements. */
  lemma PickMove<T>(items: seq<T>, p: nat, tail: seq<nat>, front: seq<nat>, back: seq<nat>)
    requires p < |items| && Within(tail, |items|) && Within(front, |items|) && Within(back, |items|)
    requires multiset(Pick(items, tail)) == multiset(Pick(items, front + back))
    ensures Within([p] + tail, |items|) && Within(front + [p] + back, |items|)
    ensures multiset(Pick(items, [p] + tail)) == multiset(Pick(items, front + [p] + back))
  {
    PickAppend(items, [p], tail);
    PickAppend(items, front, [p]);
    PickAppend(items, front + [p], back);
    PickAppend(items, front, back);
  }

  /** Picking by two rearrangements of one list of positions gives rearrangements of one another. */
  lemma {:induction false} PickPermutation<T>(items: seq<T>, o1: seq<nat>, o2: seq<nat>)
    requires Within(o1, |items|) && Within(o2, |items|)
    requires multiset(o1) == multiset(o2)
    ensures multiset(Pick(items, o1)) == multiset(Pick(items, o2))
    decreases |o1|
  {
    if o1 != [] {
      var p := o1[0];
      var i := IndexOf(o2, p);
      CutAt(o1, 0, |items|);
      CutAt(o2, i, |items|);
      var tail, front, back := o1[1..], o2[..i], o2[i + 1..];
      assert o1 == [p] + tail;
      assert o1[..0] + o1[1..] == tail;
      PickPermutation(items, tail, front + back);
      PickMove(items, p, tail, front, back);
    }
  }

  lemma IndexOf(o: seq<nat>, p: nat) returns (i: nat)
    requires p in multiset(o)
    ensures i < |o| && o[i] == p
  {
    i :| 0 <= i < |o| && o[i] == p;
  }

  /** The order lists every position of `items` exactly once. */
  lemma SortOrderIsPermutation<T>(m: Metric, items: seq<T>, input: string, getStr: T -> string)
    requires forall k :: 0 <= k < |items| ==> Defined(m, getStr(items[k]), input)
    ensures multiset(SortOrder(m, items, input, getStr)) == multiset(Range(0, |items|))
    ensures |SortOrder(m, items, input, getStr)| == |items|
    ensures forall k :: 0 <= k < |items| ==> SortOrder(m, items, input, getStr)[k] < |items|
  {
    var order := SortOrder(m, items, input, getStr);
    assert |order| == |multiset(order)| == |multiset(Range(0, |items|))|;
    RangeBounds(order, 0, |items|);
  }

  /**
   * `sort_with` returns the candidates rearranged by a permutation of their
   * positions, with scores ascending and candidates of equal score in their
   * input order.
   */
  lemma SortWithSortsStably<T>(m: Metric, items: seq<T>, input: string, getStr: T -> string)
    requires forall k :: 0 <= k < |items| ==> Defined(m, getStr(items[k]), input)
    ensures var order := SortOrder(m, items, input, getStr);
      && multiset(order) == multiset(Range(0, |items|))
      && |SortWith(m, items, input, getStr)| == |items|
      && (forall k :: 0 <= k < |items| ==> order[k] < |items| && SortWith(m, items, input, getStr)[k] == items[order[k]])
      && (forall i, j :: 0 <= i < j < |items| ==>
            Distance(m, getStr(items[order[i]]), input) <= Distance(m, getStr(items[order[j]]), input))
      && (forall i, j :: 0 <= i < j < |items| &&
            Distance(m, getStr(items[order[i]]), input) == Distance(m, getStr(items[order[j]]), input)
            ==> order[i] < order[j])
  {
    var keys := Scores(m, items, input, getStr);
    SortOrderIsPermutation(m, items, input, getStr);
    SortFromOrdered(keys, 0);
  }
}
