/**
 * The Levenshtein distance of `src/str/filter.rs`: the source's recursive
 * oracle `recursive_distance`, the two-row dynamic program
 * `dynamic_distance`, and a reference definition both are proved equal to.
 *
 * Characters are compared with `compare_char`, so with `ignoreCase` an ASCII
 * letter and its other case cost nothing to align.
 */
module Levenshtein {
  import opened Chars
  import opened Lib

  // ---------------------------------------------------------------------
  // The cell recurrence

  function Min3(a: nat, b: nat, c: nat): (m: nat)
    ensures m <= a && m <= b && m <= c
    ensures m == a || m == b || m == c
  {
    if a <= b && a <= c then a else if b <= c then b else c
  }

  /** Cost of aligning `a` with `b`: 0 when they compare equal under `ignoreCase`. */
  function Cost(ignoreCase: bool, a: char, b: char): nat {
    if CompareChar(a, b, ignoreCase) then 0 else 1
  }

  /**
   * One cell of the edit-distance table from its three neighbours: align the
   * two characters (`diag + cost`), delete one (`up + 1`) or insert one
   * (`left + 1`).
   */
  function Step(diag: nat, up: nat, left: nat, cost: nat): nat {
    Min3(diag + cost, up + 1, left + 1)
  }

  // ---------------------------------------------------------------------
  // Three definitions

  /**
   * Reference definition: the edit distance of the suffixes `a[i..]` and
   * `b[j..]`, every case taking the minimum over all three edits.
   */
  function SuffixDistance(ignoreCase: bool, a: seq<char>, i: nat, b: seq<char>, j: nat): nat
    requires i <= |a| && j <= |b|
    decreases |a| - i + |b| - j
  {
    if i == |a| then |b| - j
    else if j == |b| then |a| - i
    else Step(SuffixDistance(ignoreCase, a, i + 1, b, j + 1),
              SuffixDistance(ignoreCase, a, i + 1, b, j),
              SuffixDistance(ignoreCase, a, i, b, j + 1),
              Cost(ignoreCase, a[i], b[j]))
  }

  /** The edit distance of two whole strings. */
  function EditDistance(ignoreCase: bool, a: seq<char>, b: seq<char>): nat {
    SuffixDistance(ignoreCase, a, 0, b, 0)
  }

  /**
   * `Levenshtein::recursive_distance` as written: it peels the first
   * characters and, when they compare equal, follows the diagonal only.
   */
  function RecursiveDistance(ignoreCase: bool, a: seq<char>, b: seq<char>): (r: nat)
    ensures Dist(|a|, |b|) <= r <= Max(|a|, |b|)
    decreases |a| + |b|
  {
    if |a| == 0 then |b|
    else if |b| == 0 then |a|
    else if CompareChar(a[0], b[0], ignoreCase) then RecursiveDistance(ignoreCase, a[1..], b[1..])
    else
      var s1 := RecursiveDistance(ignoreCase, a[1..], b);
      var s2 := RecursiveDistance(ignoreCase, a, b[1..]);
      var s3 := RecursiveDistance(ignoreCase, a[1..], b[1..]);
      1 + Min3(s1, s2, s3)
  }

  /**
   * Cell `A[i][j]` of the table `dynamic_distance` fills row by row: the
   * distance of the prefixes `s[..i]` and `t[..j]`, by the recurrence on
   * their last characters.
   */
  function TableCell(ignoreCase: bool, s: seq<char>, t: seq<char>, i: nat, j: nat): nat
    requires i <= |s| && j <= |t|
    decreases i + j
  {
    if i == 0 then j
    else if j == 0 then i
    else Step(TableCell(ignoreCase, s, t, i - 1, j - 1),
              TableCell(ignoreCase, s, t, i - 1, j),
              TableCell(ignoreCase, s, t, i, j - 1),
              Cost(ignoreCase, s[i - 1], t[j - 1]))
  }

  // ---------------------------------------------------------------------
  // The dynamic program

  /**
   * `Levenshtein::dynamic_distance`: rows `v0` (previous) and `v1` (current)
   * of the table, swapped after each character of `s`. The substitution
   * cost is `v0[j] - 1` on a match, computed with `overflowing_sub`; when
   * that underflows the cell is set to 0.
   */
  method DynamicDistance(ignoreCase: bool, s: seq<char>, t: seq<char>) returns (d: nat)
    ensures d == TableCell(ignoreCase, s, t, |s|, |t|)
    ensures d == EditDistance(ignoreCase, s, t)
  {
    var n := |t|;
    var v0 := new nat[n + 1](j => j);
    var v1 := new nat[n + 1];
    var i := 1;
    while i <= |s|
      invariant 1 <= i <= |s| + 1
      invariant fresh(v0) && fresh(v1) && v0 != v1
      invariant v0.Length == n + 1 && v1.Length == n + 1
      invariant forall k {:trigger v0[k]} :: 0 <= k <= n ==> v0[k] == TableCell(ignoreCase, s, t, i - 1, k)
    {
      NextRow(ignoreCase, s, t, i, v0, v1);
      v0, v1 := v1, v0;
      i := i + 1;
    }
    d := v0[n];
    TableIsEditDistance(ignoreCase, s, t);
  }

  /** The cells `0..j` of `row` are the cells of row `i` of the table. */
  ghost predicate RowUpTo(ignoreCase: bool, s: seq<char>, t: seq<char>, i: nat, row: seq<nat>, j: nat)
    requires i <= |s| && j < |row| <= |t| + 1
  {
    forall k :: 0 <= k <= j ==> row[k] == TableCell(ignoreCase, s, t, i, k)
  }

  /** Writing the next cell of row `i` extends the computed prefix by one. */
  lemma RowUpToExtend(ignoreCase: bool, s: seq<char>, t: seq<char>, i: nat, row: seq<nat>, j: nat, cell: nat)
    requires i <= |s| && j + 1 < |row| <= |t| + 1
    requires RowUpTo(ignoreCase, s, t, i, row, j)
    requires cell == TableCell(ignoreCase, s, t, i, j + 1)
    ensures RowUpTo(ignoreCase, s, t, i, row[j + 1 := cell], j + 1)
  {
  }

  /** The inner loop of `dynamic_distance`: row `i` into `v1` from row `i - 1` in `v0`. */
  method NextRow(ignoreCase: bool, s: seq<char>, t: seq<char>, i: nat, v0: array<nat>, v1: array<nat>)
    requires 1 <= i <= |s| && v0 != v1
    requires v0.Length == |t| + 1 && v1.Length == |t| + 1
    requires forall k {:trigger v0[k]} :: 0 <= k <= |t| ==> v0[k] == TableCell(ignoreCase, s, t, i - 1, k)
    modifies v1
    ensures forall k {:trigger v1[k]} :: 0 <= k <= |t| ==> v1[k] == TableCell(ignoreCase, s, t, i, k)
  {
    var sChar := s[i - 1];
    v1[0] := i;
    for j := 0 to |t|
      invariant RowUpTo(ignoreCase, s, t, i, v1[..], j)
    {
      var matched := if CompareChar(sChar, t[j], ignoreCase) then 1 else 0;
      var diag, deletion, insertion := v0[j], v0[j + 1], v1[j];
      var cell;
      if diag < matched {
        cell := 0;
      } else {
        var substitution := diag - matched;
        cell := Min3(substitution, insertion, deletion) + 1;
      }
      CellStep(ignoreCase, s, t, i, j, diag, deletion, insertion, matched);
      ghost var row := v1[..];
      v1[j + 1] := cell;
      assert v1[..] == row[j + 1 := cell];
      RowUpToExtend(ignoreCase, s, t, i, row, j, cell);
    }
    assert RowUpTo(ignoreCase, s, t, i, v1[..], |t|);
  }

  /**
   * The update of `v1[j + 1]` in `dynamic_distance`, overflow branch
   * included, computes the next cell of the table from its three neighbours.
   */
  lemma CellStep(ignoreCase: bool, s: seq<char>, t: seq<char>, i: nat, j: nat,
                 diag: nat, up: nat, left: nat, matched: nat)
    requires 1 <= i <= |s| && j < |t|
    requires diag == TableCell(ignoreCase, s, t, i - 1, j)
    requires up == TableCell(ignoreCase, s, t, i - 1, j + 1)
    requires left == TableCell(ignoreCase, s, t, i, j)
    requires matched == if CompareChar(s[i - 1], t[j], ignoreCase) then 1 else 0
    ensures TableCell(ignoreCase, s, t, i, j + 1) == if diag < matched then 0 else Min3(diag - matched, left, up) + 1
  {
    assert TableCell(ignoreCase, s, t, i, j + 1) == Step(diag, up, left, Cost(ignoreCase, s[i - 1], t[j]));
  }

  // ---------------------------------------------------------------------
  // Arithmetic of a cell

  /** Peeling a first and a last edit in either order reaches the same nine alignments. */
  lemma StepsCommute(n1: nat, n2: nat, n3: nat, n4: nat, n5: nat, n6: nat, n7: nat, n8: nat, n9: nat,
                     c0: nat, cL: nat)
    ensures Step(Step(n1, n2, n3, cL), Step(n4, n5, n6, cL), Step(n7, n8, n9, cL), c0)
         == Step(Step(n1, n4, n7, c0), Step(n2, n5, n8, c0), Step(n3, n6, n9, c0), cL)
  {}

  // ---------------------------------------------------------------------
  // The suffix recurrence also peels last characters

  predicate PeelsLast(ignoreCase: bool, a: seq<char>, i: nat, b: seq<char>, j: nat)
    requires i < |a| && j < |b|
  {
    var a', b' := a[..|a| - 1], b[..|b| - 1];
    SuffixDistance(ignoreCase, a, i, b, j)
      == Step(SuffixDistance(ignoreCase, a', i, b', j),
              SuffixDistance(ignoreCase, a', i, b, j),
              SuffixDistance(ignoreCase, a, i, b', j),
              Cost(ignoreCase, a[|a| - 1], b[|b| - 1]))
  }

  /**
   * The distance of `a[i..]` and `b[j..]` obeys the recurrence on their last
   * characters too: the order in which edits are peeled does not matter.
   */
  lemma {:induction false} SuffixPeelsLast(ignoreCase: bool, a: seq<char>, i: nat, b: seq<char>, j: nat)
    requires i < |a| && j < |b|
    ensures PeelsLast(ignoreCase, a, i, b, j)
    decreases |a| - i + |b| - j, 1
  {
    if i + 1 == |a| && j + 1 == |b| {
    } else if i + 1 == |a| {
      PeelsLastOneLeft(ignoreCase, a, i, b, j);
    } else if j + 1 == |b| {
      PeelsLastOneRight(ignoreCase, a, i, b, j);
    } else {
      PeelsLastLong(ignoreCase, a, i, b, j);
    }
  }

  lemma {:induction false} PeelsLastOneLeft(ignoreCase: bool, a: seq<char>, i: nat, b: seq<char>, j: nat)
    requires i + 1 == |a| && j + 1 < |b|
    ensures PeelsLast(ignoreCase, a, i, b, j)
    decreases |a| - i + |b| - j, 0
  {
    var b' := b[..|b| - 1];
    var c0, cL := Cost(ignoreCase, a[i], b[j]), Cost(ignoreCase, a[|a| - 1], b[|b| - 1]);
    SuffixPeelsLast(ignoreCase, a, i, b, j + 1);
    assert b'[j] == b[j];
    var m := |b| - j;
    var inner := SuffixDistance(ignoreCase, a, i, b', j + 1);
    assert SuffixDistance(ignoreCase, a, i + 1, b, j + 1) == m - 1 == SuffixDistance(ignoreCase, a[..i], i, b', j);
    assert SuffixDistance(ignoreCase, a, i + 1, b, j) == m == SuffixDistance(ignoreCase, a[..i], i, b, j);
    assert SuffixDistance(ignoreCase, a, i + 1, b', j + 1) == m - 2 == SuffixDistance(ignoreCase, a[..i], i, b', j + 1);
    assert SuffixDistance(ignoreCase, a, i + 1, b', j) == m - 1 == SuffixDistance(ignoreCase, a[..i], i, b, j + 1);
    ShortStepsCommute(m - 2, inner, c0, cL);
  }

  lemma {:induction false} PeelsLastOneRight(ignoreCase: bool, a: seq<char>, i: nat, b: seq<char>, j: nat)
    requires i + 1 < |a| && j + 1 == |b|
    ensures PeelsLast(ignoreCase, a, i, b, j)
    decreases |a| - i + |b| - j, 0
  {
    var a' := a[..|a| - 1];
    var c0, cL := Cost(ignoreCase, a[i], b[j]), Cost(ignoreCase, a[|a| - 1], b[|b| - 1]);
    SuffixPeelsLast(ignoreCase, a, i + 1, b, j);
    assert a'[i] == a[i];
    var m := |a| - i;
    var inner := SuffixDistance(ignoreCase, a', i + 1, b, j);
    assert SuffixDistance(ignoreCase, a, i + 1, b, j + 1) == m - 1 == SuffixDistance(ignoreCase, a', i, b[..j], j);
    assert SuffixDistance(ignoreCase, a, i, b, j + 1) == m == SuffixDistance(ignoreCase, a, i, b[..j], j);
    assert SuffixDistance(ignoreCase, a', i + 1, b, j + 1) == m - 2 == SuffixDistance(ignoreCase, a', i + 1, b[..j], j);
    assert SuffixDistance(ignoreCase, a', i, b, j + 1) == m - 1 == SuffixDistance(ignoreCase, a, i + 1, b[..j], j);
    ShortStepsCommute(m - 2, inner, c0, cL);
  }

  lemma {:induction false} PeelsLastLong(ignoreCase: bool, a: seq<char>, i: nat, b: seq<char>, j: nat)
    requires i + 1 < |a| && j + 1 < |b|
    ensures PeelsLast(ignoreCase, a, i, b, j)
    decreases |a| - i + |b| - j, 0
  {
    var a', b' := a[..|a| - 1], b[..|b| - 1];
    SuffixPeelsLast(ignoreCase, a, i + 1, b, j + 1);
    SuffixPeelsLast(ignoreCase, a, i + 1, b, j);
    SuffixPeelsLast(ignoreCase, a, i, b, j + 1);
    assert a'[i] == a[i] && b'[j] == b[j];
    StepsCommute(SuffixDistance(ignoreCase, a', i + 1, b', j + 1),
                 SuffixDistance(ignoreCase, a', i + 1, b, j + 1),
                 SuffixDistance(ignoreCase, a, i + 1, b', j + 1),
                 SuffixDistance(ignoreCase, a', i + 1, b', j),
                 SuffixDistance(ignoreCase, a', i + 1, b, j),
                 SuffixDistance(ignoreCase, a, i + 1, b', j),
                 SuffixDistance(ignoreCase, a', i, b', j + 1),
                 SuffixDistance(ignoreCase, a', i, b, j + 1),
                 SuffixDistance(ignoreCase, a, i, b', j + 1),
                 Cost(ignoreCase, a[i], b[j]), Cost(ignoreCase, a[|a| - 1], b[|b| - 1]));
  }

  /** The commuting step when one side is down to a single character. */
  lemma ShortStepsCommute(k: nat, inner: nat, c0: nat, cL: nat)
    requires c0 <= 1 && cL <= 1
    ensures Step(k + 1, k + 2, Step(k, k + 1, inner, cL), c0) == Step(k + 1, k + 2, Step(k, k + 1, inner, c0), cL)
    ensures Step(k + 1, Step(k, inner, k + 1, cL), k + 2, c0) == Step(k + 1, Step(k, inner, k + 1, c0), k + 2, cL)
  {}

  // ---------------------------------------------------------------------
  // Agreement of the three definitions

  /** The table cell is the reference distance of the two prefixes. */
  lemma {:induction false} TableIsSuffixDistance(ignoreCase: bool, s: seq<char>, t: seq<char>, i: nat, j: nat)
    requires i <= |s| && j <= |t|
    ensures TableCell(ignoreCase, s, t, i, j) == SuffixDistance(ignoreCase, s[..i], 0, t[..j], 0)
    decreases i + j
  {
    if i != 0 && j != 0 {
      var x, y := s[..i], t[..j];
      assert x[..|x| - 1] == s[..i - 1] && y[..|y| - 1] == t[..j - 1];
      assert x[|x| - 1] == s[i - 1] && y[|y| - 1] == t[j - 1];
      SuffixPeelsLast(ignoreCase, x, 0, y, 0);
      TableIsSuffixDistance(ignoreCase, s, t, i - 1, j - 1);
      TableIsSuffixDistance(ignoreCase, s, t, i - 1, j);
      TableIsSuffixDistance(ignoreCase, s, t, i, j - 1);
    }
  }

  /** `dynamic_distance` computes the edit distance. */
  lemma TableIsEditDistance(ignoreCase: bool, s: seq<char>, t: seq<char>)
    ensures TableCell(ignoreCase, s, t, |s|, |t|) == EditDistance(ignoreCase, s, t)
  {
    TableIsSuffixDistance(ignoreCase, s, t, |s|, |t|);
    assert s[..|s|] == s && t[..|t|] == t;
  }

  /** Deleting the first character of `a[i..]` is one of the edits considered. */
  lemma DeleteBound(ignoreCase: bool, a: seq<char>, i: nat, b: seq<char>, j: nat)
    requires i < |a| && j <= |b|
    ensures SuffixDistance(ignoreCase, a, i, b, j) <= SuffixDistance(ignoreCase, a, i + 1, b, j) + 1
  {}

  /** Inserting the first character of `b[j..]` is one of the edits considered. */
  lemma InsertBound(ignoreCase: bool, a: seq<char>, i: nat, b: seq<char>, j: nat)
    requires i <= |a| && j < |b|
    ensures SuffixDistance(ignoreCase, a, i, b, j) <= SuffixDistance(ignoreCase, a, i, b, j + 1) + 1
  {}

  /** Dropping the first character of `b[j..]` lowers the distance by at most one. */
  lemma {:induction false} DropFirstOfRight(ignoreCase: bool, a: seq<char>, i: nat, b: seq<char>, j: nat)
    requires i <= |a| && j < |b|
    ensures SuffixDistance(ignoreCase, a, i, b, j + 1) <= SuffixDistance(ignoreCase, a, i, b, j) + 1
    decreases |a| - i
  {
    if i < |a| {
      DeleteBound(ignoreCase, a, i, b, j + 1);
      DropFirstOfRight(ignoreCase, a, i + 1, b, j);
    }
  }

  /** Dropping the first character of `a[i..]` lowers the distance by at most one. */
  lemma {:induction false} DropFirstOfLeft(ignoreCase: bool, a: seq<char>, i: nat, b: seq<char>, j: nat)
    requires i < |a| && j <= |b|
    ensures SuffixDistance(ignoreCase, a, i + 1, b, j) <= SuffixDistance(ignoreCase, a, i, b, j) + 1
    decreases |b| - j
  {
    if j < |b| {
      InsertBound(ignoreCase, a, i + 1, b, j);
      DropFirstOfLeft(ignoreCase, a, i, b, j + 1);
    }
  }

  /**
   * The source's oracle on the suffixes is the reference distance: its
   * shortcut on matching first characters loses nothing.
   */
  lemma {:induction false} RecursiveIsSuffixDistance(ignoreCase: bool, a: seq<char>, i: nat, b: seq<char>, j: nat)
    requires i <= |a| && j <= |b|
    ensures RecursiveDistance(ignoreCase, a[i..], b[j..]) == SuffixDistance(ignoreCase, a, i, b, j)
    decreases |a| - i + |b| - j
  {
    if i < |a| && j < |b| {
      assert a[i..][0] == a[i] && b[j..][0] == b[j];
      assert a[i..][1..] == a[i + 1..] && b[j..][1..] == b[j + 1..];
      RecursiveIsSuffixDistance(ignoreCase, a, i + 1, b, j + 1);
      if CompareChar(a[i], b[j], ignoreCase) {
        DropFirstOfRight(ignoreCase, a, i + 1, b, j);
        DropFirstOfLeft(ignoreCase, a, i, b, j + 1);
      } else {
        RecursiveIsSuffixDistance(ignoreCase, a, i + 1, b, j);
        RecursiveIsSuffixDistance(ignoreCase, a, i, b, j + 1);
      }
    }
  }

  /** `recursive_distance` and `dynamic_distance` agree: both are the edit distance. */
  lemma RecursiveIsEditDistance(ignoreCase: bool, a: seq<char>, b: seq<char>)
    ensures RecursiveDistance(ignoreCase, a, b) == EditDistance(ignoreCase, a, b)
    ensures RecursiveDistance(ignoreCase, a, b) == TableCell(ignoreCase, a, b, |a|, |b|)
  {
    RecursiveIsSuffixDistance(ignoreCase, a, 0, b, 0);
    assert a[0..] == a && b[0..] == b;
    TableIsEditDistance(ignoreCase, a, b);
  }

  // ---------------------------------------------------------------------
  // Properties of the distance

  lemma {:induction false} SuffixDistanceSymmetric(ignoreCase: bool, a: seq<char>, i: nat, b: seq<char>, j: nat)
    requires i <= |a| && j <= |b|
    ensures SuffixDistance(ignoreCase, a, i, b, j) == SuffixDistance(ignoreCase, b, j, a, i)
    decreases |a| - i + |b| - j
  {
    if i < |a| && j < |b| {
      SuffixDistanceSymmetric(ignoreCase, a, i + 1, b, j + 1);
      SuffixDistanceSymmetric(ignoreCase, a, i + 1, b, j);
      SuffixDistanceSymmetric(ignoreCase, a, i, b, j + 1);
      CompareCharSymmetric(a[i], b[j], ignoreCase);
      StepSwap(SuffixDistance(ignoreCase, a, i + 1, b, j + 1), SuffixDistance(ignoreCase, a, i + 1, b, j),
               SuffixDistance(ignoreCase, a, i, b, j + 1), Cost(ignoreCase, a[i], b[j]));
    }
  }

  /** Deleting and inserting swap roles when the strings do. */
  lemma StepSwap(diag: nat, up: nat, left: nat, cost: nat)
    ensures Step(diag, up, left, cost) == Step(diag, left, up, cost)
  {}

  /** The distance does not depend on the order of its arguments. */
  lemma EditDistanceSymmetric(ignoreCase: bool, a: seq<char>, b: seq<char>)
    ensures EditDistance(ignoreCase, a, b) == EditDistance(ignoreCase, b, a)
  {
    SuffixDistanceSymmetric(ignoreCase, a, 0, b, 0);
  }

  function Max(x: nat, y: nat): nat { if x < y then y else x }

  function Dist(x: nat, y: nat): nat { if x < y then y - x else x - y }

  lemma {:induction false} SuffixDistanceAtMost(ignoreCase: bool, a: seq<char>, i: nat, b: seq<char>, j: nat)
    requires i <= |a| && j <= |b|
    ensures SuffixDistance(ignoreCase, a, i, b, j) <= Max(|a| - i, |b| - j)
    decreases |a| - i + |b| - j
  {
    if i < |a| && j < |b| {
      SuffixDistanceAtMost(ignoreCase, a, i + 1, b, j + 1);
      var diag := SuffixDistance(ignoreCase, a, i + 1, b, j + 1);
      assert SuffixDistance(ignoreCase, a, i, b, j) <= diag + Cost(ignoreCase, a[i], b[j]);
    }
  }

  lemma {:induction false} SuffixDistanceAtLeast(ignoreCase: bool, a: seq<char>, i: nat, b: seq<char>, j: nat)
    requires i <= |a| && j <= |b|
    ensures Dist(|a| - i, |b| - j) <= SuffixDistance(ignoreCase, a, i, b, j)
    decreases |a| - i + |b| - j
  {
    if i < |a| && j < |b| {
      SuffixDistanceAtLeast(ignoreCase, a, i + 1, b, j + 1);
      SuffixDistanceAtLeast(ignoreCase, a, i + 1, b, j);
      SuffixDistanceAtLeast(ignoreCase, a, i, b, j + 1);
    }
  }

  /**
   * The edit distance is at least the difference of the lengths and at most
   * the larger length.
   */
  lemma EditDistanceBounds(ignoreCase: bool, a: seq<char>, b: seq<char>)
    ensures Dist(|a|, |b|) <= EditDistance(ignoreCase, a, b) <= Max(|a|, |b|)
  {
    SuffixDistanceAtMost(ignoreCase, a, 0, b, 0);
    SuffixDistanceAtLeast(ignoreCase, a, 0, b, 0);
  }

  lemma {:induction false} SuffixDistanceZero(ignoreCase: bool, a: seq<char>, b: seq<char>, i: nat)
    requires i <= |a| && i <= |b|
    ensures SuffixDistance(ignoreCase, a, i, b, i) == 0
        <==> |a| == |b| && forall k :: i <= k < |a| ==> CompareChar(a[k], b[k], ignoreCase)
    decreases |a| - i
  {
    if i < |a| && i < |b| {
      SuffixDistanceZero(ignoreCase, a, b, i + 1);
      StepZero(SuffixDistance(ignoreCase, a, i + 1, b, i + 1), SuffixDistance(ignoreCase, a, i + 1, b, i),
               SuffixDistance(ignoreCase, a, i, b, i + 1), Cost(ignoreCase, a[i], b[i]));
      if |a| == |b| {
        assert (forall k :: i <= k < |a| ==> CompareChar(a[k], b[k], ignoreCase))
           <==> CompareChar(a[i], b[i], ignoreCase) && forall k :: i + 1 <= k < |a| ==> CompareChar(a[k], b[k], ignoreCase);
      }
    }
  }

  /** A cell is 0 only by aligning two matching characters after a 0 cell. */
  lemma StepZero(diag: nat, up: nat, left: nat, cost: nat)
    ensures Step(diag, up, left, cost) == 0 <==> diag == 0 && cost == 0
  {}

  /**
   * The distance is 0 exactly when the strings have the same length and
   * compare equal character by character (with `ignoreCase`: up to ASCII case).
   */
  lemma EditDistanceZero(ignoreCase: bool, a: seq<char>, b: seq<char>)
    ensures EditDistance(ignoreCase, a, b) == 0
        <==> |a| == |b| && forall k :: 0 <= k < |a| ==> CompareChar(a[k], b[k], ignoreCase)
  {
    SuffixDistanceZero(ignoreCase, a, b, 0);
  }

  /** A string is at distance 0 from itself. */
  lemma EditDistanceSelf(ignoreCase: bool, a: seq<char>)
    ensures EditDistance(ignoreCase, a, a) == 0
  {
    EditDistanceZero(ignoreCase, a, a);
  }

  /** Ignoring case, strings with equal lowercase forms are at distance 0, and only those. */
  lemma EditDistanceIgnoringCase(a: seq<char>, b: seq<char>)
    ensures EditDistance(true, a, b) == 0 <==> Lowercase(a) == Lowercase(b)
  {
    EditDistanceZero(true, a, b);
    if Lowercase(a) == Lowercase(b) {
      forall k | 0 <= k < |a|
        ensures CompareChar(a[k], b[k], true)
      {
        assert Lowercase(a)[k] == Lowercase(b)[k];
      }
    }
    if |a| == |b| && forall k :: 0 <= k < |a| ==> CompareChar(a[k], b[k], true) {
      assert forall k :: 0 <= k < |a| ==> Lowercase(a)[k] == Lowercase(b)[k];
    }
  }

  // ---------------------------------------------------------------------
  // Two more bounds: characters without a partner, positions that differ

  /**
   * The characters of `s` left over once each is matched, greedily and in
   * order, against a character still unused in `pool`.
   */
  function Unmatched(s: seq<char>, pool: multiset<char>): (n: nat)
    ensures n <= |s|
  {
    if s == [] then 0
    else if s[0] in pool then Unmatched(s[1..], pool - multiset{s[0]})
    else 1 + Unmatched(s[1..], pool)
  }

  lemma {:induction false} UnmatchedEmptyPool(s: seq<char>)
    ensures Unmatched(s, multiset{}) == |s|
  {
    if s != [] { UnmatchedEmptyPool(s[1..]); }
  }

  /** A larger pool leaves no more characters unmatched. */
  lemma {:induction false} UnmatchedMonotone(s: seq<char>, small: multiset<char>, large: multiset<char>)
    requires small <= large
    ensures Unmatched(s, large) <= Unmatched(s, small)
  {
    if s != [] {
      var c := s[0];
      if c in small {
        UnmatchedMonotone(s[1..], small - multiset{c}, large - multiset{c});
      } else if c in large {
        UnmatchedMonotone(s[1..], small, large - multiset{c});
      } else {
        UnmatchedMonotone(s[1..], small, large);
      }
    }
  }

  /** Taking one character out of the pool leaves at most one more unmatched. */
  lemma {:induction false} UnmatchedRemove(s: seq<char>, pool: multiset<char>, c: char)
    ensures Unmatched(s, pool - multiset{c}) <= Unmatched(s, pool) + 1
  {
    if s != [] {
      var d := s[0];
      var less := pool - multiset{c};
      if d in less {
        assert less - multiset{d} == (pool - multiset{d}) - multiset{c};
        UnmatchedRemove(s[1..], pool - multiset{d}, c);
      } else if d in pool {
        assert d == c && pool - multiset{d} == less;
      } else {
        UnmatchedRemove(s[1..], pool, c);
      }
    }
  }

  /** The three edits at the head of `[c] + s` against the pool `rest + {d}`. */
  lemma UnmatchedEdits(c: char, s: seq<char>, d: char, rest: multiset<char>)
    ensures Unmatched([c] + s, rest + multiset{d}) <= Unmatched(s, rest + multiset{d}) + 1
    ensures Unmatched([c] + s, rest + multiset{d}) <= Unmatched([c] + s, rest)
    ensures Unmatched([c] + s, rest + multiset{d}) <= Unmatched(s, rest) + (if c == d then 0 else 1)
  {
    var pool := rest + multiset{d};
    assert ([c] + s)[1..] == s;
    UnmatchedRemove(s, pool, c);
    UnmatchedMonotone([c] + s, rest, pool);
    if c == d {
      assert pool - multiset{c} == rest;
    } else {
      UnmatchedMonotone(s, rest, pool);
      if c in pool {
        UnmatchedRemove(s, rest, c);
        UnmatchedMonotone(s, rest - multiset{c}, pool - multiset{c});
      }
    }
  }

  /**
   * Case-sensitively, every edit matches or leaves unmatched at most one
   * character, so the distance is at least the number of characters of one
   * string that the other cannot match.
   */
  lemma {:induction false} SuffixDistanceUnmatched(a: seq<char>, i: nat, b: seq<char>, j: nat)
    requires i <= |a| && j <= |b|
    ensures Unmatched(a[i..], multiset(b[j..])) <= SuffixDistance(false, a, i, b, j)
    decreases |a| - i + |b| - j
  {
    if i == |a| {
    } else if j == |b| {
      assert b[j..] == [];
      UnmatchedEmptyPool(a[i..]);
    } else {
      var c, s, d, rest := a[i], a[i + 1..], b[j], multiset(b[j + 1..]);
      assert b[j..] == [d] + b[j + 1..];
      assert multiset(b[j..]) == rest + multiset{d};
      assert a[i..] == [c] + s;
      SuffixDistanceUnmatched(a, i + 1, b, j + 1);
      SuffixDistanceUnmatched(a, i + 1, b, j);
      SuffixDistanceUnmatched(a, i, b, j + 1);
      UnmatchedEdits(c, s, d, rest);
      assert Cost(false, c, d) == if c == d then 0 else 1;
    }
  }

  /** Positions from `i` on where two strings of one length do not compare equal. */
  function Mismatches(ignoreCase: bool, a: seq<char>, b: seq<char>, i: nat): (n: nat)
    requires |a| == |b| && i <= |a|
    ensures n <= |a| - i
    ensures n == 0 <==> forall k :: i <= k < |a| ==> CompareChar(a[k], b[k], ignoreCase)
    decreases |a| - i
  {
    if i == |a| then 0
    else Cost(ignoreCase, a[i], b[i]) + Mismatches(ignoreCase, a, b, i + 1)
  }

  /** Substituting every mismatched character is one way to edit: the Hamming distance bounds the edit distance. */
  lemma {:induction false} SuffixDistanceMismatches(ignoreCase: bool, a: seq<char>, b: seq<char>, i: nat)
    requires |a| == |b| && i <= |a|
    ensures SuffixDistance(ignoreCase, a, i, b, i) <= Mismatches(ignoreCase, a, b, i)
    decreases |a| - i
  {
    if i < |a| {
      SuffixDistanceMismatches(ignoreCase, a, b, i + 1);
    }
  }

  // ---------------------------------------------------------------------
  // The case-sensitive test of `test_levenshtein_differend`

  lemma CaseSensitiveMismatches(a: seq<char>, b: seq<char>)
    requires a == "levENSHTein" && b == "LEVENshtein"
    ensures Mismatches(false, a, b, 0) == 6
  {
    assert Mismatches(false, a, b, 11) == 0;
    assert Mismatches(false, a, b, 10) == 0;
    assert Mismatches(false, a, b, 9) == 0;
    assert Mismatches(false, a, b, 8) == 0;
    assert Mismatches(false, a, b, 7) == 1;
    assert Mismatches(false, a, b, 6) == 2;
    assert Mismatches(false, a, b, 5) == 3;
    assert Mismatches(false, a, b, 4) == 3;
    assert Mismatches(false, a, b, 3) == 3;
    assert Mismatches(false, a, b, 2) == 4;
    assert Mismatches(false, a, b, 1) == 5;
    assert Mismatches(false, a, b, 0) == 6;
  }

  // Pools left once "levENSHTein" has matched, in order, the letters of "LEVENshtein".
  lemma MatchedLowerE()
    ensures multiset{'L', 'E', 'V', 'E', 'N', 's', 'h', 't', 'e', 'i', 'n'} - multiset{'e'}
         == multiset{'L', 'E', 'V', 'E', 'N', 's', 'h', 't', 'i', 'n'}
  {}

  lemma MatchedUpperE()
    ensures multiset{'L', 'E', 'V', 'E', 'N', 's', 'h', 't', 'i', 'n'} - multiset{'E'}
         == multiset{'L', 'V', 'E', 'N', 's', 'h', 't', 'i', 'n'}
  {}

  lemma MatchedN()
    ensures multiset{'L', 'V', 'E', 'N', 's', 'h', 't', 'i', 'n'} - multiset{'N'}
         == multiset{'L', 'V', 'E', 's', 'h', 't', 'i', 'n'}
  {}

  lemma MatchedI()
    ensures multiset{'L', 'V', 'E', 's', 'h', 't', 'i', 'n'} - multiset{'i'}
         == multiset{'L', 'V', 'E', 's', 'h', 't', 'n'}
  {}

  lemma MatchedLowerN()
    ensures multiset{'L', 'V', 'E', 's', 'h', 't', 'n'} - multiset{'n'}
         == multiset{'L', 'V', 'E', 's', 'h', 't'}
  {}

  lemma UnmatchedFromI()
    ensures Unmatched("in", multiset{'L', 'V', 'E', 's', 'h', 't', 'i', 'n'}) == 0
  {
    MatchedI();
    MatchedLowerN();
  }

  /** "S", "H", "T" and the second "e" find no partner. */
  lemma UnmatchedFromN()
    ensures Unmatched("NSHTein", multiset{'L', 'V', 'E', 'N', 's', 'h', 't', 'i', 'n'}) == 4
  {
    MatchedN();
    UnmatchedFromI();
  }

  lemma UnmatchedFromUpperE()
    ensures Unmatched("ENSHTein", multiset{'L', 'E', 'V', 'E', 'N', 's', 'h', 't', 'i', 'n'}) == 4
  {
    MatchedUpperE();
    UnmatchedFromN();
  }

  /** Nor does "v". */
  lemma UnmatchedFromLowerE()
    ensures Unmatched("evENSHTein", multiset{'L', 'E', 'V', 'E', 'N', 's', 'h', 't', 'e', 'i', 'n'}) == 5
  {
    MatchedLowerE();
    UnmatchedFromUpperE();
  }

  /** Nor does "l": six letters in all. */
  lemma CaseSensitiveUnmatched()
    ensures Unmatched("levENSHTein", multiset{'L', 'E', 'V', 'E', 'N', 's', 'h', 't', 'e', 'i', 'n'}) == 6
  {
    UnmatchedFromLowerE();
  }

  lemma LettersOf(b: seq<char>)
    requires b == "LEVENshtein"
    ensures multiset(b) == multiset{'L', 'E', 'V', 'E', 'N', 's', 'h', 't', 'e', 'i', 'n'}
  {}

  /**
   * `test_levenshtein_differend`, case-sensitive: six letters differ in case,
   * so six substitutions suffice, and six letters of each string have no
   * partner in the other, so no shorter edit exists. Both argument orders of
   * both implementations give 6.
   */
  lemma CaseSensitiveExample(a: seq<char>, b: seq<char>)
    requires a == "levENSHTein" && b == "LEVENshtein"
    ensures EditDistance(false, a, b) == 6
    ensures RecursiveDistance(false, a, b) == 6 && RecursiveDistance(false, b, a) == 6
    ensures TableCell(false, a, b, |a|, |b|) == 6 && TableCell(false, b, a, |b|, |a|) == 6
  {
    CaseSensitiveMismatches(a, b);
    CaseSensitiveUnmatched();
    LettersOf(b);
    SuffixDistanceMismatches(false, a, b, 0);
    SuffixDistanceUnmatched(a, 0, b, 0);
    assert a[0..] == a && b[0..] == b;
    EditDistanceSymmetric(false, a, b);
    RecursiveIsEditDistance(false, a, b);
    RecursiveIsEditDistance(false, b, a);
  }

  // ---------------------------------------------------------------------
  // The kitten/sitting test of `test_levenshtein_differend`

  /** Substitute "s" for "k" and "i" for "e", then append "g". */
  lemma KittenSittingAtMost(a: seq<char>, b: seq<char>)
    requires a == "kitten" && b == "sitting"
    ensures SuffixDistance(false, a, 0, b, 0) <= 3
  {
    assert SuffixDistance(false, a, 6, b, 6) == 1;
    assert SuffixDistance(false, a, 5, b, 5) <= 1;
    assert SuffixDistance(false, a, 4, b, 4) <= 2;
    assert SuffixDistance(false, a, 3, b, 3) <= 2;
    assert SuffixDistance(false, a, 2, b, 2) <= 2;
    assert SuffixDistance(false, a, 1, b, 1) <= 2;
  }

  // Pools left once "sitting" has matched, in order, the letters of "kitten".
  lemma MatchedFirstI()
    ensures multiset{'k', 'i', 't', 't', 'e', 'n'} - multiset{'i'} == multiset{'k', 't', 't', 'e', 'n'}
  {}

  lemma MatchedFirstT()
    ensures multiset{'k', 't', 't', 'e', 'n'} - multiset{'t'} == multiset{'k', 't', 'e', 'n'}
  {}

  lemma MatchedSecondT()
    ensures multiset{'k', 't', 'e', 'n'} - multiset{'t'} == multiset{'k', 'e', 'n'}
  {}

  lemma MatchedKittenN()
    ensures multiset{'k', 'e', 'n'} - multiset{'n'} == multiset{'k', 'e'}
  {}

  /** The "g" finds no partner. */
  lemma UnmatchedFromKittenN()
    ensures Unmatched("ng", multiset{'k', 'e', 'n'}) == 1
  {
    MatchedKittenN();
    assert "ng"[1..] == "g";
    assert Unmatched("g", multiset{'k', 'e'}) == 1;
  }

  /** Nor does the second "i". */
  lemma UnmatchedFromSecondT()
    ensures Unmatched("ting", multiset{'k', 't', 'e', 'n'}) == 2
  {
    MatchedSecondT();
    UnmatchedFromKittenN();
    assert "ting"[1..] == "ing" && "ing"[1..] == "ng";
    assert Unmatched("ing", multiset{'k', 'e', 'n'}) == 2;
  }

  /** Nor does the "s": three letters in all. */
  lemma SittingUnmatched()
    ensures Unmatched("sitting", multiset{'k', 'i', 't', 't', 'e', 'n'}) == 3
  {
    MatchedFirstI();
    MatchedFirstT();
    UnmatchedFromSecondT();
  }

  lemma LettersOfKitten(a: seq<char>)
    requires a == "kitten"
    ensures multiset(a) == multiset{'k', 'i', 't', 't', 'e', 'n'}
  {}

  /**
   * `test_levenshtein_differend`, kitten and sitting: two substitutions and
   * an insertion suffice, and three letters of "sitting" have no partner in
   * "kitten". Both argument orders of both implementations give 3.
   */
  lemma KittenSittingExample(a: seq<char>, b: seq<char>)
    requires a == "kitten" && b == "sitting"
    ensures EditDistance(false, a, b) == 3
    ensures RecursiveDistance(false, a, b) == 3 && RecursiveDistance(false, b, a) == 3
    ensures TableCell(false, a, b, |a|, |b|) == 3 && TableCell(false, b, a, |b|, |a|) == 3
  {
    KittenSittingAtMost(a, b);
    SittingUnmatched();
    LettersOfKitten(a);
    SuffixDistanceUnmatched(b, 0, a, 0);
    assert a[0..] == a && b[0..] == b;
    EditDistanceSymmetric(false, a, b);
    RecursiveIsEditDistance(false, a, b);
    RecursiveIsEditDistance(false, b, a);
  }

  // ---------------------------------------------------------------------
  // The tests of `test_levenshtein_same`

  /** Ignoring case, "levENSHTein" and "LEVENshtein" align letter by letter. */
  lemma CaseInsensitiveExample(a: seq<char>, b: seq<char>)
    requires a == "levENSHTein" && b == "LEVENshtein"
    ensures EditDistance(true, a, b) == 0
    ensures RecursiveDistance(true, a, b) == 0 && RecursiveDistance(true, b, a) == 0
    ensures TableCell(true, a, b, |a|, |b|) == 0 && TableCell(true, b, a, |b|, |a|) == 0
  {
    EditDistanceZero(true, a, b);
    assert forall k :: 0 <= k < |a| ==> CompareChar(a[k], b[k], true);
    EditDistanceSymmetric(true, a, b);
    RecursiveIsEditDistance(true, a, b);
    RecursiveIsEditDistance(true, b, a);
  }

  /** A string is at distance 0 from itself, whichever implementation and order. */
  lemma SameExample(ignoreCase: bool, a: seq<char>)
    ensures RecursiveDistance(ignoreCase, a, a) == 0 && TableCell(ignoreCase, a, a, |a|, |a|) == 0
  {
    EditDistanceSelf(ignoreCase, a);
    RecursiveIsEditDistance(ignoreCase, a, a);
  }
}
