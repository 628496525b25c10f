/**
 * The word-case engine of `src/str/convert.rs`.
 *
 * A text is a list of words plus a `Case`: how each word is cased and which
 * character, if any, separates the words. `CapitalizedString` holds the words
 * of a text, its case, and a verbatim copy of the text it was parsed from for
 * as long as that copy still spells the words in that case.
 *
 * Case is ASCII case (module Chars): every other character is caseless.
 */
module Convert {
  import opened Wrappers
  import opened Chars
  import Iter

  // ---------------------------------------------------------------------
  // WordCase

  datatype WordCase = Lower | Upper | Capitalized

  predicate HasUpper(w: string) {
    exists i :: 0 <= i < |w| && IsUpper(w[i])
  }

  predicate HasLower(w: string) {
    exists i :: 0 <= i < |w| && IsLower(w[i])
  }

  /**
   * `WordCase::word_not_in_case`: Lower is broken by an uppercase character,
   * Upper by a lowercase one, and Capitalized by a first character that is
   * not upper or a later one that is not lower.
   */
  predicate NotInCase(wc: WordCase, word: string): (r: bool)
    ensures r ==> word != []
    decreases if wc.Capitalized? then 1 else 0
  {
    match wc
    case Lower => HasUpper(word)
    case Upper => HasLower(word)
    case Capitalized =>
      word != [] && (NotInCase(Upper, word[..1]) || NotInCase(Lower, word[1..]))
  }

  /** The two parts of a word `NotInCase` tests for Capitalized. */
  lemma CapitalizedParts(word: string)
    requires word != []
    ensures HasLower(word[..1]) <==> IsLower(word[0])
    ensures HasUpper(word[1..]) <==> exists i :: 1 <= i < |word| && IsUpper(word[i])
  {
    assert word[..1] == [word[0]];
    if exists i :: 1 <= i < |word| && IsUpper(word[i]) {
      var i :| 1 <= i < |word| && IsUpper(word[i]);
      assert word[1..][i - 1] == word[i];
    }
    if HasUpper(word[1..]) {
      var i :| 0 <= i < |word[1..]| && IsUpper(word[1..][i]);
      assert word[i + 1] == word[1..][i];
    }
  }

  /** What breaks each case, character by character; the empty word is in every case. */
  lemma NotInCaseMeaning(wc: WordCase, word: string)
    ensures word == [] ==> !NotInCase(wc, word)
    ensures NotInCase(Lower, word) <==> exists i :: 0 <= i < |word| && IsUpper(word[i])
    ensures NotInCase(Upper, word) <==> exists i :: 0 <= i < |word| && IsLower(word[i])
    ensures NotInCase(Capitalized, word)
        <==> word != [] && (IsLower(word[0]) || exists i :: 1 <= i < |word| && IsUpper(word[i]))
  {
    if word != [] {
      CapitalizedParts(word);
    }
  }

  /**
   * `WordCase::convert`: the empty word as is, otherwise recased. The result
   * is in the case and differs from the word only in the case of its letters.
   */
  function ConvertWord(wc: WordCase, word: string): (r: string)
    ensures |r| == |word|
    ensures !NotInCase(wc, r)
    ensures forall i :: 0 <= i < |word| ==> ToLower(r[i]) == ToLower(word[i])
  {
    if word == [] then word
    else match wc
      case Lower => NotInCaseMeaning(Lower, Lowercase(word)); Lowercase(word)
      case Upper => NotInCaseMeaning(Upper, Uppercase(word)); Uppercase(word)
      case Capitalized =>
        var r := Uppercase(word[..1]) + Lowercase(word[1..]);
        assert r[0] == ToUpper(word[0]);
        assert forall i :: 1 <= i < |word| ==> r[i] == Lowercase(word[1..])[i - 1];
        r
  }

  /** A word already in the case converts to itself. */
  lemma ConvertWordInCaseIsIdentity(wc: WordCase, word: string)
    requires !NotInCase(wc, word)
    ensures ConvertWord(wc, word) == word
  {
    NotInCaseMeaning(wc, word);
    if word != [] && wc == Capitalized {
      assert Uppercase(word[..1]) == word[..1];
      assert Lowercase(word[1..]) == word[1..];
      assert word[..1] + word[1..] == word;
    }
  }

  /**
   * `WordCase::conver_if_needed`: convert only a word not in the wanted case,
   * and then raise the `has_changed` flag.
   */
  function ConvertIfNeeded(wc: Option<WordCase>, word: string, hasChanged: bool): (r: (string, bool))
    ensures r.1 <==> hasChanged || (wc.Some? && NotInCase(wc.value, word))
    ensures wc.None? || !NotInCase(wc.value, word) ==> r.0 == word
    ensures wc.Some? ==> !NotInCase(wc.value, r.0)
  {
    match wc
    case Some(c) =>
      if NotInCase(c, word) then (ConvertWord(c, word), true)
      else (word, hasChanged)
    case None => (word, hasChanged)
  }

  // ---------------------------------------------------------------------
  // Case

  /** `Case`: Camel, or a word case (None for mixed case) with an optional separator. */
  datatype Case = Camel | Other(wordCase: Option<WordCase>, separator: Option<char>)
  {
    /** The preset cases. */
    static const Pascal: Case := Other(Some(WordCase.Capitalized), None)
    static const Snake: Case := Other(Some(WordCase.Lower), Some('_'))
    static const ScreamingSnake: Case := Other(Some(WordCase.Upper), Some('_'))
    static const Kebab: Case := Other(Some(WordCase.Lower), Some('-'))
    static const Upper: Case := Other(Some(WordCase.Upper), Some(' '))
    static const Lower: Case := Other(Some(WordCase.Lower), Some(' '))

    /** `Case::seperator`. */
    function Separator(): Option<char> {
      if Camel? then None else separator
    }
  }

  /** The separator as the string `join` puts between words. */
  function SeparatorString(c: Case): string {
    if c.Separator().Some? then [c.Separator().value] else ""
  }

  /** `Itertools::join`. */
  function Join(words: seq<string>, sep: string): string {
    if words == [] then ""
    else if |words| == 1 then words[0]
    else words[0] + sep + Join(words[1..], sep)
  }

  lemma JoinCons(w: string, words: seq<string>, sep: string)
    requires words != []
    ensures Join([w] + words, sep) == w + sep + Join(words, sep)
  {
    assert ([w] + words)[1..] == words;
  }

  /** Joining one word or none does not involve the separator. */
  lemma JoinShort(words: seq<string>, sep1: string, sep2: string)
    requires |words| <= 1
    ensures Join(words, sep1) == Join(words, sep2)
  {}

  /** `str::split(separator)`: the pieces between separators, empty pieces kept. */
  function SplitSeparator(data: string, c: char): (r: seq<string>)
    ensures |r| >= 1
    ensures forall k :: 0 <= k < |r| ==> c !in r[k]
    ensures Join(r, [c]) == data
  {
    if data == [] then [[]]
    else
      var rest := SplitSeparator(data[1..], c);
      if data[0] == c then
        JoinCons([], rest, [c]);
        [[]] + rest
      else
        assert data == [data[0]] + data[1..];
        JoinPrepend(data[0], rest, [c]);
        [[data[0]] + rest[0]] + rest[1..]
  }

  /** Prepending to the first word prepends to the joined text. */
  lemma JoinPrepend(ch: char, words: seq<string>, sep: string)
    requires words != []
    ensures Join([[ch] + words[0]] + words[1..], sep) == [ch] + Join(words, sep)
  {
    if |words| > 1 {
      JoinCons(words[0], words[1..], sep);
      JoinCons([ch] + words[0], words[1..], sep);
      assert words == [words[0]] + words[1..];
    }
  }

  /** A word without separators splits into itself. */
  lemma {:induction false} SplitSeparatorWhole(w: string, c: char)
    requires c !in w
    ensures SplitSeparator(w, c) == [w]
  {
    if w != [] {
      SplitSeparatorWhole(w[1..], c);
      assert [w[0]] + w[1..] == w;
    }
  }

  /** A piece without separators is split off whole. */
  lemma {:induction false} SplitSeparatorPiece(w: string, tail: string, c: char)
    requires c !in w
    ensures SplitSeparator(w + [c] + tail, c) == [w] + SplitSeparator(tail, c)
  {
    var data := w + [c] + tail;
    if w == [] {
      assert data[1..] == tail;
    } else {
      SplitSeparatorPiece(w[1..], tail, c);
      assert data[1..] == w[1..] + [c] + tail;
      assert [w[0]] + w[1..] == w;
    }
  }

  /** Splitting the joined words gives the words back, if none holds the separator. */
  lemma {:induction false} SplitJoin(words: seq<string>, c: char)
    requires words != [] && forall k :: 0 <= k < |words| ==> c !in words[k]
    ensures SplitSeparator(Join(words, [c]), c) == words
  {
    SplitSeparatorWhole(words[0], c);
    if |words| > 1 {
      SplitJoin(words[1..], c);
      SplitSeparatorPiece(words[0], Join(words[1..], [c]), c);
      assert words == [words[0]] + words[1..];
    }
  }

  /** Positions `i, i + 1, ...` of `data` that hold an uppercase character. */
  function UpperFrom(data: string, i: nat): seq<nat>
    requires i <= |data|
    decreases |data| - i
  {
    if i == |data| then []
    else (if IsUpper(data[i]) then [i] else []) + UpperFrom(data, i + 1)
  }

  /**
   * The positions of uppercase characters increase, and there are none
   * exactly when no character from `i` on is uppercase.
   */
  lemma {:induction false} UpperFromIncreasing(data: string, i: nat)
    requires i <= |data|
    ensures var r := UpperFrom(data, i); r != [] ==> i <= r[0] && Increasing(r[0], r[1..], |data|)
    ensures UpperFrom(data, i) == [] <==> forall j :: i <= j < |data| ==> !IsUpper(data[j])
    decreases |data| - i
  {
    if i < |data| {
      UpperFromIncreasing(data, i + 1);
      var rest := UpperFrom(data, i + 1);
      if IsUpper(data[i]) {
        assert UpperFrom(data, i) == [i] + rest;
        assert ([i] + rest)[1..] == rest;
      } else {
        assert UpperFrom(data, i) == rest;
      }
    }
  }

  /** `x` followed by `rest`: strictly increasing positions below `n`. */
  predicate Increasing(x: nat, rest: seq<nat>, n: nat)
    decreases |rest|
  {
    x < n && (rest == [] || (x < rest[0] && Increasing(rest[0], rest[1..], n)))
  }

  /** One state of `open_border_pairs` refers to positions inside `data`, in order. */
  predicate StateWithin(data: string, st: Iter.State<nat>) {
    match st
    case Start(e) => e <= |data|
    case Middle(s, e) => s <= e <= |data|
    case End(s) => s <= |data|
  }

  predicate StatesWithin(data: string, states: seq<Iter.State<nat>>) {
    states == [] || (StateWithin(data, states[0]) && StatesWithin(data, states[1..]))
  }

  /** The pieces of `data` the states of `open_border_pairs` cut out. */
  function Pieces(data: string, states: seq<Iter.State<nat>>): seq<string>
    requires StatesWithin(data, states)
  {
    if states == [] then []
    else
      var piece := match states[0]
        case Start(e) => if e != 0 then [data[..e]] else []
        case Middle(s, e) => [data[s..e]]
        case End(s) => [data[s..]];
      piece + Pieces(data, states[1..])
  }

  lemma {:induction false} PairsWithin(data: string, x: nat, rest: seq<nat>)
    requires Increasing(x, rest, |data|)
    ensures StatesWithin(data, Iter.PairsAfter(x, rest))
    decreases |rest|
  {
    if rest != [] {
      PairsWithin(data, rest[0], rest[1..]);
      assert Iter.PairsAfter(x, rest)[1..] == Iter.PairsAfter(rest[0], rest[1..]);
    } else {
      assert Iter.PairsAfter(x, rest)[1..] == [];
    }
  }

  /** The pieces the states after position `x` cut out. */
  function PiecesAfter(data: string, x: nat, rest: seq<nat>): seq<string>
    requires Increasing(x, rest, |data|)
  {
    PairsWithin(data, x, rest);
    Pieces(data, Iter.PairsAfter(x, rest))
  }

  lemma PiecesAfterStep(data: string, x: nat, rest: seq<nat>)
    requires Increasing(x, rest, |data|)
    ensures rest == [] ==> PiecesAfter(data, x, rest) == [data[x..]]
    ensures rest != [] ==> x < rest[0] < |data| && Increasing(rest[0], rest[1..], |data|)
    ensures rest != [] ==> PiecesAfter(data, x, rest) == [data[x..rest[0]]] + PiecesAfter(data, rest[0], rest[1..])
  {
    PairsWithin(data, x, rest);
    if rest != [] {
      PairsWithin(data, rest[0], rest[1..]);
      assert Iter.PairsAfter(x, rest)[1..] == Iter.PairsAfter(rest[0], rest[1..]);
    } else {
      assert Iter.PairsAfter(x, rest) == [Iter.End(x)];
      assert [Iter.End(x)][1..] == [];
      assert StatesWithin(data, [Iter.End(x)]);
      assert Pieces(data, []) == [];
      assert Pieces(data, [Iter.End(x)]) == [data[x..]];
      assert PiecesAfter(data, x, rest) == Pieces(data, [Iter.End(x)]);
    }
  }

  /** The middle and end pieces after position `x` spell the rest of the text, none empty. */
  lemma {:induction false} PairsSpell(data: string, x: nat, rest: seq<nat>)
    requires Increasing(x, rest, |data|)
    ensures Join(PiecesAfter(data, x, rest), "") == data[x..]
    ensures forall k :: 0 <= k < |PiecesAfter(data, x, rest)| ==> PiecesAfter(data, x, rest)[k] != []
    decreases |rest|
  {
    PiecesAfterStep(data, x, rest);
    if rest != [] {
      var y := rest[0];
      PairsSpell(data, y, rest[1..]);
      var tail := PiecesAfter(data, y, rest[1..]);
      PiecesAfterStep(data, y, rest[1..]);
      JoinCons(data[x..y], tail, "");
      assert data[x..y] + data[y..] == data[x..];
    }
  }

  /**
   * `Case::split_capitalized`: cut before every uppercase character, with a
   * leading piece only when the text does not start with one.
   */
  function SplitCapitalized(data: string): (r: seq<string>)
    ensures !HasUpper(data) ==> r == []
    ensures HasUpper(data) ==> Join(r, "") == data
    ensures forall k :: 0 <= k < |r| ==> r[k] != []
  {
    var ps := UpperFrom(data, 0);
    UpperFromIncreasing(data, 0);
    if ps == [] then []
    else
      PairsWithin(data, ps[0], ps[1..]);
      assert Iter.OpenBorderPairs(ps)[1..] == Iter.PairsAfter(ps[0], ps[1..]);
      LeadingSpell(data, ps[0], ps[1..]);
      Pieces(data, Iter.OpenBorderPairs(ps))
  }

  /** The piece before the first uppercase character, if it is not empty. */
  function LeadingPiece(data: string, x: nat): seq<string>
    requires x <= |data|
  {
    if x != 0 then [data[..x]] else []
  }

  lemma SplitCapitalizedStep(data: string)
    ensures var ps := UpperFrom(data, 0);
      ps != [] ==> Increasing(ps[0], ps[1..], |data|) && SplitCapitalized(data) == LeadingPiece(data, ps[0]) + PiecesAfter(data, ps[0], ps[1..])
  {
    var ps := UpperFrom(data, 0);
    if ps != [] {
      UpperFromIncreasing(data, 0);
      PairsWithin(data, ps[0], ps[1..]);
      assert Iter.OpenBorderPairs(ps)[1..] == Iter.PairsAfter(ps[0], ps[1..]);
    }
  }

  /** The leading piece and the pieces after it spell the text, none empty. */
  lemma LeadingSpell(data: string, x: nat, rest: seq<nat>)
    requires Increasing(x, rest, |data|)
    ensures Join(LeadingPiece(data, x) + PiecesAfter(data, x, rest), "") == data
    ensures forall k :: 0 <= k < |LeadingPiece(data, x) + PiecesAfter(data, x, rest)| ==>
      (LeadingPiece(data, x) + PiecesAfter(data, x, rest))[k] != []
  {
    PairsSpell(data, x, rest);
    PiecesAfterStep(data, x, rest);
    var tail := PiecesAfter(data, x, rest);
    if x != 0 {
      JoinCons(data[..x], tail, "");
      assert data[..x] + data[x..] == data;
    } else {
      assert LeadingPiece(data, x) + tail == tail;
    }
  }

  /** No character of `w` in `[lo, hi)` is uppercase. */
  predicate NoUpper(w: string, lo: nat, hi: nat)
    requires lo <= hi <= |w|
  {
    forall i :: lo <= i < hi ==> !IsUpper(w[i])
  }

  /**
   * `x` followed by `rest` are exactly the positions of the uppercase
   * characters of `data` from `x` on.
   */
  predicate Cuts(data: string, x: nat, rest: seq<nat>)
    decreases |rest|
  {
    x < |data| && IsUpper(data[x]) &&
    if rest == [] then NoUpper(data, x + 1, |data|)
    else x < rest[0] <= |data| && NoUpper(data, x + 1, rest[0]) && Cuts(data, rest[0], rest[1..])
  }

  lemma {:induction false} CutsIncreasing(data: string, x: nat, rest: seq<nat>)
    requires Cuts(data, x, rest)
    ensures Increasing(x, rest, |data|)
    decreases |rest|
  {
    if rest != [] {
      CutsIncreasing(data, rest[0], rest[1..]);
    }
  }

  /** `UpperFrom` lists the uppercase positions, with none before the first. */
  lemma {:induction false} UpperFromCuts(data: string, i: nat)
    requires i <= |data|
    ensures var r := UpperFrom(data, i);
      (r == [] ==> NoUpper(data, i, |data|)) && (r != [] ==> i <= r[0] < |data| && NoUpper(data, i, r[0]) && Cuts(data, r[0], r[1..]))
    decreases |data| - i
  {
    if i < |data| {
      UpperFromCuts(data, i + 1);
      var rest := UpperFrom(data, i + 1);
      if IsUpper(data[i]) {
        assert UpperFrom(data, i) == [i] + rest;
        assert ([i] + rest)[1..] == rest;
      } else {
        assert UpperFrom(data, i) == rest;
      }
    }
  }

  /** Every piece after a cut starts with its uppercase character and holds no other. */
  lemma {:induction false} PiecesAfterShape(data: string, x: nat, rest: seq<nat>)
    requires Cuts(data, x, rest)
    ensures Increasing(x, rest, |data|)
    ensures forall k :: 0 <= k < |PiecesAfter(data, x, rest)| ==>
      var p := PiecesAfter(data, x, rest)[k]; p != [] && IsUpper(p[0]) && NoUpper(p, 1, |p|)
    decreases |rest|
  {
    CutsIncreasing(data, x, rest);
    PiecesAfterStep(data, x, rest);
    var e := if rest == [] then |data| else rest[0];
    var p := data[x..e];
    assert IsUpper(p[0]) && NoUpper(p, 1, |p|) by {
      forall i | 1 <= i < |p| ensures !IsUpper(p[i]) { assert p[i] == data[x + i]; }
    }
    if rest != [] {
      PiecesAfterShape(data, rest[0], rest[1..]);
    }
  }

  /**
   * `split_capitalized` cuts before each uppercase character: no piece has an
   * uppercase character after its first, and every piece but a leading one
   * starts with one. With the contract of `SplitCapitalized` this fixes the split.
   */
  lemma SplitCapitalizedCuts(data: string)
    ensures forall k :: 0 <= k < |SplitCapitalized(data)| ==>
      var p := SplitCapitalized(data)[k];
      p != [] && NoUpper(p, 1, |p|) &&
      (k > 0 || (data != [] && IsUpper(data[0])) ==> IsUpper(p[0])) &&
      (k == 0 && data != [] && !IsUpper(data[0]) ==> NoUpper(p, 0, |p|))
  {
    var ps := UpperFrom(data, 0);
    UpperFromCuts(data, 0);
    SplitCapitalizedStep(data);
    UpperFromIncreasing(data, 0);
    if ps != [] {
      var x := ps[0];
      PiecesAfterShape(data, x, ps[1..]);
      var lead := LeadingPiece(data, x);
      var tail := PiecesAfter(data, x, ps[1..]);
      assert SplitCapitalized(data) == lead + tail;
      if x != 0 {
        assert IsUpper(data[x]) && !IsUpper(data[0]);
        assert NoUpper(data[..x], 0, x) by {
          forall i | 0 <= i < x ensures !IsUpper(data[..x][i]) { assert data[..x][i] == data[i]; }
        }
      } else {
        assert lead == [];
      }
    }
  }

  /**
   * Pieces as `split_capitalized` cuts them: none empty, no uppercase
   * character after the first, and every piece but the first starting with one.
   */
  predicate CapitalizedPieces(ws: seq<string>) {
    forall k :: 0 <= k < |ws| ==> ws[k] != [] && NoUpper(ws[k], 1, |ws[k]|) && (k > 0 ==> IsUpper(ws[k][0]))
  }

  /** Joining without a separator: the first word, then the rest. */
  lemma JoinHead(ws: seq<string>)
    requires ws != []
    ensures Join(ws, "") == ws[0] + Join(ws[1..], "")
  {
    if |ws| > 1 {
      JoinCons(ws[0], ws[1..], "");
      assert ws == [ws[0]] + ws[1..];
    }
  }

  /**
   * Joined pieces: no uppercase character inside the first piece, and an
   * uppercase one where the second starts.
   */
  lemma PiecesJoin(ws: seq<string>)
    requires CapitalizedPieces(ws) && ws != []
    ensures |ws[0]| <= |Join(ws, "")|
    ensures forall i :: 1 <= i < |ws[0]| ==> !IsUpper(Join(ws, "")[i])
    ensures |ws| > 1 ==> |ws[0]| < |Join(ws, "")| && IsUpper(Join(ws, "")[|ws[0]|])
  {
    JoinHead(ws);
    var d := Join(ws, "");
    assert forall i :: 0 <= i < |ws[0]| ==> d[i] == ws[0][i];
    if |ws| > 1 {
      JoinHead(ws[1..]);
      assert d[|ws[0]|] == ws[1][0];
    }
  }

  /** A text has only one cut into such pieces. */
  lemma {:induction false} CapitalizedPiecesUnique(a: seq<string>, b: seq<string>)
    requires CapitalizedPieces(a) && CapitalizedPieces(b) && Join(a, "") == Join(b, "")
    ensures a == b
    decreases |a|
  {
    var d := Join(a, "");
    if a == [] || b == [] {
      if a != [] {
        JoinHead(a);
      }
      if b != [] {
        JoinHead(b);
      }
    } else {
      JoinHead(a);
      JoinHead(b);
      var x, y := a[0], b[0];
      var ta, tb := Join(a[1..], ""), Join(b[1..], "");
      assert d == x + ta && d == y + tb;
      if |x| < |y| && |a| > 1 {
        PiecesJoin(b);
        PiecesJoin(a);
      } else if |y| < |x| && |b| > 1 {
        PiecesJoin(a);
        PiecesJoin(b);
      }
      assert x == d[..|x|] == y;
      assert ta == d[|x|..] == tb;
      assert CapitalizedPieces(a[1..]) by {
        forall k | 0 <= k < |a[1..]| ensures a[1..][k] == a[k + 1] {}
      }
      assert CapitalizedPieces(b[1..]) by {
        forall k | 0 <= k < |b[1..]| ensures b[1..][k] == b[k + 1] {}
      }
      CapitalizedPiecesUnique(a[1..], b[1..]);
      assert a == [x] + a[1..] && b == [y] + b[1..];
    }
  }

  /**
   * The round trip of `split_capitalized`: words cut as it cuts them, joined,
   * split back into themselves.
   */
  lemma SplitCapitalizedJoin(ws: seq<string>)
    requires CapitalizedPieces(ws) && HasUpper(Join(ws, ""))
    ensures SplitCapitalized(Join(ws, "")) == ws
  {
    var d := Join(ws, "");
    SplitCapitalizedCuts(d);
    CapitalizedPiecesUnique(SplitCapitalized(d), ws);
  }

  /** `Case::split`: on the separator if there is one, else before uppercase characters. */
  function Split(separator: Option<char>, data: string): seq<string> {
    match separator
    case Some(c) => SplitSeparator(data, c)
    case None => SplitCapitalized(data)
  }

  /** The word case `Case::convert` wants for the word at position `k`. */
  function TargetCase(c: Case, k: nat): Option<WordCase> {
    match c
    case Camel => Some(if k == 0 then Lower else Capitalized)
    case Other(wc, _) => wc
  }

  /** Word `k` is not yet in the case `c` wants for it. */
  predicate NeedsConversion(c: Case, words: seq<string>, k: nat)
    requires k < |words|
  {
    TargetCase(c, k).Some? && NotInCase(TargetCase(c, k).value, words[k])
  }

  /**
   * `Case::convert` from word `k` on: each word through `conver_if_needed`
   * with its target case, threading the `has_changed` flag.
   */
  function ConvertFrom(c: Case, words: seq<string>, k: nat, hasChanged: bool): (r: (bool, seq<string>))
    requires k <= |words|
    ensures |r.1| == |words| - k
    ensures r.0 <==> hasChanged || exists j :: k <= j < |words| && NeedsConversion(c, words, j)
    ensures forall j :: k <= j < |words| ==>
      r.1[j - k] == if NeedsConversion(c, words, j) then ConvertWord(TargetCase(c, j).value, words[j]) else words[j]
    decreases |words| - k
  {
    if k == |words| then (hasChanged, [])
    else
      var (w, changed) := ConvertIfNeeded(TargetCase(c, k), words[k], hasChanged);
      assert changed <==> hasChanged || NeedsConversion(c, words, k);
      var (allChanged, ws) := ConvertFrom(c, words, k + 1, changed);
      (allChanged, [w] + ws)
  }

  /**
   * `Case::convert`: whether any word changed, and the converted words.
   * Every word with a target case is in it afterwards, the word count is
   * kept, and when nothing changed the words are the same.
   */
  function ConvertWords(c: Case, words: seq<string>): (r: (bool, seq<string>))
    ensures |r.1| == |words|
    ensures r.0 <==> exists k :: 0 <= k < |words| && NeedsConversion(c, words, k)
    ensures forall k :: 0 <= k < |words| && TargetCase(c, k).Some? ==> !NotInCase(TargetCase(c, k).value, r.1[k])
    ensures !r.0 ==> r.1 == words
  {
    ConvertFrom(c, words, 0, false)
  }

  // ---------------------------------------------------------------------
  // CapitalizedString

  /** The fields of a `CapitalizedString`. */
  datatype Snapshot = Snapshot(originalData: Option<string>, words: seq<string>, textCase: Case)

  /** The verbatim copy, when there is one, spells the words in the current case. */
  predicate Consistent(s: Snapshot) {
    s.originalData.Some? ==> s.originalData.value == Join(s.words, SeparatorString(s.textCase))
  }

  /**
   * `From<&CapitalizedString> for Cow`: the verbatim copy, or the words
   * joined; a consistent text renders as its words joined either way.
   */
  function Render(s: Snapshot): (r: string)
    ensures Consistent(s) ==> r == Join(s.words, SeparatorString(s.textCase))
  {
    if s.originalData.Some? then s.originalData.value else Join(s.words, SeparatorString(s.textCase))
  }

  /**
   * The case `new` detects when no separator is given: Lower for text
   * without uppercase characters, Upper for text without lowercase ones,
   * else Pascal or Camel by the first character.
   */
  function Detect(data: string): (c: Case)
    ensures c == Case.Lower <==> !HasUpper(data)
    ensures c == Case.Upper <==> HasUpper(data) && !HasLower(data)
    ensures c == Case.Pascal <==> HasUpper(data) && HasLower(data) && IsUpper(data[0])
    ensures c == Camel <==> HasUpper(data) && HasLower(data) && !IsUpper(data[0])
  {
    if data == [] then Case.Lower
    else if !HasUpper(data) then Case.Lower
    else if !HasLower(data) then Case.Upper
    else if IsUpper(data[0]) then Case.Pascal
    else Camel
  }

  /**
   * The detection loop of `new`: flags for the first character, then a scan
   * that stops as soon as both a lowercase and an uppercase character are
   * seen.
   */
  method DetectCase(data: string) returns (c: Case)
    ensures c == Detect(data)
  {
    if data == [] {
      return Case.Lower;
    }
    var containsLower := false;
    var containsUpper := false;
    var isFirstUpper := IsUpper(data[0]);
    if isFirstUpper {
      containsUpper := true;
    } else if IsLower(data[0]) {
      containsLower := true;
    }
    var i := 0;
    while i < |data|
      invariant 0 <= i <= |data|
      invariant containsLower <==> IsLower(data[0]) || exists j :: 0 <= j < i && IsLower(data[j])
      invariant containsUpper <==> IsUpper(data[0]) || exists j :: 0 <= j < i && IsUpper(data[j])
    {
      containsLower := containsLower || IsLower(data[i]);
      containsUpper := containsUpper || IsUpper(data[i]);
      if containsLower && containsUpper {
        break;
      }
      i := i + 1;
    }
    assert containsLower ==> HasLower(data);
    assert containsUpper ==> HasUpper(data);
    if !containsUpper {
      c := Case.Lower;
    } else if !containsLower {
      c := Case.Upper;
    } else if isFirstUpper {
      c := Case.Pascal;
    } else {
      c := Camel;
    }
  }

  /**
   * The fields `new(data, separator)` sets: the text kept verbatim, parsed
   * into words that join back to it.
   */
  function NewSnapshot(data: string, separator: Option<char>): (s: Snapshot)
    ensures s.originalData == Some(data)
    ensures Consistent(s) && Render(s) == data
  {
    var c := if separator.Some? then Other(None, separator) else Detect(data);
    Snapshot(Some(data), Split(c.Separator(), data), c)
  }

  /** `change_case`, as written: the length test reads the vector just taken, which is empty. */
  function ChangedCase(s: Snapshot, c: Case): (r: Snapshot)
    ensures r.textCase == c
  {
    if s.textCase == c then s
    else
      var taken: seq<string> := [];
      var (changed, data) := ConvertWords(c, s.words);
      var keep := !(changed || (|taken| > 1 && s.textCase.Separator() != c.Separator()));
      Snapshot(if keep then s.originalData else None, data, c)
  }

  /** `change_case` with the length test on the words it converts. */
  function ChangedCaseFixed(s: Snapshot, c: Case): (r: Snapshot)
    ensures r.textCase == c
  {
    if s.textCase == c then s
    else
      var (changed, data) := ConvertWords(c, s.words);
      var keep := !(changed || (|s.words| > 1 && s.textCase.Separator() != c.Separator()));
      Snapshot(if keep then s.originalData else None, data, c)
  }

  /**
   * As written, a copy survives a change of separator whenever no word
   * changes case; the corrected version drops it in that case too.
   */
  lemma ChangedCaseKeepsStaleCopy(s: Snapshot, c: Case)
    requires s.textCase != c && s.originalData.Some?
    requires !ConvertWords(c, s.words).0
    ensures ChangedCase(s, c).originalData == s.originalData
    ensures |s.words| > 1 && s.textCase.Separator() != c.Separator() ==> ChangedCaseFixed(s, c).originalData.None?
  {}

  /** The corrected `change_case` keeps the copy only while it still spells the words. */
  lemma ChangedCaseFixedConsistent(s: Snapshot, c: Case)
    requires Consistent(s)
    ensures Consistent(ChangedCaseFixed(s, c))
    ensures Render(ChangedCaseFixed(s, c)) == Join(ChangedCaseFixed(s, c).words, SeparatorString(c))
  {
    var r := ChangedCaseFixed(s, c);
    if s.textCase != c && r.originalData.Some? {
      assert r.words == s.words;
      if |s.words| <= 1 {
        JoinShort(s.words, SeparatorString(s.textCase), SeparatorString(c));
      }
    }
  }

  /**
   * The source's own example shows the difference: "some data" split on
   * spaces and changed to snake case renders "some data" as written, but
   * "some_data" corrected.
   */
  lemma ChangeCaseExample()
    ensures NewSnapshot("some data", Some(' ')).words == ["some", "data"]
    ensures Render(ChangedCase(NewSnapshot("some data", Some(' ')), Case.Snake)) == "some data"
    ensures Render(ChangedCaseFixed(NewSnapshot("some data", Some(' ')), Case.Snake)) == "some_data"
  {
    SomeDataSplit();
    SomeDataToSnake(NewSnapshot("some data", Some(' ')));
  }

  lemma SomeDataToSnake(s: Snapshot)
    requires s == Snapshot(Some("some data"), ["some", "data"], Other(None, Some(' ')))
    ensures Render(ChangedCase(s, Case.Snake)) == "some data"
    ensures Render(ChangedCaseFixed(s, Case.Snake)) == "some_data"
  {
    SomeDataInSnakeCase();
    assert ChangedCaseFixed(s, Case.Snake) == Snapshot(None, s.words, Case.Snake);
    JoinCons("some", ["data"], "_");
    assert "some" + "_" + "data" == "some_data";
  }

  lemma SomeDataSplit()
    ensures NewSnapshot("some data", Some(' ')).words == ["some", "data"]
  {
    var words := ["some", "data"];
    JoinCons("some", ["data"], " ");
    assert Join(words, " ") == "some data";
    SplitJoin(words, ' ');
  }

  lemma SomeDataInSnakeCase()
    ensures ConvertWords(Case.Snake, ["some", "data"]) == (false, ["some", "data"])
  {
    var words := ["some", "data"];
    assert !HasUpper(words[0]) && !HasUpper(words[1]);
    assert TargetCase(Case.Snake, 0) == Some(Lower) && TargetCase(Case.Snake, 1) == Some(Lower);
    assert forall j :: 0 <= j < 2 ==> !NeedsConversion(Case.Snake, words, j);
    var r := ConvertWords(Case.Snake, words);
    assert !r.0;
    assert r.1[0] == words[0] && r.1[1] == words[1];
    assert r.1 == words;
  }

  /** Word `w` through `conver_if_needed` with target case `target`. */
  function ConvertTo(target: Option<WordCase>, w: string): string {
    if target.Some? && NotInCase(target.value, w) then ConvertWord(target.value, w) else w
  }

  /** `Case::convert` on two words. */
  lemma ConvertTwo(c: Case, a: string, b: string)
    ensures ConvertWords(c, [a, b]).0 <==> NeedsConversion(c, [a, b], 0) || NeedsConversion(c, [a, b], 1)
    ensures ConvertWords(c, [a, b]).1 == [ConvertTo(TargetCase(c, 0), a), ConvertTo(TargetCase(c, 1), b)]
  {
    var r := ConvertWords(c, [a, b]);
    assert r.1[0] == ConvertTo(TargetCase(c, 0), a);
    assert r.1[1] == ConvertTo(TargetCase(c, 1), b);
  }

  /** Two words joined. */
  lemma JoinTwo(a: string, b: string, sep: string)
    ensures Join([a, b], sep) == a + sep + b
  {
    JoinCons(a, [b], sep);
  }

  /** `into_owned`: the copy is dropped, the words and the case kept. */
  function Owned(s: Snapshot): (r: Snapshot)
    ensures r.originalData.None? && r.words == s.words && r.textCase == s.textCase
  {
    Snapshot(None, s.words, s.textCase)
  }

  /** An owned copy renders the same text. */
  lemma OwnedRendersSame(s: Snapshot)
    requires Consistent(s)
    ensures Consistent(Owned(s)) && Render(Owned(s)) == Render(s)
  {}

  /** The delimiters `try_from` looks for. */
  const Delimiters: set<char> := {' ', '-', '_'}

  /** The delimiters that occur in `value`. */
  function FoundDelimiters(value: string): (found: set<char>)
    ensures found <= Delimiters
    ensures forall ch :: ch in found <==> ch in value && ch in Delimiters
  {
    set ch | ch in value && ch in Delimiters
  }

  /** `MixedSeperators`: the delimiters found, when there is more than one. */
  datatype MixedSeparators = MixedSeparators(found: set<char>)

  /**
   * The separator decision of `try_from`: none found, exactly one, or an
   * error carrying all of them.
   */
  function DetectSeparator(value: string): (r: Result<Option<char>, MixedSeparators>)
    ensures r == Ok(None) <==> FoundDelimiters(value) == {}
    ensures forall ch :: r == Ok(Some(ch)) <==> FoundDelimiters(value) == {ch}
    ensures r.Err? <==> |FoundDelimiters(value)| >= 2
    ensures r.Err? ==> r.error.found == FoundDelimiters(value)
  {
    var found := FoundDelimiters(value);
    if |found| == 0 then Ok(None)
    else if |found| == 1 then
      var ch := if ' ' in found then ' ' else if '-' in found then '-' else '_';
      SingletonIs(found, ch);
      Ok(Some(ch))
    else
      Err(MixedSeparators(found))
  }

  lemma SingletonIs(found: set<char>, ch: char)
    requires |found| == 1 && ch in found
    ensures found == {ch}
  {
    var rest := found - {ch};
    assert |rest| == 0;
  }

  /** `try_from`: parse with the one delimiter found, or by capitalisation if there is none. */
  function TryFromSnapshot(value: string): (r: Result<Snapshot, MixedSeparators>)
    ensures r.Ok? ==> Consistent(r.value) && Render(r.value) == value
  {
    match DetectSeparator(value)
    case Ok(separator) =>
      Ok(NewSnapshot(value, separator))
    case Err(e) => Err(e)
  }

  /** `new_into`: `try_from`, then `into_case`. */
  function NewIntoSnapshot(value: string, into: Case): (r: Result<Snapshot, MixedSeparators>)
    ensures r.Err? <==> |FoundDelimiters(value)| >= 2
    ensures r.Ok? ==> r.value.textCase == into
  {
    match TryFromSnapshot(value)
    case Ok(s) => Ok(ChangedCase(s, into))
    case Err(e) => Err(e)
  }

  /**
   * The two versions of `change_case` differ only when no word changes case,
   * there are several words and the separator changes.
   */
  lemma ChangedCaseAgrees(s: Snapshot, c: Case)
    requires ConvertWords(c, s.words).0 || |s.words| <= 1 || s.textCase.Separator() == c.Separator()
    ensures ChangedCase(s, c) == ChangedCaseFixed(s, c)
  {}

  /** A text with two different delimiters is refused. */
  lemma MixedSeparatorsRefused(value: string, i: nat, j: nat)
    requires i < |value| && j < |value| && value[i] in Delimiters && value[j] in Delimiters && value[i] != value[j]
    ensures TryFromSnapshot(value).Err?
  {
    var found := FoundDelimiters(value);
    assert {value[i], value[j]} <= found;
    assert |{value[i], value[j]}| == 2;
    SubsetCard({value[i], value[j]}, found);
  }

  lemma SubsetCard(a: set<char>, b: set<char>)
    requires a <= b
    ensures |a| <= |b|
  {
    assert b == a + (b - a);
  }

  /** The recased forms of "some" and "data". */
  lemma SomeDataUpper()
    ensures ConvertTo(Some(WordCase.Upper), "some") == "SOME" && ConvertTo(Some(WordCase.Upper), "data") == "DATA"
  {
    NotInCaseMeaning(WordCase.Upper, "some");
    NotInCaseMeaning(WordCase.Upper, "data");
  }

  lemma SomeDataFromUpper()
    ensures ConvertTo(Some(WordCase.Lower), "SOME") == "some" && ConvertTo(Some(WordCase.Lower), "DATA") == "data"
  {
    NotInCaseMeaning(WordCase.Lower, "SOME");
    NotInCaseMeaning(WordCase.Lower, "DATA");
  }

  lemma SomeDataCapitalized()
    ensures ConvertTo(Some(WordCase.Capitalized), "some") == "Some" && ConvertTo(Some(WordCase.Capitalized), "data") == "Data"
  {
    NotInCaseMeaning(WordCase.Capitalized, "some");
    NotInCaseMeaning(WordCase.Capitalized, "data");
    assert "some"[..1] == "s" && "some"[1..] == "ome";
    assert "data"[..1] == "d" && "data"[1..] == "ata";
  }

  lemma SomeDataFromCapitalized()
    ensures ConvertTo(Some(WordCase.Lower), "Some") == "some" && ConvertTo(Some(WordCase.Lower), "Data") == "data"
  {
    NotInCaseMeaning(WordCase.Lower, "Some");
    NotInCaseMeaning(WordCase.Lower, "Data");
  }

  lemma SomeDataUnchanged()
    ensures ConvertTo(Some(WordCase.Lower), "some") == "some" && ConvertTo(Some(WordCase.Capitalized), "Data") == "Data"
  {
    NotInCaseMeaning(WordCase.Lower, "some");
    NotInCaseMeaning(WordCase.Capitalized, "Data");
  }

  /** A change of case of two words, at least one of them rewritten or no copy left. */
  lemma TwoWordStep(s: Snapshot, c: Case, a: string, b: string, a2: string, b2: string)
    requires s.words == [a, b] && s.textCase != c
    requires ConvertTo(TargetCase(c, 0), a) == a2 && ConvertTo(TargetCase(c, 1), b) == b2
    requires s.originalData.None? || a2 != a || b2 != b
    ensures ChangedCase(s, c) == Snapshot(None, [a2, b2], c)
  {
    ConvertTwo(c, a, b);
  }

  lemma ChainToUpper()
    ensures ChangedCase(NewSnapshot("some data", Some(' ')), Case.Upper) == Snapshot(None, ["SOME", "DATA"], Case.Upper)
  {
    SomeDataSplit();
    SomeDataUpper();
    TwoWordStep(NewSnapshot("some data", Some(' ')), Case.Upper, "some", "data", "SOME", "DATA");
  }

  lemma ChainToSnake()
    ensures ChangedCase(Snapshot(None, ["SOME", "DATA"], Case.Upper), Case.Snake) == Snapshot(None, ["some", "data"], Case.Snake)
  {
    SomeDataFromUpper();
    TwoWordStep(Snapshot(None, ["SOME", "DATA"], Case.Upper), Case.Snake, "SOME", "DATA", "some", "data");
  }

  lemma ChainToPascal()
    ensures ChangedCase(Snapshot(None, ["some", "data"], Case.Snake), Case.Pascal) == Snapshot(None, ["Some", "Data"], Case.Pascal)
  {
    SomeDataCapitalized();
    TwoWordStep(Snapshot(None, ["some", "data"], Case.Snake), Case.Pascal, "some", "data", "Some", "Data");
  }

  lemma ChainToKebab()
    ensures ChangedCase(Snapshot(None, ["Some", "Data"], Case.Pascal), Case.Kebab) == Snapshot(None, ["some", "data"], Case.Kebab)
  {
    SomeDataFromCapitalized();
    TwoWordStep(Snapshot(None, ["Some", "Data"], Case.Pascal), Case.Kebab, "Some", "Data", "some", "data");
  }

  lemma ChainToCamel()
    ensures ChangedCase(Snapshot(None, ["some", "data"], Case.Kebab), Camel) == Snapshot(None, ["some", "Data"], Camel)
  {
    SomeDataUnchanged();
    SomeDataCapitalized();
    TwoWordStep(Snapshot(None, ["some", "data"], Case.Kebab), Camel, "some", "data", "some", "Data");
  }

  lemma ChainToLower()
    ensures ChangedCase(Snapshot(None, ["some", "Data"], Camel), Case.Lower) == Snapshot(None, ["some", "data"], Case.Lower)
  {
    SomeDataUnchanged();
    SomeDataFromCapitalized();
    TwoWordStep(Snapshot(None, ["some", "Data"], Camel), Case.Lower, "some", "Data", "some", "data");
  }

  lemma ChainRenders()
    ensures Render(Snapshot(None, ["SOME", "DATA"], Case.Upper)) == "SOME DATA"
    ensures Render(Snapshot(None, ["some", "data"], Case.Snake)) == "some_data"
    ensures Render(Snapshot(None, ["Some", "Data"], Case.Pascal)) == "SomeData"
    ensures Render(Snapshot(None, ["some", "data"], Case.Kebab)) == "some-data"
    ensures Render(Snapshot(None, ["some", "Data"], Camel)) == "someData"
    ensures Render(Snapshot(None, ["some", "data"], Case.Lower)) == "some data"
  {
    JoinTwo("SOME", "DATA", " ");
    JoinTwo("some", "data", "_");
    JoinTwo("Some", "Data", "");
    JoinTwo("some", "data", "-");
    JoinTwo("some", "Data", "");
    JoinTwo("some", "data", " ");
  }

  /**
   * The source's chain of case changes from "some data": each step rewrites
   * a word, so each renders the words in the new case.
   */
  lemma ChangeCaseChain()
    ensures var s0 := NewSnapshot("some data", Some(' '));
      var s1 := ChangedCase(s0, Case.Upper);
      var s2 := ChangedCase(s1, Case.Snake);
      var s3 := ChangedCase(s2, Case.Pascal);
      var s4 := ChangedCase(s3, Case.Kebab);
      var s5 := ChangedCase(s4, Camel);
      var s6 := ChangedCase(s5, Case.Lower);
      Render(s1) == "SOME DATA" && Render(s2) == "some_data" && Render(s3) == "SomeData" &&
      Render(s4) == "some-data" && Render(s5) == "someData" && Render(s6) == "some data"
  {
    ChainToUpper();
    ChainToSnake();
    ChainToPascal();
    ChainToKebab();
    ChainToCamel();
    ChainToLower();
    ChainRenders();
  }

  lemma OneDelimiter(value: string, ch: char)
    requires ch in Delimiters && ch in value
    requires forall i :: 0 <= i < |value| && value[i] in Delimiters ==> value[i] == ch
    ensures DetectSeparator(value) == Ok(Some(ch))
  {
    assert FoundDelimiters(value) == {ch};
  }

  lemma NoDelimiter(value: string)
    requires forall i :: 0 <= i < |value| ==> value[i] !in Delimiters
    ensures DetectSeparator(value) == Ok(None)
  {
    assert FoundDelimiters(value) == {};
  }

  /** `Case::convert` on one word. */
  lemma ConvertOne(c: Case, a: string)
    ensures ConvertWords(c, [a]).0 <==> NeedsConversion(c, [a], 0)
    ensures ConvertWords(c, [a]).1 == [ConvertTo(TargetCase(c, 0), a)]
  {
    var r := ConvertWords(c, [a]);
    assert r.1[0] == ConvertTo(TargetCase(c, 0), a);
  }

  /** `new_into` is the parse of `try_from` followed by `change_case`. */
  lemma NewIntoIs(value: string, into: Case, separator: Option<char>, s: Snapshot)
    requires DetectSeparator(value) == Ok(separator) && NewSnapshot(value, separator) == s
    ensures NewIntoSnapshot(value, into) == Ok(ChangedCase(s, into))
  {}

  /** `new_into("_aBc", Pascal)` renders "Abc". */
  lemma NewIntoLeadingSeparator()
    ensures NewIntoSnapshot("_aBc", Case.Pascal).Ok?
    ensures Render(NewIntoSnapshot("_aBc", Case.Pascal).value) == "Abc"
  {
    var s := Snapshot(Some("_aBc"), ["", "aBc"], Other(None, Some('_')));
    OneDelimiter("_aBc", '_');
    LeadingSeparatorParsed();
    NewIntoIs("_aBc", Case.Pascal, Some('_'), s);
    LeadingSeparatorPascal();
    PascalRenders();
  }

  lemma LeadingSeparatorParsed()
    ensures NewSnapshot("_aBc", Some('_')) == Snapshot(Some("_aBc"), ["", "aBc"], Other(None, Some('_')))
  {
    JoinTwo("", "aBc", "_");
    SplitJoin(["", "aBc"], '_');
  }

  lemma LeadingSeparatorPascal()
    ensures ChangedCase(Snapshot(Some("_aBc"), ["", "aBc"], Other(None, Some('_'))), Case.Pascal)
      == Snapshot(None, ["", "Abc"], Case.Pascal)
  {
    NotInCaseMeaning(WordCase.Capitalized, "");
    NotInCaseMeaning(WordCase.Capitalized, "aBc");
    assert "aBc"[..1] == "a" && "aBc"[1..] == "Bc";
    TwoWordStep(Snapshot(Some("_aBc"), ["", "aBc"], Other(None, Some('_'))), Case.Pascal, "", "aBc", "", "Abc");
  }

  /** `new_into("aB_CD", Pascal)` renders "AbCd". */
  lemma NewIntoTwoWords()
    ensures NewIntoSnapshot("aB_CD", Case.Pascal).Ok?
    ensures Render(NewIntoSnapshot("aB_CD", Case.Pascal).value) == "AbCd"
  {
    var s := Snapshot(Some("aB_CD"), ["aB", "CD"], Other(None, Some('_')));
    OneDelimiter("aB_CD", '_');
    TwoWordsParsed();
    NewIntoIs("aB_CD", Case.Pascal, Some('_'), s);
    TwoWordsPascal();
    PascalRenders();
  }

  lemma PascalRenders()
    ensures Render(Snapshot(None, ["", "Abc"], Case.Pascal)) == "Abc"
    ensures Render(Snapshot(None, ["Ab", "Cd"], Case.Pascal)) == "AbCd"
  {
    JoinTwo("", "Abc", "");
    JoinTwo("Ab", "Cd", "");
  }

  lemma TwoWordsParsed()
    ensures NewSnapshot("aB_CD", Some('_')) == Snapshot(Some("aB_CD"), ["aB", "CD"], Other(None, Some('_')))
  {
    JoinTwo("aB", "CD", "_");
    SplitJoin(["aB", "CD"], '_');
  }

  lemma TwoWordsPascal()
    ensures ChangedCase(Snapshot(Some("aB_CD"), ["aB", "CD"], Other(None, Some('_'))), Case.Pascal)
      == Snapshot(None, ["Ab", "Cd"], Case.Pascal)
  {
    NotInCaseMeaning(WordCase.Capitalized, "aB");
    NotInCaseMeaning(WordCase.Capitalized, "CD");
    assert "aB"[..1] == "a" && "aB"[1..] == "B";
    assert "CD"[..1] == "C" && "CD"[1..] == "D";
    TwoWordStep(Snapshot(Some("aB_CD"), ["aB", "CD"], Other(None, Some('_'))), Case.Pascal, "aB", "CD", "Ab", "Cd");
  }

  /** `new_into` of "abc", "Abc" and "ABC" with Pascal all render "Abc". */
  lemma NewIntoOneWord()
    ensures NewIntoSnapshot("abc", Case.Pascal).Ok? && Render(NewIntoSnapshot("abc", Case.Pascal).value) == "Abc"
    ensures NewIntoSnapshot("Abc", Case.Pascal).Ok? && Render(NewIntoSnapshot("Abc", Case.Pascal).value) == "Abc"
    ensures NewIntoSnapshot("ABC", Case.Pascal).Ok? && Render(NewIntoSnapshot("ABC", Case.Pascal).value) == "Abc"
  {
    NewIntoLowerWord();
    NewIntoPascalWord();
    NewIntoUpperWord();
  }

  lemma NewIntoLowerWord()
    ensures NewIntoSnapshot("abc", Case.Pascal).Ok? && Render(NewIntoSnapshot("abc", Case.Pascal).value) == "Abc"
  {
    OneWordPascalForms();
    NoDelimiter("abc");
    LowerParsed();
    NewIntoIs("abc", Case.Pascal, None, Snapshot(Some("abc"), ["abc"], Case.Lower));
    OneWordPascal("abc", Case.Lower);
  }

  lemma NewIntoPascalWord()
    ensures NewIntoSnapshot("Abc", Case.Pascal).Ok? && Render(NewIntoSnapshot("Abc", Case.Pascal).value) == "Abc"
  {
    NoDelimiter("Abc");
    CapitalizedParsed();
    NewIntoIs("Abc", Case.Pascal, None, Snapshot(Some("Abc"), ["Abc"], Case.Pascal));
  }

  lemma NewIntoUpperWord()
    ensures NewIntoSnapshot("ABC", Case.Pascal).Ok? && Render(NewIntoSnapshot("ABC", Case.Pascal).value) == "Abc"
  {
    OneWordPascalForms();
    NoDelimiter("ABC");
    UpperParsed();
    NewIntoIs("ABC", Case.Pascal, None, Snapshot(Some("ABC"), ["ABC"], Case.Upper));
    OneWordPascal("ABC", Case.Upper);
  }

  lemma LowerParsed()
    ensures NewSnapshot("abc", None) == Snapshot(Some("abc"), ["abc"], Case.Lower)
  {
    assert !HasUpper("abc");
    SplitSeparatorWhole("abc", ' ');
  }

  lemma CapitalizedParsed()
    ensures NewSnapshot("Abc", None) == Snapshot(Some("Abc"), ["Abc"], Case.Pascal)
  {
    assert IsUpper("Abc"[0]) && IsLower("Abc"[1]);
    assert HasUpper("Abc") && HasLower("Abc");
    SplitCapitalizedOneWord("Abc");
  }

  lemma UpperParsed()
    ensures NewSnapshot("ABC", None) == Snapshot(Some("ABC"), ["ABC"], Case.Upper)
  {
    assert IsUpper("ABC"[0]) && HasUpper("ABC") && !HasLower("ABC");
    SplitSeparatorWhole("ABC", ' ');
  }

  /** A word that starts with the only uppercase character splits into itself. */
  lemma SplitCapitalizedOneWord(w: string)
    requires w != [] && IsUpper(w[0]) && forall i :: 1 <= i < |w| ==> !IsUpper(w[i])
    ensures SplitCapitalized(w) == [w]
  {
    UpperFromIncreasing(w, 1);
    assert UpperFrom(w, 0) == [0] + UpperFrom(w, 1);
    SplitCapitalizedStep(w);
    PiecesAfterStep(w, 0, []);
  }

  /** A one-word text that the change to Pascal rewrites renders its Pascal form. */
  lemma OneWordPascal(w: string, c: Case)
    requires c != Case.Pascal && NotInCase(WordCase.Capitalized, w)
    ensures ChangedCase(Snapshot(Some(w), [w], c), Case.Pascal) == Snapshot(None, [ConvertWord(WordCase.Capitalized, w)], Case.Pascal)
    ensures Render(ChangedCase(Snapshot(Some(w), [w], c), Case.Pascal)) == ConvertWord(WordCase.Capitalized, w)
  {
    ConvertOne(Case.Pascal, w);
  }

  lemma OneWordPascalForms()
    ensures NotInCase(WordCase.Capitalized, "abc") && ConvertWord(WordCase.Capitalized, "abc") == "Abc"
    ensures NotInCase(WordCase.Capitalized, "ABC") && ConvertWord(WordCase.Capitalized, "ABC") == "Abc"
  {
    NotInCaseMeaning(WordCase.Capitalized, "abc");
    NotInCaseMeaning(WordCase.Capitalized, "ABC");
    assert "abc"[..1] == "a" && "abc"[1..] == "bc";
    assert "ABC"[..1] == "A" && "ABC"[1..] == "BC" && IsUpper("ABC"[1]);
  }

  /**
   * `change_case` keeps the old references when nothing needs to be
   * changed: with no word out of its target case the words stay as they are
   * and the copy is kept, so the text renders as before. The corrected
   * version does the same unless the separator changes between several words.
   */
  lemma ChangeCaseKeepsOldReferences(s: Snapshot, c: Case)
    requires !ConvertWords(c, s.words).0
    ensures ChangedCase(s, c).words == s.words && ChangedCase(s, c).originalData == s.originalData
    ensures s.originalData.Some? ==> Render(ChangedCase(s, c)) == Render(s)
    ensures |s.words| <= 1 || s.textCase.Separator() == c.Separator() ==> ChangedCaseFixed(s, c) == ChangedCase(s, c)
    ensures Consistent(s) && (|s.words| <= 1 || s.textCase.Separator() == c.Separator()) ==>
      Render(ChangedCaseFixed(s, c)) == Render(s)
  {
    if |s.words| <= 1 {
      JoinShort(s.words, SeparatorString(s.textCase), SeparatorString(c));
    }
  }

  /**
   * The source's `format_correctly`, for any text whose words, parsed with
   * the separator of `c`, are already in `c`: the change to `c` keeps the
   * words and the copy, and `from_words` with that separator renders the text.
   */
  lemma FormatCorrectly(data: string, c: Case)
    requires !ConvertWords(c, NewSnapshot(data, c.Separator()).words).0
    ensures var s := NewSnapshot(data, c.Separator());
      ChangedCase(s, c).words == s.words && ChangedCase(s, c).originalData == Some(data)
    ensures var s := NewSnapshot(data, c.Separator());
      SeparatorString(s.textCase) == SeparatorString(c) || |s.words| <= 1 ==>
      Render(Snapshot(None, s.words, Other(None, c.Separator()))) == data
  {
    var s := NewSnapshot(data, c.Separator());
    ChangeCaseKeepsOldReferences(s, c);
    if |s.words| <= 1 {
      JoinShort(s.words, SeparatorString(s.textCase), SeparatorString(c));
    }
  }

  /**
   * Pieces cut before uppercase characters are in Pascal case when the first
   * starts with one, and in camel case when the first has none.
   */
  lemma CapitalizedPiecesInCase(ws: seq<string>)
    requires CapitalizedPieces(ws) && ws != []
    ensures IsUpper(ws[0][0]) ==> !ConvertWords(Case.Pascal, ws).0
    ensures NoUpper(ws[0], 0, |ws[0]|) ==> !ConvertWords(Camel, ws).0
  {
    forall k | 0 <= k < |ws|
      ensures (k > 0 || IsUpper(ws[0][0])) ==> !NotInCase(WordCase.Capitalized, ws[k])
      ensures k == 0 && NoUpper(ws[0], 0, |ws[0]|) ==> !NotInCase(WordCase.Lower, ws[k])
    {
      NotInCaseMeaning(WordCase.Capitalized, ws[k]);
      NotInCaseMeaning(WordCase.Lower, ws[k]);
    }
  }

  /** `format_correctly` for words parsed with a separator. */
  lemma FormatSeparated(ws: seq<string>, c: Case, ch: char)
    requires c.Separator() == Some(ch) && ws != []
    requires forall k :: 0 <= k < |ws| ==> ch !in ws[k]
    requires !ConvertWords(c, ws).0
    ensures NewSnapshot(Join(ws, [ch]), Some(ch)).words == ws
    ensures ChangedCase(NewSnapshot(Join(ws, [ch]), Some(ch)), c).originalData == Some(Join(ws, [ch]))
    ensures Render(Snapshot(None, ws, Other(None, Some(ch)))) == Join(ws, [ch])
  {
    SplitJoin(ws, ch);
    FormatCorrectly(Join(ws, [ch]), c);
  }

  /** `format_correctly` for words parsed by capitalisation, in the case detected. */
  lemma FormatCapitalized(ws: seq<string>, c: Case)
    requires c.Separator() == None && CapitalizedPieces(ws) && HasUpper(Join(ws, ""))
    requires Detect(Join(ws, "")) == c && !ConvertWords(c, ws).0
    ensures NewSnapshot(Join(ws, ""), None).words == ws
    ensures ChangedCase(NewSnapshot(Join(ws, ""), None), c).originalData == Some(Join(ws, ""))
    ensures Render(Snapshot(None, ws, Other(None, None))) == Join(ws, "")
  {
    SplitCapitalizedJoin(ws);
    FormatCorrectly(Join(ws, ""), c);
  }

  /** `format_correctly` on "test with spaces", in lower case. */
  lemma FormatSpaces()
    ensures NewSnapshot("test with spaces", Some(' ')).words == ["test", "with", "spaces"]
    ensures ChangedCase(NewSnapshot("test with spaces", Some(' ')), Case.Lower).originalData == Some("test with spaces")
    ensures Render(Snapshot(None, ["test", "with", "spaces"], Other(None, Some(' ')))) == "test with spaces"
  {
    var ws := ["test", "with", "spaces"];
    SpacesJoined(ws);
    SpacesSeparated(ws);
    SpacesInLower(ws);
    FormatSeparated(ws, Case.Lower, ' ');
  }

  lemma SpacesJoined(ws: seq<string>)
    requires ws == ["test", "with", "spaces"]
    ensures Join(ws, [' ']) == "test with spaces"
  {
    JoinCons("test", ["with", "spaces"], " ");
    JoinCons("with", ["spaces"], " ");
  }

  lemma SpacesSeparated(ws: seq<string>)
    requires ws == ["test", "with", "spaces"]
    ensures forall k :: 0 <= k < |ws| ==> ' ' !in ws[k]
  {}

  lemma SpacesInLower(ws: seq<string>)
    requires ws == ["test", "with", "spaces"]
    ensures !ConvertWords(Case.Lower, ws).0
  {
    assert !HasUpper(ws[0]) && !HasUpper(ws[1]) && !HasUpper(ws[2]);
    assert forall k :: 0 <= k < |ws| ==> TargetCase(Case.Lower, k) == Some(WordCase.Lower);
  }

  /** `format_correctly` on "TestWithoutSeperator", in Pascal case. */
  lemma FormatPascal()
    ensures NewSnapshot("TestWithoutSeperator", None).words == ["Test", "Without", "Seperator"]
    ensures ChangedCase(NewSnapshot("TestWithoutSeperator", None), Case.Pascal).originalData == Some("TestWithoutSeperator")
    ensures Render(Snapshot(None, ["Test", "Without", "Seperator"], Other(None, None))) == "TestWithoutSeperator"
  {
    var ws := ["Test", "Without", "Seperator"];
    SeperatorJoined(ws);
    PascalDetected(ws);
    CapitalizedPiecesInCase(ws);
    FormatCapitalized(ws, Case.Pascal);
  }

  lemma SeperatorJoined(ws: seq<string>)
    requires |ws| == 3 && ws[1] == "Without" && ws[2] == "Seperator"
    requires ws[0] == "Test" || ws[0] == "test"
    ensures Join(ws, "") == ws[0] + "WithoutSeperator"
    ensures CapitalizedPieces(ws) && HasUpper(Join(ws, ""))
  {
    JoinCons(ws[0], ["Without", "Seperator"], "");
    JoinCons("Without", ["Seperator"], "");
    assert ws == [ws[0], "Without", "Seperator"];
    assert IsUpper(Join(ws, "")[4]);
  }

  lemma PascalDetected(ws: seq<string>)
    requires Join(ws, "") == "TestWithoutSeperator"
    ensures Detect(Join(ws, "")) == Case.Pascal
  {
    var d := Join(ws, "");
    assert IsUpper(d[0]) && IsLower(d[1]);
  }

  /** `format_correctly` on "testWithoutSeperator", in camel case. */
  lemma FormatCamel()
    ensures NewSnapshot("testWithoutSeperator", None).words == ["test", "Without", "Seperator"]
    ensures ChangedCase(NewSnapshot("testWithoutSeperator", None), Camel).originalData == Some("testWithoutSeperator")
    ensures Render(Snapshot(None, ["test", "Without", "Seperator"], Other(None, None))) == "testWithoutSeperator"
  {
    var ws := ["test", "Without", "Seperator"];
    SeperatorJoined(ws);
    CamelDetected(ws);
    assert NoUpper(ws[0], 0, |ws[0]|);
    CapitalizedPiecesInCase(ws);
    FormatCapitalized(ws, Camel);
  }

  lemma CamelDetected(ws: seq<string>)
    requires Join(ws, "") == "testWithoutSeperator"
    ensures Detect(Join(ws, "")) == Camel
  {
    var d := Join(ws, "");
    assert IsUpper(d[4]) && IsLower(d[0]);
  }

  /**
   * The source's `convert_no_extra_allocation`: one lowercase word split on
   * ' ' keeps its copy through the change to kebab case and then to lower
   * case, as written and corrected.
   */
  lemma ConvertNoExtraAllocation()
    ensures var s1 := ChangedCase(NewSnapshot("datawithoutseperator!", Some(' ')), Case.Kebab);
      s1.originalData == Some("datawithoutseperator!") && ChangedCase(s1, Case.Lower).originalData == Some("datawithoutseperator!")
    ensures var s1 := ChangedCaseFixed(NewSnapshot("datawithoutseperator!", Some(' ')), Case.Kebab);
      s1.originalData == Some("datawithoutseperator!") && ChangedCaseFixed(s1, Case.Lower).originalData == Some("datawithoutseperator!")
  {
    var w := "datawithoutseperator!";
    OneLowerWord(w);
    KeepsLowerWord(w);
  }

  /** The word of `convert_no_extra_allocation` has no space and no uppercase character. */
  lemma OneLowerWord(w: string)
    requires w == "datawithoutseperator!"
    ensures ' ' !in w && !HasUpper(w)
  {}

  /** One lowercase word without spaces keeps its copy through kebab and lower case. */
  lemma KeepsLowerWord(w: string)
    requires ' ' !in w && !HasUpper(w)
    ensures var s1 := ChangedCase(NewSnapshot(w, Some(' ')), Case.Kebab);
      s1.originalData == Some(w) && ChangedCase(s1, Case.Lower).originalData == Some(w)
    ensures var s1 := ChangedCaseFixed(NewSnapshot(w, Some(' ')), Case.Kebab);
      s1.originalData == Some(w) && ChangedCaseFixed(s1, Case.Lower).originalData == Some(w)
  {
    SplitSeparatorWhole(w, ' ');
    ConvertOne(Case.Kebab, w);
    ConvertOne(Case.Lower, w);
    var s0 := NewSnapshot(w, Some(' '));
    ChangeCaseKeepsOldReferences(s0, Case.Kebab);
    ChangeCaseKeepsOldReferences(ChangedCase(s0, Case.Kebab), Case.Lower);
  }

  /**
   * The source's `detect_no_extra_allocation`: text detected as Pascal case
   * and changed to Pascal case keeps its copy.
   */
  lemma DetectNoExtraAllocation()
    ensures TryFromSnapshot("SomeDataWithoutSpaces").Ok?
    ensures ChangedCase(TryFromSnapshot("SomeDataWithoutSpaces").value, Case.Pascal).originalData == Some("SomeDataWithoutSpaces")
  {
    var d := "SomeDataWithoutSpaces";
    CapitalsDetected(d);
    assert TryFromSnapshot(d) == Ok(NewSnapshot(d, None));
  }

  /** `Case::convert` into a case with one word case, when every word needs converting. */
  lemma ConvertAll(c: Case, ws: seq<string>, wc: WordCase)
    requires c.Other? && c.wordCase == Some(wc)
    requires forall k :: 0 <= k < |ws| ==> NotInCase(wc, ws[k])
    ensures ws != [] ==> ConvertWords(c, ws).0
    ensures ConvertWords(c, ws).1 == seq(|ws|, k requires 0 <= k < |ws| => ConvertWord(wc, ws[k]))
  {
    if ws != [] {
      assert NeedsConversion(c, ws, 0);
    }
  }

  /** A lowercase word capitalised: its first letter raised. */
  lemma CapitalizeLowerWord(w: string)
    requires w != [] && IsLower(w[0]) && NoUpper(w, 1, |w|)
    ensures NotInCase(WordCase.Capitalized, w)
    ensures ConvertWord(WordCase.Capitalized, w) == [ToUpper(w[0])] + w[1..]
  {
    var r := ConvertWord(WordCase.Capitalized, w);
    forall i | 1 <= i < |w| ensures r[i] == w[i] {
      assert r[i] == Lowercase(w[1..])[i - 1];
    }
  }

  /** A capitalised word lowered: its first letter lowered. */
  lemma LowerCapitalizedWord(w: string)
    requires w != [] && IsUpper(w[0]) && NoUpper(w, 1, |w|)
    ensures NotInCase(WordCase.Lower, w)
    ensures ConvertWord(WordCase.Lower, w) == [ToLower(w[0])] + w[1..]
  {}

  /**
   * The source's `detect` test: "some data with spaces" is split on its
   * spaces and renders "Some-Data-With-Spaces" in capitalised words joined
   * by '-'; "SomeDataWithoutSpaces" is split before its capitals and renders
   * "some-data-without-spaces" in kebab case.
   */
  lemma DetectExample()
    ensures TryFromSnapshot("some data with spaces").Ok?
    ensures Render(ChangedCase(TryFromSnapshot("some data with spaces").value, Other(Some(WordCase.Capitalized), Some('-'))))
      == "Some-Data-With-Spaces"
    ensures TryFromSnapshot("SomeDataWithoutSpaces").Ok?
    ensures Render(ChangedCase(TryFromSnapshot("SomeDataWithoutSpaces").value, Case.Kebab)) == "some-data-without-spaces"
  {
    DetectSpaces("some data with spaces", "Some-Data-With-Spaces");
    DetectCapitals("SomeDataWithoutSpaces", "some-data-without-spaces");
  }

  lemma DetectSpaces(d: string, e: string)
    requires d == "some data with spaces" && e == "Some-Data-With-Spaces"
    ensures TryFromSnapshot(d).Ok? && Render(ChangedCase(TryFromSnapshot(d).value, Other(Some(WordCase.Capitalized), Some('-')))) == e
  {
    var ws, ups := SpacedWords(d, e);
    SpacedDelimiter(d);
    RecaseSeparated(ws, d, ' ', Other(Some(WordCase.Capitalized), Some('-')), WordCase.Capitalized, ups);
  }

  lemma SpacedDelimiter(d: string)
    requires d == "some data with spaces"
    ensures DetectSeparator(d) == Ok(Some(' '))
  {
    OneDelimiter(d, ' ');
  }

  /** The words of "some data with spaces", and their capitalised forms. */
  lemma SpacedWords(d: string, e: string) returns (ws: seq<string>, ups: seq<string>)
    requires d == "some data with spaces" && e == "Some-Data-With-Spaces"
    ensures ws != [] && Join(ws, " ") == d && Join(ups, "-") == e
    ensures forall k :: 0 <= k < |ws| ==> ' ' !in ws[k]
    ensures forall k :: 0 <= k < |ws| ==> NotInCase(WordCase.Capitalized, ws[k])
    ensures ups == seq(|ws|, k requires 0 <= k < |ws| => ConvertWord(WordCase.Capitalized, ws[k]))
  {
    ws, ups := ["some", "data", "with", "spaces"], ["Some", "Data", "With", "Spaces"];
    SpacedJoined(ws, ups, d, e);
    SpacesFree(ws);
    CapitalizeFour(ws, ups);
  }

  lemma SpacedJoined(ws: seq<string>, ups: seq<string>, d: string, e: string)
    requires ws == ["some", "data", "with", "spaces"] && ups == ["Some", "Data", "With", "Spaces"]
    requires d == "some data with spaces" && e == "Some-Data-With-Spaces"
    ensures Join(ws, " ") == d && Join(ups, "-") == e
  {
    SpacedLowerJoined(ws, d);
    DashedUpperJoined(ups, e);
  }

  lemma SpacedLowerJoined(ws: seq<string>, d: string)
    requires ws == ["some", "data", "with", "spaces"] && d == "some data with spaces"
    ensures Join(ws, " ") == d
  {
    FourJoined(ws, " ", d);
  }

  lemma DashedUpperJoined(ups: seq<string>, e: string)
    requires ups == ["Some", "Data", "With", "Spaces"] && e == "Some-Data-With-Spaces"
    ensures Join(ups, "-") == e
  {
    FourJoined(ups, "-", e);
  }

  lemma DetectCapitals(d: string, e: string)
    requires d == "SomeDataWithoutSpaces" && e == "some-data-without-spaces"
    ensures TryFromSnapshot(d).Ok? && Render(ChangedCase(TryFromSnapshot(d).value, Case.Kebab)) == e
  {
    var ws, lows := CapitalWords(d, e);
    CapitalsDetected(d);
    RecaseCapitalized(ws, d, Case.Kebab, WordCase.Lower, lows);
  }

  /** The words of "SomeDataWithoutSpaces", and their lowercase forms. */
  lemma CapitalWords(d: string, e: string) returns (ws: seq<string>, lows: seq<string>)
    requires d == "SomeDataWithoutSpaces" && e == "some-data-without-spaces"
    ensures ws != [] && Join(ws, "") == d && Join(lows, "-") == e && CapitalizedPieces(ws)
    ensures forall k :: 0 <= k < |ws| ==> NotInCase(WordCase.Lower, ws[k])
    ensures lows == seq(|ws|, k requires 0 <= k < |ws| => ConvertWord(WordCase.Lower, ws[k]))
  {
    ws, lows := ["Some", "Data", "Without", "Spaces"], ["some", "data", "without", "spaces"];
    CapitalsJoined(ws, lows, d, e);
    CapitalsPieces(ws);
    LowerFour(ws, lows);
  }

  lemma CapitalsJoined(ws: seq<string>, lows: seq<string>, d: string, e: string)
    requires ws == ["Some", "Data", "Without", "Spaces"] && lows == ["some", "data", "without", "spaces"]
    requires d == "SomeDataWithoutSpaces" && e == "some-data-without-spaces"
    ensures Join(ws, "") == d && Join(lows, "-") == e
  {
    CapitalsConcatenated(ws, d);
    DashedLowerJoined(lows, e);
  }

  lemma CapitalsConcatenated(ws: seq<string>, d: string)
    requires ws == ["Some", "Data", "Without", "Spaces"] && d == "SomeDataWithoutSpaces"
    ensures Join(ws, "") == d
  {
    FourJoined(ws, "", d);
  }

  lemma DashedLowerJoined(lows: seq<string>, e: string)
    requires lows == ["some", "data", "without", "spaces"] && e == "some-data-without-spaces"
    ensures Join(lows, "-") == e
  {
    FourJoined(lows, "-", e);
  }

  /** Text split on its one delimiter, then every word recased into `c`. */
  lemma RecaseSeparated(ws: seq<string>, d: string, ch: char, c: Case, wc: WordCase, out: seq<string>)
    requires ws != [] && Join(ws, [ch]) == d && DetectSeparator(d) == Ok(Some(ch))
    requires forall k :: 0 <= k < |ws| ==> ch !in ws[k]
    requires c.Other? && c.wordCase == Some(wc) && c.separator.Some? && c != Other(None, Some(ch))
    requires forall k :: 0 <= k < |ws| ==> NotInCase(wc, ws[k])
    requires out == seq(|ws|, k requires 0 <= k < |ws| => ConvertWord(wc, ws[k]))
    ensures TryFromSnapshot(d).Ok? && Render(ChangedCase(TryFromSnapshot(d).value, c)) == Join(out, [c.separator.value])
  {
    SplitJoin(ws, ch);
    ConvertAll(c, ws, wc);
  }

  /** Text split before its capitals, then every word recased into `c`. */
  lemma RecaseCapitalized(ws: seq<string>, d: string, c: Case, wc: WordCase, out: seq<string>)
    requires Join(ws, "") == d && DetectSeparator(d) == Ok(None) && Detect(d) == Case.Pascal
    requires CapitalizedPieces(ws) && HasUpper(d) && ws != []
    requires c.Other? && c.wordCase == Some(wc) && c.separator.Some? && c != Case.Pascal
    requires forall k :: 0 <= k < |ws| ==> NotInCase(wc, ws[k])
    requires out == seq(|ws|, k requires 0 <= k < |ws| => ConvertWord(wc, ws[k]))
    ensures TryFromSnapshot(d).Ok? && Render(ChangedCase(TryFromSnapshot(d).value, c)) == Join(out, [c.separator.value])
  {
    SplitCapitalizedJoin(ws);
    ConvertAll(c, ws, wc);
  }

  lemma SpacesFree(ws: seq<string>)
    requires ws == ["some", "data", "with", "spaces"]
    ensures forall k :: 0 <= k < |ws| ==> ' ' !in ws[k]
  {}

  lemma CapitalsDetected(d: string)
    requires d == "SomeDataWithoutSpaces"
    ensures Detect(d) == Case.Pascal && HasUpper(d) && DetectSeparator(d) == Ok(None)
  {
    assert IsUpper(d[0]) && IsLower(d[1]);
    NoDelimiter(d);
  }

  lemma CapitalizeFour(ws: seq<string>, ups: seq<string>)
    requires ws == ["some", "data", "with", "spaces"] && ups == ["Some", "Data", "With", "Spaces"]
    ensures forall k :: 0 <= k < |ws| ==> NotInCase(WordCase.Capitalized, ws[k])
    ensures ups == seq(|ws|, k requires 0 <= k < |ws| => ConvertWord(WordCase.Capitalized, ws[k]))
  {
    forall k | 0 <= k < |ws|
      ensures NotInCase(WordCase.Capitalized, ws[k]) && ConvertWord(WordCase.Capitalized, ws[k]) == ups[k]
    {
      CapitalizeLowerWord(ws[k]);
    }
  }

  lemma LowerFour(ws: seq<string>, lows: seq<string>)
    requires ws == ["Some", "Data", "Without", "Spaces"] && lows == ["some", "data", "without", "spaces"]
    ensures forall k :: 0 <= k < |ws| ==> NotInCase(WordCase.Lower, ws[k])
    ensures lows == seq(|ws|, k requires 0 <= k < |ws| => ConvertWord(WordCase.Lower, ws[k]))
  {
    forall k | 0 <= k < |ws| ensures NotInCase(WordCase.Lower, ws[k]) {
      LowerCapitalizedWord(ws[k]);
    }
    LowerFourValues(ws, lows);
  }

  lemma LowerFourValues(ws: seq<string>, lows: seq<string>)
    requires ws == ["Some", "Data", "Without", "Spaces"] && lows == ["some", "data", "without", "spaces"]
    ensures lows == seq(|ws|, k requires 0 <= k < |ws| => ConvertWord(WordCase.Lower, ws[k]))
  {
    forall k | 0 <= k < |ws| ensures ConvertWord(WordCase.Lower, ws[k]) == lows[k] {
      LowerCapitalizedWord(ws[k]);
    }
  }

  lemma CapitalsPieces(ws: seq<string>)
    requires ws == ["Some", "Data", "Without", "Spaces"]
    ensures CapitalizedPieces(ws)
  {}

  /** Four words joined. */
  lemma FourJoined(ws: seq<string>, sep: string, d: string)
    requires |ws| == 4 && d == ws[0] + sep + ws[1] + sep + ws[2] + sep + ws[3]
    ensures Join(ws, sep) == d
  {
    JoinCons(ws[0], ws[1..], sep);
    JoinCons(ws[1], ws[2..], sep);
    JoinCons(ws[2], ws[3..], sep);
    assert ws[1..] == [ws[1]] + ws[2..] && ws[2..] == [ws[2]] + ws[3..] && ws == [ws[0]] + ws[1..];
  }

  class CapitalizedString {
    var originalData: Option<string>
    var words: seq<string>
    var textCase: Case

    function Value(): Snapshot reads this {
      Snapshot(originalData, words, textCase)
    }

    /** `new`: split on `separator`, or detect the case when there is none. */
    constructor New(data: string, separator: Option<char>)
      ensures Value() == NewSnapshot(data, separator)
    {
      var c: Case;
      if separator.Some? {
        c := Other(None, separator);
      } else {
        c := DetectCase(data);
      }
      originalData := Some(data);
      words := Split(c.Separator(), data);
      textCase := c;
    }

    /** `from_words`: words of mixed case, no verbatim copy. */
    constructor FromWords(words: seq<string>, separator: Option<char>)
      ensures Value() == Snapshot(None, words, Other(None, separator))
    {
      originalData := None;
      this.words := words;
      textCase := Other(None, separator);
    }

    /** `from_words_unchecked`: the fields as given. */
    constructor FromWordsUnchecked(originalData: Option<string>, words: seq<string>, c: Case)
      ensures Value() == Snapshot(originalData, words, c)
    {
      this.originalData := originalData;
      this.words := words;
      textCase := c;
    }

    /** `change_case`, as written. */
    method ChangeCase(c: Case)
      modifies this
      ensures Value() == ChangedCase(old(Value()), c)
    {
      if textCase == c {
        return;
      }
      var data := words;
      words := [];
      var changedAndWords := ConvertWords(c, data);
      if changedAndWords.0 || (|words| > 1 && textCase.Separator() != c.Separator()) {
        originalData := None;
      }
      words := changedAndWords.1;
      textCase := c;
    }

    /** `into_case`: `change_case`, handing the string on. */
    method IntoCase(c: Case) returns (r: CapitalizedString)
      modifies this
      ensures r == this && Value() == ChangedCase(old(Value()), c)
    {
      ChangeCase(c);
      r := this;
    }

    /** `into_owned`: a new string with the same words and case and no copy. */
    method IntoOwned() returns (r: CapitalizedString)
      ensures fresh(r) && r.Value() == Owned(Value())
    {
      r := new CapitalizedString.FromWordsUnchecked(None, words, textCase);
    }

    /** `to_string`: the words joined with the case's separator, while the copy agrees with them. */
    function ToString(): (r: string) reads this
      ensures Consistent(Value()) ==> r == Join(words, SeparatorString(textCase))
    {
      Render(Value())
    }
  }

  /** `try_from`: a new string split on the one delimiter found, or the delimiters found. */
  method TryFrom(value: string) returns (r: Result<CapitalizedString, MixedSeparators>)
    ensures r.Err? ==> TryFromSnapshot(value) == Err(r.error)
    ensures r.Ok? ==> fresh(r.value) && TryFromSnapshot(value) == Ok(r.value.Value())
  {
    var separator := DetectSeparator(value);
    if separator.Err? {
      r := Err(separator.error);
    } else {
      var s := new CapitalizedString.New(value, separator.value);
      r := Ok(s);
    }
  }

  /** `new_into`: `try_from`, then `into_case`. */
  method NewInto(value: string, into: Case) returns (r: Result<CapitalizedString, MixedSeparators>)
    ensures r.Err? ==> NewIntoSnapshot(value, into) == Err(r.error)
    ensures r.Ok? ==> fresh(r.value) && NewIntoSnapshot(value, into) == Ok(r.value.Value())
  {
    r := TryFrom(value);
    if r.Ok? {
      var s := r.value.IntoCase(into);
      r := Ok(s);
    }
  }
}
