/** Undoing a merge (train.py's `undo_merge_word_counts`): every occurrence
    of the merged token in every word type is split back into its two
    operands, and the table is re-keyed. */
module Undo {
  import opened Counters
  import opened Tokens
  import opened Apply

  /** Every token equal to the merged token becomes the two operands. */
  function Split(w: Word, m: Merge): (r: Word)
    ensures forall t :: t in r ==> t in w || t == m.left || t == m.right
  {
    if |w| == 0 then []
    else
      var rest := Split(w[1..], m);
      assert forall t :: t in w[1..] ==> t in w;
      (if w[0] == m.Merged() then [m.left, m.right] else [w[0]]) + rest
  }

  /** One word type as the source treats it: left alone when the merged
      token does not occur in it, split otherwise. */
  function UndoWord(w: Word, m: Merge): Word {
    if m.Merged() !in w then w else Split(w, m)
  }

  function UndoFn(m: Merge): Word -> Word {
    w => UndoWord(w, m)
  }

  /** The number of tokens of `w` equal to `tok`. */
  function Occurrences(w: Word, tok: Token): nat {
    if |w| == 0 then 0 else (if w[0] == tok then 1 else 0) + Occurrences(w[1..], tok)
  }

  function OccurrencesFn(tok: Token): Word -> int {
    w => Occurrences(w, tok)
  }

  /** A fresh table holding every word type of `t` undone. */
  function UndoMerge(t: Table, m: Merge): Table {
    RegroupInto([], t, UndoFn(m))
  }

  /** Undo keeps the total multiplicity, keeps the keys distinct and the
      counts positive, and collects under each word type the multiplicities
      of the old word types that split to it. */
  lemma UndoFacts(t: Table, m: Merge)
    ensures var r := UndoMerge(t, m);
      && Total(r) == Total(t)
      && Distinct(r)
      && (Positive(t) ==> Positive(r))
      && forall w :: Get(r, w) == SumWhere(t, UndoFn(m), w)
  {
    assert UndoMerge(t, m) == Regroup(t, UndoFn(m));
  }

  /** The shortcut for word types without the merged token changes nothing:
      splitting such a word type gives it back unchanged. */
  lemma {:induction false} SplitWithout(w: Word, m: Merge)
    requires m.Merged() !in w
    ensures Split(w, m) == w
  {
    if |w| > 0 {
      assert forall t :: t in w[1..] ==> t in w;
      SplitWithout(w[1..], m);
    }
  }

  lemma UndoWordIsSplit(w: Word, m: Merge)
    ensures UndoWord(w, m) == Split(w, m)
  {
    if m.Merged() !in w {
      SplitWithout(w, m);
    }
  }

  /** Each split occurrence adds one token. */
  lemma {:induction false} SplitLength(w: Word, m: Merge)
    ensures |Split(w, m)| == |w| + Occurrences(w, m.Merged())
  {
    if |w| > 0 {
      SplitLength(w[1..], m);
    }
  }

  /** For a valid merge no merged token survives the undo. */
  lemma NoMergedLeft(w: Word, m: Merge)
    requires ValidMerge(m)
    ensures m.Merged() !in UndoWord(w, m)
  {
    MergedValid(m);
    UndoWordIsSplit(w, m);
    if m.Merged() in Split(w, m) {
      assert m.Merged() in w;
      SplitAll(w, m);
    }
  }

  lemma {:induction false} SplitAll(w: Word, m: Merge)
    requires m.Merged() != m.left && m.Merged() != m.right
    ensures m.Merged() !in Split(w, m)
  {
    if |w| > 0 {
      SplitAll(w[1..], m);
    }
  }

  /** Splitting undoes one rewrite pass of the same merge on every word type
      that did not already hold the merged token. */
  lemma {:induction false} SplitRewrite(w: Word, m: Merge)
    requires m.Merged() !in w
    ensures Split(Rewrite(w, m), m) == w
  {
    if |w| < 2 {
      SplitWithout(w, m);
    } else if w[0] == m.left && w[1] == m.right {
      assert forall t :: t in w[2..] ==> t in w;
      SplitRewrite(w[2..], m);
      var r := [m.Merged()] + Rewrite(w[2..], m);
      assert r[0] == m.Merged() && r[1..] == Rewrite(w[2..], m);
      assert w == [m.left, m.right] + w[2..];
    } else {
      assert forall t :: t in w[1..] ==> t in w;
      SplitRewrite(w[1..], m);
      var r := [w[0]] + Rewrite(w[1..], m);
      assert r[0] == w[0] && r[1..] == Rewrite(w[1..], m);
      assert w == [w[0]] + w[1..];
    }
  }

  /** A word type holding the merged token, as seen by the table-level undo. */
  ghost predicate Mentions(t: Table, tok: Token) {
    exists i :: 0 <= i < |t| && tok in t[i].key
  }

  /** Undo leaves a table none of whose word types holds the merged token
      unchanged, order included. */
  lemma UndoUntouched(t: Table, m: Merge)
    requires Distinct(t)
    requires !Mentions(t, m.Merged())
    ensures UndoMerge(t, m) == t
  {
    var f := UndoFn(m);
    assert forall i :: 0 <= i < |t| ==> f(t[i].key) == t[i].key;
    RegroupInjective([], t, f);
    assert MapKeys(t, f) == t;
  }

  /** Undo raises the token mass by the multiplicity-weighted number of
      merged tokens. */
  lemma UndoMass(t: Table, m: Merge)
    ensures Mass(UndoMerge(t, m)) == Mass(t) + WeightedSum(t, OccurrencesFn(m.Merged()))
  {
    var f := UndoFn(m);
    var h: Word -> int := w => |UndoWord(w, m)|;
    RegroupWeighted([], t, f, TokenCount, h);
    var plus: Word -> int := w => TokenCount(w) + OccurrencesFn(m.Merged())(w);
    assert forall w :: TokenCount(w) == plus(w) - OccurrencesFn(m.Merged())(w);
    assert forall w :: h(w) == plus(w) by {
      forall w ensures h(w) == plus(w) {
        UndoWordIsSplit(w, m);
        SplitLength(w, m);
      }
    }
    WeightedSumLinear(t, plus, OccurrencesFn(m.Merged()), TokenCount);
    assert WeightedSum(t, h) == WeightedSum(t, plus) by {
      WeightedSumLinear(t, h, plus, Zero);
      ZeroSum(t);
    }
  }

  function Zero(w: Word): int {
    0
  }

  lemma {:induction false} ZeroSum(t: Table)
    ensures WeightedSum(t, Zero) == 0
  {
    if |t| > 0 {
      ZeroSum(t[1..]);
    }
  }

  /** Undo keeps every token valid when the merge is valid. */
  lemma UndoValid(t: Table, m: Merge)
    requires ValidTable(t) && ValidMerge(m)
    ensures ValidTable(UndoMerge(t, m))
  {
    var r := UndoMerge(t, m);
    assert r == Regroup(t, UndoFn(m));
    forall i | 0 <= i < |r| ensures ValidWord(r[i].key) {
      assert HasKey(r, r[i].key);
      var j :| 0 <= j < |t| && UndoFn(m)(t[j].key) == r[i].key;
      assert ValidWord(t[j].key);
      UndoWordIsSplit(t[j].key, m);
      forall k | 0 <= k < |r[i].key| ensures ValidToken(r[i].key[k]) {
        assert r[i].key[k] in Split(t[j].key, m);
      }
    }
  }

  /** Undoing a merge right after applying it restores the table exactly,
      order of the word types included, provided no word type held the
      merged token beforehand. */
  lemma UndoAfterApply(t: Table, m: Merge)
    requires Distinct(t)
    requires !Mentions(t, m.Merged())
    ensures UndoMerge(ApplyStep(t, m).table, m) == t
  {
    var rw := RewriteFn(m);
    var un := UndoFn(m);
    forall i | 0 <= i < |t| ensures un(rw(t[i].key)) == t[i].key {
      SplitRewrite(t[i].key, m);
      UndoWordIsSplit(Rewrite(t[i].key, m), m);
    }
    RegroupInjective([], t, rw);
    StepFromIsRegroup([], t, m);
    var mid := MapKeys(t, rw);
    assert ApplyStep(t, m).table == mid;
    forall i, j | 0 <= i < j < |mid| ensures un(mid[i].key) != un(mid[j].key) {
      assert un(mid[i].key) == t[i].key && un(mid[j].key) == t[j].key;
    }
    RegroupInjective([], mid, un);
    MapKeysInverse(t, rw, un);
  }
}
