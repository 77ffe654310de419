/** Weighted bigram statistics of a table (train.py's
    `get_bigram_frequencies_from_counts`): every adjacent token pair of every
    word type, counted with the word type's multiplicity, in first-occurrence
    order. */
module Bigrams {
  import opened Counters
  import opened Tokens
  import opened Apply

  /** The loop over the adjacent pairs of one word type with multiplicity `n`. */
  function PairsInto(acc: Counter<Merge>, w: Word, n: nat): Counter<Merge>
    decreases |w|
  {
    if |w| < 2 then acc else PairsInto(Add(acc, Merge(w[0], w[1]), n), w[1..], n)
  }

  /** The loop over the word types of `t`. */
  function BigramsInto(acc: Counter<Merge>, t: Table): Counter<Merge>
    decreases |t|
  {
    if |t| == 0 then acc else BigramsInto(PairsInto(acc, t[0].key, t[0].count), t[1..])
  }

  function BigramFrequencies(t: Table): Counter<Merge> {
    BigramsInto([], t)
  }

  /** The pair occurs at some adjacent position of the word. */
  predicate AdjacentIn(m: Merge, w: Word) {
    exists i :: 0 <= i < |w| - 1 && w[i] == m.left && w[i + 1] == m.right
  }

  /** The pair occurs adjacently in some word type of the table. */
  ghost predicate OccursIn(m: Merge, t: Table) {
    exists j :: 0 <= j < |t| && AdjacentIn(m, t[j].key)
  }

  lemma {:induction false} PairsIntoGet(acc: Counter<Merge>, w: Word, n: nat, m: Merge)
    ensures Get(PairsInto(acc, w, n), m) == Get(acc, m) + n * PairCount(w, m)
    decreases |w|
  {
    if |w| >= 2 {
      var acc' := Add(acc, Merge(w[0], w[1]), n);
      PairsIntoGet(acc', w[1..], n, m);
      if Merge(w[0], w[1]) == m {
        assert PairCount(w, m) == 1 + PairCount(w[1..], m);
        assert Get(acc', m) == Get(acc, m) + n;
        MulSucc(n, PairCount(w[1..], m));
      } else {
        assert PairCount(w, m) == PairCount(w[1..], m);
        assert Get(acc', m) == Get(acc, m);
      }
    }
  }

  lemma MulSucc(n: nat, x: nat)
    ensures n * (1 + x) == n + n * x
  {
  }

  lemma {:induction false} PairsIntoDistinct(acc: Counter<Merge>, w: Word, n: nat)
    requires Distinct(acc)
    ensures Distinct(PairsInto(acc, w, n))
    decreases |w|
  {
    if |w| >= 2 {
      AddDistinct(acc, Merge(w[0], w[1]), n);
      PairsIntoDistinct(Add(acc, Merge(w[0], w[1]), n), w[1..], n);
    }
  }

  lemma {:induction false} PairsIntoKeys(acc: Counter<Merge>, w: Word, n: nat, m: Merge)
    ensures HasKey(PairsInto(acc, w, n), m) <==> HasKey(acc, m) || AdjacentIn(m, w)
    decreases |w|
  {
    if |w| >= 2 {
      PairsIntoKeys(Add(acc, Merge(w[0], w[1]), n), w[1..], n, m);
      if AdjacentIn(m, w[1..]) {
        var i :| 0 <= i < |w[1..]| - 1 && w[1..][i] == m.left && w[1..][i + 1] == m.right;
        assert w[i + 1] == m.left && w[i + 2] == m.right;
      }
      if AdjacentIn(m, w) && m != Merge(w[0], w[1]) {
        var i :| 0 <= i < |w| - 1 && w[i] == m.left && w[i + 1] == m.right;
        assert i > 0;
        assert w[1..][i - 1] == m.left && w[1..][i] == m.right;
      }
    }
  }

  lemma {:induction false} BigramsIntoGet(acc: Counter<Merge>, t: Table, m: Merge)
    ensures Get(BigramsInto(acc, t), m) == Get(acc, m) + WeightedSum(t, PairCountFn(m))
    decreases |t|
  {
    if |t| > 0 {
      PairsIntoGet(acc, t[0].key, t[0].count, m);
      BigramsIntoGet(PairsInto(acc, t[0].key, t[0].count), t[1..], m);
    }
  }

  lemma {:induction false} BigramsIntoDistinct(acc: Counter<Merge>, t: Table)
    requires Distinct(acc)
    ensures Distinct(BigramsInto(acc, t))
    decreases |t|
  {
    if |t| > 0 {
      PairsIntoDistinct(acc, t[0].key, t[0].count);
      BigramsIntoDistinct(PairsInto(acc, t[0].key, t[0].count), t[1..]);
    }
  }

  lemma {:induction false} BigramsIntoKeys(acc: Counter<Merge>, t: Table, m: Merge)
    ensures HasKey(BigramsInto(acc, t), m) <==> HasKey(acc, m) || OccursIn(m, t)
    decreases |t|
  {
    if |t| > 0 {
      PairsIntoKeys(acc, t[0].key, t[0].count, m);
      BigramsIntoKeys(PairsInto(acc, t[0].key, t[0].count), t[1..], m);
      if OccursIn(m, t[1..]) {
        var j :| 0 <= j < |t[1..]| && AdjacentIn(m, t[1..][j].key);
        assert AdjacentIn(m, t[j + 1].key);
      }
      if OccursIn(m, t) && !AdjacentIn(m, t[0].key) {
        var j :| 0 <= j < |t| && AdjacentIn(m, t[j].key);
        assert j > 0 && t[1..][j - 1] == t[j];
      }
    }
  }

  /** The frequency of a pair is the multiplicity-weighted number of adjacent
      positions holding it, overlaps included; the pairs listed are exactly
      those occurring in some word type, each once. */
  lemma BigramsSpec(t: Table, m: Merge)
    ensures Get(BigramFrequencies(t), m) == WeightedSum(t, PairCountFn(m))
    ensures HasKey(BigramFrequencies(t), m) <==> OccursIn(m, t)
    ensures Distinct(BigramFrequencies(t))
  {
    BigramsIntoGet([], t, m);
    BigramsIntoKeys([], t, m);
    BigramsIntoDistinct([], t);
  }

  /** The adjacent pairs of a word, left to right. */
  function Pairs(w: Word): (r: seq<Merge>)
    ensures |r| == if |w| < 2 then 0 else |w| - 1
    ensures forall i :: 0 <= i < |r| ==> r[i] == Merge(w[i], w[i + 1])
    decreases |w|
  {
    if |w| < 2 then [] else [Merge(w[0], w[1])] + Pairs(w[1..])
  }

  /** Every adjacent pair of every word type, in the order the loops visit
      them. */
  function PairStream(t: Table): seq<Merge>
    decreases |t|
  {
    if |t| == 0 then [] else Pairs(t[0].key) + PairStream(t[1..])
  }

  lemma {:induction false} PairsIntoOrder(acc: Counter<Merge>, s: seq<Merge>, w: Word, n: nat)
    requires FirstOrder(acc, s) && KeysFrom(acc, s)
    ensures FirstOrder(PairsInto(acc, w, n), s + Pairs(w))
    ensures KeysFrom(PairsInto(acc, w, n), s + Pairs(w))
    decreases |w|
  {
    if |w| < 2 {
      assert s + Pairs(w) == s;
    } else {
      var p := Merge(w[0], w[1]);
      AddInOrder(acc, s, p, n);
      PairsIntoOrder(Add(acc, p, n), s + [p], w[1..], n);
      AppendAssoc(s, [p], Pairs(w[1..]));
    }
  }

  lemma {:induction false} BigramsIntoOrder(acc: Counter<Merge>, s: seq<Merge>, t: Table)
    requires FirstOrder(acc, s) && KeysFrom(acc, s)
    ensures FirstOrder(BigramsInto(acc, t), s + PairStream(t))
    ensures KeysFrom(BigramsInto(acc, t), s + PairStream(t))
    decreases |t|
  {
    if |t| == 0 {
      assert s + PairStream(t) == s;
    } else {
      var w := t[0].key;
      PairsIntoOrder(acc, s, w, t[0].count);
      BigramsIntoOrder(PairsInto(acc, w, t[0].count), s + Pairs(w), t[1..]);
      AppendAssoc(s, Pairs(w), PairStream(t[1..]));
    }
  }

  /** The pairs are listed in the order of their first occurrence when the
      word types are scanned in table order and each word left to right,
      and they are exactly the pairs met on that scan. */
  lemma BigramOrder(t: Table)
    ensures FirstOrder(BigramFrequencies(t), PairStream(t))
    ensures forall m :: HasKey(BigramFrequencies(t), m) <==> m in PairStream(t)
  {
    BigramsIntoOrder([], [], t);
    assert [] + PairStream(t) == PairStream(t);
  }

  /** Every pair listed for a table of valid word types is a valid merge. */
  lemma BigramKeyValid(t: Table, m: Merge)
    requires ValidTable(t) && HasKey(BigramFrequencies(t), m)
    ensures ValidMerge(m)
  {
    BigramsSpec(t, m);
    var j :| 0 <= j < |t| && AdjacentIn(m, t[j].key);
    var i :| 0 <= i < |t[j].key| - 1 && t[j].key[i] == m.left && t[j].key[i + 1] == m.right;
    assert ValidWord(t[j].key);
  }

  /** Applying a merge never makes more replacements than its bigram
      frequency in the table it is applied to. */
  lemma ReplacementsAtMostFrequency(t: Table, m: Merge)
    ensures ApplyStep(t, m).replacements <= Get(BigramFrequencies(t), m)
  {
    BigramsSpec(t, m);
    StepFacts(t, m);
  }
}
