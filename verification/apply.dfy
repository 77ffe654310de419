/** Applying merges to the word-count table (train.py's
    `apply_merges_word_counts`): every merge rewrites every word type in one
    greedy left-to-right pass without overlaps, and the table is re-keyed by
    the rewritten word types. */
module Apply {
  import opened Counters
  import opened Tokens

  /** One pass of `m` over a word: each adjacent (left, right) pair met while
      scanning from the left becomes the merged token, and the scan resumes
      after it. */
  function Rewrite(w: Word, m: Merge): (r: Word)
    ensures |r| <= |w|
    ensures forall t :: t in r ==> t in w || t == m.Merged()
  {
    if |w| < 2 then w
    else if w[0] == m.left && w[1] == m.right then
      var rest := Rewrite(w[2..], m);
      assert forall t :: t in w[2..] ==> t in w;
      [m.Merged()] + rest
    else
      var rest := Rewrite(w[1..], m);
      assert forall t :: t in w[1..] ==> t in w;
      [w[0]] + rest
  }

  /** A pass never empties a word. */
  lemma RewriteNonEmpty(w: Word, m: Merge)
    requires |w| > 0
    ensures |Rewrite(w, m)| > 0
  {
  }

  /** The number of replacements that pass makes. */
  function Fires(w: Word, m: Merge): nat {
    if |w| < 2 then 0
    else if w[0] == m.left && w[1] == m.right then 1 + Fires(w[2..], m)
    else Fires(w[1..], m)
  }

  /** Adjacent positions holding (left, right), overlaps counted. */
  function PairCount(w: Word, m: Merge): nat {
    if |w| < 2 then 0
    else (if w[0] == m.left && w[1] == m.right then 1 else 0) + PairCount(w[1..], m)
  }

  /** Each replacement turns two tokens into one. */
  lemma {:induction false} RewriteLength(w: Word, m: Merge)
    ensures |Rewrite(w, m)| + Fires(w, m) == |w|
  {
    if |w| >= 2 {
      if w[0] == m.left && w[1] == m.right {
        RewriteLength(w[2..], m);
      } else {
        RewriteLength(w[1..], m);
      }
    }
  }

  /** The pass changes the word exactly when it fires, and it fires exactly
      when the word holds the pair somewhere; it never fires more often than
      the pair occurs. */
  lemma {:induction false} FiresIff(w: Word, m: Merge)
    ensures Fires(w, m) == 0 <==> Rewrite(w, m) == w
    ensures Fires(w, m) == 0 <==> PairCount(w, m) == 0
    ensures Fires(w, m) <= PairCount(w, m)
  {
    RewriteLength(w, m);
    if |w| >= 2 {
      if w[0] == m.left && w[1] == m.right {
        FiresIff(w[2..], m);
        PairCountStep(w[1..], m);
      } else {
        FiresIff(w[1..], m);
        assert [w[0]] + w[1..] == w;
      }
    }
  }

  /** Dropping one leading token loses at most one pair occurrence. */
  lemma PairCountStep(w: Word, m: Merge)
    requires |w| >= 1
    ensures PairCount(w[1..], m) <= PairCount(w, m)
  {
  }

  /** One step of the scan at position `i`: a match emits the merged token
      and skips two positions, anything else copies one token. */
  lemma ScanStep(tokens: Word, i: nat, m: Merge)
    requires i < |tokens|
    ensures i < |tokens| - 1 && tokens[i] == m.left && tokens[i + 1] == m.right ==>
      && Rewrite(tokens[i..], m) == [m.Merged()] + Rewrite(tokens[i + 2..], m)
      && Fires(tokens[i..], m) == 1 + Fires(tokens[i + 2..], m)
    ensures !(i < |tokens| - 1 && tokens[i] == m.left && tokens[i + 1] == m.right) ==>
      && Rewrite(tokens[i..], m) == [tokens[i]] + Rewrite(tokens[i + 1..], m)
      && Fires(tokens[i..], m) == Fires(tokens[i + 1..], m)
  {
    if i < |tokens| - 1 {
      assert tokens[i..][2..] == tokens[i + 2..];
    }
    assert tokens[i..][1..] == tokens[i + 1..];
  }

  /** The scan loop of the source, one word at a time: it computes the
      rewritten word and the number of replacements. */
  method MergeWord(tokens: Word, a: Token, b: Token) returns (out: Word, replaced: nat)
    ensures out == Rewrite(tokens, Merge(a, b))
    ensures replaced == Fires(tokens, Merge(a, b))
    ensures |out| + replaced == |tokens|
  {
    var m := Merge(a, b);
    var i := 0;
    out := [];
    replaced := 0;
    assert tokens[i..] == tokens;
    while i < |tokens|
      invariant 0 <= i <= |tokens|
      invariant out + Rewrite(tokens[i..], m) == Rewrite(tokens, m)
      invariant replaced + Fires(tokens[i..], m) == Fires(tokens, m)
    {
      ScanStep(tokens, i, m);
      if i < |tokens| - 1 && tokens[i] == a && tokens[i + 1] == b {
        assert out + [a + b] + Rewrite(tokens[i + 2..], m) == out + Rewrite(tokens[i..], m);
        out := out + [a + b];
        replaced := replaced + 1;
        i := i + 2;
      } else {
        assert out + [tokens[i]] + Rewrite(tokens[i + 1..], m) == out + Rewrite(tokens[i..], m);
        out := out + [tokens[i]];
        i := i + 1;
      }
    }
    assert tokens[i..] == [];
    RewriteLength(tokens, m);
  }

  function RewriteFn(m: Merge): Word -> Word {
    w => Rewrite(w, m)
  }

  function FiresFn(m: Merge): Word -> int {
    w => Fires(w, m)
  }

  function PairCountFn(m: Merge): Word -> int {
    w => PairCount(w, m)
  }

  function TokenCount(w: Word): int {
    |w|
  }

  /** A word type's size as the source counts it: its tokens minus one for
      the end-of-word marker. */
  function TokensBeyondMarker(w: Word): int {
    |w| - 1
  }

  /** Total number of tokens in the corpus, weighted by multiplicity. */
  function Mass(t: Table): int {
    WeightedSum(t, TokenCount)
  }

  /** The corpus size of the compression log: the weighted token count
      without one marker per word. */
  function CorpusSize(t: Table): int {
    WeightedSum(t, TokensBeyondMarker)
  }

  lemma CorpusSizeIsMassMinusTotal(t: Table)
    ensures CorpusSize(t) == Mass(t) - Total(t)
  {
    WeightedSumLinear(t, TokenCount, One, TokensBeyondMarker);
    WeightedOneIsTotal(t);
  }

  function One(w: Word): int {
    1
  }

  lemma {:induction false} WeightedOneIsTotal(t: Table)
    ensures WeightedSum(t, One) == Total(t)
  {
    if |t| > 0 {
      WeightedOneIsTotal(t[1..]);
    }
  }

  /** The outcome of applying one merge to a table. */
  datatype StepResult = StepResult(table: Table, replacements: nat)

  /** The loop over the word types of `c` for one merge, collecting the
      rewritten word types into `acc` and counting the replacements. */
  function StepFrom(acc: Table, c: Table, m: Merge): StepResult
    decreases |c|
  {
    if |c| == 0 then StepResult(acc, 0)
    else
      var rest := StepFrom(Add(acc, Rewrite(c[0].key, m), c[0].count), c[1..], m);
      StepResult(rest.table, c[0].count * Fires(c[0].key, m) + rest.replacements)
  }

  /** The loop computes the regrouping of the table through the rewrite and
      the multiplicity-weighted number of replacements. */
  lemma {:induction false} StepFromIsRegroup(acc: Table, c: Table, m: Merge)
    ensures StepFrom(acc, c, m).table == RegroupInto(acc, c, RewriteFn(m))
    ensures StepFrom(acc, c, m).replacements == WeightedSum(c, FiresFn(m))
    decreases |c|
  {
    if |c| > 0 {
      StepFromIsRegroup(Add(acc, Rewrite(c[0].key, m), c[0].count), c[1..], m);
    }
  }

  /** One iteration of the merge loop: every word type is rewritten, word
      types that coincide afterwards are combined, and the replacements are
      counted with the multiplicity of their word type. */
  function ApplyStep(t: Table, m: Merge): StepResult {
    StepFrom([], t, m)
  }

  /** What one merge does to the table: the total multiplicity is kept, the
      keys stay distinct, each new word type collects the multiplicities of
      the old word types rewriting to it, the token mass drops by exactly the
      replacements, which never exceed the pair occurrences, and valid
      tokens stay valid. */
  lemma StepFacts(t: Table, m: Merge)
    ensures var r := ApplyStep(t, m);
      && Total(r.table) == Total(t)
      && Distinct(r.table)
      && (Positive(t) ==> Positive(r.table))
      && Mass(r.table) == Mass(t) - r.replacements
      && CorpusSize(r.table) == CorpusSize(t) - r.replacements
      && r.replacements <= WeightedSum(t, PairCountFn(m))
      && (ValidTable(t) && ValidMerge(m) ==> ValidTable(r.table))
  {
    StepKeeps(t, m);
    StepFromIsRegroup([], t, m);
    StepMass(t, m);
    assert forall w :: FiresFn(m)(w) <= PairCountFn(m)(w) by {
      forall w ensures FiresFn(m)(w) <= PairCountFn(m)(w) {
        FiresIff(w, m);
      }
    }
    WeightedSumMonotone(t, FiresFn(m), PairCountFn(m));
    if ValidTable(t) && ValidMerge(m) {
      StepKeepsValid(t, m);
    }
  }

  /** The part of `StepFacts` the merge loop needs. */
  lemma StepKeeps(t: Table, m: Merge)
    ensures var r := ApplyStep(t, m);
      && Total(r.table) == Total(t)
      && Distinct(r.table)
      && (Positive(t) ==> Positive(r.table))
      && CorpusSize(r.table) == CorpusSize(t) - r.replacements
  {
    StepFromIsRegroup([], t, m);
    StepMass(t, m);
  }

  lemma StepKeepsValid(t: Table, m: Merge)
    requires ValidTable(t) && ValidMerge(m)
    ensures ValidTable(ApplyStep(t, m).table)
  {
    StepFromIsRegroup([], t, m);
    StepValid(t, m, Regroup(t, RewriteFn(m)));
  }

  /** No merge empties a word type. */
  lemma StepKeepsNonEmpty(t: Table, m: Merge)
    requires NonEmptyKeys(t)
    ensures NonEmptyKeys(ApplyStep(t, m).table)
  {
    StepFromIsRegroup([], t, m);
    var table := Regroup(t, RewriteFn(m));
    forall i | 0 <= i < |table| ensures |table[i].key| > 0 {
      assert HasKey(table, table[i].key);
      assert InImage(t, RewriteFn(m), table[i].key);
      var j :| 0 <= j < |t| && RewriteFn(m)(t[j].key) == table[i].key;
      RewriteNonEmpty(t[j].key, m);
    }
  }

  /** The new table holds, for every word type, the summed multiplicity of
      the old word types that the merge rewrites to it. */
  lemma StepGet(t: Table, m: Merge, w: Word)
    ensures Get(ApplyStep(t, m).table, w) == SumWhere(t, RewriteFn(m), w)
  {
    StepFromIsRegroup([], t, m);
    assert ApplyStep(t, m).table == Regroup(t, RewriteFn(m));
  }

  lemma StepMass(t: Table, m: Merge)
    ensures Mass(Regroup(t, RewriteFn(m))) == Mass(t) - WeightedSum(t, FiresFn(m))
    ensures CorpusSize(Regroup(t, RewriteFn(m))) == CorpusSize(t) - WeightedSum(t, FiresFn(m))
  {
    var f := RewriteFn(m);
    var h: Word -> int := w => |Rewrite(w, m)|;
    RegroupWeighted([], t, f, TokenCount, h);
    assert forall w :: h(w) == TokenCount(w) - FiresFn(m)(w) by {
      forall w ensures h(w) == TokenCount(w) - FiresFn(m)(w) {
        RewriteLength(w, m);
      }
    }
    WeightedSumLinear(t, TokenCount, FiresFn(m), h);
    var r := Regroup(t, f);
    CorpusSizeIsMassMinusTotal(t);
    CorpusSizeIsMassMinusTotal(r);
  }

  lemma StepValid(t: Table, m: Merge, table: Table)
    requires ValidTable(t) && ValidMerge(m)
    requires table == Regroup(t, RewriteFn(m))
    ensures ValidTable(table)
  {
    MergedValid(m);
    forall i | 0 <= i < |table| ensures ValidWord(table[i].key) {
      assert HasKey(table, table[i].key);
      assert InImage(t, RewriteFn(m), table[i].key);
      var j :| 0 <= j < |t| && RewriteFn(m)(t[j].key) == table[i].key;
      assert ValidWord(t[j].key);
      forall k | 0 <= k < |table[i].key| ensures ValidToken(table[i].key[k]) {
        var tok := table[i].key[k];
        assert tok in Rewrite(t[j].key, m);
        assert tok in t[j].key || tok == m.Merged();
      }
    }
  }

  /** An entry of the compression log: the merge, its replacements and the
      corpus size after it. */
  datatype CompressionEntry = CompressionEntry(merge: Merge, replacements: nat, corpusSizeAfter: int)

  /** The table after all merges, the `merge_frequencies` list and the
      compression log. */
  datatype ApplyResult = ApplyResult(table: Table, frequencies: seq<Entry<Merge>>, log: seq<CompressionEntry>)

  /** The merge loop for a given per-merge step, started with corpus size
      `size`: each merge records its replacements in the frequency list and
      in the log, with the corpus size after it. */
  function MergeLoop(step: (Table, Merge) -> StepResult, t: Table, ms: seq<Merge>, size: int): (r: ApplyResult)
    ensures |r.frequencies| == |ms| && |r.log| == |ms|
    decreases |ms|
  {
    if |ms| == 0 then ApplyResult(t, [], [])
    else
      var s := step(t, ms[0]);
      var after := size - s.replacements;
      var rest := MergeLoop(step, s.table, ms[1..], after);
      ApplyResult(rest.table, [Entry(ms[0], s.replacements)] + rest.frequencies,
                  [CompressionEntry(ms[0], s.replacements, after)] + rest.log)
  }

  /** train.py's merge loop, started with corpus size `size`. */
  function ApplyFrom(t: Table, ms: seq<Merge>, size: int): ApplyResult {
    MergeLoop(ApplyStep, t, ms, size)
  }

  /** The frequency list and the compression log match the merges, whatever
      the step. */
  lemma {:induction false} MergeLoopLog(step: (Table, Merge) -> StepResult, t: Table, ms: seq<Merge>, size: int)
    ensures var r := MergeLoop(step, t, ms, size);
      LogMatches(ms, size, r.frequencies, r.log)
    decreases |ms|
  {
    if |ms| > 0 {
      var s := step(t, ms[0]);
      var after := size - s.replacements;
      MergeLoopLog(step, s.table, ms[1..], after);
      var rest := MergeLoop(step, s.table, ms[1..], after);
      var r := MergeLoop(step, t, ms, size);
      assert r.frequencies == [Entry(ms[0], s.replacements)] + rest.frequencies;
      assert r.log == [CompressionEntry(ms[0], s.replacements, after)] + rest.log;
      LogCons(ms, size, s.replacements, rest.frequencies, rest.log);
    }
  }

  /** The `i`-th frequency and log entry belong to the `i`-th merge and agree
      on its replacements, and the logged size is the starting size minus
      the replacements of the merges up to and including the `i`-th. */
  ghost predicate LogMatches(ms: seq<Merge>, size: int, freqs: seq<Entry<Merge>>, log: seq<CompressionEntry>) {
    && |freqs| == |ms| && |log| == |ms|
    && forall i :: 0 <= i < |ms| ==>
         && freqs[i].key == ms[i]
         && log[i].merge == ms[i]
         && log[i].replacements == freqs[i].count
         && log[i].corpusSizeAfter == size - Total(freqs[..i + 1])
  }

  /** One more merge in front keeps the log matching. */
  lemma LogCons(ms: seq<Merge>, size: int, x: nat, freqs: seq<Entry<Merge>>, log: seq<CompressionEntry>)
    requires |ms| > 0
    requires LogMatches(ms[1..], size - x, freqs, log)
    ensures LogMatches(ms, size, [Entry(ms[0], x)] + freqs, [CompressionEntry(ms[0], x, size - x)] + log)
  {
    var e := Entry(ms[0], x);
    var f := [e] + freqs;
    var l := [CompressionEntry(ms[0], x, size - x)] + log;
    forall i | 0 <= i < |ms|
      ensures f[i].key == ms[i] && l[i].merge == ms[i] && l[i].replacements == f[i].count
      ensures l[i].corpusSizeAfter == size - Total(f[..i + 1])
    {
      assert f[..i + 1][1..] == freqs[..i];
      if i > 0 {
        assert f[i] == freqs[i - 1] && l[i] == log[i - 1];
        assert ms[1..][i - 1] == ms[i];
      }
    }
  }

  lemma ApplyFromUnfold(t: Table, ms: seq<Merge>, size: int)
    requires |ms| > 0
    ensures var step := ApplyStep(t, ms[0]);
      var after := size - step.replacements;
      var rest := ApplyFrom(step.table, ms[1..], after);
      && ApplyFrom(t, ms, size).frequencies == [Entry(ms[0], step.replacements)] + rest.frequencies
      && ApplyFrom(t, ms, size).log == [CompressionEntry(ms[0], step.replacements, after)] + rest.log
      && ApplyFrom(t, ms, size).table == rest.table
  {
  }
  /** The frequency part of `ApplyFromUnfold` alone. */
  lemma ApplyFromFrequencies(t: Table, ms: seq<Merge>, size: int)
    requires |ms| > 0
    ensures ApplyFrom(t, ms, size).frequencies
            == [Entry(ms[0], ApplyStep(t, ms[0]).replacements)]
               + ApplyFrom(ApplyStep(t, ms[0]).table, ms[1..], size - ApplyStep(t, ms[0]).replacements).frequencies
  {
    ApplyFromUnfold(t, ms, size);
  }


  /** What the merge loop keeps: the total multiplicity, positivity,
      distinct keys, valid tokens; and the corpus size drops by exactly the
      recorded replacements. */
  lemma {:induction false} ApplyFromKeeps(t: Table, ms: seq<Merge>, size: int)
    ensures Total(ApplyFrom(t, ms, size).table) == Total(t)
    ensures CorpusSize(ApplyFrom(t, ms, size).table) == CorpusSize(t) - Total(ApplyFrom(t, ms, size).frequencies)
    ensures Positive(t) ==> Positive(ApplyFrom(t, ms, size).table)
    ensures |ms| > 0 || Distinct(t) ==> Distinct(ApplyFrom(t, ms, size).table)
    decreases |ms|
  {
    if |ms| > 0 {
      var step := ApplyStep(t, ms[0]);
      var after := size - step.replacements;
      StepKeeps(t, ms[0]);
      ApplyFromKeeps(step.table, ms[1..], after);
      ApplyFromUnfold(t, ms, size);
      var rest := ApplyFrom(step.table, ms[1..], after).frequencies;
      var freqs := [Entry(ms[0], step.replacements)] + rest;
      assert freqs[1..] == rest;
      assert Total(freqs) == step.replacements + Total(rest);
    }
  }

  lemma ValidMergesTail(ms: seq<Merge>)
    requires |ms| > 0 && ValidMerges(ms)
    ensures ValidMerge(ms[0]) && ValidMerges(ms[1..])
  {
    forall i | 0 <= i < |ms[1..]| ensures ValidMerge(ms[1..][i]) {
      assert ms[1..][i] == ms[i + 1];
    }
  }

  lemma {:induction false} ApplyFromValid(t: Table, ms: seq<Merge>, size: int)
    requires ValidTable(t) && ValidMerges(ms)
    ensures ValidTable(ApplyFrom(t, ms, size).table)
    decreases |ms|
  {
    if |ms| > 0 {
      var step := ApplyStep(t, ms[0]);
      ValidMergesTail(ms);
      StepKeepsValid(t, ms[0]);
      ApplyFromValid(step.table, ms[1..], size - step.replacements);
      ApplyFromUnfold(t, ms, size);
    }
  }

  lemma {:induction false} ApplyFromNonEmpty(t: Table, ms: seq<Merge>, size: int)
    requires NonEmptyKeys(t)
    ensures NonEmptyKeys(ApplyFrom(t, ms, size).table)
    decreases |ms|
  {
    if |ms| > 0 {
      var step := ApplyStep(t, ms[0]);
      StepKeepsNonEmpty(t, ms[0]);
      ApplyFromNonEmpty(step.table, ms[1..], size - step.replacements);
      ApplyFromUnfold(t, ms, size);
    }
  }

  /** train.py's `apply_merges_word_counts`. Every merge gets one frequency
      entry and one log entry, in input order; the total multiplicity is
      kept; each logged corpus size is the starting size minus the
      replacements so far, and the final table's size is the starting size
      minus all replacements. */
  function ApplyMergesWordCounts(t: Table, ms: seq<Merge>): (r: ApplyResult)
    ensures |r.frequencies| == |ms| && |r.log| == |ms|
    ensures forall i :: 0 <= i < |ms| ==>
      && r.frequencies[i].key == ms[i]
      && r.log[i].merge == ms[i]
      && r.log[i].replacements == r.frequencies[i].count
      && r.log[i].corpusSizeAfter == CorpusSize(t) - Total(r.frequencies[..i + 1])
    ensures Total(r.table) == Total(t)
    ensures CorpusSize(r.table) == CorpusSize(t) - Total(r.frequencies)
    ensures Positive(t) ==> Positive(r.table)
    ensures Distinct(t) ==> Distinct(r.table)
    ensures ValidTable(t) && ValidMerges(ms) ==> ValidTable(r.table)
    ensures NonEmptyKeys(t) ==> NonEmptyKeys(r.table)
  {
    MergeLoopLog(ApplyStep, t, ms, CorpusSize(t));
    ApplyFromKeeps(t, ms, CorpusSize(t));
    assert ValidTable(t) && ValidMerges(ms) ==> ValidTable(ApplyFrom(t, ms, CorpusSize(t)).table) by {
      if ValidTable(t) && ValidMerges(ms) {
        ApplyFromValid(t, ms, CorpusSize(t));
      }
    }
    assert NonEmptyKeys(t) ==> NonEmptyKeys(ApplyFrom(t, ms, CorpusSize(t)).table) by {
      if NonEmptyKeys(t) {
        ApplyFromNonEmpty(t, ms, CorpusSize(t));
      }
    }
    ApplyFrom(t, ms, CorpusSize(t))
  }

  /** Running the loop on a prefix of the merges gives a prefix of the
      frequencies, whatever the step. */
  lemma {:induction false} MergeLoopPrefix(step: (Table, Merge) -> StepResult, t: Table, ms: seq<Merge>, size: int, k: nat)
    requires k <= |ms|
    ensures MergeLoop(step, t, ms[..k], size).frequencies == MergeLoop(step, t, ms, size).frequencies[..k]
    decreases |ms|
  {
    if k == 0 {
      assert ms[..k] == [];
    } else {
      var s := step(t, ms[0]);
      var after := size - s.replacements;
      var pre := ms[..k];
      assert pre[0] == ms[0];
      assert pre[1..] == ms[1..][..k - 1];
      MergeLoopPrefix(step, s.table, ms[1..], after, k - 1);
      var full := MergeLoop(step, s.table, ms[1..], after).frequencies;
      assert ([Entry(ms[0], s.replacements)] + full)[..k] == [Entry(ms[0], s.replacements)] + full[..k - 1];
    }
  }

  /** The corpus size logged after the i-th merge is the true size of the
      table obtained by applying only the first i + 1 merges. */
  lemma LoggedSizeIsTrueSize(t: Table, ms: seq<Merge>, i: nat)
    requires i < |ms|
    ensures ApplyMergesWordCounts(t, ms).log[i].corpusSizeAfter
         == CorpusSize(ApplyMergesWordCounts(t, ms[..i + 1]).table)
  {
    MergeLoopPrefix(ApplyStep, t, ms, CorpusSize(t), i + 1);
  }
}
