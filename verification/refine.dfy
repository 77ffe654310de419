/** Refining the applied merges (train.py's `refine_merges_word_counts`): a
    greedy swap search. The applied merges are queued by ascending usage,
    the table's bigrams that are still unused merges by descending
    frequency. Each round pops the least used applied merge, discards the
    candidates that are not more frequent than its usage, and tries the best
    remaining candidate: the low merge is undone, the candidate applied, and
    the swap is kept when the candidate fires at least once. An empty
    candidate queue ends the search. */
module Refine {
  import opened Counters
  import opened Tokens
  import opened Apply
  import opened Bigrams
  import opened Undo
  import opened Sorting

  /** One accepted swap, as logged. */
  datatype SwapRecord = SwapRecord(number: nat, low: Merge, lowFreq: nat, high: Merge, highFreq: nat, replacements: nat)

  /** The refined table, the swap log and the final merge list. */
  datatype RefineResult = RefineResult(table: Table, log: seq<SwapRecord>, final: seq<Merge>)

  function Count(e: Entry<Merge>): int {
    e.count
  }

  function NegCount(e: Entry<Merge>): int {
    -(e.count as int)
  }

  /** The bigrams of the table that are remaining merges, in bigram order. */
  function Candidates(bigrams: Counter<Merge>, remaining: seq<Merge>): (r: Counter<Merge>)
    ensures forall i :: 0 <= i < |r| ==> r[i] in bigrams && r[i].key in remaining
    ensures forall i :: 0 <= i < |bigrams| && bigrams[i].key in remaining ==> bigrams[i] in r
  {
    if |bigrams| == 0 then []
    else
      var rest := Candidates(bigrams[1..], remaining);
      assert forall i :: 1 <= i < |bigrams| ==> bigrams[i] == bigrams[1..][i - 1];
      (if bigrams[0].key in remaining then [bigrams[0]] else []) + rest
  }

  /** Candidates keep the bigram order: filtering distributes over
      concatenation, and a single entry is kept exactly when its pair is a
      remaining merge. */
  lemma {:induction false} CandidatesOrder(b1: Counter<Merge>, b2: Counter<Merge>, e: Entry<Merge>, remaining: seq<Merge>)
    ensures Candidates(b1 + b2, remaining) == Candidates(b1, remaining) + Candidates(b2, remaining)
    ensures Candidates([e], remaining) == if e.key in remaining then [e] else []
    decreases |b1|
  {
    assert [e][1..] == [];
    if |b1| > 0 {
      assert (b1 + b2)[0] == b1[0];
      assert (b1 + b2)[1..] == b1[1..] + b2;
      CandidatesOrder(b1[1..], b2, e, remaining);
      var head: Counter<Merge> := if b1[0].key in remaining then [b1[0]] else [];
      assert head + (Candidates(b1[1..], remaining) + Candidates(b2, remaining))
          == (head + Candidates(b1[1..], remaining)) + Candidates(b2, remaining);
    } else {
      assert b1 + b2 == b2;
    }
  }

  /** The inner `while`: pop candidates whose frequency is at most `f`. */
  function DropAtMost(highs: seq<Entry<Merge>>, f: nat): (r: seq<Entry<Merge>>)
    ensures |r| <= |highs| && r == highs[|highs| - |r|..]
    ensures forall i :: 0 <= i < |highs| - |r| ==> highs[i].count <= f
    ensures |r| > 0 ==> r[0].count > f
  {
    if |highs| > 0 && highs[0].count <= f then
      var rest := DropAtMost(highs[1..], f);
      assert forall i :: 1 <= i < |highs| ==> highs[i] == highs[1..][i - 1];
      rest
    else highs
  }

  /** `list.remove(x)` with the `ValueError` swallowed: the first occurrence
      of `x` goes, or nothing when there is none. */
  function RemoveFirst(s: seq<Merge>, x: Merge): seq<Merge> {
    if |s| == 0 then []
    else if s[0] == x then s[1..]
    else [s[0]] + RemoveFirst(s[1..], x)
  }

  /** The candidate table of one swap: undo `low`, then apply `high`. */
  function Swap(t: Table, low: Merge, high: Merge): StepResult {
    ApplyStep(UndoMerge(t, low), high)
  }

  /** The `while applied_sorted` loop. */
  function RefineLoop(lows: seq<Entry<Merge>>, highs: seq<Entry<Merge>>, t: Table,
                      final: seq<Merge>, log: seq<SwapRecord>): RefineResult
    decreases |lows|
  {
    if |lows| == 0 then RefineResult(t, log, final)
    else
      var low := lows[0];
      var queue := DropAtMost(highs, low.count);
      if |queue| == 0 then RefineResult(t, log, final)
      else
        var high := queue[0];
        var step := Swap(t, low.key, high.key);
        if step.replacements > 0 then
          var record := SwapRecord(|log| + 1, low.key, low.count, high.key, high.count, step.replacements);
          RefineLoop(lows[1..], queue[1..], step.table, RemoveFirst(final, low.key) + [high.key], log + [record])
        else
          RefineLoop(lows[1..], queue[1..], t, final, log)
  }

  /** train.py's `refine_merges_word_counts` on the table after the applied
      merges, the applied merges, the remaining merges and the recorded
      merge frequencies. */
  function RefineMerges(t: Table, applied: seq<Merge>, remaining: seq<Merge>, freqs: seq<Entry<Merge>>): RefineResult {
    var lows := SortBy(freqs, Count);
    var highs := SortBy(Candidates(BigramFrequencies(t), remaining), NegCount);
    RefineLoop(lows, highs, t, applied, [])
  }

  /** The final merge list after replaying the logged swaps on `final`. */
  function ReplayFinal(final: seq<Merge>, log: seq<SwapRecord>): seq<Merge>
    decreases |log|
  {
    if |log| == 0 then final
    else ReplayFinal(RemoveFirst(final, log[0].low) + [log[0].high], log[1..])
  }

  /** The table after replaying the logged swaps on `t`. */
  function ReplayTable(t: Table, log: seq<SwapRecord>): Table
    decreases |log|
  {
    if |log| == 0 then t
    else ReplayTable(Swap(t, log[0].low, log[0].high).table, log[1..])
  }

  /** The position of the first occurrence of `x` in `s`. */
  function IndexOf(s: seq<Merge>, x: Merge): (i: nat)
    requires x in s
    ensures i < |s| && s[i] == x && x !in s[..i]
  {
    if s[0] == x then 0
    else
      var i := IndexOf(s[1..], x);
      assert s[..i + 1] == [s[0]] + s[1..][..i];
      i + 1
  }

  /** `RemoveFirst` deletes exactly the first occurrence, keeping the order
      of everything else, and changes nothing when `x` is absent. */
  lemma RemoveFirstSpec(s: seq<Merge>, x: Merge)
    ensures x !in s ==> RemoveFirst(s, x) == s
    ensures x in s ==> RemoveFirst(s, x) == s[..IndexOf(s, x)] + s[IndexOf(s, x) + 1..]
  {
    if x in s {
      RemoveFirstPresent(s, x);
    } else {
      RemoveFirstAbsent(s, x);
    }
  }

  lemma {:induction false} RemoveFirstAbsent(s: seq<Merge>, x: Merge)
    requires x !in s
    ensures RemoveFirst(s, x) == s
  {
    if |s| > 0 {
      assert s == [s[0]] + s[1..];
      assert x !in s[1..];
      RemoveFirstAbsent(s[1..], x);
    }
  }

  lemma {:induction false} RemoveFirstPresent(s: seq<Merge>, x: Merge)
    requires x in s
    ensures RemoveFirst(s, x) == s[..IndexOf(s, x)] + s[IndexOf(s, x) + 1..]
  {
    if s[0] != x {
      var t := s[1..];
      assert x in t by {
        assert s == [s[0]] + t;
      }
      RemoveFirstPresent(t, x);
      var i := IndexOf(t, x);
      assert IndexOf(s, x) == i + 1;
      calc {
        RemoveFirst(s, x);
        [s[0]] + RemoveFirst(t, x);
        [s[0]] + (t[..i] + t[i + 1..]);
        { assert s[..i + 1] == [s[0]] + t[..i]; assert s[i + 2..] == t[i + 1..]; }
        s[..i + 1] + s[i + 2..];
      }
    }
  }

  /** The loop only appends to the log, at most one entry per queued low
      merge and per candidate. */
  lemma {:induction false} RefineLoopGrows(lows: seq<Entry<Merge>>, highs: seq<Entry<Merge>>, t: Table,
                                           final: seq<Merge>, log: seq<SwapRecord>)
    ensures var r := RefineLoop(lows, highs, t, final, log);
      && |log| <= |r.log|
      && r.log[..|log|] == log
      && |r.log| - |log| <= |lows|
      && |r.log| - |log| <= |highs|
    decreases |lows|
  {
    if |lows| > 0 {
      var low := lows[0];
      var queue := DropAtMost(highs, low.count);
      if |queue| > 0 {
        var high := queue[0];
        var step := Swap(t, low.key, high.key);
        if step.replacements > 0 {
          var record := SwapRecord(|log| + 1, low.key, low.count, high.key, high.count, step.replacements);
          var log' := log + [record];
          RefineLoopGrows(lows[1..], queue[1..], step.table, RemoveFirst(final, low.key) + [high.key], log');
          var r := RefineLoop(lows, highs, t, final, log);
          assert r.log[..|log|] == r.log[..|log'|][..|log|];
        } else {
          RefineLoopGrows(lows[1..], queue[1..], t, final, log);
        }
      }
    }
  }

  /** Every log entry the loop adds is numbered by its position, records a
      swap that fired, and pairs an applied merge from the low queue with a
      candidate from the high queue that was strictly more frequent. */
  lemma {:induction false} RefineLoopLog(lows: seq<Entry<Merge>>, highs: seq<Entry<Merge>>, t: Table,
                                         final: seq<Merge>, log: seq<SwapRecord>)
    ensures var r := RefineLoop(lows, highs, t, final, log);
      forall i :: |log| <= i < |r.log| ==> LoggedFrom(r.log[i], i, lows, highs)
    decreases |lows|
  {
    if |lows| > 0 {
      var low := lows[0];
      var queue := DropAtMost(highs, low.count);
      if |queue| > 0 {
        var high := queue[0];
        var step := Swap(t, low.key, high.key);
        var r := RefineLoop(lows, highs, t, final, log);
        if step.replacements > 0 {
          var record := SwapRecord(|log| + 1, low.key, low.count, high.key, high.count, step.replacements);
          var log' := log + [record];
          var final' := RemoveFirst(final, low.key) + [high.key];
          RefineLoopLog(lows[1..], queue[1..], step.table, final', log');
          RefineLoopGrows(lows[1..], queue[1..], step.table, final', log');
          assert r == RefineLoop(lows[1..], queue[1..], step.table, final', log');
          forall i | |log| <= i < |r.log| ensures LoggedFrom(r.log[i], i, lows, highs) {
            if i == |log| {
              assert r.log[i] == r.log[..|log'|][i] == record;
              assert high == highs[|highs| - |queue|];
            } else {
              LoggedShrink(r.log[i], i, lows, highs, queue);
            }
          }
        } else {
          assert r == RefineLoop(lows[1..], queue[1..], t, final, log);
          RefineLoopLog(lows[1..], queue[1..], t, final, log);
          LoggedShrinkAll(r.log, |log|, lows, highs, queue);
        }
      }
    }
  }

  /** With both queues sorted, the loop logs its swaps in greedy order: the
      usages of the low merges never decrease along the log, and the
      frequencies of the high merges never increase. */
  lemma {:induction false} RefineLoopOrder(lows: seq<Entry<Merge>>, highs: seq<Entry<Merge>>, t: Table,
                                           final: seq<Merge>, log: seq<SwapRecord>)
    requires SortedBy(lows, Count) && SortedBy(highs, NegCount)
    ensures GreedyFrom(RefineLoop(lows, highs, t, final, log).log, |log|)
    decreases |lows|
  {
    if |lows| > 0 {
      var low := lows[0];
      var queue := DropAtMost(highs, low.count);
      if |queue| > 0 {
        var high := queue[0];
        var step := Swap(t, low.key, high.key);
        var r := RefineLoop(lows, highs, t, final, log);
        SortedSuffix(lows, Count, 1);
        SortedSuffix(highs, NegCount, |highs| - |queue|);
        SortedSuffix(queue, NegCount, 1);
        if step.replacements > 0 {
          var record := SwapRecord(|log| + 1, low.key, low.count, high.key, high.count, step.replacements);
          var log' := log + [record];
          var final' := RemoveFirst(final, low.key) + [high.key];
          assert r == RefineLoop(lows[1..], queue[1..], step.table, final', log');
          RefineLoopOrder(lows[1..], queue[1..], step.table, final', log');
          RefineLoopLog(lows[1..], queue[1..], step.table, final', log');
          RefineLoopGrows(lows[1..], queue[1..], step.table, final', log');
          assert r.log[|log|] == record by {
            assert r.log[|log|] == r.log[..|log'|][|log|];
          }
          forall i, j | |log| <= i < j < |r.log|
            ensures r.log[i].lowFreq <= r.log[j].lowFreq && r.log[i].highFreq >= r.log[j].highFreq
          {
            if i == |log| {
              assert LoggedFrom(r.log[j], j, lows[1..], queue[1..]);
              LaterEntry(lows, Count, Entry(r.log[j].low, r.log[j].lowFreq));
              LaterEntry(queue, NegCount, Entry(r.log[j].high, r.log[j].highFreq));
            }
          }
        } else {
          assert r == RefineLoop(lows[1..], queue[1..], t, final, log);
          RefineLoopOrder(lows[1..], queue[1..], t, final, log);
        }
      }
    }
  }

  /** From position `k` on, the log's low usages never decrease and its
      high frequencies never increase. */
  predicate GreedyFrom(log: seq<SwapRecord>, k: nat) {
    forall i, j :: k <= i < j < |log| ==>
      log[i].lowFreq <= log[j].lowFreq && log[i].highFreq >= log[j].highFreq
  }

  /** An entry behind the head of a sorted queue has a key no smaller than
      the head's. */
  lemma LaterEntry(s: seq<Entry<Merge>>, key: Entry<Merge> -> int, x: Entry<Merge>)
    requires SortedBy(s, key) && |s| > 0 && x in s[1..]
    ensures key(s[0]) <= key(x)
  {
    var k :| 0 <= k < |s[1..]| && s[1..][k] == x;
    assert s[k + 1] == x;
    SortedHeadLeast(s, key, x);
  }

  /** A log entry at position `i` as the loop writes it, drawing on the two
      queues. */
  predicate LoggedFrom(e: SwapRecord, i: nat, lows: seq<Entry<Merge>>, highs: seq<Entry<Merge>>) {
    && e.number == i + 1
    && e.replacements > 0
    && e.highFreq > e.lowFreq
    && Entry(e.low, e.lowFreq) in lows
    && Entry(e.high, e.highFreq) in highs
  }

  lemma LoggedShrinkAll(log: seq<SwapRecord>, k: nat, lows: seq<Entry<Merge>>, highs: seq<Entry<Merge>>, queue: seq<Entry<Merge>>)
    requires |lows| > 0 && |queue| > 0 && |queue| <= |highs| && queue == highs[|highs| - |queue|..]
    requires forall i :: k <= i < |log| ==> LoggedFrom(log[i], i, lows[1..], queue[1..])
    ensures forall i :: k <= i < |log| ==> LoggedFrom(log[i], i, lows, highs)
  {
    forall i | k <= i < |log| ensures LoggedFrom(log[i], i, lows, highs) {
      LoggedShrink(log[i], i, lows, highs, queue);
    }
  }

  lemma LoggedShrink(e: SwapRecord, i: nat, lows: seq<Entry<Merge>>, highs: seq<Entry<Merge>>, queue: seq<Entry<Merge>>)
    requires |lows| > 0 && |queue| > 0 && |queue| <= |highs| && queue == highs[|highs| - |queue|..]
    requires LoggedFrom(e, i, lows[1..], queue[1..])
    ensures LoggedFrom(e, i, lows, highs)
  {
    var l := Entry(e.low, e.lowFreq);
    var h := Entry(e.high, e.highFreq);
    var j :| 0 <= j < |lows[1..]| && lows[1..][j] == l;
    assert lows[j + 1] == l;
    var k :| 0 <= k < |queue[1..]| && queue[1..][k] == h;
    assert highs[|highs| - |queue| + k + 1] == h;
  }

  /** The final merge list and the table are determined by the log alone:
      they are the starting ones with the logged swaps replayed, so a swap
      that did not fire changes neither. */
  lemma {:induction false} RefineLoopReplay(lows: seq<Entry<Merge>>, highs: seq<Entry<Merge>>, t: Table,
                                            final: seq<Merge>, log: seq<SwapRecord>)
    ensures var r := RefineLoop(lows, highs, t, final, log);
      && |log| <= |r.log|
      && r.final == ReplayFinal(final, r.log[|log|..])
      && r.table == ReplayTable(t, r.log[|log|..])
    decreases |lows|
  {
    RefineLoopGrows(lows, highs, t, final, log);
    var r := RefineLoop(lows, highs, t, final, log);
    if |lows| > 0 {
      var low := lows[0];
      var queue := DropAtMost(highs, low.count);
      if |queue| > 0 {
        var high := queue[0];
        var step := Swap(t, low.key, high.key);
        if step.replacements > 0 {
          var record := SwapRecord(|log| + 1, low.key, low.count, high.key, high.count, step.replacements);
          var log' := log + [record];
          RefineLoopReplay(lows[1..], queue[1..], step.table, RemoveFirst(final, low.key) + [high.key], log');
          RefineLoopGrows(lows[1..], queue[1..], step.table, RemoveFirst(final, low.key) + [high.key], log');
          var tail := r.log[|log|..];
          assert tail[0] == record by {
            assert r.log[..|log'|] == log';
            assert r.log[|log|] == r.log[..|log'|][|log|];
          }
          assert tail[1..] == r.log[|log'|..];
        } else {
          RefineLoopReplay(lows[1..], queue[1..], t, final, log);
        }
      } else {
        assert r.log[|log|..] == [];
      }
    } else {
      assert r.log[|log|..] == [];
    }
  }

  /** The search stops for good at the first low merge that no remaining
      candidate beats, however many applied merges are still queued. */
  lemma HardStop(lows: seq<Entry<Merge>>, highs: seq<Entry<Merge>>, t: Table,
                 final: seq<Merge>, log: seq<SwapRecord>)
    requires |lows| > 0
    requires forall i :: 0 <= i < |highs| ==> highs[i].count <= lows[0].count
    ensures RefineLoop(lows, highs, t, final, log) == RefineResult(t, log, final)
  {
    var queue := DropAtMost(highs, lows[0].count);
    if |queue| > 0 {
      assert false;
    }
  }

  /** What one swap does to the token count: the undo brings back one token
      per occurrence of the low merge's token in the current table, and the
      candidate removes one per replacement. The total multiplicity is kept. */
  lemma SwapMass(t: Table, low: Merge, high: Merge)
    ensures var s := Swap(t, low, high);
      && Mass(s.table) == Mass(t) + WeightedSum(t, OccurrencesFn(low.Merged())) - s.replacements
      && Total(s.table) == Total(t)
  {
    UndoMass(t, low);
    UndoFacts(t, low);
    StepFacts(UndoMerge(t, low), high);
  }

  /** Each swap keeps the total multiplicity. */
  lemma {:induction false} ReplayTotal(t: Table, log: seq<SwapRecord>)
    ensures Total(ReplayTable(t, log)) == Total(t)
    ensures Positive(t) ==> Positive(ReplayTable(t, log))
    decreases |log|
  {
    if |log| > 0 {
      var u := UndoMerge(t, log[0].low);
      UndoFacts(t, log[0].low);
      StepFacts(u, log[0].high);
      ReplayTotal(Swap(t, log[0].low, log[0].high).table, log[1..]);
    }
  }

  /** train.py's `refine_merges_word_counts`: the log is numbered 1, 2, …;
      it has at most one entry per recorded merge frequency and per
      candidate; every logged swap fired and replaced an applied merge by a
      remaining merge whose bigram frequency in the starting table is
      strictly greater than the applied merge's recorded frequency; and the
      swaps come in greedy order, least used applied merges first and most
      frequent candidates first. */
  lemma RefineMergesLog(t: Table, applied: seq<Merge>, remaining: seq<Merge>, freqs: seq<Entry<Merge>>)
    ensures var r := RefineMerges(t, applied, remaining, freqs);
      && |r.log| <= |freqs|
      && |r.log| <= |Candidates(BigramFrequencies(t), remaining)|
      && GreedyFrom(r.log, 0)
      && forall i :: 0 <= i < |r.log| ==>
           && r.log[i].number == i + 1
           && r.log[i].replacements > 0
           && r.log[i].high in remaining
           && r.log[i].highFreq == Get(BigramFrequencies(t), r.log[i].high)
           && r.log[i].highFreq > r.log[i].lowFreq
           && Entry(r.log[i].low, r.log[i].lowFreq) in freqs
  {
    var lows := SortBy(freqs, Count);
    var cands := Candidates(BigramFrequencies(t), remaining);
    var highs := SortBy(cands, NegCount);
    SortBySpec(freqs, Count);
    SortBySpec(cands, NegCount);
    RefineLoopLog(lows, highs, t, applied, []);
    RefineLoopGrows(lows, highs, t, applied, []);
    RefineLoopOrder(lows, highs, t, applied, []);
    var r := RefineMerges(t, applied, remaining, freqs);
    assert r == RefineLoop(lows, highs, t, applied, []);
    forall i | 0 <= i < |r.log|
      ensures r.log[i].high in remaining
      ensures r.log[i].highFreq == Get(BigramFrequencies(t), r.log[i].high)
      ensures Entry(r.log[i].low, r.log[i].lowFreq) in freqs
    {
      assert LoggedFrom(r.log[i], i, lows, highs);
      CandidateEntry(t, remaining, Entry(r.log[i].high, r.log[i].highFreq));
      assert Entry(r.log[i].low, r.log[i].lowFreq) in multiset(lows);
    }
  }

  /** The final merge list and the table that refinement returns are the
      logged swaps replayed on the applied merges and on the starting table;
      the total multiplicity is kept. */
  lemma RefineMergesReplay(t: Table, applied: seq<Merge>, remaining: seq<Merge>, freqs: seq<Entry<Merge>>)
    ensures var r := RefineMerges(t, applied, remaining, freqs);
      && r.final == ReplayFinal(applied, r.log)
      && r.table == ReplayTable(t, r.log)
      && Total(r.table) == Total(t)
      && (Positive(t) ==> Positive(r.table))
  {
    var lows := SortBy(freqs, Count);
    var highs := SortBy(Candidates(BigramFrequencies(t), remaining), NegCount);
    RefineLoopReplay(lows, highs, t, applied, []);
    var r := RefineMerges(t, applied, remaining, freqs);
    assert r == RefineLoop(lows, highs, t, applied, []);
    assert r.log[0..] == r.log;
    ReplayTotal(t, r.log);
  }

  /** Replaying swaps of valid merges keeps a table of valid word types
      valid, and every swap leaves distinct keys. */
  lemma {:induction false} ReplayValid(t: Table, log: seq<SwapRecord>)
    requires ValidTable(t)
    requires forall i :: 0 <= i < |log| ==> ValidMerge(log[i].low) && ValidMerge(log[i].high)
    ensures ValidTable(ReplayTable(t, log))
    ensures Distinct(t) ==> Distinct(ReplayTable(t, log))
    decreases |log|
  {
    if |log| > 0 {
      var u := UndoMerge(t, log[0].low);
      UndoValid(t, log[0].low);
      StepKeepsValid(u, log[0].high);
      StepKeeps(u, log[0].high);
      assert forall i :: 0 <= i < |log[1..]| ==> log[1..][i] == log[i + 1];
      ReplayValid(Swap(t, log[0].low, log[0].high).table, log[1..]);
    }
  }

  /** Refinement keeps a table of valid word types valid when the applied
      merges are valid (the candidates are pairs of the table's own tokens,
      hence valid too), and it keeps the keys distinct. */
  lemma RefineMergesValid(t: Table, applied: seq<Merge>, remaining: seq<Merge>, freqs: seq<Entry<Merge>>)
    requires ValidTable(t)
    requires forall i :: 0 <= i < |freqs| ==> ValidMerge(freqs[i].key)
    ensures var r := RefineMerges(t, applied, remaining, freqs);
      && ValidTable(r.table)
      && (Distinct(t) ==> Distinct(r.table))
  {
    RefineMergesLog(t, applied, remaining, freqs);
    RefineMergesReplay(t, applied, remaining, freqs);
    var r := RefineMerges(t, applied, remaining, freqs);
    LoggedMergesValid(t, freqs, r.log);
    ReplayValid(t, r.log);
  }

  /** A logged swap pairs a recorded merge with a bigram of the table that
      is more frequent than it, hence present; both are valid. */
  lemma LoggedMergesValid(t: Table, freqs: seq<Entry<Merge>>, log: seq<SwapRecord>)
    requires ValidTable(t)
    requires forall i :: 0 <= i < |freqs| ==> ValidMerge(freqs[i].key)
    requires forall i :: 0 <= i < |log| ==>
      && Entry(log[i].low, log[i].lowFreq) in freqs
      && log[i].highFreq == Get(BigramFrequencies(t), log[i].high)
      && log[i].highFreq > log[i].lowFreq
    ensures forall i :: 0 <= i < |log| ==> ValidMerge(log[i].low) && ValidMerge(log[i].high)
  {
    forall i | 0 <= i < |log| ensures ValidMerge(log[i].low) && ValidMerge(log[i].high) {
      var e := Entry(log[i].low, log[i].lowFreq);
      var k :| 0 <= k < |freqs| && freqs[k] == e;
      if !HasKey(BigramFrequencies(t), log[i].high) {
        GetMissing(BigramFrequencies(t), log[i].high);
      }
      BigramKeyValid(t, log[i].high);
    }
  }

  /** A candidate is a remaining merge, listed with its bigram frequency. */
  lemma CandidateEntry(t: Table, remaining: seq<Merge>, e: Entry<Merge>)
    requires e in multiset(SortBy(Candidates(BigramFrequencies(t), remaining), NegCount))
    ensures e.key in remaining && e.count == Get(BigramFrequencies(t), e.key)
  {
    var cands := Candidates(BigramFrequencies(t), remaining);
    SortBySpec(cands, NegCount);
    assert e in cands;
    var b := BigramFrequencies(t);
    assert e in b;
    var k :| 0 <= k < |b| && b[k] == e;
    BigramsSpec(t, e.key);
    GetEntry(b, k);
  }
}
