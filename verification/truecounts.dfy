/** The second script, apply_merges_with_true_counts.py: the same rewrite
    loop as train.py, counting per merge how many times it was used, and a
    count of the final tokens. */
module TrueCounts {
  import opened Counters
  import opened Tokens
  import opened Apply
  import opened Tokenize
  import opened Flatten
  import opened Serialization

  /** The table and the usage counter after some merges. */
  datatype CountState = CountState(table: Table, usage: Counter<Merge>)

  /** `merge_usage[m] += n`, once per replacement. */
  function UsageAdd(usage: Counter<Merge>, m: Merge, n: nat, times: nat): Counter<Merge>
    decreases times
  {
    if times == 0 then usage else UsageAdd(Add(usage, m, n), m, n, times - 1)
  }

  /** The loop over the word types of `c` for one merge. */
  function CountFrom(acc: Table, usage: Counter<Merge>, c: Table, m: Merge): CountState
    decreases |c|
  {
    if |c| == 0 then CountState(acc, usage)
    else
      var w := c[0].key;
      var n := c[0].count;
      CountFrom(Add(acc, Rewrite(w, m), n), UsageAdd(usage, m, n, Fires(w, m)), c[1..], m)
  }

  /** The loop over the merges. */
  function CountLoop(t: Table, usage: Counter<Merge>, ms: seq<Merge>): CountState
    decreases |ms|
  {
    if |ms| == 0 then CountState(t, usage)
    else
      var s := CountFrom([], usage, t, ms[0]);
      CountLoop(s.table, s.usage, ms[1..])
  }

  /** apply_merges_with_true_counts.py's `apply_merges`. */
  function ApplyMergesCounting(t: Table, ms: seq<Merge>): CountState {
    CountLoop(t, [], ms)
  }

  /** apply_merges_with_true_counts.py's `count_final_tokens`: every key is
      read back with the bare split, its markers dropped, and the rest
      counted with the key's multiplicity. */
  function CountFinalTokens(t: Table): int {
    if |t| == 0 then 0
    else |WithoutMarker(Deserialize(SerializeWord(t[0].key)))| * t[0].count + CountFinalTokens(t[1..])
  }

  /** What `count_final_tokens` counts for one word type of valid tokens:
      the empty word's key "" reads back as one empty token. */
  function ReadLength(w: Word): int {
    if |w| == 0 then 1 else MarkerFreeLength(w)
  }

  function Id(m: Merge): Merge {
    m
  }

  lemma MulStep(n: nat, f: nat)
    requires f > 0
    ensures n + n * (f - 1) == n * f
  {
  }

  /** The per-replacement additions sum to one addition of `n * times`, and
      create the key only when the merge fired. */
  lemma UsageAddSpec(usage: Counter<Merge>, m: Merge, n: nat, times: nat)
    ensures Get(UsageAdd(usage, m, n, times), m) == Get(usage, m) + n * times
    ensures forall k :: k != m ==> Get(UsageAdd(usage, m, n, times), k) == Get(usage, k)
    ensures Total(UsageAdd(usage, m, n, times)) == Total(usage) + n * times
    ensures forall k :: HasKey(UsageAdd(usage, m, n, times), k) <==> HasKey(usage, k) || (k == m && times > 0)
    ensures Distinct(usage) ==> Distinct(UsageAdd(usage, m, n, times))
  {
    UsageAddCounts(usage, m, n, times);
    UsageAddKeys(usage, m, n, times);
  }

  lemma {:induction false} UsageAddCounts(usage: Counter<Merge>, m: Merge, n: nat, times: nat)
    ensures Get(UsageAdd(usage, m, n, times), m) == Get(usage, m) + n * times
    ensures forall k :: k != m ==> Get(UsageAdd(usage, m, n, times), k) == Get(usage, k)
    ensures Total(UsageAdd(usage, m, n, times)) == Total(usage) + n * times
    decreases times
  {
    if times > 0 {
      var next := Add(usage, m, n);
      assert UsageAdd(usage, m, n, times) == UsageAdd(next, m, n, times - 1);
      UsageAddCounts(next, m, n, times - 1);
      MulStep(n, times);
    }
  }

  lemma {:induction false} UsageAddKeys(usage: Counter<Merge>, m: Merge, n: nat, times: nat)
    ensures forall k :: HasKey(UsageAdd(usage, m, n, times), k) <==> HasKey(usage, k) || (k == m && times > 0)
    ensures Distinct(usage) ==> Distinct(UsageAdd(usage, m, n, times))
    decreases times
  {
    if times > 0 {
      var next := Add(usage, m, n);
      var u := UsageAdd(next, m, n, times - 1);
      assert UsageAdd(usage, m, n, times) == u;
      UsageAddKeys(next, m, n, times - 1);
      forall k ensures HasKey(u, k) <==> HasKey(usage, k) || k == m {
        assert HasKey(u, k) <==> HasKey(next, k) || (k == m && times - 1 > 0);
        assert HasKey(next, k) <==> HasKey(usage, k) || k == m;
      }
      if Distinct(usage) {
        AddDistinct(usage, m, n);
      }
    }
  }


  /** One merge: the table is train.py's, and the usage counter gains the
      merge's replacements under the merge and nothing else. */
  lemma {:induction false} CountFromTable(acc: Table, usage: Counter<Merge>, c: Table, m: Merge)
    ensures CountFrom(acc, usage, c, m).table == StepFrom(acc, c, m).table
    decreases |c|
  {
    if |c| > 0 {
      var w := c[0].key;
      var n := c[0].count;
      CountFromTable(Add(acc, Rewrite(w, m), n), UsageAdd(usage, m, n, Fires(w, m)), c[1..], m);
    }
  }

  lemma {:induction false} CountFromSpec(acc: Table, usage: Counter<Merge>, c: Table, m: Merge)
    ensures CountFrom(acc, usage, c, m).table == StepFrom(acc, c, m).table
    ensures Get(CountFrom(acc, usage, c, m).usage, m) == Get(usage, m) + StepFrom(acc, c, m).replacements
    ensures forall k :: k != m ==> Get(CountFrom(acc, usage, c, m).usage, k) == Get(usage, k)
    ensures Total(CountFrom(acc, usage, c, m).usage) == Total(usage) + StepFrom(acc, c, m).replacements
    ensures forall k :: HasKey(CountFrom(acc, usage, c, m).usage, k) ==> HasKey(usage, k) || k == m
    ensures Distinct(usage) ==> Distinct(CountFrom(acc, usage, c, m).usage)
    decreases |c|
  {
    if |c| > 0 {
      var w := c[0].key;
      var n := c[0].count;
      var usage' := UsageAdd(usage, m, n, Fires(w, m));
      UsageAddSpec(usage, m, n, Fires(w, m));
      CountFromSpec(Add(acc, Rewrite(w, m), n), usage', c[1..], m);
    }
  }

  /** The whole loop: the table is train.py's final table, and every key's
      usage grows by the sum of the frequencies train.py records for it. */
  lemma {:induction false} CountLoopSpec(t: Table, usage: Counter<Merge>, ms: seq<Merge>, size: int)
    ensures CountLoop(t, usage, ms).table == ApplyFrom(t, ms, size).table
    ensures forall k :: Get(CountLoop(t, usage, ms).usage, k)
                        == Get(usage, k) + SumWhere(ApplyFrom(t, ms, size).frequencies, Id, k)
    ensures Total(CountLoop(t, usage, ms).usage) == Total(usage) + Total(ApplyFrom(t, ms, size).frequencies)
    ensures forall k :: HasKey(CountLoop(t, usage, ms).usage, k) ==> HasKey(usage, k) || k in ms
    ensures Distinct(usage) ==> Distinct(CountLoop(t, usage, ms).usage)
  {
    CountLoopTable(t, usage, ms, size);
    CountLoopUsage(t, usage, ms, size);
    CountLoopKeys(t, usage, ms);
  }

  lemma {:induction false} CountLoopTable(t: Table, usage: Counter<Merge>, ms: seq<Merge>, size: int)
    ensures CountLoop(t, usage, ms).table == ApplyFrom(t, ms, size).table
    decreases |ms|
  {
    if |ms| > 0 {
      var m := ms[0];
      var s := CountFrom([], usage, t, m);
      var step := ApplyStep(t, m);
      var after := size - step.replacements;
      assert CountLoop(t, usage, ms) == CountLoop(s.table, s.usage, ms[1..]);
      CountFromTable([], usage, t, m);
      assert s.table == step.table;
      CountLoopTable(s.table, s.usage, ms[1..], after);
      ApplyFromUnfold(t, ms, size);
      assert ApplyFrom(t, ms, size).table == ApplyFrom(step.table, ms[1..], after).table;
    }
  }


  lemma {:induction false} CountLoopUsage(t: Table, usage: Counter<Merge>, ms: seq<Merge>, size: int)
    ensures forall k :: Get(CountLoop(t, usage, ms).usage, k)
                        == Get(usage, k) + SumWhere(ApplyFrom(t, ms, size).frequencies, Id, k)
    ensures Total(CountLoop(t, usage, ms).usage) == Total(usage) + Total(ApplyFrom(t, ms, size).frequencies)
    decreases |ms|
  {
    if |ms| > 0 {
      var m := ms[0];
      var s := CountFrom([], usage, t, m);
      var step := ApplyStep(t, m);
      var after := size - step.replacements;
      var rest := ApplyFrom(step.table, ms[1..], after).frequencies;
      var freqs := ApplyFrom(t, ms, size).frequencies;
      ApplyFromFrequencies(t, ms, size);
      assert freqs == [Entry(m, step.replacements)] + rest;
      assert freqs[1..] == rest;
      assert Total(freqs) == step.replacements + Total(rest);
      var u := CountLoop(s.table, s.usage, ms[1..]).usage;
      assert CountLoop(t, usage, ms).usage == u;
      CountFromSpec([], usage, t, m);
      assert s.table == step.table;
      CountLoopUsage(s.table, s.usage, ms[1..], after);
      forall k ensures Get(u, k) == Get(usage, k) + SumWhere(freqs, Id, k) {
        assert Get(u, k) == Get(s.usage, k) + SumWhere(rest, Id, k);
        assert Get(s.usage, k) == Get(usage, k) + (if m == k then step.replacements else 0);
        assert SumWhere(freqs, Id, k) == (if m == k then step.replacements else 0) + SumWhere(rest, Id, k);
      }
    }
  }



  lemma {:induction false} CountLoopKeys(t: Table, usage: Counter<Merge>, ms: seq<Merge>)
    ensures forall k :: HasKey(CountLoop(t, usage, ms).usage, k) ==> HasKey(usage, k) || k in ms
    ensures Distinct(usage) ==> Distinct(CountLoop(t, usage, ms).usage)
    decreases |ms|
  {
    if |ms| > 0 {
      var m := ms[0];
      var s := CountFrom([], usage, t, m);
      assert CountLoop(t, usage, ms) == CountLoop(s.table, s.usage, ms[1..]);
      CountFromSpec([], usage, t, m);
      CountLoopKeys(s.table, s.usage, ms[1..]);
      forall k ensures HasKey(CountLoop(t, usage, ms).usage, k) ==> HasKey(usage, k) || k in ms {
        if k in ms[1..] {
          assert k in ms;
        }
      }
    }
  }


  /** Both scripts compute the same final table from the same start; each
      merge's usage is the sum of the replacement counts train.py records for
      it, so a merge listed twice accumulates; only listed merges get a usage
      entry; and the total usage is exactly the drop in the weighted token
      count, the total multiplicity being kept. */
  lemma TrueCountsAgree(t: Table, ms: seq<Merge>)
    ensures var r := ApplyMergesCounting(t, ms);
      var a := ApplyMergesWordCounts(t, ms);
      && r.table == a.table
      && (forall k :: Get(r.usage, k) == SumWhere(a.frequencies, Id, k))
      && (forall k :: HasKey(r.usage, k) ==> k in ms)
      && Distinct(r.usage)
      && Total(r.table) == Total(t)
      && Total(r.usage) == Mass(t) - Mass(r.table)
  {
    CountLoopSpec(t, [], ms, CorpusSize(t));
    var a := ApplyMergesWordCounts(t, ms);
    CorpusSizeIsMassMinusTotal(t);
    CorpusSizeIsMassMinusTotal(a.table);
  }

  /** Per merge, the amount added to the usage counter is the drop in the
      weighted token count of that step. */
  lemma UsageIsTokenDrop(t: Table, usage: Counter<Merge>, m: Merge)
    ensures var s := CountFrom([], usage, t, m);
      Total(s.usage) - Total(usage) == Mass(t) - Mass(s.table)
  {
    CountFromSpec([], usage, t, m);
    StepFacts(t, m);
  }

  /** The companion script reads a stored word back as itself, except the
      empty word, which comes back as one empty token. */
  lemma ReadBack(w: Word)
    requires ValidWord(w)
    ensures Deserialize(SerializeWord(w)) == if |w| == 0 then [""] else w
  {
    BareKeyRoundTrip(w);
    if |w| == 0 {
      assert SerializeWord(w) == "";
    }
  }

  /** Reading keys back through the bare split does not change what the
      companion script's merge loop does: the same key comes out, after the
      same number of replacements. So its loop can be modelled on the token
      lists themselves, as `CountFrom` does. */
  lemma CompanionReadsAlike(w: Word, m: Merge)
    requires ValidWord(w)
    ensures SerializeWord(Rewrite(Deserialize(SerializeWord(w)), m)) == SerializeWord(Rewrite(w, m))
    ensures Fires(Deserialize(SerializeWord(w)), m) == Fires(w, m)
  {
    ReadBack(w);
    if |w| == 0 {
      assert Rewrite([""], m) == [""];
      assert SerializeWord([""]) == "" == SerializeWord([]);
    }
  }

  lemma {:induction false} CountFinalIsWeighted(t: Table)
    requires ValidTable(t)
    ensures CountFinalTokens(t) == WeightedSum(t, ReadLength)
  {
    if |t| > 0 {
      var w := t[0].key;
      ReadBack(w);
      assert ValidTable(t[1..]) by {
        forall i | 0 <= i < |t[1..]| ensures ValidWord(t[1..][i].key) {
          assert t[1..][i] == t[i + 1];
        }
      }
      CountFinalIsWeighted(t[1..]);
      if |w| == 0 {
        assert WithoutMarker([""]) == [""];
      }
      assert |WithoutMarker(Deserialize(SerializeWord(w)))| == ReadLength(w);
      assert ReadLength(w) * t[0].count == t[0].count * ReadLength(w);
    }
  }

  /** On a table without the empty word, the final token count is the
      length of train.py's flattened token stream. */
  lemma CountFinalIsFlattenLength(t: Table)
    requires ValidTable(t) && NonEmptyKeys(t)
    ensures CountFinalTokens(t) == |FlattenTokens(t)|
  {
    CountFinalIsWeighted(t);
    WeightedSumOnKeys(t, ReadLength, MarkerFreeLength);
    FlattenLength(t);
  }

  /** The two scripts disagree on the empty word: the companion script
      counts one token per occurrence of its key "", train.py writes none. */
  lemma EmptyWordCountsOne()
    ensures CountFinalTokens([Entry([], 3)]) == 3
    ensures |FlattenTokens([Entry([], 3)])| == 0
  {
    assert SerializeWord([]) == "";
    assert WithoutMarker([""]) == [""];
  }

  /** A word's token list without the marker has one token per character. */
  lemma {:induction false} CharacterWordLength(w: string)
    ensures MarkerFreeLength(CharacterWord(w)) == |w|
  {
    if |w| > 0 {
      CharacterWordLength(w[1..]);
      assert CharacterWord(w)[1..] == CharacterWord(w[1..]);
    } else {
      assert CharacterWord(w) == [EndOfWord];
    }
  }

  function SumOver(tw: seq<Word>, g: Word -> int): int {
    if |tw| == 0 then 0 else g(tw[0]) + SumOver(tw[1..], g)
  }

  lemma {:induction false} SumOverSnoc(tw: seq<Word>, w: Word, g: Word -> int)
    ensures SumOver(tw + [w], g) == SumOver(tw, g) + g(w)
  {
    if |tw| > 0 {
      assert (tw + [w])[1..] == tw[1..] + [w];
      SumOverSnoc(tw[1..], w, g);
    }
  }

  /** Weighting over the collapsed table equals summing over the word list. */
  lemma {:induction false} InitialWeighted(tw: seq<Word>, g: Word -> int)
    ensures WeightedSum(InitialWordCounts(tw), g) == SumOver(tw, g)
  {
    if |tw| > 0 {
      var prefix := tw[..|tw| - 1];
      var x := tw[|tw| - 1];
      var t0 := Tally(prefix);
      assert InitialWordCounts(tw) == Add(t0, x, 1);
      assert tw == prefix + [x];
      InitialWeighted(prefix, g);
      AddWeighted(t0, x, 1, g);
      SumOverSnoc(prefix, x, g);
    }
  }

  lemma {:induction false} TokenizedLength(words: seq<string>)
    ensures SumOver(TokenizeText(words), MarkerFreeLength) == |Concat(words)|
  {
    if |words| > 0 {
      TokenizedLength(words[1..]);
      CharacterWordLength(words[0]);
      assert TokenizeText(words)[1..] == TokenizeText(words[1..]);
    }
  }

  /** On a freshly tokenised corpus, the final token count is the number of
      non-whitespace characters of the text. */
  lemma CountFinalOnFreshTable(text: string, isSpace: char -> bool)
    requires Sep !in text
    ensures CountFinalTokens(InitialWordCounts(TokenizeText(SplitWords(text, isSpace))))
            == |NonSpace(text, isSpace)|
  {
    var tw := TokenizeText(SplitWords(text, isSpace));
    var t := InitialWordCounts(tw);
    FreshTable(text, isSpace);
    CountFinalIsWeighted(t);
    WeightedSumOnKeys(t, ReadLength, MarkerFreeLength);
    InitialWeighted(tw, MarkerFreeLength);
    TokenizedLength(SplitWords(text, isSpace));
  }

  /** After any valid merges on a text without the separator, the final
      token count of the companion script is the number of tokens train.py
      writes out for the same table. */
  lemma CountFinalAfterMerges(text: string, isSpace: char -> bool, ms: seq<Merge>)
    requires Sep !in text && ValidMerges(ms)
    ensures var r := ApplyMergesCounting(InitialWordCounts(TokenizeText(SplitWords(text, isSpace))), ms);
      CountFinalTokens(r.table) == |FlattenTokens(r.table)|
  {
    var t := InitialWordCounts(TokenizeText(SplitWords(text, isSpace)));
    FreshTable(text, isSpace);
    TrueCountsAgree(t, ms);
    CountFinalIsFlattenLength(ApplyMergesWordCounts(t, ms).table);
  }
}
