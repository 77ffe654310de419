/** Filtering the merge table (train.py's `filter_merges`): merges are
    scanned in order and a merge is accepted when both operands are already
    known. The known tokens start as the atomic operands (one character or
    the end-of-word marker) found anywhere in the table and grow by the
    merged token of every accepted merge. The scan stops right after the
    `n`-th acceptance; merges that are scanned and not accepted are recorded
    with the operands that were missing. */
module Filter {
  import opened Tokens

  /** A skipped merge with its missing operands, one entry per missing
      operand, left operand first. */
  datatype Skipped = Skipped(merge: Merge, missing: seq<Token>)

  /** The scan state after some prefix of the merges. */
  datatype ScanState = ScanState(known: set<Token>, accepted: seq<Merge>, skipped: seq<Skipped>)

  /** The atomic operands of a single merge. */
  function AtomicOf(m: Merge): set<Token> {
    (if IsAtomic(m.left) then {m.left} else {}) + (if IsAtomic(m.right) then {m.right} else {})
  }

  /** The initial known set: the atomic operands of all merges. */
  function AtomicOperands(ms: seq<Merge>): set<Token> {
    if |ms| == 0 then {} else AtomicOf(ms[0]) + AtomicOperands(ms[1..])
  }

  /** `t` is an operand of some merge of `ms`. */
  predicate IsOperand(t: Token, ms: seq<Merge>) {
    exists i :: 0 <= i < |ms| && (ms[i].left == t || ms[i].right == t)
  }

  /** The operands of `m` missing from `known`, as the source lists them. */
  function Missing(m: Merge, known: set<Token>): seq<Token> {
    (if m.left !in known then [m.left] else []) + (if m.right !in known then [m.right] else [])
  }

  /** One iteration of the scan, without the stop test. */
  function Scan(st: ScanState, m: Merge): ScanState {
    if m.left in st.known && m.right in st.known then
      ScanState(st.known + {m.Merged()}, st.accepted + [m], st.skipped)
    else
      ScanState(st.known, st.accepted, st.skipped + [Skipped(m, Missing(m, st.known))])
  }

  /** The scan state after the first `k` merges of `ms`. */
  function FilterState(ms: seq<Merge>, k: nat): ScanState
    requires k <= |ms|
  {
    if k == 0 then ScanState(AtomicOperands(ms), [], [])
    else Scan(FilterState(ms, k - 1), ms[k - 1])
  }

  /** Whether the scan accepts the `k`-th merge. */
  predicate AcceptsAt(ms: seq<Merge>, k: nat)
    requires k < |ms|
  {
    var known := FilterState(ms, k).known;
    ms[k].left in known && ms[k].right in known
  }

  /** train.py's `filter_merges`. The result is the scan state after some
      prefix of `ms`: the whole list, unless the `n`-th acceptance came
      first, in which case the scan ends right after it. For `n <= 0` the
      length test never succeeds and the whole list is scanned. */
  method FilterMerges(ms: seq<Merge>, n: int) returns (accepted: seq<Merge>, skipped: seq<Skipped>)
    ensures exists k :: (
      && 0 <= k <= |ms|
      && accepted == FilterState(ms, k).accepted
      && skipped == FilterState(ms, k).skipped
      && (k < |ms| ==> n >= 1 && |accepted| == n)
      && (n >= 1 ==> forall j :: 0 <= j < k ==> |FilterState(ms, j).accepted| < n))
    ensures n >= 1 ==> |accepted| <= n
    ensures n <= 0 ==> accepted == FilterState(ms, |ms|).accepted && skipped == FilterState(ms, |ms|).skipped
  {
    var known := AtomicOperands(ms);
    accepted := [];
    skipped := [];
    var i := 0;
    while i < |ms|
      invariant 0 <= i <= |ms|
      invariant FilterState(ms, i) == ScanState(known, accepted, skipped)
      invariant n >= 1 ==> forall j :: 0 <= j <= i ==> |FilterState(ms, j).accepted| < n
    {
      var a := ms[i].left;
      var b := ms[i].right;
      assert FilterState(ms, i + 1) == Scan(ScanState(known, accepted, skipped), ms[i]);
      if a in known && b in known {
        accepted := accepted + [ms[i]];
        known := known + {a + b};
        if |accepted| == n {
          assert FilterState(ms, i + 1) == ScanState(known, accepted, skipped);
          return;
        }
      } else {
        var reason: seq<Token> := [];
        if a !in known {
          reason := reason + [a];
        }
        if b !in known {
          reason := reason + [b];
        }
        assert reason == Missing(ms[i], known);
        skipped := skipped + [Skipped(ms[i], reason)];
      }
      i := i + 1;
    }
  }

  /** The initial known set holds exactly the atomic tokens used as an
      operand somewhere in the table. */
  lemma {:induction false} AtomicOperandsIff(ms: seq<Merge>, t: Token)
    ensures t in AtomicOperands(ms) <==> IsAtomic(t) && IsOperand(t, ms)
  {
    if |ms| > 0 {
      AtomicOperandsIff(ms[1..], t);
      if IsOperand(t, ms) && !(ms[0].left == t || ms[0].right == t) {
        var i :| 0 <= i < |ms| && (ms[i].left == t || ms[i].right == t);
        assert i > 0 && ms[1..][i - 1] == ms[i];
      }
      if IsOperand(t, ms[1..]) {
        var i :| 0 <= i < |ms[1..]| && (ms[1..][i].left == t || ms[1..][i].right == t);
        assert ms[i + 1] == ms[1..][i];
      }
    }
  }

  /** `t` is atomic and used in `ms`, or it is the merged token of one of the
      first `i` accepted merges. */
  ghost predicate Available(t: Token, ms: seq<Merge>, acc: seq<Merge>, i: nat) {
    t in AtomicOperands(ms) || exists j :: 0 <= j < i && j < |acc| && acc[j].Merged() == t
  }

  /** `t` is available from all of `acc`. */
  ghost predicate KnownFrom(t: Token, ms: seq<Merge>, acc: seq<Merge>) {
    Available(t, ms, acc, |acc|)
  }

  /** Every operand of every accepted merge is available from the atomic
      operands and the earlier accepted merges: the accepted list can be
      built bottom-up. */
  ghost predicate BottomUp(ms: seq<Merge>, acc: seq<Merge>) {
    forall i :: 0 <= i < |acc| ==> Available(acc[i].left, ms, acc, i) && Available(acc[i].right, ms, acc, i)
  }

  /** The known set after `k` merges is exactly the atomic operands plus the
      merged tokens of the accepted merges, and the accepted merges can be
      built bottom-up. */
  lemma {:induction false} FilterKnown(ms: seq<Merge>, k: nat)
    requires k <= |ms|
    ensures forall t :: t in FilterState(ms, k).known <==> KnownFrom(t, ms, FilterState(ms, k).accepted)
    ensures BottomUp(ms, FilterState(ms, k).accepted)
  {
    if k > 0 {
      FilterKnown(ms, k - 1);
      var pre := FilterState(ms, k - 1);
      var st := FilterState(ms, k);
      var m := ms[k - 1];
      if m.left in pre.known && m.right in pre.known {
        assert st.accepted == pre.accepted + [m];
        forall t ensures t in st.known <==> KnownFrom(t, ms, st.accepted) {
          AvailableSnoc(t, ms, pre.accepted, m);
        }
        assert KnownFrom(m.left, ms, pre.accepted) && KnownFrom(m.right, ms, pre.accepted);
        forall i | 0 <= i < |st.accepted|
          ensures Available(st.accepted[i].left, ms, st.accepted, i)
          ensures Available(st.accepted[i].right, ms, st.accepted, i)
        {
          if i < |pre.accepted| {
            assert st.accepted[i] == pre.accepted[i];
            AvailableExtend(st.accepted[i].left, ms, pre.accepted, st.accepted, i);
            AvailableExtend(st.accepted[i].right, ms, pre.accepted, st.accepted, i);
          } else {
            assert st.accepted[i] == m;
            AvailableExtend(m.left, ms, pre.accepted, st.accepted, i);
            AvailableExtend(m.right, ms, pre.accepted, st.accepted, i);
          }
        }
      }
    }
  }

  lemma AvailableSnoc(t: Token, ms: seq<Merge>, pre: seq<Merge>, m: Merge)
    ensures Available(t, ms, pre + [m], |pre| + 1) <==> Available(t, ms, pre, |pre|) || t == m.Merged()
  {
    var acc := pre + [m];
    if Available(t, ms, pre, |pre|) && t !in AtomicOperands(ms) {
      var j :| 0 <= j < |pre| && j < |pre| && pre[j].Merged() == t;
      assert acc[j] == pre[j];
    }
    if t == m.Merged() {
      assert acc[|pre|] == m;
    }
    if Available(t, ms, acc, |acc|) && t !in AtomicOperands(ms) && t != m.Merged() {
      var j :| 0 <= j < |acc| && j < |acc| && acc[j].Merged() == t;
      assert j < |pre| && pre[j] == acc[j];
    }
  }

  lemma AvailableExtend(t: Token, ms: seq<Merge>, pre: seq<Merge>, acc: seq<Merge>, i: nat)
    requires i <= |pre| <= |acc| && acc[..|pre|] == pre
    requires Available(t, ms, pre, i)
    ensures Available(t, ms, acc, i)
  {
    if t !in AtomicOperands(ms) {
      var j :| 0 <= j < i && j < |pre| && pre[j].Merged() == t;
      assert acc[j] == acc[..|pre|][j];
    }
  }

  /** `a` occurs in `b` in order, not necessarily contiguously. */
  ghost predicate IsSubsequence<T>(a: seq<T>, b: seq<T>) {
    exists idx: seq<int> :: Embeds(idx, a, b)
  }

  ghost predicate Embeds<T>(idx: seq<int>, a: seq<T>, b: seq<T>) {
    && |idx| == |a|
    && (forall i :: 0 <= i < |idx| ==> 0 <= idx[i] < |b| && b[idx[i]] == a[i])
    && (forall i, j :: 0 <= i < j < |idx| ==> idx[i] < idx[j])
  }

  function SkippedMerges(sk: seq<Skipped>): seq<Merge> {
    seq(|sk|, i requires 0 <= i < |sk| => sk[i].merge)
  }

  lemma EmbedsSnoc<T>(idx: seq<int>, a: seq<T>, b: seq<T>, x: T)
    requires Embeds(idx, a, b)
    ensures Embeds(idx + [|b|], a + [x], b + [x])
  {
    var idx' := idx + [|b|];
    forall i | 0 <= i < |idx'| ensures 0 <= idx'[i] < |b + [x]| && (b + [x])[idx'[i]] == (a + [x])[i] {
      if i < |idx| {
        assert idx'[i] == idx[i];
      }
    }
  }

  lemma EmbedsExtend<T>(idx: seq<int>, a: seq<T>, b: seq<T>, x: T)
    requires Embeds(idx, a, b)
    ensures Embeds(idx, a, b + [x])
  {
    forall i | 0 <= i < |idx| ensures (b + [x])[idx[i]] == a[i] {
    }
  }

  /** The merges among the first `k` whose acceptance test gives
      `accept`, in scan order. */
  function ScannedWhere(ms: seq<Merge>, k: nat, accept: bool): seq<Merge>
    requires k <= |ms|
  {
    if k == 0 then []
    else ScannedWhere(ms, k - 1, accept) + (if AcceptsAt(ms, k - 1) == accept then [ms[k - 1]] else [])
  }

  /** After `k` merges the accepted ones are exactly the scanned merges
      whose operands were known when they were reached and the skipped ones
      exactly the others, each in scan order: every scanned position lands
      in exactly one of the two lists. */
  lemma {:induction false} FilterPartition(ms: seq<Merge>, k: nat)
    requires k <= |ms|
    ensures FilterState(ms, k).accepted == ScannedWhere(ms, k, true)
    ensures SkippedMerges(FilterState(ms, k).skipped) == ScannedWhere(ms, k, false)
  {
    if k > 0 {
      FilterPartition(ms, k - 1);
      var pre := FilterState(ms, k - 1);
      var st := FilterState(ms, k);
      if AcceptsAt(ms, k - 1) {
        assert st.accepted == pre.accepted + [ms[k - 1]];
        assert SkippedMerges(st.skipped) == SkippedMerges(pre.skipped);
      } else {
        assert st.accepted == pre.accepted;
        assert SkippedMerges(st.skipped) == SkippedMerges(pre.skipped) + [ms[k - 1]];
      }
    }
  }

  /** After `k` merges the accepted and the skipped merges are both
      subsequences of the scanned prefix, and together they account for
      every scanned merge. */
  lemma {:induction false} FilterSubsequence(ms: seq<Merge>, k: nat)
    requires k <= |ms|
    ensures IsSubsequence(FilterState(ms, k).accepted, ms[..k])
    ensures IsSubsequence(SkippedMerges(FilterState(ms, k).skipped), ms[..k])
    ensures |FilterState(ms, k).accepted| + |FilterState(ms, k).skipped| == k
  {
    if k == 0 {
      assert Embeds([], FilterState(ms, k).accepted, ms[..k]);
      assert Embeds([], SkippedMerges(FilterState(ms, k).skipped), ms[..k]);
    } else {
      FilterSubsequence(ms, k - 1);
      var pre := FilterState(ms, k - 1);
      var st := FilterState(ms, k);
      var m := ms[k - 1];
      assert ms[..k] == ms[..k - 1] + [m];
      var ia :| Embeds(ia, pre.accepted, ms[..k - 1]);
      var isk :| Embeds(isk, SkippedMerges(pre.skipped), ms[..k - 1]);
      if m.left in pre.known && m.right in pre.known {
        EmbedsSnoc(ia, pre.accepted, ms[..k - 1], m);
        EmbedsExtend(isk, SkippedMerges(pre.skipped), ms[..k - 1], m);
        assert SkippedMerges(st.skipped) == SkippedMerges(pre.skipped);
      } else {
        EmbedsExtend(ia, pre.accepted, ms[..k - 1], m);
        EmbedsSnoc(isk, SkippedMerges(pre.skipped), ms[..k - 1], m);
        assert SkippedMerges(st.skipped) == SkippedMerges(pre.skipped) + [m];
      }
    }
  }

  /** A scanned merge is skipped exactly when an operand is unknown at that
      point, and then it is recorded with exactly its unknown operands, so
      never with an empty reason list. */
  lemma ScanSkipReasons(st: ScanState, m: Merge)
    ensures |Scan(st, m).accepted| == |st.accepted| + 1 <==> m.left in st.known && m.right in st.known
    ensures |Scan(st, m).skipped| == |st.skipped| + 1 <==> !(m.left in st.known && m.right in st.known)
    ensures |Scan(st, m).skipped| == |st.skipped| + 1 ==>
      var r := Scan(st, m).skipped[|st.skipped|];
      && r.merge == m
      && |r.missing| >= 1
      && forall t :: t in r.missing <==> (t == m.left || t == m.right) && t !in st.known
  {
  }
}
