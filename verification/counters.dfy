/** Insertion-ordered counters: the behaviour of Python's `Counter` and
    `defaultdict(int)` as the merge engine uses them. A counter is a list of
    entries in first-insertion order; `c[k] += n` updates the first entry with
    key `k` in place, or appends a new entry at the end. */
module Counters {

  datatype Entry<K> = Entry(key: K, count: nat)

  type Counter<K> = seq<Entry<K>>

  /** Every key occurs at most once (true of every dict). */
  ghost predicate Distinct<K(!new)>(c: Counter<K>) {
    forall i, j :: 0 <= i < j < |c| ==> c[i].key != c[j].key
  }

  /** Every stored multiplicity is positive. */
  ghost predicate Positive<K(!new)>(c: Counter<K>) {
    forall i :: 0 <= i < |c| ==> c[i].count > 0
  }

  predicate HasKey<K(==,!new)>(c: Counter<K>, k: K) {
    exists i :: 0 <= i < |c| && c[i].key == k
  }

  /** `c[k]` on a Counter: the stored count, or 0 for a missing key. */
  function Get<K(==,!new)>(c: Counter<K>, k: K): nat {
    if |c| == 0 then 0
    else if c[0].key == k then c[0].count
    else Get(c[1..], k)
  }

  /** Sum of all multiplicities. */
  function Total<K(==,!new)>(c: Counter<K>): nat {
    if |c| == 0 then 0 else c[0].count + Total(c[1..])
  }

  /** Sum over entries of multiplicity times a per-key weight. */
  function WeightedSum<K(==,!new)>(c: Counter<K>, g: K -> int): int {
    if |c| == 0 then 0 else c[0].count * g(c[0].key) + WeightedSum(c[1..], g)
  }

  /** Sum of the multiplicities of the entries whose key `f` sends to `k`. */
  function SumWhere<K(==,!new)>(c: Counter<K>, f: K -> K, k: K): nat {
    if |c| == 0 then 0
    else (if f(c[0].key) == k then c[0].count else 0) + SumWhere(c[1..], f, k)
  }

  /** `c[k] += n`. */
  function Add<K(==,!new)>(c: Counter<K>, k: K, n: nat): (r: Counter<K>)
    ensures Get(r, k) == Get(c, k) + n
    ensures forall k' :: k' != k ==> Get(r, k') == Get(c, k')
    ensures Total(r) == Total(c) + n
    ensures HasKey(r, k)
    ensures forall k' :: HasKey(r, k') <==> HasKey(c, k') || k' == k
  {
    if |c| == 0 then [Entry(k, n)]
    else if c[0].key == k then [Entry(k, c[0].count + n)] + c[1..]
    else
      var rest := Add(c[1..], k, n);
      HasKeyCons(c[0], rest);
      HasKeyCons(c[0], c[1..]);
      assert c == [c[0]] + c[1..];
      [c[0]] + rest
  }

  lemma HasKeyCons<K(!new)>(e: Entry<K>, c: Counter<K>)
    ensures forall k :: HasKey([e] + c, k) <==> e.key == k || HasKey(c, k)
  {
    forall k ensures HasKey([e] + c, k) <==> e.key == k || HasKey(c, k) {
      if e.key == k {
        assert ([e] + c)[0].key == k;
      }
      if HasKey(c, k) {
        var i :| 0 <= i < |c| && c[i].key == k;
        assert ([e] + c)[i + 1].key == k;
      }
      if HasKey([e] + c, k) {
        var i :| 0 <= i < |[e] + c| && ([e] + c)[i].key == k;
        if i > 0 {
          assert c[i - 1] == ([e] + c)[i];
        }
      }
    }
  }

  lemma {:induction false} GetMissing<K(!new)>(c: Counter<K>, k: K)
    requires !HasKey(c, k)
    ensures Get(c, k) == 0
  {
    if |c| > 0 {
      HasKeyCons(c[0], c[1..]);
      assert c == [c[0]] + c[1..];
      GetMissing(c[1..], k);
    }
  }

  /** With distinct keys, `c[k]` reads the one entry stored under `k`. */
  lemma {:induction false} GetEntry<K(!new)>(c: Counter<K>, i: nat)
    requires Distinct(c) && i < |c|
    ensures Get(c, c[i].key) == c[i].count
  {
    if i > 0 {
      assert c[0].key != c[i].key;
      assert c[1..][i - 1] == c[i];
      GetEntry(c[1..], i - 1);
    }
  }

  /** Adding to a key that is present changes no key and no position. */
  lemma {:induction false} AddPresent<K(!new)>(c: Counter<K>, k: K, n: nat)
    requires HasKey(c, k)
    ensures |Add(c, k, n)| == |c|
    ensures forall i :: 0 <= i < |c| ==> Add(c, k, n)[i].key == c[i].key
  {
    if c[0].key != k {
      HasKeyCons(c[0], c[1..]);
      assert c == [c[0]] + c[1..];
      AddPresent(c[1..], k, n);
      var r := Add(c, k, n);
      assert r == [c[0]] + Add(c[1..], k, n);
      forall i | 0 <= i < |c| ensures r[i].key == c[i].key {
        if i > 0 {
          assert r[i] == Add(c[1..], k, n)[i - 1];
          assert c[i] == c[1..][i - 1];
        }
      }
    }
  }

  /** Adding a key that is not yet present appends one entry. */
  lemma {:induction false} AddFresh<K(!new)>(c: Counter<K>, k: K, n: nat)
    requires !HasKey(c, k)
    ensures Add(c, k, n) == c + [Entry(k, n)]
  {
    if |c| > 0 {
      HasKeyCons(c[0], c[1..]);
      assert c == [c[0]] + c[1..];
      AddFresh(c[1..], k, n);
    }
  }

  /** The position of the first occurrence of `k` in `s`, or `|s|` when
      there is none. */
  function FirstAt<K(==)>(s: seq<K>, k: K): (i: nat)
    ensures i <= |s|
    ensures i < |s| <==> k in s
    ensures i < |s| ==> s[i] == k
    ensures k !in s[..i]
  {
    if |s| == 0 then 0
    else if s[0] == k then 0
    else
      var i := FirstAt(s[1..], k);
      assert s[..i + 1] == [s[0]] + s[1..][..i];
      i + 1
  }

  lemma FirstAtSnoc<K>(s: seq<K>, x: K, k: K)
    requires k in s || k == x
    ensures FirstAt(s + [x], k) == if k in s then FirstAt(s, k) else |s|
  {
    var s' := s + [x];
    var p := FirstAt(s, k);
    assert s'[..|s|] == s;
    if k in s {
      assert s'[p] == k;
    } else {
      assert s'[|s|] == k;
    }
  }

  /** The keys of `c` appear in the order of their first occurrence in `s`. */
  predicate FirstOrder<K(==)>(c: Counter<K>, s: seq<K>) {
    forall i, j :: 0 <= i < j < |c| ==> FirstAt(s, c[i].key) < FirstAt(s, c[j].key)
  }

  /** The keys of `c` are exactly the elements of `s`. */
  ghost predicate KeysFrom<K(!new)>(c: Counter<K>, s: seq<K>) {
    forall k :: HasKey(c, k) <==> k in s
  }

  lemma OrderSameKeys<K>(c0: Counter<K>, c: Counter<K>, s: seq<K>)
    requires FirstOrder(c0, s)
    requires |c| == |c0| && forall i :: 0 <= i < |c0| ==> c[i].key == c0[i].key
    ensures FirstOrder(c, s)
  {
    forall i, j | 0 <= i < j < |c| ensures FirstAt(s, c[i].key) < FirstAt(s, c[j].key) {
      assert c[i].key == c0[i].key && c[j].key == c0[j].key;
    }
  }

  lemma OrderAppend<K>(c0: Counter<K>, e: Entry<K>, s: seq<K>)
    requires FirstOrder(c0, s)
    requires forall k :: 0 <= k < |c0| ==> FirstAt(s, c0[k].key) < FirstAt(s, e.key)
    ensures FirstOrder(c0 + [e], s)
  {
    var c := c0 + [e];
    forall i, j | 0 <= i < j < |c| ensures FirstAt(s, c[i].key) < FirstAt(s, c[j].key) {
      assert c[i] == c0[i];
      if j < |c0| {
        assert c[j] == c0[j];
      }
    }
  }

  /** Counting one more occurrence of `x` keeps the counter's keys in
      first-occurrence order of the extended stream of keys. */
  lemma AddInOrder<K(!new)>(c: Counter<K>, s: seq<K>, x: K, n: nat)
    requires FirstOrder(c, s) && KeysFrom(c, s)
    ensures FirstOrder(Add(c, x, n), s + [x])
    ensures KeysFrom(Add(c, x, n), s + [x])
  {
    forall k | 0 <= k < |c| ensures FirstAt(s + [x], c[k].key) == FirstAt(s, c[k].key) < |s| {
      assert HasKey(c, c[k].key);
      FirstAtSnoc(s, x, c[k].key);
    }
    if HasKey(c, x) {
      AddPresent(c, x, n);
      OrderSameKeys(c, Add(c, x, n), s + [x]);
    } else {
      AddFresh(c, x, n);
      FirstAtSnoc(s, x, x);
      OrderAppend(c, Entry(x, n), s + [x]);
    }
    forall k ensures HasKey(Add(c, x, n), k) <==> k in s + [x] {
      assert k in s + [x] <==> k in s || k == x;
    }
  }

  lemma {:induction false} AddDistinct<K(!new)>(c: Counter<K>, k: K, n: nat)
    requires Distinct(c)
    ensures Distinct(Add(c, k, n))
  {
    if |c| > 0 && c[0].key != k {
      AddDistinct(c[1..], k, n);
      var rest := Add(c[1..], k, n);
      assert !HasKey(c[1..], c[0].key) by {
        forall i | 0 <= i < |c[1..]| ensures c[1..][i].key != c[0].key {
          assert c[1..][i] == c[i + 1];
        }
      }
      assert !HasKey(rest, c[0].key);
      assert forall j :: 0 <= j < |rest| ==> rest[j].key != c[0].key;
    }
  }

  lemma {:induction false} AddPositive<K(!new)>(c: Counter<K>, k: K, n: nat)
    requires Positive(c) && n > 0
    ensures Positive(Add(c, k, n))
  {
    if |c| > 0 && c[0].key != k {
      AddPositive(c[1..], k, n);
    }
  }

  /** `Counter(s)`: every element of `s` counted once, keys in
      first-occurrence order. */
  function Tally<K(==,!new)>(s: seq<K>): Counter<K> {
    if |s| == 0 then [] else Add(Tally(s[..|s| - 1]), s[|s| - 1], 1)
  }

  /** A tally stores each element once, with its number of occurrences. */
  lemma {:induction false} TallySpec<K(!new)>(s: seq<K>)
    ensures Distinct(Tally(s)) && Positive(Tally(s))
    ensures Total(Tally(s)) == |s|
    ensures forall k :: Get(Tally(s), k) == multiset(s)[k]
    ensures KeysFrom(Tally(s), s)
  {
    if |s| > 0 {
      var prefix := s[..|s| - 1];
      var x := s[|s| - 1];
      var c := Tally(prefix);
      assert Tally(s) == Add(c, x, 1);
      assert s == prefix + [x];
      TallySpec(prefix);
      AddDistinct(c, x, 1);
      AddPositive(c, x, 1);
      forall k ensures Get(Tally(s), k) == multiset(s)[k] && (HasKey(Tally(s), k) <==> k in s) {
        assert multiset(s) == multiset(prefix) + multiset{x};
        assert k in s <==> k in prefix || k == x;
      }
    }
  }

  /** A tally lists its keys in the order of their first occurrence. */
  lemma {:induction false} TallyOrder<K(!new)>(s: seq<K>)
    ensures FirstOrder(Tally(s), s)
  {
    if |s| > 0 {
      var prefix := s[..|s| - 1];
      var x := s[|s| - 1];
      var c := Tally(prefix);
      assert Tally(s) == Add(c, x, 1);
      assert s == prefix + [x];
      TallyOrder(prefix);
      TallySpec(prefix);
      AddInOrder(c, prefix, x, 1);
    }
  }

  lemma {:induction false} AddWeighted<K(!new)>(c: Counter<K>, k: K, n: nat, g: K -> int)
    ensures WeightedSum(Add(c, k, n), g) == WeightedSum(c, g) + n * g(k)
  {
    if |c| == 0 {
    } else if c[0].key == k {
      var r := Add(c, k, n);
      assert r[1..] == c[1..];
      calc {
        WeightedSum(r, g);
        (c[0].count + n) * g(k) + WeightedSum(c[1..], g);
        { assert (c[0].count + n) * g(k) == c[0].count * g(k) + n * g(k); }
        WeightedSum(c, g) + n * g(k);
      }
    } else {
      AddWeighted(c[1..], k, n, g);
      var r := Add(c, k, n);
      assert r[1..] == Add(c[1..], k, n);
    }
  }

  /** Re-key every entry of `c` through `f` into the accumulator `acc`,
      combining the counts of keys that coincide: the loop
      `for key, count in c.items(): acc[f(key)] += count`. */
  function RegroupInto<K(==,!new)>(acc: Counter<K>, c: Counter<K>, f: K -> K): Counter<K>
    decreases |c|
  {
    if |c| == 0 then acc
    else RegroupInto(Add(acc, f(c[0].key), c[0].count), c[1..], f)
  }

  /** A fresh counter holding `c` re-keyed through `f`. */
  function Regroup<K(==,!new)>(c: Counter<K>, f: K -> K): (r: Counter<K>)
    ensures Total(r) == Total(c)
    ensures Distinct(r)
    ensures Positive(c) ==> Positive(r)
    ensures forall k :: Get(r, k) == SumWhere(c, f, k)
    ensures forall k :: HasKey(r, k) <==> InImage(c, f, k)
  {
    RegroupKeys([], c, f);
    RegroupTotal([], c, f);
    RegroupDistinct([], c, f);
    assert Positive(c) ==> Positive(RegroupInto([], c, f)) by {
      if Positive(c) { RegroupPositive([], c, f); }
    }
    assert forall k :: Get(RegroupInto([], c, f), k) == SumWhere(c, f, k) by {
      forall k ensures Get(RegroupInto([], c, f), k) == SumWhere(c, f, k) {
        RegroupGet([], c, f, k);
      }
    }
    RegroupInto([], c, f)
  }

  lemma {:induction false} RegroupTotal<K(!new)>(acc: Counter<K>, c: Counter<K>, f: K -> K)
    ensures Total(RegroupInto(acc, c, f)) == Total(acc) + Total(c)
    decreases |c|
  {
    if |c| > 0 {
      RegroupTotal(Add(acc, f(c[0].key), c[0].count), c[1..], f);
    }
  }

  lemma {:induction false} RegroupDistinct<K(!new)>(acc: Counter<K>, c: Counter<K>, f: K -> K)
    requires Distinct(acc)
    ensures Distinct(RegroupInto(acc, c, f))
    decreases |c|
  {
    if |c| > 0 {
      AddDistinct(acc, f(c[0].key), c[0].count);
      RegroupDistinct(Add(acc, f(c[0].key), c[0].count), c[1..], f);
    }
  }

  lemma {:induction false} RegroupPositive<K(!new)>(acc: Counter<K>, c: Counter<K>, f: K -> K)
    requires Positive(acc) && Positive(c)
    ensures Positive(RegroupInto(acc, c, f))
    decreases |c|
  {
    if |c| > 0 {
      AddPositive(acc, f(c[0].key), c[0].count);
      RegroupPositive(Add(acc, f(c[0].key), c[0].count), c[1..], f);
    }
  }

  lemma {:induction false} RegroupGet<K(!new)>(acc: Counter<K>, c: Counter<K>, f: K -> K, k: K)
    ensures Get(RegroupInto(acc, c, f), k) == Get(acc, k) + SumWhere(c, f, k)
    decreases |c|
  {
    if |c| > 0 {
      RegroupGet(Add(acc, f(c[0].key), c[0].count), c[1..], f, k);
    }
  }

  /** Some key of `c` is sent to `k` by `f`. */
  ghost predicate InImage<K(!new)>(c: Counter<K>, f: K -> K, k: K) {
    exists i :: 0 <= i < |c| && f(c[i].key) == k
  }

  lemma InImageCons<K(!new)>(c: Counter<K>, f: K -> K)
    requires |c| > 0
    ensures forall k :: InImage(c, f, k) <==> f(c[0].key) == k || InImage(c[1..], f, k)
  {
    forall k ensures InImage(c, f, k) <==> f(c[0].key) == k || InImage(c[1..], f, k) {
      if InImage(c, f, k) {
        var i :| 0 <= i < |c| && f(c[i].key) == k;
        if i > 0 {
          assert f(c[1..][i - 1].key) == k;
        }
      }
      if InImage(c[1..], f, k) {
        var i :| 0 <= i < |c[1..]| && f(c[1..][i].key) == k;
        assert f(c[i + 1].key) == k;
      }
    }
  }

  lemma {:induction false} RegroupKeys<K(!new)>(acc: Counter<K>, c: Counter<K>, f: K -> K)
    ensures forall k :: HasKey(RegroupInto(acc, c, f), k) <==> HasKey(acc, k) || InImage(c, f, k)
    decreases |c|
  {
    if |c| > 0 {
      var acc' := Add(acc, f(c[0].key), c[0].count);
      RegroupKeys(acc', c[1..], f);
      InImageCons(c, f);
    }
  }

  /** Re-keying carries weights along: if `h` is `g` after `f` on every key,
      the weighted sum of the regrouped counter through `g` is that of the
      original through `h`. */
  lemma {:induction false} RegroupWeighted<K(!new)>(acc: Counter<K>, c: Counter<K>, f: K -> K, g: K -> int, h: K -> int)
    requires forall k :: h(k) == g(f(k))
    ensures WeightedSum(RegroupInto(acc, c, f), g) == WeightedSum(acc, g) + WeightedSum(c, h)
    decreases |c|
  {
    if |c| > 0 {
      AddWeighted(acc, f(c[0].key), c[0].count, g);
      RegroupWeighted(Add(acc, f(c[0].key), c[0].count), c[1..], f, g, h);
    }
  }

  /** Weighted sums are linear in the weight. */
  lemma {:induction false} WeightedSumLinear<K(!new)>(c: Counter<K>, g: K -> int, h: K -> int, d: K -> int)
    requires forall k :: d(k) == g(k) - h(k)
    ensures WeightedSum(c, d) == WeightedSum(c, g) - WeightedSum(c, h)
  {
    if |c| > 0 {
      WeightedSumLinear(c[1..], g, h, d);
      assert c[0].count * d(c[0].key) == c[0].count * g(c[0].key) - c[0].count * h(c[0].key);
    }
  }

  lemma {:induction false} WeightedSumNonNegative<K(!new)>(c: Counter<K>, g: K -> int)
    requires forall k :: g(k) >= 0
    ensures WeightedSum(c, g) >= 0
  {
    if |c| > 0 {
      WeightedSumNonNegative(c[1..], g);
    }
  }

  lemma {:induction false} WeightedSumMonotone<K(!new)>(c: Counter<K>, g: K -> int, h: K -> int)
    requires forall k :: g(k) <= h(k)
    ensures WeightedSum(c, g) <= WeightedSum(c, h)
  {
    if |c| > 0 {
      WeightedSumMonotone(c[1..], g, h);
      assert c[0].count * g(c[0].key) <= c[0].count * h(c[0].key);
    }
  }

  /** Weights that agree on the keys of `c` give the same weighted sum. */
  lemma {:induction false} WeightedSumOnKeys<K(!new)>(c: Counter<K>, g: K -> int, h: K -> int)
    requires forall i :: 0 <= i < |c| ==> g(c[i].key) == h(c[i].key)
    ensures WeightedSum(c, g) == WeightedSum(c, h)
  {
    if |c| > 0 {
      assert g(c[0].key) == h(c[0].key);
      WeightedSumOnKeys(c[1..], g, h);
    }
  }

  /** `c` with every key sent through `f`, order and counts kept. */
  function MapKeys<K(==,!new)>(c: Counter<K>, f: K -> K): (r: Counter<K>)
    ensures |r| == |c|
    ensures forall i :: 0 <= i < |c| ==> r[i] == Entry(f(c[i].key), c[i].count)
  {
    if |c| == 0 then [] else [Entry(f(c[0].key), c[0].count)] + MapKeys(c[1..], f)
  }

  /** When `f` sends the keys of `c` to pairwise different keys not yet in
      the accumulator, regrouping combines nothing: every entry is re-keyed in
      place and appended in order. */
  lemma {:induction false} RegroupInjective<K(!new)>(acc: Counter<K>, c: Counter<K>, f: K -> K)
    requires forall i, j :: 0 <= i < j < |c| ==> f(c[i].key) != f(c[j].key)
    requires forall i :: 0 <= i < |c| ==> !HasKey(acc, f(c[i].key))
    ensures RegroupInto(acc, c, f) == acc + MapKeys(c, f)
    decreases |c|
  {
    if |c| > 0 {
      var k := f(c[0].key);
      AddFresh(acc, k, c[0].count);
      var acc' := acc + [Entry(k, c[0].count)];
      var tail := c[1..];
      assert forall i :: 0 <= i < |tail| ==> tail[i] == c[i + 1];
      forall i | 0 <= i < |tail| ensures !HasKey(acc', f(tail[i].key)) {
        HasKeyAppend(acc, Entry(k, c[0].count), f(tail[i].key));
        assert f(c[0].key) != f(c[i + 1].key);
      }
      forall i, j | 0 <= i < j < |tail| ensures f(tail[i].key) != f(tail[j].key) {
        assert f(c[i + 1].key) != f(c[j + 1].key);
      }
      RegroupInjective(acc', tail, f);
      assert MapKeys(c, f) == [Entry(k, c[0].count)] + MapKeys(tail, f);
      AppendAssoc(acc, [Entry(k, c[0].count)], MapKeys(tail, f));
    }
  }

  lemma AppendAssoc<T>(a: seq<T>, b: seq<T>, c: seq<T>)
    ensures a + b + c == a + (b + c)
  {
  }

  lemma HasKeyAppend<K(!new)>(c: Counter<K>, e: Entry<K>, k: K)
    ensures HasKey(c + [e], k) <==> HasKey(c, k) || e.key == k
  {
    if HasKey(c, k) {
      var i :| 0 <= i < |c| && c[i].key == k;
      assert (c + [e])[i].key == k;
    }
    if HasKey(c + [e], k) {
      var i :| 0 <= i < |c + [e]| && (c + [e])[i].key == k;
      if i < |c| {
        assert c[i] == (c + [e])[i];
      }
    }
    if e.key == k {
      assert (c + [e])[|c|].key == k;
    }
  }

  /** Re-keying through `f` and then `g` where `g` undoes `f` on every key
      gives the counter back. */
  lemma {:induction false} MapKeysInverse<K(!new)>(c: Counter<K>, f: K -> K, g: K -> K)
    requires forall i :: 0 <= i < |c| ==> g(f(c[i].key)) == c[i].key
    ensures MapKeys(MapKeys(c, f), g) == c
  {
  }
}
