/** Writing the final table out (train.py's `flatten_from_counts`): every
    word type contributes its tokens other than the end-of-word marker, as
    many times as its multiplicity, and the tokens are joined by spaces. */
module Flatten {
  import opened Counters
  import opened Tokens
  import opened Serialization

  /** The tokens of a word type without end-of-word markers. */
  function WithoutMarker(w: Word): (r: Word)
    ensures |r| <= |w|
    ensures forall t :: t in r <==> t in w && t != EndOfWord
  {
    if |w| == 0 then []
    else
      var rest := WithoutMarker(w[1..]);
      assert forall t :: t in w <==> t == w[0] || t in w[1..];
      (if w[0] != EndOfWord then [w[0]] else []) + rest
  }

  /** `n` copies of `w`, one after the other. */
  function Repeat(w: Word, n: nat): (r: Word)
    ensures |r| == n * |w|
    ensures forall x :: x in r ==> x in w
  {
    if n == 0 then [] else w + Repeat(w, n - 1)
  }

  /** The final tokens in table order. */
  function FlattenTokens(t: Table): Word {
    if |t| == 0 then [] else Repeat(WithoutMarker(t[0].key), t[0].count) + FlattenTokens(t[1..])
  }

  /** The final text. */
  function FlattenFromCounts(t: Table): string {
    Join(FlattenTokens(t), ' ')
  }

  /** Number of tokens other than the marker. */
  function MarkerFreeLength(w: Word): int {
    |WithoutMarker(w)|
  }

  /** Number of copies of `tok` in `w`. */
  function CopiesOf(w: Word, tok: Token): nat {
    multiset(w)[tok]
  }

  function CopiesFn(tok: Token): Word -> int {
    w => CopiesOf(w, tok)
  }

  lemma {:induction false} RepeatMultiset(w: Word, n: nat, tok: Token)
    ensures multiset(Repeat(w, n))[tok] == n * multiset(w)[tok]
  {
    if n > 0 {
      RepeatMultiset(w, n - 1, tok);
      assert n * multiset(w)[tok] == multiset(w)[tok] + (n - 1) * multiset(w)[tok];
    }
  }

  lemma {:induction false} WithoutMarkerMultiset(w: Word, tok: Token)
    requires tok != EndOfWord
    ensures multiset(WithoutMarker(w))[tok] == multiset(w)[tok]
  {
    if |w| > 0 {
      WithoutMarkerMultiset(w[1..], tok);
      assert w == [w[0]] + w[1..];
    }
  }

  /** The stream holds every token other than the marker as often as the
      table does, weighted by multiplicity. */
  lemma {:induction false} FlattenMultiset(t: Table, tok: Token)
    requires tok != EndOfWord
    ensures multiset(FlattenTokens(t))[tok] == WeightedSum(t, CopiesFn(tok))
  {
    if |t| > 0 {
      FlattenMultiset(t[1..], tok);
      RepeatMultiset(WithoutMarker(t[0].key), t[0].count, tok);
      WithoutMarkerMultiset(t[0].key, tok);
    }
  }

  /** The stream holds no marker. */
  lemma {:induction false} FlattenNoMarker(t: Table)
    ensures EndOfWord !in FlattenTokens(t)
  {
    if |t| > 0 {
      FlattenNoMarker(t[1..]);
      var r := Repeat(WithoutMarker(t[0].key), t[0].count);
      assert EndOfWord !in r;
      assert FlattenTokens(t) == r + FlattenTokens(t[1..]);
    }
  }

  /** The stream's length is the weighted number of marker-free tokens. */
  lemma {:induction false} FlattenLength(t: Table)
    ensures |FlattenTokens(t)| == WeightedSum(t, MarkerFreeLength)
  {
    if |t| > 0 {
      FlattenLength(t[1..]);
      assert |Repeat(WithoutMarker(t[0].key), t[0].count)| == t[0].count * MarkerFreeLength(t[0].key);
    }
  }

  /** When the stream is not empty and no token contains a space, splitting
      the text on single spaces gives the token stream back, empty tokens
      included. */
  lemma FlattenRoundTrip(t: Table)
    requires forall i :: 0 <= i < |FlattenTokens(t)| ==> ' ' !in FlattenTokens(t)[i]
    requires |FlattenTokens(t)| > 0
    ensures SplitOn(FlattenFromCounts(t), ' ') == FlattenTokens(t)
  {
    SplitJoin(FlattenTokens(t), ' ');
  }
}
