/** Tokens, word types and merges: the vocabulary shared by both scripts. */
module Tokens {
  import opened Counters

  /** A token is a string. */
  type Token = seq<char>

  /** A word type: one word of the corpus as a sequence of tokens. */
  type Word = seq<Token>

  /** The weighted table of word types: word type -> number of occurrences. */
  type Table = Counter<Word>

  /** The end-of-word marker appended to every word. */
  const EndOfWord: Token := "</w>"

  /** The separator (U+0001) used to turn a word type into a dictionary key. */
  const Sep: char := '\U{1}'

  /** A merge rule "replace adjacent (left, right) by left + right". */
  datatype Merge = Merge(left: Token, right: Token) {
    /** The merged token: the concatenation of both operands. */
    function Merged(): Token {
      left + right
    }
  }

  /** A token the filter treats as atomic: one character or the marker. */
  predicate IsAtomic(t: Token) {
    |t| == 1 || t == EndOfWord
  }

  /** A token that survives the separator-joined key: non-empty, no separator. */
  predicate ValidToken(t: Token) {
    |t| > 0 && Sep !in t
  }

  predicate ValidWord(w: Word) {
    forall i :: 0 <= i < |w| ==> ValidToken(w[i])
  }

  predicate ValidMerge(m: Merge) {
    ValidToken(m.left) && ValidToken(m.right)
  }

  predicate ValidMerges(ms: seq<Merge>) {
    forall i :: 0 <= i < |ms| ==> ValidMerge(ms[i])
  }

  /** Every word type of the table consists of valid tokens. */
  predicate ValidTable(t: Table) {
    forall i :: 0 <= i < |t| ==> ValidWord(t[i].key)
  }

  /** No word type of the table is the empty word. */
  predicate NonEmptyKeys(t: Table) {
    forall i :: 0 <= i < |t| ==> |t[i].key| > 0
  }

  /** A valid merge yields a valid merged token that differs from both operands. */
  lemma MergedValid(m: Merge)
    requires ValidMerge(m)
    ensures ValidToken(m.Merged())
    ensures m.Merged() != m.left && m.Merged() != m.right
  {
    assert |m.Merged()| == |m.left| + |m.right|;
    forall i | 0 <= i < |m.Merged()| ensures m.Merged()[i] != Sep {
      if i < |m.left| {
        assert m.Merged()[i] == m.left[i];
      } else {
        assert m.Merged()[i] == m.right[i - |m.left|];
      }
    }
  }
}
