/** The string keys under which both scripts store word types: the tokens
    joined by U+0001, split again on the way back. The rest of the model keys
    its tables by the token sequences themselves; the lemmas here show that
    this is the same thing as long as every token is valid (non-empty and
    free of the separator). The same join, with a space, writes the final
    token stream. */
module Serialization {
  import opened Tokens

  /** `c.join(ts)`. */
  function Join(ts: seq<Token>, c: char): string {
    if |ts| == 0 then ""
    else if |ts| == 1 then ts[0]
    else ts[0] + [c] + Join(ts[1..], c)
  }

  /** `s.split(c)`: the pieces between occurrences of `c`, always at least one. */
  function SplitOn(s: string, c: char): (r: seq<Token>)
    ensures |r| >= 1
    ensures forall i :: 0 <= i < |r| ==> c !in r[i]
  {
    if |s| == 0 then [""]
    else
      var rest := SplitOn(s[1..], c);
      if s[0] == c then [""] + rest
      else
        assert forall i :: 1 <= i < |rest| ==> c !in rest[i];
        [[s[0]] + rest[0]] + rest[1..]
  }

  /** `SEP.join(tokens)`. */
  function SerializeWord(ts: Word): string {
    Join(ts, Sep)
  }

  /** train.py's `deserialize_word`: the empty key is the empty word. */
  function DeserializeWord(key: string): Word {
    if key == "" then [] else SplitOn(key, Sep)
  }

  /** apply_merges_with_true_counts.py's `deserialize`: a bare split, so the
      empty key comes back as one empty token. */
  function Deserialize(key: string): Word {
    SplitOn(key, Sep)
  }

  lemma {:induction false} SplitNoSep(t: Token, c: char)
    requires c !in t
    ensures SplitOn(t, c) == [t]
  {
    if |t| > 0 {
      SplitNoSep(t[1..], c);
      assert [t[0]] + t[1..] == t;
    }
  }

  lemma {:induction false} SplitFirst(t: Token, c: char, rest: string)
    requires c !in t
    ensures SplitOn(t + [c] + rest, c) == [t] + SplitOn(rest, c)
  {
    var s := t + [c] + rest;
    if |t| == 0 {
      assert s[0] == c && s[1..] == rest;
    } else {
      assert s[0] == t[0] && s[1..] == t[1..] + [c] + rest;
      SplitFirst(t[1..], c, rest);
      assert [t[0]] + t[1..] == t;
    }
  }

  /** Splitting undoes joining for every non-empty list of tokens free of the
      separator (empty tokens included). */
  lemma {:induction false} SplitJoin(ts: seq<Token>, c: char)
    requires |ts| >= 1
    requires forall i :: 0 <= i < |ts| ==> c !in ts[i]
    ensures SplitOn(Join(ts, c), c) == ts
  {
    if |ts| == 1 {
      SplitNoSep(ts[0], c);
    } else {
      SplitJoin(ts[1..], c);
      SplitFirst(ts[0], c, Join(ts[1..], c));
      assert [ts[0]] + ts[1..] == ts;
    }
  }

  /** Joining undoes splitting for every string. */
  lemma {:induction false} JoinSplit(s: string, c: char)
    ensures Join(SplitOn(s, c), c) == s
  {
    if |s| > 0 {
      JoinSplit(s[1..], c);
      var rest := SplitOn(s[1..], c);
      if s[0] == c {
        assert ([""] + rest)[1..] == rest;
        assert [s[0]] + s[1..] == s;
      } else {
        var r := [[s[0]] + rest[0]] + rest[1..];
        if |rest| == 1 {
          assert Join(r, c) == [s[0]] + rest[0];
        } else {
          assert r[1..] == rest[1..];
          assert Join(rest, c) == rest[0] + [c] + Join(rest[1..], c);
        }
        assert [s[0]] + s[1..] == s;
      }
    }
  }

  /** The round trip through train.py's key fails for exactly one word:
      the word made of a single empty token, whose key "" reads back as the
      empty word. */
  lemma KeyRoundTripIff(ts: Word)
    requires forall i :: 0 <= i < |ts| ==> Sep !in ts[i]
    ensures DeserializeWord(SerializeWord(ts)) == ts <==> ts != [""]
  {
    if |ts| >= 1 && ts != [""] {
      if |ts| >= 2 {
        assert SerializeWord(ts)[|ts[0]|] == Sep;
      }
      SplitJoin(ts, Sep);
    }
  }

  /** train.py's keys round-trip for every word of valid tokens, the empty
      word included. */
  lemma KeyRoundTrip(ts: Word)
    requires ValidWord(ts)
    ensures DeserializeWord(SerializeWord(ts)) == ts
  {
    KeyRoundTripIff(ts);
    assert |ts| == 1 ==> |ts[0]| > 0;
  }

  /** apply_merges_with_true_counts.py's keys round-trip for every non-empty
      word of separator-free tokens, but not for the empty word. */
  lemma BareKeyRoundTrip(ts: Word)
    requires forall i :: 0 <= i < |ts| ==> Sep !in ts[i]
    ensures Deserialize(SerializeWord(ts)) == ts <==> |ts| >= 1
  {
    if |ts| >= 1 {
      SplitJoin(ts, Sep);
    }
  }

  /** Distinct words of valid tokens get distinct keys, so counting by key
      and counting by token sequence group the corpus identically. */
  lemma KeyInjective(u: Word, v: Word)
    requires ValidWord(u) && ValidWord(v)
    requires SerializeWord(u) == SerializeWord(v)
    ensures u == v
  {
    KeyRoundTrip(u);
    KeyRoundTrip(v);
  }

  /** A corpus character equal to the separator tears its word apart: the
      word made of U+0001 alone comes back from its key with two empty
      tokens in place of one. */
  lemma SeparatorInWordBreaksKey()
    ensures DeserializeWord(SerializeWord([[Sep], EndOfWord])) == ["", "", EndOfWord]
  {
    var w: Word := [[Sep], EndOfWord];
    var key := [Sep] + [Sep] + EndOfWord;
    assert w[1..] == [EndOfWord];
    assert Join(w[1..], Sep) == EndOfWord;
    assert Join(w, Sep) == w[0] + [Sep] + Join(w[1..], Sep);
    assert SerializeWord(w) == key;
    assert key == "" + [Sep] + ("" + [Sep] + EndOfWord);
    SplitFirst("", Sep, "" + [Sep] + EndOfWord);
    SplitFirst("", Sep, EndOfWord);
    SplitNoSep(EndOfWord, Sep);
  }
}
