/** Character-level tokenisation of the corpus and the initial word-count
    table. */
module Tokenize {
  import opened Counters
  import opened Tokens

  /** The non-whitespace characters of `text`, in order. */
  function NonSpace(text: string, isSpace: char -> bool): string {
    if |text| == 0 then ""
    else (if isSpace(text[0]) then "" else [text[0]]) + NonSpace(text[1..], isSpace)
  }

  function Concat(ws: seq<string>): string {
    if |ws| == 0 then "" else ws[0] + Concat(ws[1..])
  }

  predicate NoSpace(w: string, isSpace: char -> bool) {
    forall j :: 0 <= j < |w| ==> !isSpace(w[j])
  }

  /** Putting a finished word in front of the words read after it. */
  lemma PrependWord(cur: string, rest: seq<string>, isSpace: char -> bool)
    requires |cur| > 0 && NoSpace(cur, isSpace)
    requires forall i :: 0 <= i < |rest| ==> |rest[i]| > 0 && NoSpace(rest[i], isSpace)
    ensures forall i :: 0 <= i < |[cur] + rest| ==> |([cur] + rest)[i]| > 0 && NoSpace(([cur] + rest)[i], isSpace)
    ensures Concat([cur] + rest) == cur + Concat(rest)
  {
    assert ([cur] + rest)[1..] == rest;
  }

  /** Extending the current word by one non-whitespace character keeps it
      free of whitespace. */
  lemma ExtendNoSpace(cur: string, c: char, isSpace: char -> bool)
    requires !isSpace(c) && NoSpace(cur, isSpace)
    ensures NoSpace(cur + [c], isSpace)
  {
    var w := cur + [c];
    forall j | 0 <= j < |w| ensures !isSpace(w[j]) {
      if j < |cur| {
        assert w[j] == cur[j];
      }
    }
  }

  /** ... and moves the character from the unread text to the word. */
  lemma ExtendConcat(text: string, isSpace: char -> bool, cur: string)
    requires |text| > 0 && !isSpace(text[0])
    ensures (cur + [text[0]]) + NonSpace(text[1..], isSpace) == cur + NonSpace(text, isSpace)
  {
    var tail := NonSpace(text[1..], isSpace);
    assert NonSpace(text, isSpace) == [text[0]] + tail;
    assert (cur + [text[0]]) + tail == cur + ([text[0]] + tail);
  }

  /** The rest of `text` split into maximal runs of non-whitespace, where
      `cur` is the run read so far. */
  function SplitFrom(text: string, isSpace: char -> bool, cur: string): (ws: seq<string>)
    requires NoSpace(cur, isSpace)
    ensures forall i :: 0 <= i < |ws| ==> |ws[i]| > 0 && NoSpace(ws[i], isSpace)
    ensures Concat(ws) == cur + NonSpace(text, isSpace)
    decreases |text|
  {
    if |text| == 0 then
      if |cur| > 0 then PrependWord(cur, [], isSpace); [cur] else []
    else if isSpace(text[0]) then
      var rest := SplitFrom(text[1..], isSpace, "");
      assert NonSpace(text, isSpace) == NonSpace(text[1..], isSpace);
      if |cur| > 0 then
        PrependWord(cur, rest, isSpace);
        [cur] + rest
      else rest
    else
      ExtendNoSpace(cur, text[0], isSpace);
      ExtendConcat(text, isSpace, cur);
      SplitFrom(text[1..], isSpace, cur + [text[0]])
  }

  /** `text.strip().split()`: the whitespace-separated words of the text.
      Which characters are whitespace is the parameter `isSpace`. Every word
      is non-empty and free of whitespace, and together the words hold
      exactly the text's non-whitespace characters, in order. */
  function SplitWords(text: string, isSpace: char -> bool): (ws: seq<string>)
    ensures forall i :: 0 <= i < |ws| ==> |ws[i]| > 0 && NoSpace(ws[i], isSpace)
    ensures Concat(ws) == NonSpace(text, isSpace)
  {
    SplitFrom(text, isSpace, "")
  }

  /** A whitespace character ends the word being read: the words of
      `a + [c] + b` are those of `a` (continuing `cur`) followed by those of
      `b`. */
  lemma {:induction false} SplitFromBreak(a: string, c: char, b: string, isSpace: char -> bool, cur: string)
    requires NoSpace(cur, isSpace) && isSpace(c)
    ensures SplitFrom(a + [c] + b, isSpace, cur) == SplitFrom(a, isSpace, cur) + SplitFrom(b, isSpace, "")
    decreases |a|
  {
    var text := a + [c] + b;
    if |a| == 0 {
      assert text == [c] + b;
      assert text[1..] == b;
    } else {
      assert text[0] == a[0];
      assert text[1..] == a[1..] + [c] + b;
      if isSpace(a[0]) {
        SplitFromBreak(a[1..], c, b, isSpace, "");
        var rest := SplitFrom(a[1..], isSpace, "");
        var tail := SplitFrom(b, isSpace, "");
        assert ([cur] + rest) + tail == [cur] + (rest + tail);
      } else {
        ExtendNoSpace(cur, a[0], isSpace);
        SplitFromBreak(a[1..], c, b, isSpace, cur + [a[0]]);
      }
    }
  }

  /** Text without whitespace continues the current word to its end. */
  lemma {:induction false} SplitFromRun(w: string, isSpace: char -> bool, cur: string)
    requires NoSpace(cur, isSpace) && NoSpace(w, isSpace)
    ensures SplitFrom(w, isSpace, cur) == if |cur + w| > 0 then [cur + w] else []
    decreases |w|
  {
    if |w| > 0 {
      assert !isSpace(w[0]);
      ExtendNoSpace(cur, w[0], isSpace);
      assert NoSpace(w[1..], isSpace) by {
        forall j | 0 <= j < |w[1..]| ensures !isSpace(w[1..][j]) {
          assert w[1..][j] == w[j + 1];
        }
      }
      SplitFromRun(w[1..], isSpace, cur + [w[0]]);
      assert (cur + [w[0]]) + w[1..] == cur + w;
    } else {
      assert cur + w == cur;
    }
  }

  /** The laws that fix the word boundaries of `str.split()`: the empty text
      has no words, a non-empty run without whitespace is one word, and every
      whitespace character separates the words before it from those after
      it. Together they determine the split of every text: words are the
      maximal runs of non-whitespace. */
  lemma SplitWordsLaws(a: string, c: char, b: string, w: string, isSpace: char -> bool)
    ensures SplitWords("", isSpace) == []
    ensures |w| > 0 && NoSpace(w, isSpace) ==> SplitWords(w, isSpace) == [w]
    ensures isSpace(c) ==> SplitWords(a + [c] + b, isSpace) == SplitWords(a, isSpace) + SplitWords(b, isSpace)
  {
    if |w| > 0 && NoSpace(w, isSpace) {
      SplitFromRun(w, isSpace, "");
      assert "" + w == w;
    }
    if isSpace(c) {
      SplitFromBreak(a, c, b, isSpace, "");
    }
  }

  /** The run law at `w`: a non-empty run without whitespace is one word. */
  predicate RunLaw(f: string -> seq<string>, isSpace: char -> bool, w: string) {
    |w| > 0 && NoSpace(w, isSpace) ==> f(w) == [w]
  }

  /** The break law at position `i` of `u`: whitespace there separates the
      words before it from those after it. */
  predicate BreakLaw(f: string -> seq<string>, isSpace: char -> bool, u: string, i: int) {
    0 <= i < |u| && isSpace(u[i]) ==> f(u) == f(u[..i]) + f(u[i + 1..])
  }

  /** Any splitting function that obeys the laws of `SplitWords` is
      `SplitWords`: the laws fix every word boundary. */
  lemma {:induction false} SplitLawsDetermine(f: string -> seq<string>, isSpace: char -> bool, text: string)
    requires f("") == []
    requires forall w :: RunLaw(f, isSpace, w)
    requires forall u, i :: BreakLaw(f, isSpace, u, i)
    ensures f(text) == SplitWords(text, isSpace)
    decreases |text|
  {
    if i :| 0 <= i < |text| && isSpace(text[i]) {
      assert BreakLaw(f, isSpace, text, i);
      SplitLawsDetermine(f, isSpace, text[..i]);
      SplitLawsDetermine(f, isSpace, text[i + 1..]);
      assert text == text[..i] + [text[i]] + text[i + 1..];
      SplitWordsLaws(text[..i], text[i], text[i + 1..], "", isSpace);
    } else {
      assert RunLaw(f, isSpace, text);
      SplitWordsLaws("", ' ', "", text, isSpace);
    }
  }

  /** The characters of a word as one-character tokens. */
  function Chars(w: string): (r: Word)
    ensures |r| == |w|
    ensures forall i :: 0 <= i < |w| ==> r[i] == [w[i]]
  {
    seq(|w|, i requires 0 <= i < |w| => [w[i]])
  }

  /** A word's token list: its characters, then one end-of-word marker. */
  function CharacterWord(w: string): (r: Word)
    ensures |r| == |w| + 1
    ensures r[|w|] == EndOfWord
    ensures forall i :: 0 <= i < |w| ==> r[i] == [w[i]] && r[i] != EndOfWord
  {
    Chars(w) + [EndOfWord]
  }

  /** train.py's `tokenize_characters` on the word list, skipping empty words. */
  function TokenizeCharacters(words: seq<string>): (r: seq<Word>)
    ensures |r| <= |words|
    ensures forall i :: 0 <= i < |r| ==> |r[i]| >= 2 && r[i][|r[i]| - 1] == EndOfWord
  {
    if |words| == 0 then []
    else (if |words[0]| > 0 then [CharacterWord(words[0])] else []) + TokenizeCharacters(words[1..])
  }

  /** apply_merges_with_true_counts.py's `tokenize_text` on the word list:
      no empty-word check. */
  function TokenizeText(words: seq<string>): (r: seq<Word>)
    ensures |r| == |words|
    ensures forall i :: 0 <= i < |words| ==> r[i] == CharacterWord(words[i])
  {
    if |words| == 0 then [] else [CharacterWord(words[0])] + TokenizeText(words[1..])
  }

  /** On the words of a split text, every word type is the word's characters
      followed by exactly one marker, one word type per word, and both
      scripts tokenise alike. */
  lemma {:induction false} TokenizeSplitWords(words: seq<string>)
    requires forall i :: 0 <= i < |words| ==> |words[i]| > 0
    ensures TokenizeCharacters(words) == TokenizeText(words)
    ensures |TokenizeCharacters(words)| == |words|
    ensures forall i :: 0 <= i < |words| ==>
      var w := TokenizeCharacters(words)[i];
      |w| == |words[i]| + 1 && w[..|words[i]|] == Chars(words[i]) && w[|words[i]|] == EndOfWord
  {
    if |words| > 0 {
      TokenizeSplitWords(words[1..]);
      assert CharacterWord(words[0])[..|words[0]|] == Chars(words[0]);
    }
  }

  /** `Counter(words)`: the word types in first-occurrence order with their
      number of occurrences. */
  function InitialWordCounts(tw: seq<Word>): (t: Table)
    ensures Distinct(t) && Positive(t)
    ensures Total(t) == |tw|
    ensures forall w :: Get(t, w) == multiset(tw)[w]
    ensures forall w :: HasKey(t, w) <==> w in tw
  {
    TallySpec(tw);
    Tally(tw)
  }

  /** The table lists the word types in the order of their first occurrence
      in the word list, as a `Counter` built from that list does. */
  lemma InitialOrder(tw: seq<Word>)
    ensures FirstOrder(InitialWordCounts(tw), tw)
  {
    TallyOrder(tw);
  }

  /** The initial table of a corpus whose words avoid the separator holds
      only valid tokens. */
  lemma InitialTableValid(words: seq<string>)
    requires forall i :: 0 <= i < |words| ==> Sep !in words[i]
    ensures ValidTable(InitialWordCounts(TokenizeCharacters(words)))
  {
    TokenizedValid(words);
    var tw := TokenizeCharacters(words);
    var t := InitialWordCounts(tw);
    forall i | 0 <= i < |t| ensures ValidWord(t[i].key) {
      assert HasKey(t, t[i].key);
    }
  }

  lemma {:induction false} TokenizedValid(words: seq<string>)
    requires forall i :: 0 <= i < |words| ==> Sep !in words[i]
    ensures forall w :: w in TokenizeCharacters(words) ==> ValidWord(w)
  {
    if |words| > 0 {
      TokenizedValid(words[1..]);
      var w := words[0];
      assert ValidWord(CharacterWord(w)) by {
        forall i | 0 <= i < |w| ensures ValidToken(CharacterWord(w)[i]) {
          assert w[i] in w;
        }
        assert ValidToken(EndOfWord);
      }
    }
  }

  lemma {:induction false} NonSpaceAvoids(text: string, isSpace: char -> bool, c: char)
    requires c !in text
    ensures c !in NonSpace(text, isSpace)
  {
    if |text| > 0 {
      assert text[0] != c;
      assert c !in text[1..];
      NonSpaceAvoids(text[1..], isSpace, c);
    }
  }

  lemma {:induction false} ConcatAvoids(ws: seq<string>, c: char)
    requires c !in Concat(ws)
    ensures forall i :: 0 <= i < |ws| ==> c !in ws[i]
  {
    if |ws| > 0 {
      assert Concat(ws) == ws[0] + Concat(ws[1..]);
      ConcatAvoids(ws[1..], c);
      forall i | 1 <= i < |ws| ensures c !in ws[i] {
        assert ws[i] == ws[1..][i - 1];
      }
    }
  }

  /** A word list without the empty word gives a table without it. */
  lemma InitialNonEmpty(tw: seq<Word>)
    requires forall i :: 0 <= i < |tw| ==> |tw[i]| > 0
    ensures NonEmptyKeys(InitialWordCounts(tw))
  {
    var t := InitialWordCounts(tw);
    forall i | 0 <= i < |t| ensures |t[i].key| > 0 {
      assert HasKey(t, t[i].key);
      assert t[i].key in tw;
    }
  }

  /** The table both scripts build from a text without the separator holds
      valid tokens only, and no word type is empty: each ends in the
      marker. */
  lemma FreshTable(text: string, isSpace: char -> bool)
    requires Sep !in text
    ensures var t := InitialWordCounts(TokenizeText(SplitWords(text, isSpace)));
      ValidTable(t) && NonEmptyKeys(t)
  {
    var words := SplitWords(text, isSpace);
    var tw := TokenizeText(words);
    NonSpaceAvoids(text, isSpace, Sep);
    ConcatAvoids(words, Sep);
    TokenizeSplitWords(words);
    InitialTableValid(words);
    assert forall i :: 0 <= i < |tw| ==> |tw[i]| == |words[i]| + 1;
    InitialNonEmpty(tw);
  }
}
