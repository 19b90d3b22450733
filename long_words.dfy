/** get_long_words (news.py:43-54): each news item is stripped of punctuation
    and split into tokens; the tokens of at least `minLength` characters are
    title-cased and appended, in order, to one list. MIN_WORD_LENGTH
    (news.py:7) is the parameter `minLength`. */
module LongWords {
  import opened Punctuation
  import opened Tokenizer
  import opened TitleCase
  import Ascii

  /** remove_punctuation(item).split() */
  function ItemTokens(item: string): (tokens: seq<string>)
    ensures forall i :: 0 <= i < |tokens| ==> IsToken(tokens[i])
    ensures forall i, c :: 0 <= i < |tokens| && c in tokens[i] ==> c !in Marks
    ensures tokens == [] <==> AllSpace(Depunctuated(item))
  {
    var cleaned := Depunctuated(item);
    assert forall c :: c in cleaned ==> c !in Marks;
    SplitCharsFromInput(cleaned);
    SplitYieldsTokens(cleaned);
    Split(cleaned)
  }

  /** [word.title() for word in tokens if len(word) >= minLength]: the
      length test sees the token as split() produced it. */
  function KeepLong(tokens: seq<string>, minLength: int): (r: seq<string>)
    ensures |r| <= |tokens|
    ensures forall i :: 0 <= i < |r| ==> |r[i]| >= minLength
  {
    if tokens == [] then []
    else (if |tokens[0]| >= minLength then [Title(tokens[0])] else []) + KeepLong(tokens[1..], minLength)
  }

  /** The words one news item contributes. */
  function ItemWords(item: string, minLength: int): seq<string> {
    KeepLong(ItemTokens(item), minLength)
  }

  /** The list get_long_words returns: the items' words, item after item. */
  function LongWordsOf(news: seq<string>, minLength: int): (r: seq<string>)
    ensures forall i :: 0 <= i < |r| ==> |r[i]| >= minLength
  {
    if news == [] then []
    else LongWordsOf(news[..|news| - 1], minLength) + ItemWords(news[|news| - 1], minLength)
  }

  /** Every token of every item, item after item. */
  function AllTokens(news: seq<string>): seq<string> {
    if news == [] then [] else AllTokens(news[..|news| - 1]) + ItemTokens(news[|news| - 1])
  }

  /** get_long_words: `long_words` grows by one item's words per iteration. */
  method GetLongWords(news: seq<string>, minLength: int) returns (longWords: seq<string>)
    ensures longWords == LongWordsOf(news, minLength)
  {
    longWords := [];
    for i := 0 to |news|
      invariant longWords == LongWordsOf(news[..i], minLength)
    {
      var cleaned := RemovePunctuation(news[i]);
      var allWords := Split(cleaned);
      var words := KeepLong(allWords, minLength);
      longWords := longWords + words;
      assert news[..i + 1][..i] == news[..i];
    }
    assert news[..|news|] == news;
  }

  /** A word survives the filter exactly when some token of at least
      `minLength` characters title-cases to it; so a token of exactly
      `minLength` characters is kept and a shorter one is not. */
  lemma {:induction false} KeepLongMembership(tokens: seq<string>, minLength: int, x: string)
    ensures x in KeepLong(tokens, minLength) <==>
            exists t :: t in tokens && |t| >= minLength && Title(t) == x
    decreases |tokens|
  {
    if tokens != [] {
      KeepLongMembership(tokens[1..], minLength, x);
      assert forall t :: t in tokens <==> t == tokens[0] || t in tokens[1..];
    }
  }

  /** The filter works token by token, so it keeps order and duplicates. */
  lemma {:induction false} KeepLongConcat(a: seq<string>, b: seq<string>, minLength: int)
    ensures KeepLong(a + b, minLength) == KeepLong(a, minLength) + KeepLong(b, minLength)
    decreases |a|
  {
    if a == [] {
      assert a + b == b;
    } else {
      assert (a + b)[0] == a[0] && (a + b)[1..] == a[1..] + b;
      KeepLongConcat(a[1..], b, minLength);
    }
  }

  /** get_long_words is the list comprehension applied to the whole token
      stream: the in-order concatenation of every item's tokens. */
  lemma {:induction false} LongWordsFilterAllTokens(news: seq<string>, minLength: int)
    ensures LongWordsOf(news, minLength) == KeepLong(AllTokens(news), minLength)
    decreases |news|
  {
    if news != [] {
      var init, last := news[..|news| - 1], news[|news| - 1];
      LongWordsFilterAllTokens(init, minLength);
      KeepLongConcat(AllTokens(init), ItemTokens(last), minLength);
    }
  }

  /** A word is in the result exactly when some token of some item is at
      least `minLength` long and title-cases to it. */
  lemma LongWordMembership(news: seq<string>, minLength: int, x: string)
    ensures x in LongWordsOf(news, minLength) <==>
            exists t :: t in AllTokens(news) && |t| >= minLength && Title(t) == x
  {
    LongWordsFilterAllTokens(news, minLength);
    KeepLongMembership(AllTokens(news), minLength, x);
  }

  /** An item holding a single word: the word is kept, title-cased, exactly
      when it has at least `minLength` characters. */
  lemma SingleWordItem(w: string, minLength: int)
    requires IsToken(w)
    requires forall c :: c in w ==> c !in Marks
    ensures ItemWords(w, minLength) == if |w| >= minLength then [Title(w)] else []
  {
    assert forall i :: 0 <= i < |w| ==> w[i] !in Marks;
    DepunctuatedFixesClean(w);
    SplitLeadingToken(w, []);
    assert w + [] == w && Split([]) == [];
    assert ItemTokens(w) == [w];
    assert [w][1..] == [];
  }

  /** Words glued with punctuation marks only, as in "cat.dog,bird". */
  function Interleave(words: seq<string>, seps: string): string
    requires |words| > 0 && |seps| == |words| - 1
  {
    if |words| == 1 then words[0] else words[0] + [seps[0]] + Interleave(words[1..], seps[1..])
  }

  /** Because punctuation becomes a space instead of vanishing, words
      separated by a single punctuation mark still come out as separate
      tokens, one per word. */
  lemma {:induction false} PunctuationSeparatesWords(words: seq<string>, seps: string)
    requires |words| > 0 && |seps| == |words| - 1
    requires forall i :: 0 <= i < |words| ==> IsToken(words[i])
    requires forall i, c :: 0 <= i < |words| && c in words[i] ==> c !in Marks
    requires forall c :: c in seps ==> c in Marks
    ensures ItemTokens(Interleave(words, seps)) == words
  {
    DepunctuatedJoin(words, seps);
    SplitJoin(words);
  }

  lemma {:induction false} DepunctuatedJoin(words: seq<string>, seps: string)
    requires |words| > 0 && |seps| == |words| - 1
    requires forall i, c :: 0 <= i < |words| && c in words[i] ==> c !in Marks
    requires forall c :: c in seps ==> c in Marks
    ensures Depunctuated(Interleave(words, seps)) == Join(words)
    decreases |words|
  {
    var w := words[0];
    assert forall i :: 0 <= i < |w| ==> w[i] !in Marks;
    DepunctuatedFixesClean(w);
    if |words| > 1 {
      var rest := Interleave(words[1..], seps[1..]);
      DepunctuatedConcat(w + [seps[0]], rest);
      DepunctuatedConcat(w, [seps[0]]);
      assert Depunctuated([seps[0]]) == " ";
      DepunctuatedJoin(words[1..], seps[1..]);
    }
  }

  /** How many tokens of at least `minLength` characters equal `x` up to letter case. */
  function CaseInsensitiveCount(tokens: seq<string>, minLength: int, x: string): nat {
    if tokens == [] then 0
    else (if |tokens[0]| >= minLength && Ascii.Lower(tokens[0]) == Ascii.Lower(x) then 1 else 0)
         + CaseInsensitiveCount(tokens[1..], minLength, x)
  }

  /** Title-casing merges the case variants of a word: the title-cased word
      occurs in the filtered list once for every long token that spells it
      in any mix of cases. */
  lemma {:induction false} KeepLongCountsCaseVariants(tokens: seq<string>, minLength: int, x: string)
    ensures multiset(KeepLong(tokens, minLength))[Title(x)] == CaseInsensitiveCount(tokens, minLength, x)
    decreases |tokens|
  {
    if tokens != [] {
      var t := tokens[0];
      var head := if |t| >= minLength then [Title(t)] else [];
      KeepLongCountsCaseVariants(tokens[1..], minLength, x);
      assert KeepLong(tokens, minLength) == head + KeepLong(tokens[1..], minLength);
      TitleIgnoresCase(t, x);
    }
  }
}
