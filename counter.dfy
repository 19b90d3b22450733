/** Counter(words) (news.py:62): a dictionary from word to number of
    occurrences whose keys keep the order of their first insertion, built
    by `self[w] = self.get(w, 0) + 1` for each word in turn. */
module Counting {

  /** A Counter: the keys in insertion order, and the count of each key. */
  datatype FrequencyTable = FrequencyTable(order: seq<string>, counts: map<string, nat>)

  predicate Distinct(s: seq<string>) {
    forall i, j :: 0 <= i < j < |s| ==> s[i] != s[j]
  }

  /** Every Counter has this shape: each key once in `order`, and a count for
      exactly the keys in `order`. */
  ghost predicate Valid(t: FrequencyTable) {
    Distinct(t.order) && forall w :: w in t.counts <==> w in t.order
  }

  /** The table after one more `self[w] = self.get(w, 0) + 1`: an existing
      key keeps its place, a new key goes to the end. */
  function Add(t: FrequencyTable, w: string): (r: FrequencyTable)
    ensures Valid(t) ==> Valid(r)
    ensures t.order <= r.order
    ensures forall v :: v in r.counts <==> v in t.counts || v == w
    ensures r.counts[w] == (if w in t.counts then t.counts[w] else 0) + 1
    ensures forall v :: v in t.counts && v != w ==> r.counts[v] == t.counts[v]
  {
    if w in t.counts then FrequencyTable(t.order, t.counts[w := t.counts[w] + 1])
    else FrequencyTable(t.order + [w], t.counts[w := 1])
  }

  /** Counter(words), one word at a time. Its keys are exactly the words
      that occur, and each count is the number of occurrences. */
  function Tally(words: seq<string>): (t: FrequencyTable)
    ensures Valid(t)
    ensures forall w :: w in t.counts <==> w in words
    ensures forall w :: w in t.counts ==> t.counts[w] == multiset(words)[w]
  {
    if words == [] then FrequencyTable([], map[])
    else
      var init, last := words[..|words| - 1], words[|words| - 1];
      assert words == init + [last];
      Add(Tally(init), last)
  }

  /** Counting one more word is one more step of the loop. */
  lemma TallyPrefixStep(words: seq<string>, i: nat)
    requires i < |words|
    ensures Tally(words[..i + 1]) == Add(Tally(words[..i]), words[i])
  {
    assert words[..i + 1][..i] == words[..i];
  }

  /** The loop inside Counter: a dictionary updated in place, one word per step. */
  method CountWords(words: seq<string>) returns (table: FrequencyTable)
    ensures table == Tally(words)
  {
    var order: seq<string> := [];
    var counts: map<string, nat> := map[];
    for i := 0 to |words|
      invariant FrequencyTable(order, counts) == Tally(words[..i])
    {
      var w := words[i];
      ghost var before := FrequencyTable(order, counts);
      if w in counts {
        counts := counts[w := counts[w] + 1];
      } else {
        order := order + [w];
        counts := counts[w := 1];
      }
      assert FrequencyTable(order, counts) == Add(before, w);
      TallyPrefixStep(words, i);
    }
    assert words[..|words|] == words;
    table := FrequencyTable(order, counts);
  }

  /** Position of the first occurrence of `w` in `s`. */
  function FirstIndex(s: seq<string>, w: string): (k: nat)
    requires w in s
    ensures k < |s| && s[k] == w
    ensures forall j :: 0 <= j < k ==> s[j] != w
  {
    if s[0] == w then 0 else 1 + FirstIndex(s[1..], w)
  }

  /** `order` lists words of `words` by increasing position of first occurrence. */
  ghost predicate InFirstOccurrenceOrder(order: seq<string>, words: seq<string>) {
    && (forall i :: 0 <= i < |order| ==> order[i] in words)
    && (forall i, j :: 0 <= i < j < |order| ==> FirstIndex(words, order[i]) < FirstIndex(words, order[j]))
  }

  lemma FirstOccurrenceStep(order: seq<string>, words: seq<string>, w: string)
    requires InFirstOccurrenceOrder(order, words)
    requires forall v :: v in order ==> v in words
    ensures InFirstOccurrenceOrder(if w in words then order else order + [w], words + [w])
  {
    var o' := if w in words then order else order + [w];
    var s := words + [w];
    forall v | v in words
      ensures FirstIndex(s, v) == FirstIndex(words, v)
    {
      FirstIndexExtend(words, [w], v);
    }
    if w !in words {
      assert FirstIndex(s, w) == |words|;
      forall i, j | 0 <= i < j < |o'|
        ensures FirstIndex(s, o'[i]) < FirstIndex(s, o'[j])
      {
        assert o'[i] == order[i];
        if j < |order| {
          assert o'[j] == order[j];
        }
      }
    }
  }

  /** The keys of the table are listed in the order in which the words first
      occur in the input. */
  lemma {:induction false} TallyFirstOccurrenceOrder(words: seq<string>)
    ensures InFirstOccurrenceOrder(Tally(words).order, words)
    decreases |words|
  {
    if words != [] {
      var init, last := words[..|words| - 1], words[|words| - 1];
      assert words == init + [last];
      TallyFirstOccurrenceOrder(init);
      FirstOccurrenceStep(Tally(init).order, init, last);
    }
  }

  lemma {:induction false} FirstIndexExtend(s: seq<string>, t: seq<string>, w: string)
    requires w in s
    ensures FirstIndex(s + t, w) == FirstIndex(s, w)
  {
    var k, k' := FirstIndex(s, w), FirstIndex(s + t, w);
    assert (s + t)[k] == w;
    assert forall j :: 0 <= j < k ==> (s + t)[j] == s[j];
  }

  /** The sum of the counts of the keys in `order`. */
  function Sum(order: seq<string>, counts: map<string, nat>): nat
    requires forall w :: w in order ==> w in counts
  {
    if order == [] then 0 else Sum(order[..|order| - 1], counts) + counts[order[|order| - 1]]
  }

  lemma {:induction false} SumIgnores(order: seq<string>, counts: map<string, nat>, w: string, v: nat)
    requires forall u :: u in order ==> u in counts
    requires w !in order
    ensures Sum(order, counts[w := v]) == Sum(order, counts)
    decreases |order|
  {
    if order != [] {
      var init := order[..|order| - 1];
      assert forall u :: u in init ==> u in order;
      SumIgnores(init, counts, w, v);
    }
  }

  lemma {:induction false} SumIncrement(order: seq<string>, counts: map<string, nat>, w: string)
    requires forall u :: u in order ==> u in counts
    requires Distinct(order) && w in order
    ensures Sum(order, counts[w := counts[w] + 1]) == Sum(order, counts) + 1
    decreases |order|
  {
    var init, last := order[..|order| - 1], order[|order| - 1];
    assert forall u :: u in init ==> u in order;
    if last == w {
      assert w !in init by {
        assert forall i :: 0 <= i < |init| ==> init[i] == order[i];
      }
      SumIgnores(init, counts, w, counts[w] + 1);
    } else {
      assert w in init by {
        assert order == init + [last];
      }
      SumIncrement(init, counts, w);
    }
  }

  /** The counts add up to the number of words counted. */
  lemma {:induction false} TallyTotal(words: seq<string>)
    ensures Sum(Tally(words).order, Tally(words).counts) == |words|
    decreases |words|
  {
    if words != [] {
      var init, last := words[..|words| - 1], words[|words| - 1];
      var t := Tally(init);
      TallyTotal(init);
      if last in t.counts {
        SumIncrement(t.order, t.counts, last);
      } else {
        SumIgnores(t.order, t.counts, last, 1);
      }
    }
  }

  /** A Counter has no more keys than words were counted. */
  lemma {:induction false} TallyOrderSize(words: seq<string>)
    ensures |Tally(words).order| <= |words|
    decreases |words|
  {
    if words != [] {
      TallyOrderSize(words[..|words| - 1]);
    }
  }
}
