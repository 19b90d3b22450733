/** counter.most_common(n) (news.py:63): the pairs (word, count) of a
    Counter sorted by count, highest first, with equal counts left in the
    Counter's insertion order, cut to the first n. CPython computes it with
    heapq.nlargest, which is documented to equal
    sorted(items, key=count, reverse=True)[:n]; that is what is modelled. */
module Ranking {
  import opened Counting

  /** One (word, count) pair. */
  datatype Entry = Entry(word: string, count: nat)

  /** counter.items(): the pairs in the dictionary's insertion order. */
  function Items(t: FrequencyTable): (r: seq<Entry>)
    requires Valid(t)
    ensures |r| == |t.order|
    ensures forall i :: 0 <= i < |r| ==> r[i].word == t.order[i]
  {
    seq(|t.order|, i requires 0 <= i < |t.order| => Entry(t.order[i], t.counts[t.order[i]]))
  }

  predicate SortedByCount(s: seq<Entry>) {
    forall i, j :: 0 <= i < j < |s| ==> s[i].count >= s[j].count
  }

  predicate DistinctWords(s: seq<Entry>) {
    forall i, j :: 0 <= i < j < |s| ==> s[i].word != s[j].word
  }

  /** Inserts `x`, which came before every entry of `s`, in front of the
      first entry whose count does not exceed its own. */
  function Insert(x: Entry, s: seq<Entry>): (r: seq<Entry>)
    requires SortedByCount(s)
    ensures SortedByCount(r)
    ensures multiset(r) == multiset(s) + multiset{x}
  {
    if s == [] || s[0].count <= x.count then [x] + s
    else
      var r' := Insert(x, s[1..]);
      assert s == [s[0]] + s[1..];
      InsertHeadBound(s[0], x, s[1..], r');
      [s[0]] + r'
  }

  /** Membership read off a multiset equation. */
  lemma MembersOf(a: seq<Entry>, b: seq<Entry>, x: Entry)
    requires multiset(a) == multiset(b) + multiset{x}
    ensures forall e :: e in a <==> e == x || e in b
  {
    forall e
      ensures e in a <==> e == x || e in b
    {
      assert e in a <==> e in multiset(a);
      assert e in b <==> e in multiset(b);
    }
  }

  lemma InsertHeadBound(h: Entry, x: Entry, s: seq<Entry>, r: seq<Entry>)
    requires x.count < h.count
    requires forall i :: 0 <= i < |s| ==> s[i].count <= h.count
    requires multiset(r) == multiset(s) + multiset{x}
    requires SortedByCount(r)
    ensures SortedByCount([h] + r)
  {
    MembersOf(r, s, x);
    var hr := [h] + r;
    forall i, j | 0 <= i < j < |hr|
      ensures hr[i].count >= hr[j].count
    {
      assert hr[j] == r[j - 1];
      if i > 0 {
        assert hr[i] == r[i - 1];
      } else {
        assert r[j - 1] in r;
      }
    }
  }

  /** sorted(items, key=count, reverse=True), by insertion. */
  function SortByCount(s: seq<Entry>): (r: seq<Entry>)
    ensures SortedByCount(r)
    ensures multiset(r) == multiset(s)
    ensures |r| == |s|
  {
    if s == [] then []
    else
      assert s == [s[0]] + s[1..];
      Insert(s[0], SortByCount(s[1..]))
  }

  /** counter.most_common(n): min(n, number of distinct words) pairs, and
      none for n <= 0. */
  function MostCommon(t: FrequencyTable, n: int): (r: seq<Entry>)
    requires Valid(t)
    ensures |r| == if n <= 0 then 0 else if n < |t.order| then n else |t.order|
  {
    var sorted := SortByCount(Items(t));
    if n <= 0 then [] else sorted[..if n < |sorted| then n else |sorted|]
  }

  /** The entries of `s` with count `c`, in order. */
  function WithCount(s: seq<Entry>, c: nat): seq<Entry> {
    if s == [] then [] else (if s[0].count == c then [s[0]] else []) + WithCount(s[1..], c)
  }

  lemma {:induction false} WithCountConcat(a: seq<Entry>, b: seq<Entry>, c: nat)
    ensures WithCount(a + b, c) == WithCount(a, c) + WithCount(b, c)
    decreases |a|
  {
    if a == [] {
      assert a + b == b;
    } else {
      assert (a + b)[0] == a[0] && (a + b)[1..] == a[1..] + b;
      WithCountConcat(a[1..], b, c);
    }
  }

  lemma {:induction false} InsertWithCount(x: Entry, s: seq<Entry>, c: nat)
    requires SortedByCount(s)
    ensures WithCount(Insert(x, s), c) == (if x.count == c then [x] else []) + WithCount(s, c)
    decreases |s|
  {
    if s == [] || s[0].count <= x.count {
      assert ([x] + s)[1..] == s;
    } else {
      var r' := Insert(x, s[1..]);
      assert ([s[0]] + r')[1..] == r';
      InsertWithCount(x, s[1..], c);
    }
  }

  /** The sort is stable: for every count, the entries with that count come
      out in the order they went in. */
  lemma {:induction false} SortStable(s: seq<Entry>, c: nat)
    ensures WithCount(SortByCount(s), c) == WithCount(s, c)
    decreases |s|
  {
    if s != [] {
      SortStable(s[1..], c);
      InsertWithCount(s[0], SortByCount(s[1..]), c);
    }
  }

  lemma {:induction false} InsertDistinct(x: Entry, s: seq<Entry>)
    requires SortedByCount(s) && DistinctWords(s)
    requires forall e :: e in s ==> e.word != x.word
    ensures DistinctWords(Insert(x, s))
    decreases |s|
  {
    if !(s == [] || s[0].count <= x.count) {
      var r' := Insert(x, s[1..]);
      InsertDistinct(x, s[1..]);
      MembersOf(r', s[1..], x);
      var r := [s[0]] + r';
      forall i, j | 0 <= i < j < |r|
        ensures r[i].word != r[j].word
      {
        if i > 0 {
          assert r[i] == r'[i - 1] && r[j] == r'[j - 1];
        } else {
          assert r[j] == r'[j - 1] && r[j] in r';
        }
      }
    }
  }

  /** Sorting keeps the words distinct. */
  lemma {:induction false} SortDistinct(s: seq<Entry>)
    requires DistinctWords(s)
    ensures DistinctWords(SortByCount(s))
    decreases |s|
  {
    if s != [] {
      SortDistinct(s[1..]);
      var r' := SortByCount(s[1..]);
      SameMembers(r', s[1..]);
      assert s[0] !in s[1..] by {
        assert forall i :: 0 <= i < |s| - 1 ==> s[1..][i] == s[i + 1];
      }
      InsertDistinct(s[0], r');
    }
  }

  lemma ItemsFacts(t: FrequencyTable)
    requires Valid(t)
    ensures DistinctWords(Items(t))
    ensures forall e :: e in Items(t) ==> e.word in t.counts && e.count == t.counts[e.word]
    ensures forall w :: w in t.counts ==> Entry(w, t.counts[w]) in Items(t)
  {
    var items := Items(t);
    forall w | w in t.counts
      ensures Entry(w, t.counts[w]) in items
    {
      var p :| 0 <= p < |t.order| && t.order[p] == w;
      assert items[p] == Entry(w, t.counts[w]);
    }
  }

  /** Counts are non-increasing; each pair carries the Counter's count of
      its word; no word appears twice. */
  lemma MostCommonSortedCounts(t: FrequencyTable, n: int)
    requires Valid(t)
    ensures SortedByCount(MostCommon(t, n))
    ensures DistinctWords(MostCommon(t, n))
    ensures forall e :: e in MostCommon(t, n) ==> e.word in t.counts && e.count == t.counts[e.word]
  {
    var items := Items(t);
    var sorted := SortByCount(items);
    var r := MostCommon(t, n);
    ItemsFacts(t);
    SortDistinct(items);
    SameMembers(sorted, items);
    assert forall e :: e in r ==> e in sorted;
  }

  lemma SameMembers(a: seq<Entry>, b: seq<Entry>)
    requires multiset(a) == multiset(b)
    ensures forall e :: e in a ==> e in b
  {
    forall e | e in a
      ensures e in b
    {
      assert e in multiset(a);
    }
  }

  /** Equal counts keep the Counter's insertion order: for every count, the
      pairs returned with that count are the first ones, in order, among the
      Counter's items with that count. */
  lemma MostCommonTies(t: FrequencyTable, n: int, c: nat)
    requires Valid(t)
    ensures WithCount(MostCommon(t, n), c) <= WithCount(Items(t), c)
  {
    var items := Items(t);
    var sorted := SortByCount(items);
    var k := if n <= 0 then 0 else if n < |sorted| then n else |sorted|;
    assert MostCommon(t, n) == sorted[..k];
    WithCountOfPrefix(sorted, k, c);
    SortStable(items, c);
  }

  /** Selecting by count from a prefix gives a prefix of the selection. */
  lemma WithCountOfPrefix(s: seq<Entry>, k: nat, c: nat)
    requires k <= |s|
    ensures WithCount(s[..k], c) <= WithCount(s, c)
  {
    assert s == s[..k] + s[k..];
    WithCountConcat(s[..k], s[k..], c);
  }

  /** Nothing left out beats what is returned: a word of the Counter that
      is not among the pairs has a count no larger than the last pair's, and
      is left out only because n pairs were already taken. */
  lemma MostCommonIsTop(t: FrequencyTable, n: int, w: string)
    requires Valid(t)
    requires n > 0 && w in t.counts
    requires forall e :: e in MostCommon(t, n) ==> e.word != w
    ensures |MostCommon(t, n)| == n
    ensures t.counts[w] <= MostCommon(t, n)[n - 1].count
  {
    var items := Items(t);
    var sorted := SortByCount(items);
    var r := MostCommon(t, n);
    ItemsFacts(t);
    var e := Entry(w, t.counts[w]);
    assert e in sorted by {
      assert e in multiset(items);
    }
    var q :| 0 <= q < |sorted| && sorted[q] == e;
    assert forall i :: 0 <= i < |r| ==> r[i] == sorted[i] && r[i] in r;
    assert q >= |r|;
  }

  lemma {:induction false} WithCountMembers(s: seq<Entry>, c: nat)
    ensures forall e :: e in WithCount(s, c) <==> e in s && e.count == c
    decreases |s|
  {
    if s != [] {
      WithCountMembers(s[1..], c);
      assert forall e :: e in s <==> e == s[0] || e in s[1..];
    }
  }

  /** An entry with count `c` is at some position of WithCount(s, c). */
  lemma FindInWithCount(s: seq<Entry>, c: nat, e: Entry) returns (b: nat)
    requires e in s && e.count == c
    ensures b < |WithCount(s, c)| && WithCount(s, c)[b] == e
  {
    WithCountMembers(s, c);
    var w := WithCount(s, c);
    b :| 0 <= b < |w| && w[b] == e;
  }

  /** Two entries of `s` with count `c` keep their relative order in WithCount(s, c). */
  lemma {:induction false} IntoWithCount(s: seq<Entry>, c: nat, i: nat, j: nat) returns (a: nat, b: nat)
    requires i < j < |s| && s[i].count == c && s[j].count == c
    ensures a < b < |WithCount(s, c)| && WithCount(s, c)[a] == s[i] && WithCount(s, c)[b] == s[j]
    decreases |s|
  {
    var w, w' := WithCount(s, c), WithCount(s[1..], c);
    assert s[j] == s[1..][j - 1];
    if i == 0 {
      var b' := FindInWithCount(s[1..], c, s[j]);
      assert w == [s[0]] + w';
      a, b := 0, b' + 1;
    } else {
      assert s[i] == s[1..][i - 1];
      var a', b' := IntoWithCount(s[1..], c, i - 1, j - 1);
      if s[0].count == c {
        assert w == [s[0]] + w';
        a, b := a' + 1, b' + 1;
      } else {
        assert w == w';
        a, b := a', b';
      }
    }
  }

  /** Two entries of WithCount(s, c) come from two positions of `s` in the same order. */
  lemma {:induction false} OutOfWithCount(s: seq<Entry>, c: nat, a: nat, b: nat) returns (p: nat, q: nat)
    requires a < b < |WithCount(s, c)|
    ensures p < q < |s| && s[p] == WithCount(s, c)[a] && s[q] == WithCount(s, c)[b]
    decreases |s|
  {
    var w, w' := WithCount(s, c), WithCount(s[1..], c);
    if s[0].count == c {
      assert w == [s[0]] + w';
      if a == 0 {
        WithCountMembers(s[1..], c);
        assert w[b] == w'[b - 1] && w'[b - 1] in w';
        var q' :| 0 <= q' < |s[1..]| && s[1..][q'] == w[b];
        p, q := 0, q' + 1;
      } else {
        var p', q' := OutOfWithCount(s[1..], c, a - 1, b - 1);
        p, q := p' + 1, q' + 1;
      }
    } else {
      assert w == w';
      var p', q' := OutOfWithCount(s[1..], c, a, b);
      p, q := p' + 1, q' + 1;
    }
  }

  /** Pairs with equal counts are returned in the Counter's insertion order. */
  lemma MostCommonTiesInInsertionOrder(t: FrequencyTable, n: int, i: nat, j: nat)
    requires Valid(t)
    requires i < j < |MostCommon(t, n)|
    requires MostCommon(t, n)[i].count == MostCommon(t, n)[j].count
    ensures exists p, q :: (0 <= p < q < |t.order| &&
      t.order[p] == MostCommon(t, n)[i].word && t.order[q] == MostCommon(t, n)[j].word)
  {
    var r, items := MostCommon(t, n), Items(t);
    var c := r[i].count;
    var a, b := IntoWithCount(r, c, i, j);
    MostCommonTies(t, n, c);
    assert WithCount(items, c)[a] == r[i] && WithCount(items, c)[b] == r[j];
    var p, q := OutOfWithCount(items, c, a, b);
    assert t.order[p] == r[i].word && t.order[q] == r[j].word;
  }
}
