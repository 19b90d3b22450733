/** remove_punctuation (news.py:36-40): every character of PUNCTUATION
    (news.py:9) is replaced by a space, one str.replace per mark. */
module Punctuation {

  /** PUNCTUATION = '.,!?' */
  const Marks: string := ".,!?"

  /** s.replace(from, to) for a one-character pattern: every occurrence of
      `from` becomes `to`, and nothing else changes. */
  function ReplaceChar(s: string, from: char, to: char): (r: string)
    ensures |r| == |s|
    ensures forall i :: 0 <= i < |s| ==> r[i] == if s[i] == from then to else s[i]
  {
    if s == [] then [] else [if s[0] == from then to else s[0]] + ReplaceChar(s[1..], from, to)
  }

  /** What remove_punctuation returns: each punctuation mark becomes a
      space, and every other character stays where it is. */
  function Depunctuated(s: string): (r: string)
    ensures |r| == |s|
    ensures forall i :: 0 <= i < |s| ==> r[i] == if s[i] in Marks then ' ' else s[i]
    ensures forall i :: 0 <= i < |s| ==> r[i] !in Marks
  {
    if s == [] then [] else [if s[0] in Marks then ' ' else s[0]] + Depunctuated(s[1..])
  }

  /** remove_punctuation: rebinds `s` once per punctuation mark. */
  method RemovePunctuation(s: string) returns (r: string)
    ensures r == Depunctuated(s)
  {
    r := s;
    for k := 0 to |Marks|
      invariant |r| == |s|
      invariant forall i :: 0 <= i < |s| ==> r[i] == if s[i] in Marks[..k] then ' ' else s[i]
    {
      r := ReplaceChar(r, Marks[k], ' ');
      assert Marks[..k + 1] == Marks[..k] + [Marks[k]];
    }
    assert Marks[..|Marks|] == Marks;
    assert forall i :: 0 <= i < |s| ==> r[i] == Depunctuated(s)[i];
  }

  /** Running remove_punctuation a second time changes nothing. */
  lemma DepunctuatedIdempotent(s: string)
    ensures Depunctuated(Depunctuated(s)) == Depunctuated(s)
  {
    var d := Depunctuated(s);
    assert forall i :: 0 <= i < |d| ==> Depunctuated(d)[i] == d[i];
  }

  /** A string without punctuation marks is returned unchanged. */
  lemma DepunctuatedFixesClean(s: string)
    requires forall i :: 0 <= i < |s| ==> s[i] !in Marks
    ensures Depunctuated(s) == s
  {
    assert forall i :: 0 <= i < |s| ==> Depunctuated(s)[i] == s[i];
  }

  /** Replacement works character by character, so it distributes over concatenation. */
  lemma DepunctuatedConcat(a: string, b: string)
    ensures Depunctuated(a + b) == Depunctuated(a) + Depunctuated(b)
  {
    var ab, da, db := a + b, Depunctuated(a), Depunctuated(b);
    var l, r := Depunctuated(ab), da + db;
    assert |l| == |r|;
    forall i | 0 <= i < |l|
      ensures l[i] == r[i]
    {
      if i < |a| {
        assert ab[i] == a[i] && r[i] == da[i];
      } else {
        assert ab[i] == b[i - |a|] && r[i] == db[i - |a|];
      }
    }
  }
}
