/** str.split() with no argument (news.py:48): the string is cut at runs of
    whitespace, and leading or trailing whitespace yields no empty token. */
module Tokenizer {

  /** The characters Python's str.isspace() accepts, which are the ones
      str.split() treats as separators. */
  predicate IsSpace(c: char) {
    || '\U{9}' <= c <= '\U{D}'
    || '\U{1C}' <= c <= '\U{20}'
    || c == '\U{85}' || c == '\U{A0}' || c == '\U{1680}'
    || '\U{2000}' <= c <= '\U{200A}'
    || c == '\U{2028}' || c == '\U{2029}' || c == '\U{202F}' || c == '\U{205F}' || c == '\U{3000}'
  }

  predicate AllSpace(s: string) {
    forall i :: 0 <= i < |s| ==> IsSpace(s[i])
  }

  /** What split() may return as one element: non-empty and free of whitespace. */
  predicate IsToken(w: string) {
    w != [] && forall i :: 0 <= i < |w| ==> !IsSpace(w[i])
  }

  /** Length of the leading run of whitespace. */
  function SpaceRun(s: string): (k: nat)
    ensures k <= |s|
    ensures AllSpace(s[..k])
    ensures k < |s| ==> !IsSpace(s[k])
  {
    if s == [] || !IsSpace(s[0]) then 0 else 1 + SpaceRun(s[1..])
  }

  /** Length of the leading run of non-whitespace characters. */
  function WordRun(s: string): (k: nat)
    ensures k <= |s|
    ensures forall i :: 0 <= i < k ==> !IsSpace(s[i])
    ensures k < |s| ==> IsSpace(s[k])
  {
    if s == [] || IsSpace(s[0]) then 0 else 1 + WordRun(s[1..])
  }

  /** s.split(): skip a whitespace run, take the word run after it, and go on. */
  function Split(s: string): (words: seq<string>)
    ensures |words| <= |s|
    decreases |s|
  {
    var j := SpaceRun(s);
    if j == |s| then []
    else
      var t := s[j..];
      assert t[0] == s[j];
      var k := WordRun(t);
      [t[..k]] + Split(t[k..])
  }

  /** split() yields only non-empty words without whitespace, and yields
      none exactly when the text is all whitespace. */
  lemma {:induction false} SplitYieldsTokens(s: string)
    ensures forall i :: 0 <= i < |Split(s)| ==> IsToken(Split(s)[i])
    ensures Split(s) == [] <==> AllSpace(s)
    decreases |s|
  {
    var j := SpaceRun(s);
    if j == |s| {
      assert s[..j] == s;
    } else {
      var t := s[j..];
      assert t[0] == s[j] && !IsSpace(s[j]);
      var k := WordRun(t);
      var rest := Split(t[k..]);
      SplitYieldsTokens(t[k..]);
      assert Split(s) == [t[..k]] + rest;
      TokensCons(t[..k], rest);
    }
  }

  lemma TokensCons(w: string, rest: seq<string>)
    requires IsToken(w)
    requires forall i :: 0 <= i < |rest| ==> IsToken(rest[i])
    ensures forall i :: 0 <= i < |[w] + rest| ==> IsToken(([w] + rest)[i])
  {
    assert forall i :: 0 < i < |[w] + rest| ==> ([w] + rest)[i] == rest[i - 1];
  }

  /** ' '.join(words) */
  function Join(words: seq<string>): string {
    if words == [] then []
    else if |words| == 1 then words[0]
    else words[0] + " " + Join(words[1..])
  }

  /** The characters of s that are not whitespace, in order. */
  function NonSpace(s: string): string {
    if s == [] then [] else (if IsSpace(s[0]) then [] else [s[0]]) + NonSpace(s[1..])
  }

  /** The tokens glued together, with nothing in between. */
  function Concat(words: seq<string>): string {
    if words == [] then [] else words[0] + Concat(words[1..])
  }

  lemma {:induction false} NonSpaceConcat(a: string, b: string)
    ensures NonSpace(a + b) == NonSpace(a) + NonSpace(b)
    decreases |a|
  {
    if a != [] {
      var head := if IsSpace(a[0]) then [] else [a[0]];
      assert (a + b)[0] == a[0] && (a + b)[1..] == a[1..] + b;
      NonSpaceConcat(a[1..], b);
      calc {
        NonSpace(a + b);
        head + NonSpace(a[1..] + b);
        head + (NonSpace(a[1..]) + NonSpace(b));
        (head + NonSpace(a[1..])) + NonSpace(b);
        NonSpace(a) + NonSpace(b);
      }
    } else {
      assert a + b == b;
    }
  }

  lemma {:induction false} NonSpaceOfSpaces(s: string)
    requires AllSpace(s)
    ensures NonSpace(s) == []
    decreases |s|
  {
    if s != [] {
      NonSpaceOfSpaces(s[1..]);
    }
  }

  lemma {:induction false} NonSpaceOfToken(w: string)
    requires forall i :: 0 <= i < |w| ==> !IsSpace(w[i])
    ensures NonSpace(w) == w
    decreases |w|
  {
    if w != [] {
      NonSpaceOfToken(w[1..]);
    }
  }

  /** No character is lost or invented: the tokens, glued together, are
      exactly the non-whitespace characters of the input, in order. */
  lemma {:induction false} SplitKeepsCharacters(s: string)
    ensures Concat(Split(s)) == NonSpace(s)
    decreases |s|
  {
    var j := SpaceRun(s);
    NonSpaceAfterSpaceRun(s);
    if j < |s| {
      var t := s[j..];
      var k := WordRun(t);
      assert Split(s) == [t[..k]] + Split(t[k..]);
      NonSpaceAfterWordRun(t);
      SplitKeepsCharacters(t[k..]);
      ConcatCons(t[..k], Split(t[k..]));
    }
  }

  /** The leading whitespace run contributes no character. */
  lemma NonSpaceAfterSpaceRun(s: string)
    ensures NonSpace(s) == NonSpace(s[SpaceRun(s)..])
  {
    var j := SpaceRun(s);
    assert s == s[..j] + s[j..];
    NonSpaceConcat(s[..j], s[j..]);
    NonSpaceOfSpaces(s[..j]);
  }

  /** The leading word run contributes all of its characters. */
  lemma NonSpaceAfterWordRun(t: string)
    ensures NonSpace(t) == t[..WordRun(t)] + NonSpace(t[WordRun(t)..])
  {
    var k := WordRun(t);
    assert t == t[..k] + t[k..];
    NonSpaceConcat(t[..k], t[k..]);
    NonSpaceOfToken(t[..k]);
  }

  lemma ConcatCons(w: string, rest: seq<string>)
    ensures Concat([w] + rest) == w + Concat(rest)
  {
    assert ([w] + rest)[1..] == rest;
  }

  /** Leading whitespace does not change the result of split(). */
  lemma SplitSkipsSpace(sp: string, s: string)
    requires AllSpace(sp)
    ensures Split(sp + s) == Split(s)
  {
    var j := SpaceRun(sp + s);
    assert j == |sp| + SpaceRun(s) by {
      SpaceRunAfterSpaces(sp, s);
    }
    assert (sp + s)[j..] == s[SpaceRun(s)..];
  }

  lemma {:induction false} SpaceRunAfterSpaces(sp: string, s: string)
    requires AllSpace(sp)
    ensures SpaceRun(sp + s) == |sp| + SpaceRun(s)
    decreases |sp|
  {
    if sp != [] {
      assert (sp + s)[0] == sp[0] && IsSpace(sp[0]);
      assert (sp + s)[1..] == sp[1..] + s;
      assert AllSpace(sp[1..]) by {
        forall i | 0 <= i < |sp| - 1 ensures IsSpace(sp[1..][i]) {
          assert sp[1..][i] == sp[i + 1];
        }
      }
      SpaceRunAfterSpaces(sp[1..], s);
    } else {
      assert sp + s == s;
    }
  }

  /** A token followed by whitespace (or by nothing) is split off whole. */
  lemma SplitLeadingToken(w: string, rest: string)
    requires IsToken(w)
    requires rest == [] || IsSpace(rest[0])
    ensures Split(w + rest) == [w] + Split(rest)
  {
    var s := w + rest;
    assert s[0] == w[0];
    assert SpaceRun(s) == 0;
    assert s[0..] == s;
    var k := WordRun(s);
    assert forall i :: 0 <= i < |w| ==> s[i] == w[i];
    assert |w| < |s| ==> s[|w|] == rest[0];
    assert k == |w|;
    assert s[..k] == w && s[k..] == rest;
  }

  /** split() undoes ' '.join() on genuine tokens. */
  lemma {:induction false} SplitJoin(words: seq<string>)
    requires forall i :: 0 <= i < |words| ==> IsToken(words[i])
    ensures Split(Join(words)) == words
    decreases |words|
  {
    if words == [] {
    } else if |words| == 1 {
      SplitLeadingToken(words[0], []);
      assert words[0] + [] == words[0];
      assert Split([]) == [];
      assert words == [words[0]];
    } else {
      var tail := words[1..];
      assert forall i :: 0 <= i < |tail| ==> tail[i] == words[i + 1];
      SplitJoin(tail);
      SplitJoinStep(words);
      assert words == [words[0]] + tail;
    }
  }

  lemma SplitJoinStep(words: seq<string>)
    requires |words| > 1 && IsToken(words[0])
    ensures Split(Join(words)) == [words[0]] + Split(Join(words[1..]))
  {
    var rest := Join(words[1..]);
    assert Join(words) == words[0] + (" " + rest);
    SplitTokenThenSpace(words[0], rest);
  }

  /** A token followed by one space is split off, and the split goes on after the space. */
  lemma SplitTokenThenSpace(w: string, rest: string)
    requires IsToken(w)
    ensures Split(w + (" " + rest)) == [w] + Split(rest)
  {
    SplitLeadingToken(w, " " + rest);
    SplitSkipsSpace(" ", rest);
  }

  /** Every character of every token comes from the input. */
  lemma {:induction false} SplitCharsFromInput(s: string)
    ensures forall i, c :: 0 <= i < |Split(s)| && c in Split(s)[i] ==> c in s
    decreases |s|
  {
    var j := SpaceRun(s);
    if j < |s| {
      var t := s[j..];
      var k := WordRun(t);
      SplitCharsFromInput(t[k..]);
      assert Split(s) == [t[..k]] + Split(t[k..]);
      forall i, c | 0 <= i < |Split(s)| && c in Split(s)[i]
        ensures c in s
      {
        if i == 0 {
          assert c in t;
        } else {
          assert Split(s)[i] == Split(t[k..])[i - 1];
          assert c in t[k..];
        }
      }
    }
  }
}
