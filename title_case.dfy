/** str.title() on ASCII (news.py:52): a cased character is upper-cased when
    it starts the string or follows an uncased character, and lower-cased
    otherwise, so "e-mail" becomes "E-Mail" and "3rd" becomes "3Rd". */
module TitleCase {
  import opened Ascii

  /** The case a single character gets, given whether the one before it is cased. */
  function TitleChar(c: char, afterCased: bool): (r: char)
    ensures IsCased(r) == IsCased(c)
    ensures ToLower(r) == ToLower(c)
    ensures IsCased(c) ==> if afterCased then IsLower(r) else IsUpper(r)
    ensures !IsCased(c) ==> r == c
  {
    if !IsCased(c) then c else if afterCased then ToLower(c) else ToUpper(c)
  }

  /** The scan str.title() performs, carrying `previous_is_cased` along. */
  function TitleFrom(s: string, previousIsCased: bool): (r: string)
    ensures |r| == |s|
    ensures forall i :: 0 <= i < |s| ==>
      r[i] == TitleChar(s[i], if i == 0 then previousIsCased else IsCased(s[i - 1]))
  {
    if s == [] then [] else [TitleChar(s[0], previousIsCased)] + TitleFrom(s[1..], IsCased(s[0]))
  }

  /** word.title(): each character's case depends only on whether the
      character just before it is a letter. */
  function Title(s: string): (r: string)
    ensures |r| == |s|
    ensures forall i :: 0 <= i < |s| ==> r[i] == TitleChar(s[i], i > 0 && IsCased(s[i - 1]))
  {
    TitleFrom(s, false)
  }

  /** Title-casing keeps every character's lower-case form. */
  lemma LowerOfTitle(s: string)
    ensures Lower(Title(s)) == Lower(s)
  {
    var t := Title(s);
    forall i | 0 <= i < |s|
      ensures Lower(t)[i] == Lower(s)[i]
    {
      assert t[i] == TitleChar(s[i], i > 0 && IsCased(s[i - 1]));
    }
  }

  /** A title-cased word is its own title case. */
  lemma TitleIdempotent(s: string)
    ensures Title(Title(s)) == Title(s)
  {
    var t := Title(s);
    forall i | 0 <= i < |s|
      ensures Title(t)[i] == t[i]
    {
      if i > 0 {
        assert t[i - 1] == TitleChar(s[i - 1], i - 1 > 0 && IsCased(s[i - 2]));
      }
      assert t[i] == TitleChar(s[i], i > 0 && IsCased(s[i - 1]));
    }
  }

  /** Two characters with the same lower-case form are title-cased alike. */
  lemma TitleCharIgnoresCase(a: char, b: char, afterCased: bool)
    requires ToLower(a) == ToLower(b)
    ensures IsCased(a) == IsCased(b)
    ensures TitleChar(a, afterCased) == TitleChar(b, afterCased)
  {
  }

  lemma TitleOfSameLower(s: string, t: string)
    requires Lower(s) == Lower(t)
    ensures Title(s) == Title(t)
  {
    assert |s| == |t|;
    forall i | 0 <= i < |s|
      ensures Title(s)[i] == Title(t)[i]
    {
      assert Lower(s)[i] == Lower(t)[i];
      TitleCharIgnoresCase(s[i], t[i], false);
      if i > 0 {
        assert Lower(s)[i - 1] == Lower(t)[i - 1];
        TitleCharIgnoresCase(s[i - 1], t[i - 1], false);
      }
      TitleCharIgnoresCase(s[i], t[i], i > 0 && IsCased(s[i - 1]));
    }
  }

  /** Title-casing is a key for case-insensitive equality: two words get the
      same title case exactly when they agree letter for letter up to case. */
  lemma TitleIgnoresCase(s: string, t: string)
    ensures Title(s) == Title(t) <==> Lower(s) == Lower(t)
  {
    if Title(s) == Title(t) {
      LowerOfTitle(s);
      LowerOfTitle(t);
    }
    if Lower(s) == Lower(t) {
      TitleOfSameLower(s, t);
    }
  }

  /** On a word of letters only, title case is "first letter upper, the rest lower". */
  lemma TitleOfLetters(w: string)
    requires w != []
    requires forall i :: 0 <= i < |w| ==> IsCased(w[i])
    ensures IsUpper(Title(w)[0]) && ToLower(Title(w)[0]) == ToLower(w[0])
    ensures forall i :: 0 < i < |w| ==> Title(w)[i] == ToLower(w[i])
  {
    forall i | 0 < i < |w|
      ensures Title(w)[i] == ToLower(w[i])
    {
      assert IsCased(w[i - 1]);
    }
  }
}
