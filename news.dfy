/** The driver of news.py: `process` (news.py:57-63) runs get_long_words,
    Counter and most_common over the item texts a feed loader produced, and
    `main` (news.py:66-79) picks the loader from the file extension.
    Reading and parsing the file is outside the model: the item texts the
    chosen loader would extract are a parameter. */
module News {
  import opened Ascii
  import opened LongWords
  import opened Counting
  import opened Ranking

  /** MIN_WORD_LENGTH (news.py:7). */
  const MinWordLength: int := 7

  /** ITEMS_TO_DISPLAY (news.py:8). */
  const ItemsToDisplay: int := 10

  /** What `process` prints, one pair per line: the top `n` words of at
      least `minLength` characters. */
  function Analyze(news: seq<string>, minLength: int, n: int): (r: seq<Entry>)
    ensures |r| <= if n <= 0 then 0 else n
    ensures |r| <= |LongWordsOf(news, minLength)|
  {
    var words := LongWordsOf(news, minLength);
    TallyOrderSize(words);
    MostCommon(Tally(words), n)
  }

  /** process, from the item texts on, with the program's constants. */
  method Process(news: seq<string>) returns (ranked: seq<Entry>)
    ensures ranked == Analyze(news, MinWordLength, ItemsToDisplay)
  {
    var words := GetLongWords(news, MinWordLength);
    var counter := CountWords(words);
    ranked := MostCommon(counter, ItemsToDisplay);
  }

  /** An empty feed yields an empty ranking. */
  lemma AnalyzeEmptyFeed(minLength: int, n: int)
    ensures Analyze([], minLength, n) == []
  {
  }

  /** Every reported word is long enough, counted exactly, and at most `n`
      pairs are reported. */
  lemma AnalyzeEntries(news: seq<string>, minLength: int, n: int)
    ensures forall e :: e in Analyze(news, minLength, n) ==>
      |e.word| >= minLength && e.count == multiset(LongWordsOf(news, minLength))[e.word] && e.count > 0
  {
    var words := LongWordsOf(news, minLength);
    var t := Tally(words);
    MostCommonSortedCounts(t, n);
    forall e | e in Analyze(news, minLength, n)
      ensures |e.word| >= minLength
    {
      assert e.word in words;
      var k :| 0 <= k < |words| && words[k] == e.word;
    }
  }

  /** Each reported count is the number of long tokens, across all items,
      that spell the word in any mix of letter case. */
  lemma AnalyzeCountsCaseVariants(news: seq<string>, minLength: int, n: int)
    ensures forall e :: e in Analyze(news, minLength, n) ==>
      e.count == CaseInsensitiveCount(AllTokens(news), minLength, e.word)
  {
    var words := LongWordsOf(news, minLength);
    AnalyzeEntries(news, minLength, n);
    LongWordsFilterAllTokens(news, minLength);
    forall e | e in Analyze(news, minLength, n)
      ensures e.count == CaseInsensitiveCount(AllTokens(news), minLength, e.word)
    {
      assert e.word in words;
      KeepLongMembership(AllTokens(news), minLength, e.word);
      var tok :| tok in AllTokens(news) && |tok| >= minLength && TitleCase.Title(tok) == e.word;
      KeepLongCountsCaseVariants(AllTokens(news), minLength, tok);
      TitleCase.LowerOfTitle(tok);
      CaseInsensitiveCountSameLower(AllTokens(news), minLength, tok, e.word);
    }
  }

  lemma {:induction false} CaseInsensitiveCountSameLower(tokens: seq<string>, minLength: int, x: string, y: string)
    requires Lower(x) == Lower(y)
    ensures CaseInsensitiveCount(tokens, minLength, x) == CaseInsensitiveCount(tokens, minLength, y)
    decreases |tokens|
  {
    if tokens != [] {
      CaseInsensitiveCountSameLower(tokens[1..], minLength, x, y);
    }
  }

  /** Counts never increase down the ranking, and pairs with equal counts
      appear in the order in which their words first occur in the word list. */
  lemma AnalyzeOrder(news: seq<string>, minLength: int, n: int, i: nat, j: nat)
    requires i < j < |Analyze(news, minLength, n)|
    ensures Analyze(news, minLength, n)[i].count >= Analyze(news, minLength, n)[j].count
    ensures Analyze(news, minLength, n)[i].word != Analyze(news, minLength, n)[j].word
    ensures Analyze(news, minLength, n)[i].count == Analyze(news, minLength, n)[j].count ==>
      var words := LongWordsOf(news, minLength);
      && Analyze(news, minLength, n)[i].word in words
      && Analyze(news, minLength, n)[j].word in words
      && FirstIndex(words, Analyze(news, minLength, n)[i].word) < FirstIndex(words, Analyze(news, minLength, n)[j].word)
  {
    var words := LongWordsOf(news, minLength);
    var t := Tally(words);
    var r := Analyze(news, minLength, n);
    MostCommonSortedCounts(t, n);
    if r[i].count == r[j].count {
      MostCommonTiesInInsertionOrder(t, n, i, j);
      var p, q :| 0 <= p < q < |t.order| && t.order[p] == r[i].word && t.order[q] == r[j].word;
      TallyFirstOccurrenceOrder(words);
    }
  }

  /** The file formats `main` knows. */
  datatype Format = Json | Xml

  /** What `main` decides from the file name: which loader to use, or to
      print the unsupported-format message and return. */
  datatype Route = Load(format: Format) | Unsupported

  /** file_name.split('.')[-1]: the text after the last '.', or the whole
      name when it has no '.'. */
  function LastSegment(s: string): (r: string)
    ensures |r| <= |s| && r == s[|s| - |r|..]
    ensures '.' !in r
    ensures |r| < |s| ==> s[|s| - |r| - 1] == '.'
  {
    if s == [] || s[|s| - 1] == '.' then []
    else LastSegment(s[..|s| - 1]) + [s[|s| - 1]]
  }

  /** The extension `main` compares: the last segment, lower-cased. */
  function Extension(fileName: string): (r: string)
    ensures |r| <= |fileName|
    ensures forall i :: 0 <= i < |r| ==> r[i] != '.' && !IsUpper(r[i])
  {
    var last := LastSegment(fileName);
    assert forall i :: 0 <= i < |last| ==> last[i] != '.';
    Lower(last)
  }

  function RouteFor(fileName: string): (r: Route)
    ensures Extension(fileName) == "json" ==> r == Load(Json)
    ensures Extension(fileName) == "xml" ==> r == Load(Xml)
    ensures r.Unsupported? <==> Extension(fileName) != "json" && Extension(fileName) != "xml"
  {
    var extension := Extension(fileName);
    if extension == "json" then Load(Json)
    else if extension == "xml" then Load(Xml)
    else Unsupported
  }

  /** The result of a run: a rejected file name, or the ranking computed
      from the item texts of a supported feed. */
  datatype Outcome = Rejected | Ranked(format: Format, entries: seq<Entry>)

  /** main(file_name): `items` stands for the descriptions the chosen loader
      (read_json/parse_json or read_xml/parse_xml) extracts from the file. */
  method RunNews(fileName: string, items: seq<string>) returns (outcome: Outcome)
    ensures outcome.Rejected? <==> RouteFor(fileName) == Unsupported
    ensures outcome.Ranked? ==>
      outcome.format == RouteFor(fileName).format && outcome.entries == Analyze(items, MinWordLength, ItemsToDisplay)
  {
    var extension := Extension(fileName);
    var format: Format;
    if extension == "json" {
      format := Json;
    } else if extension == "xml" {
      format := Xml;
    } else {
      return Rejected;
    }
    var ranked := Process(items);
    outcome := Ranked(format, ranked);
  }

  /** The last segment is what follows the last '.', whatever comes before it. */
  lemma {:induction false} LastSegmentAfterDot(stem: string, ext: string)
    requires '.' !in ext
    ensures LastSegment(stem + "." + ext) == ext
    decreases |ext|
  {
    var s := stem + "." + ext;
    if ext != [] {
      var init := ext[..|ext| - 1];
      assert s[..|s| - 1] == stem + "." + init;
      assert s[|s| - 1] == ext[|ext| - 1];
      LastSegmentAfterDot(stem, init);
      assert init + [ext[|ext| - 1]] == ext;
    }
  }

  /** A name without a '.' is its own last segment, so its extension is the
      whole name lower-cased: main("JSON") reads a JSON feed. */
  lemma ExtensionWithoutDot(name: string)
    requires '.' !in name
    ensures Extension(name) == Lower(name)
  {
    LastSegmentWithoutDot(name);
  }

  lemma {:induction false} LastSegmentWithoutDot(name: string)
    requires '.' !in name
    ensures LastSegment(name) == name
    decreases |name|
  {
    if name != [] {
      var init := name[..|name| - 1];
      assert forall i :: 0 <= i < |init| ==> init[i] == name[i];
      LastSegmentWithoutDot(init);
      assert init + [name[|name| - 1]] == name;
    }
  }

  /** The extension `main` compares is the lower-cased text after the last '.'. */
  lemma ExtensionAfterLastDot(stem: string, ext: string)
    requires '.' !in ext
    ensures Extension(stem + "." + ext) == Lower(ext)
  {
    LastSegmentAfterDot(stem, ext);
  }

  /** The comparison ignores letter case: two names whose extensions differ
      only in case take the same route. */
  lemma RouteIgnoresCase(stem1: string, ext1: string, stem2: string, ext2: string)
    requires '.' !in ext1 && '.' !in ext2
    requires Lower(ext1) == Lower(ext2)
    ensures RouteFor(stem1 + "." + ext1) == RouteFor(stem2 + "." + ext2)
  {
    ExtensionAfterLastDot(stem1, ext1);
    ExtensionAfterLastDot(stem2, ext2);
  }

  /** Concrete names: the extension's case does not matter, and only the
      text after the last '.' is compared. */
  lemma RouteTxt()
    ensures RouteFor("feed.txt") == Unsupported
  {
    ExtensionAfterLastDot("feed", "txt");
  }

  lemma RouteUpperJson()
    ensures RouteFor("News.JSON") == Load(Json)
  {
    ExtensionAfterLastDot("News", "JSON");
    assert Lower("JSON") == "json";
  }

  lemma RouteUpperXml()
    ensures RouteFor("feed.XML") == Load(Xml)
  {
    ExtensionAfterLastDot("feed", "XML");
    assert Lower("XML") == "xml";
  }

  lemma RouteLastDotOnly()
    ensures RouteFor("feed.json.txt") == Unsupported
  {
    ExtensionAfterLastDot("feed.json", "txt");
  }
}
