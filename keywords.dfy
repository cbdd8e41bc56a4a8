/**
 Title keywords (`extract_keywords`): join the titles with a space, lower-case,
 turn every character that is neither a word character nor whitespace into a
 space, split on whitespace, drop stop-words and tokens of at most two
 characters, and count what is left.
 */
module Keywords {
  import opened Chars
  import opened Text
  import opened Counting
  import opened Extract

  /** The fixed stop-word list. */
  const StopWords: set<string> := {
    "a", "an", "the", "and", "or", "but", "if", "because", "as", "what",
    "which", "this", "that", "these", "those", "then", "just", "so", "than",
    "such", "both", "through", "about", "for", "is", "of", "while", "during",
    "to", "from", "in", "on", "by", "with", "without", "at", "between"
  }

  /** `s.lower()`. */
  function Lowercase(s: string): string
  {
    seq(|s|, i requires 0 <= i < |s| => Lower(s[i]))
  }

  /** `re.sub(r'[^\w\s]', ' ', s)`: every character outside `\w` and `\s` becomes a space. */
  function StripPunctuation(s: string): string
  {
    seq(|s|, i requires 0 <= i < |s| => if IsWordChar(s[i]) || IsSpace(s[i]) then s[i] else ' ')
  }

  /** The titles of the records, in order. */
  function Titles(papers: seq<Paper>): seq<string>
  {
    seq(|papers|, i requires 0 <= i < |papers| => papers[i].title)
  }

  /** The whitespace tokens of the cleaned, joined titles. */
  function Tokens(papers: seq<Paper>): seq<string>
  {
    Split(StripPunctuation(Lowercase(Join(Titles(papers), " "))))
  }

  /** A token survives the filter when it is no stop-word and longer than two characters. */
  predicate IsKeyword(w: string)
  {
    w !in StopWords && |w| > 2
  }

  /** The list comprehension that keeps the keywords, in order. */
  function KeepKeywords(ws: seq<string>): (r: seq<string>)
    ensures |r| <= |ws|
    ensures forall i :: 0 <= i < |r| ==> IsKeyword(r[i])
  {
    if ws == [] then []
    else
      var init, w := ws[..|ws| - 1], ws[|ws| - 1];
      KeepKeywords(init) + (if IsKeyword(w) then [w] else [])
  }

  /** The filter keeps every occurrence of a keyword and nothing else. */
  lemma {:induction false} KeepKeywordsCounts(ws: seq<string>)
    ensures forall w :: multiset(KeepKeywords(ws))[w] == if IsKeyword(w) then multiset(ws)[w] else 0
    decreases |ws|
  {
    if ws != [] {
      var init, w := ws[..|ws| - 1], ws[|ws| - 1];
      KeepKeywordsCounts(init);
      assert ws == init + [w];
    }
  }

  /** `extract_keywords(papers)`: the frequency of every keyword of the titles. */
  function ExtractKeywords(papers: seq<Paper>): map<string, nat>
  {
    if papers == [] then map[] else Tally(KeepKeywords(Tokens(papers)))
  }

  // ---------------------------------------------------------------------------
  // Properties
  // ---------------------------------------------------------------------------

  /** Every character of the cleaned text is whitespace or a lower-case word character. */
  lemma CleanedCharacters(s: string)
    ensures var t := StripPunctuation(Lowercase(s));
      forall c :: c in t ==> IsSpace(c) || (IsWordChar(c) && Lower(c) == c)
  {
    var t := StripPunctuation(Lowercase(s));
    forall c | c in t
      ensures IsSpace(c) || (IsWordChar(c) && Lower(c) == c)
    {
      var i :| 0 <= i < |t| && t[i] == c;
      LowerIdempotent(s[i]);
    }
  }

  /**
   No keyword is a stop-word, every keyword is longer than two characters,
   and every keyword consists of lower-case word characters only.
   */
  lemma KeywordsWellFormed(papers: seq<Paper>)
    ensures forall w :: w in ExtractKeywords(papers) ==>
      w !in StopWords && |w| > 2 && forall i :: 0 <= i < |w| ==> IsWordChar(w[i]) && Lower(w[i]) == w[i]
  {
    if papers != [] {
      var tokens := Tokens(papers);
      var kept := KeepKeywords(tokens);
      KeepKeywordsCounts(tokens);
      CleanedCharacters(Join(Titles(papers), " "));
      forall w | w in ExtractKeywords(papers)
        ensures w !in StopWords && |w| > 2 && forall i :: 0 <= i < |w| ==> IsWordChar(w[i]) && Lower(w[i]) == w[i]
      {
        assert w in kept;
        assert multiset(kept)[w] > 0;
        assert w in tokens;
        var t :| 0 <= t < |tokens| && tokens[t] == w;
        forall i | 0 <= i < |w|
          ensures IsWordChar(w[i]) && Lower(w[i]) == w[i]
        {
          assert tokens[t][i] == w[i];
        }
      }
    }
  }

  /**
   The keywords are exactly the tokens that pass the filter; each one's
   frequency is its number of occurrences among the tokens, and the
   frequencies sum to the length of the filtered token list.
   */
  lemma KeywordFrequencies(papers: seq<Paper>)
    ensures var freq, tokens := ExtractKeywords(papers), Tokens(papers);
      && (forall w :: w in freq <==> w in tokens && IsKeyword(w))
      && (forall w :: w in freq ==> freq[w] == multiset(tokens)[w])
      && Total(freq) == |KeepKeywords(tokens)|
  {
    var tokens := Tokens(papers);
    var kept := KeepKeywords(tokens);
    KeepKeywordsCounts(tokens);
    if papers == [] {
      assert Join(Titles(papers), " ") == "";
      assert tokens == [];
    } else {
      TallyTotal(kept);
    }
    forall w
      ensures w in kept <==> w in tokens && IsKeyword(w)
    {
      assert (w in kept <==> multiset(kept)[w] > 0) && (w in tokens <==> multiset(tokens)[w] > 0);
    }
  }

  /** The tokens of one title on its own. */
  function TitleTokens(title: string): seq<string>
  {
    Split(StripPunctuation(Lowercase(title)))
  }

  /** The tokens of every title in turn, concatenated. */
  function TokensPerTitle(papers: seq<Paper>): seq<string>
  {
    if papers == [] then []
    else TokensPerTitle(papers[..|papers| - 1]) + TitleTokens(papers[|papers| - 1].title)
  }

  /** Cleaning a text cleans its pieces independently. */
  lemma CleanConcat(a: string, b: string)
    ensures StripPunctuation(Lowercase(a + " " + b))
         == StripPunctuation(Lowercase(a)) + [' '] + StripPunctuation(Lowercase(b))
  {
  }

  /**
   Joining the titles with a space never glues words of different titles
   together: the tokens of the joined text are the tokens of each title, in order.
   */
  lemma {:induction false} TokensAreTitleTokens(papers: seq<Paper>)
    ensures Tokens(papers) == TokensPerTitle(papers)
    decreases |papers|
  {
    var n := |papers|;
    if n == 0 {
      assert Join(Titles(papers), " ") == "";
    } else if n == 1 {
      assert Titles(papers) == [papers[0].title];
      assert papers[..0] == [];
    } else {
      var init := papers[..n - 1];
      TokensAreTitleTokens(init);
      assert Titles(papers)[..n - 1] == Titles(init);
      var a, b := Join(Titles(init), " "), papers[n - 1].title;
      assert Join(Titles(papers), " ") == a + " " + b;
      CleanConcat(a, b);
      SplitAtSpace(StripPunctuation(Lowercase(a)), ' ', StripPunctuation(Lowercase(b)));
    }
  }

  /** Filtering distributes over concatenation. */
  lemma {:induction false} KeepKeywordsConcat(a: seq<string>, b: seq<string>)
    ensures KeepKeywords(a + b) == KeepKeywords(a) + KeepKeywords(b)
    decreases |b|
  {
    if b == [] {
      assert a + b == a;
    } else {
      var init, w := b[..|b| - 1], b[|b| - 1];
      KeepKeywordsConcat(a, init);
      assert (a + b)[..|a + b| - 1] == a + init;
    }
  }

  /** A single token is kept exactly when it is a keyword. */
  lemma KeepSingle(w: string)
    ensures KeepKeywords([w]) == if IsKeyword(w) then [w] else []
  {
    assert [w][..0] == [];
  }

  /** The example titles, cleaned. */
  lemma ExampleCleaned(title: string, last: char)
    requires title == "Deep Learning for " + [last] || title == "deep learning FOR " + [last]
    requires last == 'X' || last == 'Y'
    ensures StripPunctuation(Lowercase(title)) == "deep learning for " + [Lower(last)]
  {
    ExampleLowered(title, last);
    ExampleUnpunctuated(Lower(last));
  }

  /** The example titles, lowered. */
  lemma ExampleLowered(title: string, last: char)
    requires title == "Deep Learning for " + [last] || title == "deep learning FOR " + [last]
    requires last == 'X' || last == 'Y'
    ensures Lowercase(title) == "deep learning for " + [Lower(last)]
  {
    var target := "deep learning for " + [Lower(last)];
    var lowered := Lowercase(title);
    assert |lowered| == |target| == 19;
    assert forall i :: 0 <= i < 19 ==> lowered[i] == target[i];
  }

  /** The lowered example titles hold no punctuation. */
  lemma ExampleUnpunctuated(c: char)
    requires c == 'x' || c == 'y'
    ensures StripPunctuation("deep learning for " + [c]) == "deep learning for " + [c]
  {
    var t := "deep learning for " + [c];
    assert forall i :: 0 <= i < |t| ==> IsWordChar(t[i]) || IsSpace(t[i]);
  }

  /** The example's cleaned text is four words joined by spaces. */
  lemma ExampleJoined(c: char)
    ensures Join(["deep", "learning", "for", [c]], " ") == "deep learning for " + [c]
  {
    var words := ["deep", "learning", "for", [c]];
    assert words[..3] == ["deep", "learning", "for"];
    assert Join(["deep", "learning"], " ") == "deep learning" by {
      assert ["deep", "learning"][..1] == ["deep"];
    }
    assert Join(["deep", "learning", "for"], " ") == "deep learning for" by {
      assert ["deep", "learning", "for"][..2] == ["deep", "learning"];
    }
  }

  /** How `TitleTokens` reads one of the example titles. */
  lemma ExampleTitleTokens(title: string, last: char)
    requires title == "Deep Learning for " + [last] || title == "deep learning FOR " + [last]
    requires last == 'X' || last == 'Y'
    ensures TitleTokens(title) == ["deep", "learning", "for", [Lower(last)]]
  {
    ExampleCleaned(title, last);
    ExampleJoined(Lower(last));
    SplitJoin(["deep", "learning", "for", [Lower(last)]]);
  }

  /** The two example keywords both pass the filter. */
  lemma ExampleKeptWords()
    ensures KeepKeywords(["deep", "learning"]) == ["deep", "learning"]
  {
    assert IsKeyword("deep");
    assert IsKeyword("learning");
    KeepPair("deep", "learning");
  }

  /** Two keywords in a row are both kept. */
  lemma KeepPair(a: string, b: string)
    requires IsKeyword(a) && IsKeyword(b)
    ensures KeepKeywords([a, b]) == [a, b]
  {
    KeepSingle(a);
    KeepSingle(b);
    KeepKeywordsConcat([a], [b]);
    assert [a] + [b] == [a, b];
  }

  /** A stop-word followed by a one-letter token leaves nothing. */
  lemma ExampleDropped(x: string)
    requires |x| == 1
    ensures KeepKeywords(["for", x]) == []
  {
    KeepSingle("for");
    KeepSingle(x);
    KeepKeywordsConcat(["for"], [x]);
    assert ["for"] + [x] == ["for", x];
  }

  /** How the filter treats the tokens of one example title. */
  lemma ExampleKept(x: string)
    requires |x| == 1
    ensures KeepKeywords(["deep", "learning", "for", x]) == ["deep", "learning"]
  {
    ExampleKeptWords();
    ExampleDropped(x);
    KeepKeywordsConcat(["deep", "learning"], ["for", x]);
    assert ["deep", "learning"] + ["for", x] == ["deep", "learning", "for", x];
  }

  /** The tokens of two records are the tokens of the first title, then of the second. */
  lemma TokensOfTwo(p: Paper, q: Paper)
    ensures Tokens([p, q]) == TitleTokens(p.title) + TitleTokens(q.title)
  {
    TokensAreTitleTokens([p, q]);
    assert [p, q][..1] == [p] && [p][..0] == [];
    assert TokensPerTitle([p]) == TitleTokens(p.title);
    assert TokensPerTitle([p, q]) == TokensPerTitle([p]) + TitleTokens(q.title);
  }

  /** The tokens of the two example titles. */
  lemma ExampleTokens(p: Paper, q: Paper)
    requires p.title == "Deep Learning for X" && q.title == "deep learning FOR Y"
    ensures Tokens([p, q]) == ["deep", "learning", "for", "x"] + ["deep", "learning", "for", "y"]
  {
    TokensOfTwo(p, q);
    ExampleTitleTokens(p.title, 'X');
    ExampleTitleTokens(q.title, 'Y');
  }

  /** The sentinel title is unchanged by cleaning: it has no capital and no punctuation. */
  lemma UntitledCleaned()
    ensures StripPunctuation(Lowercase(UnknownTitle)) == UnknownTitle
  {
    var t := UnknownTitle;
    assert |t| == 4;
    assert forall i :: 0 <= i < 4 ==> 0x4E00 <= t[i] as int <= 0x9FFF;
    assert Lowercase(t) == t;
  }

  /** The sentinel title is a keyword. */
  lemma UntitledIsKeyword()
    ensures IsKeyword(UnknownTitle)
  {
    assert |UnknownTitle| == 4;
  }

  /**
   An entry without a title span gets the sentinel title, whose four
   ideographs are word characters: alone, it is counted as one keyword.
   */
  lemma UntitledKeyword(p: Paper)
    requires p.title == UnknownTitle
    ensures ExtractKeywords([p]) == map[UnknownTitle := 1]
  {
    UntitledRecordTokens(p);
    UntitledIsKeyword();
    KeepSingle(UnknownTitle);
    TallySingle(UnknownTitle);
  }

  /** The tokens of a record with the sentinel title are that title alone. */
  lemma UntitledRecordTokens(p: Paper)
    requires p.title == UnknownTitle
    ensures Tokens([p]) == [UnknownTitle]
  {
    assert Join(Titles([p]), " ") == UnknownTitle by {
      assert Titles([p]) == [UnknownTitle];
    }
    UntitledCleaned();
    UntitledTokens();
  }

  /** The sentinel title is a single token. */
  lemma UntitledTokens()
    ensures Split(UnknownTitle) == [UnknownTitle]
  {
    var t := UnknownTitle;
    assert |t| == 4;
    assert forall i :: 0 <= i < 4 ==> 0x4E00 <= t[i] as int <= 0x9FFF;
    SplitWord(t);
  }

  /** Counting the example's keywords. */
  lemma ExampleTally()
    ensures Tally(["deep", "learning", "deep", "learning"]) == map["deep" := 2, "learning" := 2]
  {
    var kept := ["deep", "learning", "deep", "learning"];
    var m := Tally(kept);
    assert m.Keys == {"deep", "learning"};
    assert multiset(kept)["deep"] == 2 && multiset(kept)["learning"] == 2;
  }

  /**
   The titles "Deep Learning for X" and "deep learning FOR Y" give "deep" and
   "learning" twice each; the stop-word "for" and the one-letter tokens are dropped.
   */
  lemma KeywordsExample(p: Paper, q: Paper)
    requires p.title == "Deep Learning for X" && q.title == "deep learning FOR Y"
    ensures ExtractKeywords([p, q]) == map["deep" := 2, "learning" := 2]
  {
    var xs, ys := ["deep", "learning", "for", "x"], ["deep", "learning", "for", "y"];
    ExampleTokens(p, q);
    KeepKeywordsConcat(xs, ys);
    ExampleKept("x");
    ExampleKept("y");
    var kept := KeepKeywords(Tokens([p, q]));
    assert kept == ["deep", "learning", "deep", "learning"];
    ExampleTally();
    assert ExtractKeywords([p, q]) == Tally(kept);
  }

}
