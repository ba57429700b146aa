/** Scanning a description made of plain words separated by single spaces,
    and the worked example of the scanner: "We use RPA and LLM heavily, no
    offshoring here". */
module ScanScenario {
  import opened Wrappers
  import opened JsText
  import opened KeywordScan

  // ---------------------------------------------------------------------
  // Plain sentences
  // ---------------------------------------------------------------------

  /** A word of a plain sentence: not empty, no whitespace and no `<`. */
  predicate PlainWord(w: string) {
    w != [] && forall c | c in w :: !IsSpace(c) && c != '<'
  }

  /** Plain words joined by single spaces have no `<`, whitespace only as
      single spaces and none at either end. */
  lemma {:induction false} SentenceShape(words: seq<string>)
    requires words != []
    requires forall w | w in words :: PlainWord(w)
    ensures var s := Join(words, " ");
            && s != [] && '<' !in s && SpacesCollapsed(s)
            && !IsSpace(s[0]) && !IsSpace(s[|s| - 1])
  {
    var s := Join(words, " ");
    var w := words[0];
    assert w in words;
    if |words| == 1 {
      assert s == w;
      forall k | 0 <= k < |s|
        ensures !IsSpace(s[k])
      {
        assert s[k] in w;
      }
    } else {
      var rest := Join(words[1..], " ");
      assert forall v | v in words[1..] :: v in words;
      SentenceShape(words[1..]);
      assert s == w + " " + rest;
      forall k | 0 <= k < |s|
        ensures k < |w| ==> !IsSpace(s[k])
        ensures k == |w| ==> s[k] == ' '
        ensures k > |w| ==> s[k] == rest[k - |w| - 1]
      {
        if k < |w| {
          assert s[k] == w[k] && w[k] in w;
        }
      }
    }
  }

  /** Cleaning plain words joined by single spaces only lower-cases them. */
  lemma CleanSentence(words: seq<string>)
    requires words != []
    requires forall w | w in words :: PlainWord(w)
    ensures CleanText(Some(Join(words, " "))) == ToLower(Join(words, " "))
  {
    var s := Join(words, " ");
    SentenceShape(words);
    assert TagFree(s);
    StripTagsFixpoint(s);
    CollapseSpacesFixpoint(s);
    TrimFixpoint(s);
  }

  lemma ToLowerConcat(a: string, b: string)
    ensures ToLower(a + b) == ToLower(a) + ToLower(b)
  {
    assert forall k | 0 <= k < |b| :: (a + b)[|a| + k] == b[k];
  }

  /** Each word lower-cased. */
  function LowerAll(words: seq<string>): seq<string> {
    seq(|words|, k requires 0 <= k < |words| => ToLower(words[k]))
  }

  /** Lower-casing a sentence lower-cases each of its words. */
  lemma {:induction false} LowerSentence(words: seq<string>)
    ensures ToLower(Join(words, " ")) == Join(LowerAll(words), " ")
  {
    if |words| >= 2 {
      LowerSentence(words[1..]);
      assert LowerAll(words)[1..] == LowerAll(words[1..]);
      ToLowerConcat(words[0] + " ", Join(words[1..], " "));
      ToLowerConcat(words[0], " ");
    }
  }

  // ---------------------------------------------------------------------
  // Matching in a sentence
  // ---------------------------------------------------------------------

  lemma {:induction false} JoinAppend(a: seq<string>, b: seq<string>, sep: string)
    requires a != [] && b != []
    ensures Join(a + b, sep) == Join(a, sep) + sep + Join(b, sep)
  {
    if |a| == 1 {
      assert (a + b)[1..] == b;
    } else {
      JoinAppend(a[1..], b, sep);
      assert (a + b)[1..] == a[1..] + b;
    }
  }

  /** A word between two others that starts and ends with a word character
      matches as a keyword: it occurs with a `\b` on both sides. */
  lemma WordMatches(words: seq<string>, k: nat)
    requires 0 < k < |words| - 1
    requires words[k] != [] && IsWordChar(words[k][0]) && IsWordChar(words[k][|words[k]| - 1])
    ensures KeywordMatches(Join(words, " "), words[k])
  {
    var w := words[k];
    var pre := Join(words[..k], " ");
    var post := Join(words[k + 1..], " ");
    assert words[..k] + words[k..] == words;
    JoinAppend(words[..k], words[k..], " ");
    assert words[k..][1..] == words[k + 1..];
    var s := Join(words, " ");
    assert s == pre + " " + (w + " " + post);
    var i := |pre| + 1;
    assert s[i..i + |w|] == w;
    assert s[i - 1] == ' ' && s[i] == w[0];
    assert s[i + |w| - 1] == w[|w| - 1] && s[i + |w|] == ' ';
    assert OccursAt(s, w, i) && IsBoundary(s, i) && IsBoundary(s, i + |w|);
  }

  /** The character at position p of an occurrence starting at i. */
  lemma OccurrenceChar(s: string, g: string, i: nat, p: nat)
    requires OccursAt(s, g, i) && i <= p < i + |g|
    ensures s[p] == g[p - i] && g[p - i] in g
  {
    assert s[p] == s[i..i + |g|][p - i];
  }

  /** Every character of an occurring piece is a character of the text. */
  lemma OccurrenceChars(s: string, g: string, i: nat)
    requires OccursAt(s, g, i)
    ensures forall c | c in g :: c in s
  {
    forall c | c in g
      ensures c in s
    {
      var m :| 0 <= m < |g| && g[m] == c;
      OccurrenceChar(s, g, i, i + m);
    }
  }

  /** A piece of text without spaces that occurs in a sentence occurs
      within one of its words. */
  lemma {:induction false} OccurrenceWithinWord(words: seq<string>, g: string, i: nat)
    requires g != [] && ' ' !in g
    requires OccursAt(Join(words, " "), g, i)
    ensures exists w, j: nat :: w in words && OccursAt(w, g, j)
  {
    var s := Join(words, " ");
    if |words| == 1 {
      assert OccursAt(words[0], g, i);
    } else {
      var w := words[0];
      var rest := Join(words[1..], " ");
      assert s == w + " " + rest;
      if i + |g| <= |w| {
        assert s[i..i + |g|] == w[i..i + |g|];
        assert OccursAt(words[0], g, i);
      } else if i > |w| {
        var i' := i - |w| - 1;
        assert s[i..i + |g|] == rest[i'..i' + |g|];
        OccurrenceWithinWord(words[1..], g, i');
        assert forall v | v in words[1..] :: v in words;
      } else {
        OccurrenceChar(s, g, i, |w|);
        assert false;
      }
    }
  }

  /** A keyword does not match a sentence when a piece of it without spaces
      fits in no word: each word is shorter than the piece or lacks one of
      two of its characters. */
  lemma PieceMissing(words: seq<string>, kw: string, a: nat, g: string, c1: char, c2: char)
    requires g != [] && ' ' !in g
    requires a + |g| <= |kw| && kw[a..a + |g|] == g
    requires c1 in g && c2 in g
    requires forall w | w in words :: |w| < |g| || c1 !in w || c2 !in w
    ensures !KeywordMatches(Join(words, " "), kw)
  {
    var s := Join(words, " ");
    forall i: nat | i <= |s|
      ensures !OccursAt(s, kw, i)
    {
      PieceOccurs(s, kw, i, a, g);
      PieceNowhere(words, g, c1, c2, i + a);
    }
  }

  /** A space-free piece that no word can hold occurs nowhere in the
      sentence. */
  lemma PieceNowhere(words: seq<string>, g: string, c1: char, c2: char, i: nat)
    requires g != [] && ' ' !in g
    requires c1 in g && c2 in g
    requires forall w | w in words :: |w| < |g| || c1 !in w || c2 !in w
    ensures !OccursAt(Join(words, " "), g, i)
  {
    if OccursAt(Join(words, " "), g, i) {
      OccurrenceWithinWord(words, g, i);
      var w, j: nat :| w in words && OccursAt(w, g, j);
      OccurrenceChars(w, g, j);
      assert false;
    }
  }

  /** A piece of an occurring keyword occurs at the matching offset. */
  lemma PieceOccurs(s: string, kw: string, i: nat, a: nat, g: string)
    requires a + |g| <= |kw| && kw[a..a + |g|] == g
    ensures OccursAt(s, kw, i) ==> OccursAt(s, g, i + a)
  {
    if OccursAt(s, kw, i) {
      forall k | 0 <= k < |g|
        ensures s[i + a + k] == g[k]
      {
        assert g[k] == kw[a + k] == s[i..i + |kw|][a + k];
      }
      assert s[i + a..i + a + |g|] == g;
    }
  }

  /** Keywords that each contain a character no word has do not match. */
  lemma CharMissing(words: seq<string>, keywords: seq<string>, c: char)
    requires c != ' '
    requires forall w | w in words :: c !in w
    requires forall kw | kw in keywords :: c in kw
    ensures forall kw | kw in keywords :: !KeywordMatches(Join(words, " "), kw)
  {
    forall kw | kw in keywords
      ensures !KeywordMatches(Join(words, " "), kw)
    {
      var a :| 0 <= a < |kw| && kw[a] == c;
      assert kw[a..a + 1] == [c];
      PieceMissing(words, kw, a, [c], c, c);
    }
  }

  // ---------------------------------------------------------------------
  // Filtering a lexicon
  // ---------------------------------------------------------------------

  lemma {:induction false} KeywordsMatchingAppend(text: string, a: seq<string>, b: seq<string>)
    ensures KeywordsMatching(text, a + b) == KeywordsMatching(text, a) + KeywordsMatching(text, b)
  {
    if b != [] {
      var b' := b[..|b| - 1];
      var kw := b[|b| - 1];
      var last: seq<string> := if KeywordMatches(text, kw) then [kw] else [];
      KeywordsMatchingAppend(text, a, b');
      assert (a + b)[..|a + b| - 1] == a + b';
      assert (a + b)[|a + b| - 1] == kw;
      calc {
        KeywordsMatching(text, a + b);
        KeywordsMatching(text, a + b') + last;
        KeywordsMatching(text, a) + KeywordsMatching(text, b') + last;
        KeywordsMatching(text, a) + (KeywordsMatching(text, b') + last);
        KeywordsMatching(text, a) + KeywordsMatching(text, b);
      }
    } else {
      assert a + b == a;
    }
  }

  lemma {:induction false} KeywordsMatchingNone(text: string, keywords: seq<string>)
    requires forall kw | kw in keywords :: !KeywordMatches(text, kw)
    ensures KeywordsMatching(text, keywords) == []
  {
    if keywords != [] {
      var init := keywords[..|keywords| - 1];
      assert forall kw | kw in init :: kw in keywords;
      assert keywords[|keywords| - 1] in keywords;
      assert !KeywordMatches(text, keywords[|keywords| - 1]);
      KeywordsMatchingNone(text, init);
    }
  }

  /** When only the first and the last keyword match, those two are found. */
  lemma OnlyEndsMatch(text: string, first: string, middle: seq<string>, last: string)
    requires KeywordMatches(text, first) && KeywordMatches(text, last)
    requires forall kw | kw in middle :: !KeywordMatches(text, kw)
    ensures KeywordsMatching(text, [first] + middle + [last]) == [first, last]
  {
    KeywordsMatchingAppend(text, [first] + middle, [last]);
    KeywordsMatchingAppend(text, [first], middle);
    KeywordsMatchingNone(text, middle);
  }

  // ---------------------------------------------------------------------
  // The worked example
  // ---------------------------------------------------------------------

  /** The words of "We use RPA and LLM heavily, no offshoring here". */
  const Words: seq<string> := ["We", "use", "RPA", "and", "LLM", "heavily,", "no", "offshoring", "here"]
  const LowerWords: seq<string> := ["we", "use", "rpa", "and", "llm", "heavily,", "no", "offshoring", "here"]

  /** Words without capitals are their own lower-case forms. */
  lemma NoCapitalsLowered(words: seq<string>)
    requires forall w | w in words :: forall c | c in w :: !IsUpperAscii(c)
    ensures LowerAll(words) == words
  {
    forall k | 0 <= k < |words|
      ensures ToLower(words[k]) == words[k]
    {
      var w := words[k];
      assert w in words;
      forall m | 0 <= m < |w|
        ensures !IsUpperAscii(w[m])
      {
        assert w[m] in w;
      }
      ToLowerFixpoints(w);
    }
  }

  lemma CapitalsLowered()
    ensures ToLower("We") == "we" && ToLower("RPA") == "rpa" && ToLower("LLM") == "llm"
  {
  }

  lemma WordsLowered()
    ensures LowerAll(Words) == LowerWords
  {
    NoCapitalsLowered(LowerWords);
    CapitalsLowered();
    forall k | 0 <= k < |Words|
      ensures LowerAll(Words)[k] == LowerWords[k]
    {
      if k != 0 && k != 2 && k != 4 {
        assert Words[k] == LowerWords[k];
        assert LowerAll(Words)[k] == LowerAll(LowerWords)[k];
      }
    }
  }

  lemma ExampleCleaned()
    ensures CleanText(Some(Join(Words, " "))) == Join(LowerWords, " ")
  {
    assert forall w | w in Words :: PlainWord(w);
    CleanSentence(Words);
    LowerSentence(Words);
    WordsLowered();
  }

  lemma ExampleWordsLack()
    ensures forall w | w in LowerWords :: 't' !in w && 'c' !in w && 'b' !in w && '-' !in w
  {
  }

  /** None of the other AI phrases occurs in the cleaned example. */
  lemma ExampleAiMisses()
    ensures forall kw | kw in AiKeywords[1..11] :: !KeywordMatches(Join(LowerWords, " "), kw)
  {
    ExampleAiMissesFirst();
    ExampleAiMissesSecond();
    assert AiKeywords[1..11] == AiKeywords[1..6] + AiKeywords[6..11];
  }

  lemma ExampleAiMissesFirst()
    ensures forall kw | kw in AiKeywords[1..6] :: !KeywordMatches(Join(LowerWords, " "), kw)
  {
    ExampleNotLargeLanguageModel();
    ExampleNotGenai();
    ExampleNotWithT();
    assert AiKeywords[1..6] == ["large language model", "generative ai", "genai", "automation", "automated"];
  }

  lemma ExampleNotWithT()
    ensures forall kw | kw in ["generative ai", "automation", "automated"] :: !KeywordMatches(Join(LowerWords, " "), kw)
  {
    ExampleWordsLack();
    CharMissing(LowerWords, ["generative ai", "automation", "automated"], 't');
  }

  lemma ExampleAiMissesSecond()
    ensures forall kw | kw in AiKeywords[6..11] :: !KeywordMatches(Join(LowerWords, " "), kw)
  {
    ExampleWordsLack();
    forall kw | kw in AiKeywords[6..11]
      ensures !KeywordMatches(Join(LowerWords, " "), kw)
    {
      if kw == "machine learning" || kw == "copilot" {
        CharMissing(LowerWords, [kw], 'c');
      } else if kw == "ai-assisted" {
        CharMissing(LowerWords, [kw], '-');
      } else {
        CharMissing(LowerWords, [kw], 't');
      }
    }
  }

  lemma ExampleNotLargeLanguageModel()
    ensures !KeywordMatches(Join(LowerWords, " "), "large language model")
  {
    PieceMissing(LowerWords, "large language model", 15, "model", 'm', 'm');
  }

  lemma ExampleNotGenai()
    ensures !KeywordMatches(Join(LowerWords, " "), "genai")
  {
    PieceMissing(LowerWords, "genai", 0, "genai", 'g', 'e');
  }

  /** "offshore" does not occur in the cleaned example, although its first
      seven letters do. */
  lemma ExampleNotOffshore()
    ensures !KeywordMatches(Join(LowerWords, " "), "offshore")
  {
    PieceMissing(LowerWords, "offshore", 0, "offshore", 'e', 'o');
  }

  /** The offshoring phrases without a space that the example misses,
      though all but one or two of their letters occur in its words. */
  lemma ExamplePieceMisses()
    ensures forall kw | kw in ["nearshore", "vendor", "msp"] :: !KeywordMatches(Join(LowerWords, " "), kw)
  {
    ExampleNotNearshore();
    ExampleNotVendor();
    ExampleNotMsp();
  }

  lemma ExampleNotNearshore()
    ensures !KeywordMatches(Join(LowerWords, " "), "nearshore")
  {
    PieceMissing(LowerWords, "nearshore", 0, "nearshore", 'a', 'a');
  }

  lemma ExampleNotVendor()
    ensures !KeywordMatches(Join(LowerWords, " "), "vendor")
  {
    PieceMissing(LowerWords, "vendor", 0, "vendor", 'd', 'd');
  }

  lemma ExampleNotMsp()
    ensures !KeywordMatches(Join(LowerWords, " "), "msp")
  {
    PieceMissing(LowerWords, "msp", 0, "msp", 'm', 's');
  }

  /** No offshoring phrase after "offshoring" occurs in the cleaned
      example. */
  lemma ExampleOffshoringMisses()
    ensures forall kw | kw in OffshoringKeywords[2..] :: !KeywordMatches(Join(LowerWords, " "), kw)
  {
    ExampleWordsLack();
    ExamplePieceMisses();
    forall kw | kw in OffshoringKeywords[2..] && kw !in ["nearshore", "vendor", "msp"]
      ensures !KeywordMatches(Join(LowerWords, " "), kw)
    {
      if kw == "global delivery" {
        CharMissing(LowerWords, [kw], 'b');
      } else if kw == "managed service provider" || kw == "shared services" {
        CharMissing(LowerWords, [kw], 'c');
      } else {
        CharMissing(LowerWords, [kw], 't');
      }
    }
  }

  /** The three words of the example that are keywords match. */
  lemma ExampleHits()
    ensures KeywordMatches(Join(LowerWords, " "), "rpa")
    ensures KeywordMatches(Join(LowerWords, " "), "llm")
    ensures KeywordMatches(Join(LowerWords, " "), "offshoring")
  {
    assert LowerWords[2] == "rpa" && LowerWords[4] == "llm" && LowerWords[7] == "offshoring";
    WordMatches(LowerWords, 2);
    WordMatches(LowerWords, 4);
    WordMatches(LowerWords, 7);
  }

  /** A text on which llm and rpa are the only AI phrases that match. */
  lemma AiFoundAtEnds(text: string)
    requires KeywordMatches(text, "llm") && KeywordMatches(text, "rpa")
    requires forall kw | kw in AiKeywords[1..11] :: !KeywordMatches(text, kw)
    ensures KeywordsMatching(text, AiKeywords) == ["llm", "rpa"]
  {
    assert AiKeywords == ["llm"] + AiKeywords[1..11] + ["rpa"];
    OnlyEndsMatch(text, "llm", AiKeywords[1..11], "rpa");
  }

  /** A text on which "offshoring" is the only offshoring phrase that
      matches. */
  lemma OffshoringFoundAlone(text: string)
    requires !KeywordMatches(text, "offshore") && KeywordMatches(text, "offshoring")
    requires forall kw | kw in OffshoringKeywords[2..] :: !KeywordMatches(text, kw)
    ensures KeywordsMatching(text, OffshoringKeywords) == ["offshoring"]
  {
    var tail := OffshoringKeywords[2..];
    assert OffshoringKeywords == ["offshore", "offshoring"] + tail;
    KeywordsMatchingAppend(text, ["offshore", "offshoring"], tail);
    KeywordsMatchingNone(text, tail);
    KeywordsMatchingAppend(text, ["offshore"], ["offshoring"]);
  }

  /** The worked example: "We use RPA and LLM heavily, no offshoring here"
      reports the AI keywords llm and rpa, at the medium level, and the
      offshoring keyword offshoring, at the low level. */
  lemma ExampleReport()
    ensures var r := ScanJobDescription(Some(Join(Words, " ")));
            && r.ai_keywords_found == ["llm", "rpa"] && r.ai_score == 2
            && r.ai_signal_level == Medium
            && r.offshoring_keywords_found == ["offshoring"] && r.offshoring_score == 1
            && r.offshoring_signal_level == Low
  {
    var t := Join(LowerWords, " ");
    ExampleCleaned();
    ExampleHits();
    ExampleAiMisses();
    ExampleNotOffshore();
    ExampleOffshoringMisses();
    AiFoundAtEnds(t);
    OffshoringFoundAlone(t);
  }

  // ---------------------------------------------------------------------
  // A text with tags
  // ---------------------------------------------------------------------

  /** A worked example: the tags become spaces, the spaces collapse, the
      ends are trimmed and the text is lower-cased, so
      `cleanText("<b>Hi</b>  there")` is `"hi there"`. The result is written
      as a concatenation because the verifier does not evaluate the cleaning
      functions on a whole string literal cheaply. */
  lemma TaggedCleaned()
    ensures CleanText(Some("<b>Hi</b>  there")) == "hi" + " " + "there"
  {
    TaggedStripped();
    TaggedCollapsed();
    TaggedTrimmed();
  }

  lemma TaggedStripped()
    ensures StripTags("<b>Hi</b>  there") == [' '] + ("Hi" + [' '] + "  there")
  {
    assert "<b>Hi</b>  there" == ['<'] + "b" + ['>'] + ("Hi" + ['<'] + "/b" + ['>'] + "  there");
    StripTwoTags("b", "Hi", "/b", "  there");
  }

  /** A space, a word, a whitespace run and a last word collapse to the
      two words with single spaces. */
  lemma CollapseTwoWords(w: string, u: string, b: string)
    requires w != [] && forall k :: 0 <= k < |w| ==> !IsSpace(w[k])
    requires u != [] && forall k :: 0 <= k < |u| ==> IsSpace(u[k])
    requires forall k :: 0 <= k < |b| ==> !IsSpace(b[k])
    ensures CollapseSpaces([' '] + (w + u + b)) == [' '] + (w + [' '] + b)
  {
    assert (w + u + b)[0] == w[0];
    CollapseSpacesLeadingRun([' '], w + u + b);
    CollapseSpacesRun(w, u, b);
    CollapseSpacesPlain(b, []);
    assert b + [] == b;
  }

  lemma TaggedCollapsed()
    ensures CollapseSpaces([' '] + ("Hi" + [' '] + "  there")) == [' '] + ("Hi" + [' '] + "there")
  {
    assert [' '] + ("Hi" + [' '] + "  there") == [' '] + ("Hi" + "   " + "there");
    CollapseTwoWords("Hi", "   ", "there");
  }

  lemma TaggedTrimmed()
    ensures ToLower(Trim([' '] + ("Hi" + [' '] + "there"))) == "hi" + " " + "there"
  {
    TrimStartRun([' '], "Hi" + [' '] + "there");
    HiThereLowered();
  }

  lemma HiThereLowered()
    ensures ToLower("Hi" + [' '] + "there") == "hi" + " " + "there"
  {
    ToLowerConcat("Hi" + [' '], "there");
    ToLowerConcat("Hi", [' ']);
  }

  // ---------------------------------------------------------------------
  // Two plain words
  // ---------------------------------------------------------------------

  /** A one-line description, as in the Adzuna example of the enrichment,
      cleans to its lower-cased words. */
  lemma DescriptionCleaned()
    ensures CleanText(Some("Build things")) == "build" + " " + "things"
  {
    BuildThingsCleaned();
    BuildThingsLowered();
  }

  lemma BuildThingsCleaned()
    ensures CleanText(Some("Build things")) == ToLower("Build") + " " + ToLower("things")
  {
    assert "Build things" == "Build" + " " + "things";
    CleanTwoWords("Build", "things");
  }

  lemma BuildThingsLowered()
    ensures ToLower("Build") == "build" && ToLower("things") == "things"
  {
  }

  /** Two plain words joined by a space clean to the lower-cased words. */
  lemma CleanTwoWords(w1: string, w2: string)
    requires PlainWord(w1) && PlainWord(w2)
    ensures CleanText(Some(w1 + " " + w2)) == ToLower(w1) + " " + ToLower(w2)
  {
    var words := [w1, w2];
    assert Join(words, " ") == w1 + " " + w2;
    CleanSentence(words);
    ToLowerConcat(w1 + " ", w2);
    ToLowerConcat(w1, " ");
  }
}
