/** The text normaliser and keyword-signal scanner of the enrichment engine
    (keywordScan.js). */
module KeywordScan {
  import opened Wrappers
  import opened JsText

  // ---------------------------------------------------------------------
  // Lexicons
  // ---------------------------------------------------------------------

  /** The AI / automation lexicon. */
  const AiKeywords: seq<string> := [
    "llm", "large language model", "generative ai", "genai", "automation",
    "automated", "machine learning", "artificial intelligence", "copilot",
    "agentic", "ai-assisted", "rpa"
  ]

  /** The offshoring lexicon. */
  const OffshoringKeywords: seq<string> := [
    "offshore", "offshoring", "outsourcing", "outsource", "nearshore",
    "global delivery", "third-party", "vendor", "managed service provider",
    "msp", "shared services"
  ]

  predicate NoDuplicates<T(==)>(s: seq<T>) {
    forall i, j :: 0 <= i < j < |s| ==> s[i] != s[j]
  }

  /** Neither lexicon lists a phrase twice, so the matches found are
      exactly the lexicon filtered by the text (see MatchedIsFilter). */
  lemma LexiconsHaveNoDuplicates()
    ensures NoDuplicates(AiKeywords)
    ensures NoDuplicates(OffshoringKeywords)
  {
    assert NoDuplicates(AiKeywords);
  }

  // ---------------------------------------------------------------------
  // cleanText
  // ---------------------------------------------------------------------

  /** No `<` is followed, anywhere later, by a `>`: no complete `<...>` tag
      is left in the string. */
  predicate TagFree(s: string) {
    forall i, j :: 0 <= i < j < |s| ==> !(s[i] == '<' && s[j] == '>')
  }

  lemma TagFreeCons(c: char, s: string)
    requires TagFree(s)
    requires c == '<' ==> '>' !in s
    ensures TagFree([c] + s)
  {
    var t := [c] + s;
    forall i, j | 0 <= i < j < |t| && t[i] == '<'
      ensures t[j] != '>'
    {
      if i == 0 {
        assert t[j] == s[j - 1];
      } else {
        assert t[i] == s[i - 1] && t[j] == s[j - 1];
      }
    }
  }

  /** What follows the first `c` of `s`. */
  function AfterFirst(s: string, c: char): (r: string)
    requires c in s
    ensures |r| < |s| && r == s[|s| - |r|..]
    ensures s[|s| - |r| - 1] == c && c !in s[..|s| - |r| - 1]
  {
    if s[0] == c then s[1..] else AfterFirst(s[1..], c)
  }

  /** `replace(/<[^>]*>/g, " ")`: scanning left to right, each `<` that has
      a `>` after it starts a tag reaching to the first such `>`, and the
      whole tag becomes one space. A `<` without a later `>` is kept. */
  function StripTags(s: string): (r: string)
    ensures TagFree(r)
    ensures forall k :: 0 <= k < |r| && r[k] != ' ' ==> r[k] in s
    decreases |s|
  {
    if s == [] then []
    else if s[0] == '<' && '>' in s[1..] then
      var rest := AfterFirst(s[1..], '>');
      var r := StripTags(rest);
      TagFreeCons(' ', r);
      assert forall k :: 0 <= k < |r| && r[k] != ' ' ==> r[k] in s by {
        assert forall c :: c in rest ==> c in s;
      }
      [' '] + r
    else
      var r := StripTags(s[1..]);
      assert forall k :: 0 <= k < |r| && r[k] != ' ' ==> r[k] in s by {
        assert forall c :: c in s[1..] ==> c in s;
      }
      TagFreeCons(s[0], r);
      [s[0]] + r
  }

  /** A string without complete tags is left unchanged by StripTags. */
  lemma {:induction false} StripTagsFixpoint(s: string)
    requires TagFree(s)
    ensures StripTags(s) == s
  {
    if s != [] {
      if s[0] == '<' {
        assert forall j :: 1 <= j < |s| ==> s[j] != '>';
        assert '>' !in s[1..];
      }
      assert TagFree(s[1..]) by {
        forall i, j | 0 <= i < j < |s| - 1
          ensures !(s[1..][i] == '<' && s[1..][j] == '>')
        {
          assert s[1..][i] == s[i + 1] && s[1..][j] == s[j + 1];
        }
      }
      StripTagsFixpoint(s[1..]);
    }
  }

  /** Text without a `<` passes through tag stripping unchanged, whatever
      follows it. */
  lemma {:induction false} StripTagsPlain(a: string, b: string)
    requires '<' !in a
    ensures StripTags(a + b) == a + StripTags(b)
  {
    if a != [] {
      assert (a + b)[0] == a[0] && (a + b)[1..] == a[1..] + b;
      assert a[0] in a && '<' !in a[1..];
      assert StripTags(a + b) == [a[0]] + StripTags(a[1..] + b);
      StripTagsPlain(a[1..], b);
      assert a == [a[0]] + a[1..];
    } else {
      assert a + b == b;
    }
  }

  /** A `<`, a run without `>`, and the closing `>` become one space. */
  lemma StripTagsOneTag(t: string, b: string)
    requires '>' !in t
    ensures StripTags(['<'] + t + ['>'] + b) == [' '] + StripTags(b)
  {
    var s := ['<'] + t + ['>'] + b;
    var tail := s[1..];
    assert tail == t + ['>'] + b;
    assert tail[|t|] == '>';
    assert tail[..|t|] == t;
    AfterFirstAt(tail, '>', |t|);
    assert tail[|t| + 1..] == b;
  }

  /** When the first `c` of s is at position i, what follows it is s[i+1..]. */
  lemma {:induction false} AfterFirstAt(s: string, c: char, i: nat)
    requires i < |s| && s[i] == c && c !in s[..i]
    ensures AfterFirst(s, c) == s[i + 1..]
  {
    if i > 0 {
      assert s[0] == s[..i][0];
      assert s[1..][..i - 1] == s[..i][1..];
      AfterFirstAt(s[1..], c, i - 1);
      assert s[1..][i..] == s[i + 1..];
    }
  }

  /** Each complete tag is replaced by exactly one space, and the text
      before it is kept as it is. */
  lemma StripTagsReplacesTag(a: string, t: string, b: string)
    requires '<' !in a && '>' !in t
    ensures StripTags(a + ['<'] + t + ['>'] + b) == a + [' '] + StripTags(b)
  {
    assert a + ['<'] + t + ['>'] + b == a + (['<'] + t + ['>'] + b);
    StripTagsPlain(a, ['<'] + t + ['>'] + b);
    StripTagsOneTag(t, b);
  }

  /** Whitespace appears only as single plain spaces. */
  predicate SpacesCollapsed(s: string) {
    && (forall k :: 0 <= k < |s| && IsSpace(s[k]) ==> s[k] == ' ')
    && (forall k :: 0 <= k < |s| - 1 ==> !(IsSpace(s[k]) && IsSpace(s[k + 1])))
  }

  /** Both shapes survive taking a slice. */
  lemma SliceKeepsShape(s: string, a: nat, b: nat)
    requires a <= b <= |s|
    ensures TagFree(s) ==> TagFree(s[a..b])
    ensures SpacesCollapsed(s) ==> SpacesCollapsed(s[a..b])
  {
    var t := s[a..b];
    forall k | 0 <= k < |t|
      ensures t[k] == s[k + a]
    {
    }
    if TagFree(s) {
      forall i, j | 0 <= i < j < |t|
        ensures !(t[i] == '<' && t[j] == '>')
      {
        assert t[i] == s[i + a] && t[j] == s[j + a];
      }
    }
    if SpacesCollapsed(s) {
      forall k | 0 <= k < |t| - 1
        ensures !(IsSpace(t[k]) && IsSpace(t[k + 1]))
      {
        assert t[k] == s[k + a] && t[k + 1] == s[k + 1 + a];
      }
    }
  }

  /** `replace(/\s+/g, " ")`: every maximal run of whitespace becomes one
      space. */
  function CollapseSpaces(s: string): (r: string)
    ensures |r| <= |s|
    ensures s != [] ==> r != [] && r[0] == (if IsSpace(s[0]) then ' ' else s[0])
    ensures SpacesCollapsed(r)
    decreases |s|
  {
    if s == [] then []
    else if IsSpace(s[0]) then
      var rest := TrimStart(s[1..]);
      var tail := CollapseSpaces(rest);
      SpacesCollapsedCons(' ', tail);
      [' '] + tail
    else
      var tail := CollapseSpaces(s[1..]);
      SpacesCollapsedCons(s[0], tail);
      [s[0]] + tail
  }

  /** A plain space may go before a collapsed string that does not start
      with whitespace; any other character may go before any collapsed
      string. */
  lemma SpacesCollapsedCons(c: char, t: string)
    requires SpacesCollapsed(t)
    requires IsSpace(c) ==> c == ' ' && (t == [] || !IsSpace(t[0]))
    ensures SpacesCollapsed([c] + t)
  {
    var u := [c] + t;
    forall k | 1 <= k < |u|
      ensures u[k] == t[k - 1]
    {
    }
  }

  /** The non-whitespace characters of a string, in order. */
  function WithoutSpaces(s: string): (r: string)
    ensures |r| <= |s|
    ensures forall k :: 0 <= k < |r| ==> !IsSpace(r[k])
  {
    if s == [] then []
    else if IsSpace(s[0]) then WithoutSpaces(s[1..])
    else [s[0]] + WithoutSpaces(s[1..])
  }

  lemma {:induction false} TrimStartKeepsText(s: string)
    ensures WithoutSpaces(TrimStart(s)) == WithoutSpaces(s)
  {
    if s != [] && IsSpace(s[0]) {
      TrimStartKeepsText(s[1..]);
    }
  }

  /** Collapsing only rewrites whitespace: the other characters are kept,
      in order. */
  lemma {:induction false} CollapseSpacesKeepsText(s: string)
    ensures WithoutSpaces(CollapseSpaces(s)) == WithoutSpaces(s)
    decreases |s|
  {
    if s != [] {
      if IsSpace(s[0]) {
        var rest := TrimStart(s[1..]);
        CollapseSpacesKeepsText(rest);
        TrimStartKeepsText(s[1..]);
      } else {
        CollapseSpacesKeepsText(s[1..]);
      }
    }
  }

  /** What collapsing leaves after the first character: the tail with its
      leading whitespace run dropped when the string starts with one. */
  function CollapseTail(s: string): (t: string)
    requires s != []
    ensures |t| < |s| && t == s[|s| - |t|..]
  {
    var u := s[1..];
    if IsSpace(s[0]) then
      var t := TrimStart(u);
      assert u[|u| - |t|..] == s[|s| - |t|..];
      t
    else u
  }

  /** Collapsing writes no character other than a space that is not already
      in the input. */
  lemma {:induction false} CollapseSpacesChars(s: string)
    ensures forall k :: 0 <= k < |CollapseSpaces(s)| && CollapseSpaces(s)[k] != ' ' ==> CollapseSpaces(s)[k] in s
    decreases |s|
  {
    if s != [] {
      var tail := CollapseTail(s);
      CollapseSpacesChars(tail);
      var r := CollapseSpaces(tail);
      assert CollapseSpaces(s) == [if IsSpace(s[0]) then ' ' else s[0]] + r;
      assert forall c :: c in tail ==> c in s;
    }
  }

  /** Collapsing only writes spaces, so a tag-free string stays tag-free. */
  lemma {:induction false} CollapseSpacesKeepsTagFree(s: string)
    requires TagFree(s)
    ensures TagFree(CollapseSpaces(s))
    decreases |s|
  {
    if s != [] {
      var tail := CollapseTail(s);
      SliceKeepsShape(s, |s| - |tail|, |s|);
      CollapseSpacesKeepsTagFree(tail);
      var r := CollapseSpaces(tail);
      if IsSpace(s[0]) {
        assert CollapseSpaces(s) == [' '] + r;
        TagFreeCons(' ', r);
      } else {
        assert CollapseSpaces(s) == [s[0]] + r;
        if s[0] == '<' {
          assert '>' !in tail by {
            assert forall j :: 1 <= j < |s| ==> s[j] != '>';
          }
          CollapseSpacesChars(tail);
        }
        TagFreeCons(s[0], r);
      }
    }
  }

  /** A string whose whitespace is already collapsed is left unchanged. */
  lemma {:induction false} CollapseSpacesFixpoint(s: string)
    requires SpacesCollapsed(s)
    ensures CollapseSpaces(s) == s
  {
    if s != [] {
      var rest := s[1..];
      assert SpacesCollapsed(rest) by {
        SliceKeepsShape(s, 1, |s|);
      }
      CollapseSpacesFixpoint(rest);
      if IsSpace(s[0]) {
        SpaceRunIsSingle(s);
      }
      assert CollapseSpaces(s) == [s[0]] + CollapseSpaces(rest);
      assert s == [s[0]] + rest;
    }
  }

  /** Trimming the start of a whitespace run followed by text that does
      not start with whitespace leaves that text. */
  lemma {:induction false} TrimStartRun(u: string, b: string)
    requires forall k :: 0 <= k < |u| ==> IsSpace(u[k])
    requires b == [] || !IsSpace(b[0])
    ensures TrimStart(u + b) == b
  {
    if u == [] {
      assert u + b == b;
    } else {
      assert (u + b)[0] == u[0] && (u + b)[1..] == u[1..] + b;
      TrimStartRun(u[1..], b);
    }
  }

  /** Text without whitespace passes through collapsing unchanged. */
  lemma {:induction false} CollapseSpacesPlain(w: string, b: string)
    requires forall k :: 0 <= k < |w| ==> !IsSpace(w[k])
    ensures CollapseSpaces(w + b) == w + CollapseSpaces(b)
  {
    if w == [] {
      assert w + b == b;
    } else {
      var s := w + b;
      assert s[0] == w[0] && s[1..] == w[1..] + b;
      assert CollapseSpaces(s) == [w[0]] + CollapseSpaces(w[1..] + b);
      CollapseSpacesPlain(w[1..], b);
      assert w == [w[0]] + w[1..];
    }
  }

  /** A leading whitespace run becomes one space. */
  lemma CollapseSpacesLeadingRun(u: string, b: string)
    requires u != [] && forall k :: 0 <= k < |u| ==> IsSpace(u[k])
    requires b == [] || !IsSpace(b[0])
    ensures CollapseSpaces(u + b) == [' '] + CollapseSpaces(b)
  {
    var v := u + b;
    assert IsSpace(v[0]);
    assert v[1..] == u[1..] + b;
    TrimStartRun(u[1..], b);
  }

  /** A whitespace run between two pieces of text becomes exactly one
      space: it neither disappears nor joins the neighbouring text. */
  lemma CollapseSpacesRun(w: string, u: string, b: string)
    requires forall k :: 0 <= k < |w| ==> !IsSpace(w[k])
    requires u != [] && forall k :: 0 <= k < |u| ==> IsSpace(u[k])
    requires b == [] || !IsSpace(b[0])
    ensures CollapseSpaces(w + u + b) == w + [' '] + CollapseSpaces(b)
  {
    assert w + u + b == w + (u + b);
    CollapseSpacesPlain(w, u + b);
    CollapseSpacesLeadingRun(u, b);
  }

  lemma SpaceRunIsSingle(s: string)
    requires SpacesCollapsed(s) && s != [] && IsSpace(s[0])
    ensures s[0] == ' ' && TrimStart(s[1..]) == s[1..]
  {
    assert 0 <= 0 < |s| - 1 ==> !(IsSpace(s[0]) && IsSpace(s[0 + 1]));
  }

  /** The form every cleaned text has: lower-case, no complete tag,
      whitespace collapsed to single spaces, none at either end. */
  predicate IsClean(s: string) {
    && HasNoUpper(s)
    && TagFree(s)
    && SpacesCollapsed(s)
    && (s == [] || (!IsSpace(s[0]) && !IsSpace(s[|s| - 1])))
  }

  lemma TrimKeepsShape(s: string)
    requires TagFree(s) && SpacesCollapsed(s)
    ensures TagFree(Trim(s)) && SpacesCollapsed(Trim(s))
  {
    var a, b :| 0 <= a <= b <= |s| && Trim(s) == s[a..b];
    SliceKeepsShape(s, a, b);
  }

  /** Lower-casing one character changes neither whitespace nor the tag
      brackets. */
  lemma LowerCharKeepsShape(c: char)
    ensures IsSpace(LowerChar(c)) <==> IsSpace(c)
    ensures IsSpace(c) ==> LowerChar(c) == c
    ensures LowerChar(c) == '<' <==> c == '<'
    ensures LowerChar(c) == '>' <==> c == '>'
  {
  }

  lemma LowerKeepsShape(s: string)
    requires TagFree(s) && SpacesCollapsed(s)
    requires s == [] || (!IsSpace(s[0]) && !IsSpace(s[|s| - 1]))
    ensures IsClean(ToLower(s))
  {
    var r := ToLower(s);
    assert TagFree(r) by {
      forall i, j | 0 <= i < j < |r|
        ensures !(r[i] == '<' && r[j] == '>')
      {
        LowerCharKeepsShape(s[i]);
        LowerCharKeepsShape(s[j]);
      }
    }
    assert SpacesCollapsed(r) by {
      forall k | 0 <= k < |r|
        ensures IsSpace(r[k]) ==> r[k] == ' '
      {
        LowerCharKeepsShape(s[k]);
      }
      forall k | 0 <= k < |r| - 1
        ensures !(IsSpace(r[k]) && IsSpace(r[k + 1]))
      {
        LowerCharKeepsShape(s[k]);
        LowerCharKeepsShape(s[k + 1]);
      }
    }
    if s != [] {
      LowerCharKeepsShape(s[0]);
      LowerCharKeepsShape(s[|s| - 1]);
    }
    ToLowerFixpoints(s);
  }

  /** `cleanText`: a missing or empty text gives `""`; otherwise tags become
      spaces, whitespace runs become one space, the ends are trimmed and the
      result is lower-cased. */
  function CleanText(text: Option<string>): (r: string)
    ensures (text == None || text == Some("")) ==> r == ""
    ensures IsClean(r)
  {
    if text == None || text.value == "" then ""
    else
      var stripped := StripTags(text.value);
      var collapsed := CollapseSpaces(stripped);
      CollapseSpacesKeepsTagFree(stripped);
      var trimmed := Trim(collapsed);
      TrimKeepsShape(collapsed);
      LowerKeepsShape(trimmed);
      ToLower(trimmed)
  }

  /** The cleaned strings are exactly the fixpoints of CleanText. */
  lemma CleanTextFixpoints(s: string)
    ensures CleanText(Some(s)) == s <==> IsClean(s)
  {
    if IsClean(s) && s != "" {
      StripTagsFixpoint(s);
      CollapseSpacesFixpoint(s);
      TrimFixpoint(s);
      ToLowerFixpoints(s);
    }
  }

  /** `cleanText` is idempotent. */
  lemma CleanTextIdempotent(text: Option<string>)
    ensures CleanText(Some(CleanText(text))) == CleanText(text)
  {
    CleanTextFixpoints(CleanText(text));
  }

  /** Two tags around plain text become two spaces. */
  lemma StripTwoTags(t1: string, a: string, t2: string, b: string)
    requires '>' !in t1 && '<' !in a && '>' !in t2 && '<' !in b
    ensures StripTags(['<'] + t1 + ['>'] + (a + ['<'] + t2 + ['>'] + b)) == [' '] + (a + [' '] + b)
  {
    StripTagsOneTag(t1, a + ['<'] + t2 + ['>'] + b);
    StripTagsReplacesTag(a, t2, b);
    StripTagsPlain(b, []);
    assert b + [] == b;
  }

  // ---------------------------------------------------------------------
  // escapeRegex and the regular expressions built from keywords
  // ---------------------------------------------------------------------

  /** The characters `escapeRegex` prefixes with a backslash: the class
      `[.*+?^${}()|[\]\\]`. */
  predicate IsRegexSpecial(c: char) {
    c in {'.', '*', '+', '?', '^', '$', '{', '}', '(', ')', '|', '[', ']', '\\'}
  }

  /** `escapeRegex` on one character: `"\\$&"` puts a backslash before a
      special character. */
  function EscapeChar(c: char): (r: string)
    ensures ParsePattern(r) == Some([Char(c)])
    ensures r[|r| - 1] == c && (|r| == 2 <==> IsRegexSpecial(c))
  {
    var r := if IsRegexSpecial(c) then ['\\', c] else [c];
    assert ParsePattern(r[|r|..]) == Some([]);
    assert [Char(c)] + [] == [Char(c)];
    r
  }

  /** `escapeRegex`: a backslash before each special character. */
  function EscapeRegex(s: string): (r: string)
    ensures |r| >= |s| && (r == [] <==> s == [])
    ensures (forall k :: 0 <= k < |s| ==> !IsRegexSpecial(s[k])) ==> r == s
    ensures (exists k :: 0 <= k < |s| && IsRegexSpecial(s[k])) ==> '\\' in r
  {
    if s == [] then [] else EscapeChar(s[0]) + EscapeRegex(s[1..])
  }

  /** The atoms of the regular expressions the scanner builds: a literal
      character, or the word-boundary assertion `\b`. */
  datatype Atom = Char(c: char) | WordBoundary

  /** Reads a pattern made only of literal characters, escaped special
      characters and `\b`; anything else (an unescaped special character,
      another escape, a trailing backslash) is outside this fragment and
      gives `None`. */
  function ParsePattern(p: string): (r: Option<seq<Atom>>)
    ensures r.Some? ==> |r.value| <= |p|
    ensures (forall k :: 0 <= k < |p| ==> !IsRegexSpecial(p[k])) ==> r == Some(Literal(p))
  {
    if p == [] then Some([])
    else if p[0] == '\\' then
      if |p| >= 2 && IsRegexSpecial(p[1]) then Prepend(Char(p[1]), ParsePattern(p[2..]))
      else if |p| >= 2 && p[1] == 'b' then Prepend(WordBoundary, ParsePattern(p[2..]))
      else None
    else if IsRegexSpecial(p[0]) then None
    else Prepend(Char(p[0]), ParsePattern(p[1..]))
  }

  function Prepend(a: Atom, r: Option<seq<Atom>>): Option<seq<Atom>> {
    match r
    case None => None
    case Some(atoms) => Some([a] + atoms)
  }

  /** How many text characters a match of the atoms consumes. */
  function CharCount(atoms: seq<Atom>): nat {
    if atoms == [] then 0
    else (if atoms[0].Char? then 1 else 0) + CharCount(atoms[1..])
  }

  /** The pattern that matches `s` literally. */
  function Literal(s: string): (r: seq<Atom>)
    ensures |r| == |s|
    ensures forall k :: 0 <= k < |s| ==> r[k] == Char(s[k])
  {
    if s == [] then [] else [Char(s[0])] + Literal(s[1..])
  }

  /** One escaped character reads back as that character. */
  lemma ParseEscapedChar(c: char, e: string)
    ensures ParsePattern(EscapeChar(c) + e) == Prepend(Char(c), ParsePattern(e))
  {
    if IsRegexSpecial(c) {
      assert (['\\', c] + e)[2..] == e;
    } else {
      assert ([c] + e)[1..] == e;
    }
  }

  /** Escaping and then reading back gives the original text: an escaped
      string, followed by any pattern q, reads as the literal text followed
      by what q reads as. */
  lemma {:induction false} ParseEscaped(s: string, q: string)
    ensures ParsePattern(EscapeRegex(s) + q) == Prepends(Literal(s), ParsePattern(q))
  {
    if s == [] {
      assert EscapeRegex(s) + q == q;
      PrependsNothing(ParsePattern(q));
    } else {
      ParseEscaped(s[1..], q);
      var e := EscapeRegex(s[1..]) + q;
      assert EscapeRegex(s) + q == EscapeChar(s[0]) + e;
      ParseEscapedChar(s[0], e);
      PrependPrepends(Char(s[0]), Literal(s[1..]), ParsePattern(q));
      assert Literal(s) == [Char(s[0])] + Literal(s[1..]);
    }
  }

  lemma PrependsNothing(r: Option<seq<Atom>>)
    ensures Prepends([], r) == r
  {
    match r
    case None =>
    case Some(rest) => assert [] + rest == rest;
  }

  lemma PrependPrepends(a: Atom, atoms: seq<Atom>, r: Option<seq<Atom>>)
    ensures Prepend(a, Prepends(atoms, r)) == Prepends([a] + atoms, r)
  {
    match r
    case None =>
    case Some(rest) => assert [a] + (atoms + rest) == ([a] + atoms) + rest;
  }

  function Prepends(atoms: seq<Atom>, r: Option<seq<Atom>>): Option<seq<Atom>> {
    match r
    case None => None
    case Some(rest) => Some(atoms + rest)
  }

  /** `escapeRegex` makes any string match literally: its escaped form
      reads back as exactly the literal text. */
  lemma EscapeRegexIsLiteral(s: string)
    ensures ParsePattern(EscapeRegex(s)) == Some(Literal(s))
  {
    ParseEscaped(s, []);
    assert EscapeRegex(s) + [] == EscapeRegex(s);
    assert Literal(s) + [] == Literal(s);
  }

  /** A character of the class `\w`: `[A-Za-z0-9_]`. */
  predicate IsWordChar(c: char) {
    ('a' <= c <= 'z') || ('A' <= c <= 'Z') || ('0' <= c <= '9') || c == '_'
  }

  predicate WordCharAt(text: string, i: int) {
    0 <= i < |text| && IsWordChar(text[i])
  }

  /** `\b` holds at position i (between text[i-1] and text[i]) when exactly
      one side is a word character; outside the string counts as non-word. */
  predicate IsBoundary(text: string, i: int) {
    WordCharAt(text, i - 1) != WordCharAt(text, i)
  }

  /** The atoms match the text starting at position i. */
  function MatchFrom(atoms: seq<Atom>, text: string, i: nat): (b: bool)
    requires i <= |text|
    ensures b ==> i + CharCount(atoms) <= |text|
    ensures atoms == [] ==> b
  {
    if atoms == [] then true
    else match atoms[0]
      case WordBoundary => IsBoundary(text, i) && MatchFrom(atoms[1..], text, i)
      case Char(c) => i < |text| && text[i] == c && MatchFrom(atoms[1..], text, i + 1)
  }

  /** `RegExp.prototype.test` for a pattern of this fragment: is there a
      position where the pattern matches? */
  function RegexTest(pattern: string, text: string): (b: bool)
    ensures b ==> ParsePattern(pattern).Some? && CharCount(ParsePattern(pattern).value) <= |text|
    ensures ParsePattern(pattern) == Some([]) ==> b
  {
    match ParsePattern(pattern)
    case None => false
    case Some(atoms) =>
      assert atoms == [] ==> MatchFrom(atoms, text, 0);
      exists i :: 0 <= i <= |text| && MatchFrom(atoms, text, i)
  }

  /** The pattern findMatches builds for a keyword: the escaped keyword,
      between `\b` assertions when the keyword has at most 3 characters. */
  function KeywordPattern(kw: string): (p: string)
    ensures ParsePattern(p) == Some(KeywordAtoms(kw))
  {
    var e := EscapeRegex(kw);
    if |kw| <= 3 then
      ParseEscaped(kw, "\\b");
      ParseBoundary();
      assert "\\b" + e + "\\b" == "\\b" + (e + "\\b");
      ParseBoundaryThen(e + "\\b");
      "\\b" + e + "\\b"
    else
      EscapeRegexIsLiteral(kw);
      e
  }

  /** What the pattern for kw reads as: the literal keyword, between word
      boundaries when it has at most 3 characters. */
  function KeywordAtoms(kw: string): seq<Atom> {
    if |kw| <= 3 then [WordBoundary] + (Literal(kw) + [WordBoundary]) else Literal(kw)
  }

  /** `\b` alone reads as one word-boundary assertion. */
  lemma ParseBoundary()
    ensures ParsePattern("\\b") == Some([WordBoundary])
  {
    var b := "\\b";
    assert |b| == 2 && b[0] == '\\' && b[1] == 'b' && b[2..] == [];
    assert !IsRegexSpecial(b[1]);
    assert ParsePattern(b) == Prepend(WordBoundary, ParsePattern(b[2..]));
    assert [WordBoundary] + [] == [WordBoundary];
  }

  /** `\b` in front of a pattern adds a word-boundary assertion in front. */
  lemma ParseBoundaryThen(q: string)
    ensures ParsePattern("\\b" + q) == Prepend(WordBoundary, ParsePattern(q))
  {
    var p := "\\b" + q;
    assert p[0] == '\\' && p[1] == 'b' && p[2..] == q;
    assert !IsRegexSpecial(p[1]);
  }

  // ---------------------------------------------------------------------
  // The matching rule, stated directly
  // ---------------------------------------------------------------------

  /** kw occurs in text starting at position i. */
  predicate OccursAt(text: string, kw: string, i: nat) {
    i + |kw| <= |text| && text[i..i + |kw|] == kw
  }

  /** The scanner's matching rule: a keyword of at most 3 characters must
      occur as a whole word (a `\b` on both sides of the occurrence); a
      longer keyword may occur anywhere. */
  predicate KeywordMatches(text: string, kw: string) {
    if |kw| <= 3 then
      exists i: nat | i <= |text| :: OccursAt(text, kw, i) && IsBoundary(text, i) && IsBoundary(text, i + |kw|)
    else
      exists i: nat | i <= |text| :: OccursAt(text, kw, i)
  }

  /** A literal matches exactly where the text spells it out. */
  lemma {:induction false} MatchLiteral(kw: string, rest: seq<Atom>, text: string, i: nat)
    requires i <= |text|
    ensures MatchFrom(Literal(kw) + rest, text, i)
        <==> OccursAt(text, kw, i) && MatchFrom(rest, text, i + |kw|)
  {
    if kw == [] {
      assert Literal(kw) + rest == rest;
      assert text[i..i] == kw;
    } else {
      var atoms := Literal(kw) + rest;
      assert atoms[0] == Char(kw[0]);
      assert atoms[1..] == Literal(kw[1..]) + rest;
      if i < |text| {
        MatchLiteral(kw[1..], rest, text, i + 1);
        if i + |kw| <= |text| {
          assert text[i..i + |kw|] == [text[i]] + text[i + 1..i + |kw|];
        }
      }
    }
  }

  /** The regular expression findMatches builds for a keyword matches the
      text exactly when the matching rule says the keyword occurs. */
  lemma KeywordPatternMeansMatch(kw: string, text: string)
    ensures RegexTest(KeywordPattern(kw), text) <==> KeywordMatches(text, kw)
  {
    assert ParsePattern(KeywordPattern(kw)) == Some(KeywordAtoms(kw));
    if KeywordMatches(text, kw) {
      KeywordOccurrenceMatches(kw, text);
    }
    if RegexTest(KeywordPattern(kw), text) {
      KeywordMatchIsOccurrence(kw, text);
    }
  }

  /** An occurrence the matching rule accepts is a position where the atoms match. */
  lemma KeywordOccurrenceMatches(kw: string, text: string)
    requires KeywordMatches(text, kw)
    ensures exists i :: 0 <= i <= |text| && MatchFrom(KeywordAtoms(kw), text, i)
  {
    if |kw| <= 3 {
      var i: nat :| i <= |text| && OccursAt(text, kw, i) && IsBoundary(text, i) && IsBoundary(text, i + |kw|);
      KeywordAtomsMatchAt(kw, text, i);
    } else {
      var i: nat :| i <= |text| && OccursAt(text, kw, i);
      KeywordAtomsMatchAt(kw, text, i);
    }
  }

  /** A position where the atoms match is an occurrence the matching rule accepts. */
  lemma KeywordMatchIsOccurrence(kw: string, text: string)
    requires exists i :: 0 <= i <= |text| && MatchFrom(KeywordAtoms(kw), text, i)
    ensures KeywordMatches(text, kw)
  {
    var i :| 0 <= i <= |text| && MatchFrom(KeywordAtoms(kw), text, i);
    KeywordAtomsMatchAt(kw, text, i);
  }

  /** At one position, the keyword's atoms match exactly where the keyword
      occurs, with a word boundary on both sides for a short keyword. */
  lemma KeywordAtomsMatchAt(kw: string, text: string, i: nat)
    requires i <= |text|
    ensures MatchFrom(KeywordAtoms(kw), text, i)
        <==> OccursAt(text, kw, i) && (|kw| <= 3 ==> IsBoundary(text, i) && IsBoundary(text, i + |kw|))
  {
    if |kw| <= 3 {
      var atoms := KeywordAtoms(kw);
      assert atoms[0] == WordBoundary;
      assert atoms[1..] == Literal(kw) + [WordBoundary];
      MatchLiteral(kw, [WordBoundary], text, i);
    } else {
      MatchLiteral(kw, [], text, i);
      assert Literal(kw) + [] == Literal(kw);
    }
  }

  /** For a keyword that starts and ends with a word character (every
      short keyword of both lexicons), the `\b` rule says: neither
      neighbour of the occurrence is a word character. */
  lemma WholeWordMeansNonWordNeighbours(kw: string, text: string, i: nat)
    requires 0 < |kw| && IsWordChar(kw[0]) && IsWordChar(kw[|kw| - 1])
    requires OccursAt(text, kw, i)
    ensures IsBoundary(text, i) && IsBoundary(text, i + |kw|)
        <==> !WordCharAt(text, i - 1) && !WordCharAt(text, i + |kw|)
  {
    assert text[i] == kw[0];
    assert text[i + |kw| - 1] == kw[|kw| - 1];
  }

  /** The short-keyword rule in action: `msp` inside `mspaint` and `llm`
      inside `llms` are not matches, while a longer keyword such as
      `offshore` matches inside `offshored`. */
  lemma ShortKeywordsNeedWholeWords()
    ensures !KeywordMatches("mspaint", "msp")
    ensures !KeywordMatches("llms", "llm")
    ensures KeywordMatches("we use llm daily", "llm")
    ensures KeywordMatches("offshored", "offshore")
  {
    var t := "mspaint";
    forall i: nat | i <= |t| && OccursAt(t, "msp", i)
      ensures !IsBoundary(t, i + 3)
    {
    }
    var u := "llms";
    forall i: nat | i <= |u| && OccursAt(u, "llm", i)
      ensures !IsBoundary(u, i + 3)
    {
    }
    var v := "we use llm daily";
    assert v[6] == ' ' && v[7] == 'l' && v[9] == 'm' && v[10] == ' ';
    assert OccursAt(v, "llm", 7) && IsBoundary(v, 7) && IsBoundary(v, 10);
    assert OccursAt("offshored", "offshore", 0);
  }

  // ---------------------------------------------------------------------
  // findMatches
  // ---------------------------------------------------------------------

  /** What findMatches collects from the first keywords: a JavaScript `Set`
      spread into an array, so each matching keyword once, in the order it
      was first added. */
  function MatchedKeywords(text: string, keywords: seq<string>): (r: seq<string>)
    ensures NoDuplicates(r) && |r| <= |keywords|
    ensures forall kw :: kw in r <==> kw in keywords && KeywordMatches(text, kw)
  {
    if keywords == [] then []
    else
      var init := keywords[..|keywords| - 1];
      var found := MatchedKeywords(text, init);
      var kw := keywords[|keywords| - 1];
      assert keywords == init + [kw];
      if KeywordMatches(text, kw) && kw !in found then found + [kw] else found
  }

  /** `findMatches`: try each keyword's regular expression on the text and
      add the keywords that match to a set. */
  method FindMatches(text: string, keywords: seq<string>) returns (found: seq<string>)
    ensures found == MatchedKeywords(text, keywords)
    ensures NoDuplicates(found) && |found| <= |keywords|
    ensures forall kw :: kw in found <==> kw in keywords && KeywordMatches(text, kw)
  {
    var matches: seq<string> := [];
    for n := 0 to |keywords|
      invariant matches == MatchedKeywords(text, keywords[..n])
    {
      var kw := keywords[n];
      var pattern := KeywordPattern(kw);
      KeywordPatternMeansMatch(kw, text);
      if RegexTest(pattern, text) {
        if kw !in matches {
          matches := matches + [kw];
        }
      }
      assert keywords[..n + 1][..n] == keywords[..n];
    }
    assert keywords[..|keywords|] == keywords;
    found := matches;
  }

  /** The lexicon filtered by the matching rule, in lexicon order. */
  function KeywordsMatching(text: string, keywords: seq<string>): seq<string>
  {
    if keywords == [] then []
    else
      var kw := keywords[|keywords| - 1];
      KeywordsMatching(text, keywords[..|keywords| - 1]) + (if KeywordMatches(text, kw) then [kw] else [])
  }

  /** For a lexicon without repeats (both of ours), findMatches returns the
      matching keywords in lexicon order. */
  lemma {:induction false} MatchedIsFilter(text: string, keywords: seq<string>)
    requires NoDuplicates(keywords)
    ensures MatchedKeywords(text, keywords) == KeywordsMatching(text, keywords)
  {
    if keywords != [] {
      var init := keywords[..|keywords| - 1];
      var kw := keywords[|keywords| - 1];
      assert NoDuplicates(init);
      MatchedIsFilter(text, init);
      assert kw !in init;
    }
  }

  // ---------------------------------------------------------------------
  // bucketize and scanJobDescription
  // ---------------------------------------------------------------------

  /** A signal level, and the string the report carries for it. */
  datatype Level = NoSignal | Low | Medium | High {
    function Name(): string {
      match this
      case NoSignal => "none"
      case Low => "low"
      case Medium => "medium"
      case High => "high"
    }

    /** The position of the level in the order none < low < medium < high. */
    function Rank(): nat {
      match this
      case NoSignal => 0
      case Low => 1
      case Medium => 2
      case High => 3
    }
  }

  /** `bucketize`: 0 is none, at most 1 is low, at most 3 is medium, above
      3 is high. A negative score, which no count produces, falls in low. */
  function Bucketize(score: int): (r: Level)
    ensures r == NoSignal <==> score == 0
    ensures r == Low <==> score != 0 && score <= 1
    ensures r == Medium <==> 2 <= score <= 3
    ensures r == High <==> score >= 4
  {
    if score == 0 then NoSignal
    else if score <= 1 then Low
    else if score <= 3 then Medium
    else High
  }

  /** The level never goes down as the score goes up. */
  lemma BucketizeMonotone(a: nat, b: nat)
    requires a <= b
    ensures Bucketize(a).Rank() <= Bucketize(b).Rank()
  {
  }

  /** The level names are the four strings of the report's format, one per
      level. */
  lemma LevelNamesDistinct(l: Level, m: Level)
    ensures l.Name() == m.Name() <==> l == m
    ensures l.Name() in {"none", "low", "medium", "high"}
  {
  }

  /** The report scanJobDescription returns, field by field. */
  datatype KeywordSignalReport = KeywordSignalReport(
    ai_keyword_count: nat,
    offshoring_keyword_count: nat,
    ai_keywords_found: seq<string>,
    offshoring_keywords_found: seq<string>,
    ai_score: nat,
    offshoring_score: nat,
    ai_signal_level: Level,
    offshoring_signal_level: Level)

  /** `scanJobDescription`: clean the text, find the keywords of each
      lexicon, score each lexicon by the number found and bucket it. */
  function ScanJobDescription(descriptionRaw: Option<string>): (r: KeywordSignalReport)
    ensures r.ai_keyword_count == r.ai_score == |r.ai_keywords_found| <= 12
    ensures r.offshoring_keyword_count == r.offshoring_score == |r.offshoring_keywords_found| <= 11
    ensures r.ai_signal_level == Bucketize(r.ai_score)
    ensures r.offshoring_signal_level == Bucketize(r.offshoring_score)
    ensures r.ai_keywords_found == KeywordsMatching(CleanText(descriptionRaw), AiKeywords)
    ensures r.offshoring_keywords_found == KeywordsMatching(CleanText(descriptionRaw), OffshoringKeywords)
    ensures NoDuplicates(r.ai_keywords_found) && NoDuplicates(r.offshoring_keywords_found)
    ensures forall kw :: kw in r.ai_keywords_found
                     <==> kw in AiKeywords && KeywordMatches(CleanText(descriptionRaw), kw)
    ensures forall kw :: kw in r.offshoring_keywords_found
                     <==> kw in OffshoringKeywords && KeywordMatches(CleanText(descriptionRaw), kw)
  {
    var text := CleanText(descriptionRaw);
    var aiFound := MatchedKeywords(text, AiKeywords);
    var offFound := MatchedKeywords(text, OffshoringKeywords);
    LexiconsHaveNoDuplicates();
    MatchedIsFilter(text, AiKeywords);
    MatchedIsFilter(text, OffshoringKeywords);
    var aiScore := |aiFound|;
    var offScore := |offFound|;
    KeywordSignalReport(
      |aiFound|, |offFound|, aiFound, offFound, aiScore, offScore,
      Bucketize(aiScore), Bucketize(offScore))
  }

  /** Scanning the already-cleaned text gives the same report, since
      cleaning is idempotent. */
  lemma ScanCleanedText(descriptionRaw: Option<string>)
    ensures ScanJobDescription(Some(CleanText(descriptionRaw))) == ScanJobDescription(descriptionRaw)
  {
    CleanTextIdempotent(descriptionRaw);
  }
}
