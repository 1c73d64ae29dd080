/**
 * The language classifier (`detect_email_language`): counts the catalogue phrases of each
 * language found in the lowered subject and body, and picks German only on a strict majority.
 */
module LanguageDetection {

  import opened Text
  import opened Catalogue

  /** How many of `pats` occur in `text`; a phrase listed twice counts twice. */
  function MatchCount(text: string, pats: seq<string>): (n: nat)
    ensures n <= |pats|
  {
    if pats == [] then 0
    else MatchCount(text, pats[..|pats| - 1]) + (if Contains(text, pats[|pats| - 1]) then 1 else 0)
  }

  /** How many phrases, over all categories of `cats`, occur in `text`. */
  function CatalogueCount(text: string, cats: seq<seq<string>>): nat
  {
    if cats == [] then 0
    else CatalogueCount(text, cats[..|cats| - 1]) + MatchCount(text, cats[|cats| - 1])
  }

  /** All phrases of a catalogue in one list, category after category. */
  function Flatten(cats: seq<seq<string>>): seq<string>
  {
    if cats == [] then [] else Flatten(cats[..|cats| - 1]) + cats[|cats| - 1]
  }

  /** The positions in `pats` of the phrases that occur in `text`. */
  ghost function MatchingPositions(text: string, pats: seq<string>): set<nat>
  {
    set i: nat | i < |pats| && Contains(text, pats[i])
  }

  /** The text the classifier looks at: `(subject + " " + body).lower()`. */
  function ClassifiedText(subject: string, body: string): string
  {
    Lower(subject + " " + body)
  }

  /** The classifier's decision as a function of its inputs. */
  function LanguageOf(subject: string, body: string): (r: Language)
    ensures r == German ==> CatalogueCount(ClassifiedText(subject, body), Patterns(German)) > 0
  {
    var text := ClassifiedText(subject, body);
    if CatalogueCount(text, Patterns(German)) > CatalogueCount(text, Patterns(English)) then German
    else English
  }

  /** Counting two lists one after the other counts their concatenation. */
  lemma {:induction false} MatchCountAppend(text: string, a: seq<string>, b: seq<string>)
    ensures MatchCount(text, a + b) == MatchCount(text, a) + MatchCount(text, b)
  {
    if b == [] {
      assert a + b == a;
    } else {
      assert (a + b)[..|a + b| - 1] == a + b[..|b| - 1];
      MatchCountAppend(text, a, b[..|b| - 1]);
    }
  }

  /** Counting per category is counting over the flattened catalogue. */
  lemma {:induction false} CatalogueCountFlatten(text: string, cats: seq<seq<string>>)
    ensures CatalogueCount(text, cats) == MatchCount(text, Flatten(cats))
  {
    if cats != [] {
      CatalogueCountFlatten(text, cats[..|cats| - 1]);
      MatchCountAppend(text, Flatten(cats[..|cats| - 1]), cats[|cats| - 1]);
    }
  }

  /** The count is the number of phrase positions whose phrase occurs in the text. */
  lemma {:induction false} MatchCountIsCardinality(text: string, pats: seq<string>)
    ensures MatchCount(text, pats) == |MatchingPositions(text, pats)|
  {
    if pats != [] {
      var n := |pats| - 1;
      var init := pats[..n];
      MatchCountIsCardinality(text, init);
      var before := MatchingPositions(text, init);
      var after := MatchingPositions(text, pats);
      if Contains(text, pats[n]) {
        assert after == before + {n};
        assert n !in before;
      } else {
        assert after == before;
      }
    }
  }

  /**
   * The classifier compares the NUMBER of matching catalogue phrase positions: German is
   * chosen iff more German positions than English positions match.
   */
  lemma DecisionByMatchingPhrases(subject: string, body: string)
    ensures var text := ClassifiedText(subject, body);
      LanguageOf(subject, body) == German <==>
        |MatchingPositions(text, Flatten(Patterns(German)))| >
        |MatchingPositions(text, Flatten(Patterns(English)))|
  {
    var text := ClassifiedText(subject, body);
    CatalogueCountFlatten(text, Patterns(German));
    CatalogueCountFlatten(text, Patterns(English));
    MatchCountIsCardinality(text, Flatten(Patterns(German)));
    MatchCountIsCardinality(text, Flatten(Patterns(English)));
  }

  /** A catalogue none of whose phrases occurs counts zero. */
  lemma {:induction false} NoMatchesCountZero(text: string, cats: seq<seq<string>>)
    requires forall i, j :: 0 <= i < |cats| && 0 <= j < |cats[i]| ==> !Contains(text, cats[i][j])
    ensures CatalogueCount(text, cats) == 0
  {
    if cats != [] {
      var last := cats[|cats| - 1];
      NoMatchesCountZero(text, cats[..|cats| - 1]);
      CatalogueCountFlatten(text, [last]);
      assert Flatten([last]) == last by {
        assert [last][..0] == [];
      }
      MatchCountIsCardinality(text, last);
      assert MatchingPositions(text, last) == {};
    }
  }

  /** Without any cue of either language the classifier falls back to English. */
  lemma NoCuesMeansEnglish(subject: string, body: string)
    requires forall lang, c, j :: 0 <= c < |Categories| && 0 <= j < |Phrases(lang, Categories[c])| ==>
      !Contains(ClassifiedText(subject, body), Phrases(lang, Categories[c])[j])
    ensures LanguageOf(subject, body) == English
  {
    NoMatchesCountZero(ClassifiedText(subject, body), Patterns(German));
  }

  /** `detect_email_language`: two nested counting loops per language, then the comparison. */
  method DetectEmailLanguage(subject: string, body: string) returns (lang: Language)
    ensures lang == German <==>
      CatalogueCount(ClassifiedText(subject, body), Patterns(German)) >
      CatalogueCount(ClassifiedText(subject, body), Patterns(English))
    ensures lang == LanguageOf(subject, body)
  {
    var text := Lower(subject + " " + body);
    var germanMatches := CountCatalogue(text, Patterns(German));
    var englishMatches := CountCatalogue(text, Patterns(English));
    if germanMatches > englishMatches {
      lang := German;
    } else {
      lang := English;
    }
  }

  /** One language's nested loop: every phrase of every category that occurs adds one. */
  method CountCatalogue(text: string, cats: seq<seq<string>>) returns (matches: nat)
    ensures matches == CatalogueCount(text, cats)
  {
    matches := 0;
    var i := 0;
    while i < |cats|
      invariant 0 <= i <= |cats|
      invariant matches == CatalogueCount(text, cats[..i])
    {
      var pats := cats[i];
      var j := 0;
      while j < |pats|
        invariant 0 <= j <= |pats|
        invariant matches == CatalogueCount(text, cats[..i]) + MatchCount(text, pats[..j])
      {
        assert pats[..j + 1][..j] == pats[..j];
        if Contains(text, pats[j]) {
          matches := matches + 1;
        }
        j := j + 1;
      }
      assert pats[..j] == pats;
      assert cats[..i + 1][..i] == cats[..i];
      i := i + 1;
    }
    assert cats[..i] == cats;
  }
}
