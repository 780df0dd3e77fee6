/** The worked examples of the slug normaliser, each derived from the general
    lemmas of `SlugifyTR` rather than by evaluation. */
module SlugifyExamples {
  import opened Js
  import opened TextRuns
  import Whitespace
  import opened SlugifyTR

  lemma SlugifyTurkishExample()
    ensures Slugify("Öğüt Şışır") == "ogut-sisir"
  {
    TurkishSlug("Öğüt Şışır");
  }

  lemma TurkishSlug(s: string)
    requires s == "Öğüt Şışır"
    ensures Slugify(s) == "ogut-sisir"
  {
    TurkishNormalized();
    TurkishFolded();
    TurkishWords();
    TwoWords("ogut", "sisir", "ogut sisir");
    TurkishJoined();
    SlugFromSteps(s, "Öğüt Şışır", "ogut sisir", ["ogut", "sisir"], "ogut-sisir");
  }

  /** The slug of an input, from each stage of the pipeline in turn. */
  lemma SlugFromSteps(input: string, normalized: string, folded: string, ws: seq<string>, r: string)
    requires Whitespace.Normalize(input) == normalized && Fold(normalized) == folded
    requires Words(folded, IsOther) == ws && Join(ws, '-') == r
    ensures Slugify(input) == r
  {
    SlugifyIsJoinedWords(input);
  }

  lemma TwoWords(a: string, b: string, f: string)
    requires ProperWords([a, b], IsOther) && f == Join([a, b], ' ')
    ensures Words(f, IsOther) == [a, b]
  {
    WordsOfJoin([a, b], IsOther, ' ');
  }

  lemma TurkishNormalized()
    ensures Whitespace.Normalize("Öğüt Şışır") == "Öğüt Şışır"
  {
    JoinedBySpace("Öğüt", "Şışır", "Öğüt Şışır");
    WordsOfJoin(["Öğüt", "Şışır"], IsJsSpace, ' ');
    Whitespace.NormalizeIsJoinedWords("Öğüt Şışır");
  }

  lemma TurkishFolded()
    ensures Fold("Öğüt Şışır") == "ogut sisir"
  {
  }

  lemma TurkishJoined()
    ensures Join(["ogut", "sisir"], '-') == "ogut-sisir"
  {
    JoinedByDash("ogut", "sisir", "ogut-sisir");
  }

  lemma TurkishWords()
    ensures "ogut sisir" == Join(["ogut", "sisir"], ' ')
    ensures ProperWords(["ogut", "sisir"], IsOther)
  {
  }

  lemma SlugifySpacesExample()
    ensures Slugify("  Multiple   Spaces  ") == "multiple-spaces"
  {
    SpacesSlug("  Multiple   Spaces  ");
  }

  lemma SpacesSlug(s: string)
    requires s == "  Multiple   Spaces  "
    ensures Slugify(s) == "multiple-spaces"
  {
    SpacesNormalized(s);
    SpacesFolded();
    SpacesProper();
    JoinedByDash("multiple", "spaces", "multiple-spaces");
    WordsOfJoin(["multiple", "spaces"], IsOther, ' ');
    SlugifyIsJoinedWords(s);
  }

  lemma SpacesNormalized(s: string)
    requires s == "  Multiple   Spaces  "
    ensures Whitespace.Normalize(s) == "Multiple Spaces"
  {
    var ws := SpacesWords(s);
    JoinedBySpace(ws[0], ws[1], "Multiple Spaces");
    NormalizeFromWords(s, ws, "Multiple Spaces");
  }

  lemma SpacesWords(s: string) returns (ws: seq<string>)
    requires s == "  Multiple   Spaces  "
    ensures ws == ["Multiple", "Spaces"] && Words(s, IsJsSpace) == ws
  {
    ws := ["Multiple", "Spaces"];
    assert "  Multiple   Spaces  " == "  " + "Multiple" + "   Spaces  ";
    WordsOfPadded("  ", "Multiple", "   Spaces  ", IsJsSpace);
    SpacesTail();
  }

  lemma SpacesTail()
    ensures Words("   Spaces  ", IsJsSpace) == ["Spaces"]
  {
    assert "   Spaces  " == "   " + "Spaces" + "  ";
    WordsOfPadded("   ", "Spaces", "  ", IsJsSpace);
    SpacesEnd();
  }

  lemma SpacesEnd()
    ensures Words("  ", IsJsSpace) == []
  {
    DropWhileAllSeparators("  ", IsJsSpace);
  }

  lemma SpacesFolded()
    ensures Fold("Multiple Spaces") == "multiple spaces"
  {
  }

  lemma SpacesProper()
    ensures "multiple spaces" == Join(["multiple", "spaces"], ' ')
    ensures ProperWords(["multiple", "spaces"], IsOther)
  {
  }

  lemma NormalizeFromWords(s: string, ws: seq<string>, r: string)
    requires Words(s, IsJsSpace) == ws && Join(ws, ' ') == r
    ensures Whitespace.Normalize(s) == r
  {
    Whitespace.NormalizeIsJoinedWords(s);
  }

  lemma JoinedBySpace(a: string, b: string, r: string)
    requires r == a + " " + b
    ensures Join([a, b], ' ') == r
  {
  }

  lemma JoinedByDash(a: string, b: string, r: string)
    requires r == a + "-" + b
    ensures Join([a, b], '-') == r
  {
  }

  lemma SlugifyPunctuationExample()
    ensures Slugify("!!!") == ""
  {
    SlugifyEmptyWithoutAlnum("!!!");
  }
}
