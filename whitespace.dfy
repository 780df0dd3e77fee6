/** The whitespace normaliser that both pre-validate hooks apply, and that
    opens the slug pipeline: `s.trim().replace(/\s+/g, " ")`. */
module Whitespace {
  import opened Js
  import opened TextRuns

  /** `String.prototype.trim`, which the `trim: true` setters apply. */
  function Trim(s: string): string {
    TrimBy(s, IsJsSpace)
  }

  function Normalize(s: string): string {
    CollapseRuns(Trim(s), IsJsSpace, ' ')
  }

  /** Reference view: the whitespace-separated words of `s`, joined by single
      spaces. */
  lemma NormalizeIsJoinedWords(s: string)
    ensures Normalize(s) == Join(Words(s, IsJsSpace), ' ')
  {
    CollapseRunsOfTrim(s, IsJsSpace, ' ');
  }

  /** After the hook the value has no leading or trailing whitespace, its only
      whitespace characters are plain spaces, and no two of them are adjacent. */
  lemma NormalizeShape(s: string)
    ensures var r := Normalize(s);
      && (r != [] ==> !IsJsSpace(r[0]) && !IsJsSpace(r[|r| - 1]))
      && (forall i :: 0 <= i < |r| && IsJsSpace(r[i]) ==> r[i] == ' ')
      && NoAdjacent(r, IsJsSpace)
  {
    NormalizeIsJoinedWords(s);
    var ws := Words(s, IsJsSpace);
    WordsAreProper(s, IsJsSpace);
    JoinEdges(ws, IsJsSpace, ' ');
    JoinNoAdjacent(ws, IsJsSpace, ' ');
    JoinChars(ws, ' ', c => !IsJsSpace(c) || c == ' ');
  }

  /** The characters other than whitespace keep their order and multiplicity. */
  lemma NormalizeKeepsText(s: string)
    ensures Filter(Normalize(s), IsJsSpace) == Filter(s, IsJsSpace)
  {
    NormalizeIsJoinedWords(s);
    WordsAreProper(s, IsJsSpace);
    FilterOfJoin(Words(s, IsJsSpace), IsJsSpace, ' ');
    FilterIsConcatOfWords(s, IsJsSpace);
  }

  /** Running the hook twice gives what running it once gives. */
  lemma NormalizeIdempotent(s: string)
    ensures Normalize(Normalize(s)) == Normalize(s)
  {
    var ws := Words(s, IsJsSpace);
    NormalizeIsJoinedWords(s);
    NormalizeIsJoinedWords(Normalize(s));
    WordsAreProper(s, IsJsSpace);
    WordsOfJoin(ws, IsJsSpace, ' ');
  }
}
