/** The Turkish slug normaliser of `src/utils/slugifyTR.ts`: transliterate
    the Turkish letters, lowercase, turn every run of characters outside
    `[a-z0-9]` into one dash and strip a dash at either end. */
module SlugifyTR {
  import opened Js
  import opened TextRuns
  import Whitespace

  /** The transliteration table, keyed by the character it replaces. */
  const TR_MAP: map<char, char> := map[
    'ç' := 'c', 'ğ' := 'g', 'ı' := 'i', 'i' := 'i', 'İ' := 'i',
    'ö' := 'o', 'ş' := 's', 'ü' := 'u',
    'Ç' := 'c', 'Ğ' := 'g', 'I' := 'i', 'Ö' := 'o', 'Ş' := 's', 'Ü' := 'u'
  ]

  /** KELVIN SIGN, the one character outside ASCII whose lowercase form
      (`k`) is an ASCII letter once `İ` has been transliterated away. */
  const KELVIN: char := '\U{212A}'

  /** `map[ch] ? map[ch] : ch` */
  function Transliterate(c: char): char {
    if c in TR_MAP then TR_MAP[c] else c
  }

  /** `toLowerCase` as far as it can matter for the slug: ASCII capitals and
      the Kelvin sign become ASCII lowercase letters; every other character
      either is not a letter or lowercases to a character outside ASCII,
      which the slug treats like any other separator, so it is kept. */
  function LowerChar(c: char): char {
    if IsUpperAscii(c) then (c as int + 32) as char
    else if c == KELVIN then 'k'
    else c
  }

  function FoldChar(c: char): char {
    LowerChar(Transliterate(c))
  }

  /** `.split("").map(...).join("").toLowerCase()` */
  function Fold(s: string): (r: string)
    ensures |r| == |s|
  {
    seq(|s|, i requires 0 <= i < |s| => FoldChar(s[i]))
  }

  /** A character that survives into the slug. */
  predicate IsSlugChar(c: char) {
    IsLowerAscii(c) || IsDigit(c)
  }

  /** `[^a-z0-9]` */
  predicate IsOther(c: char) {
    !IsSlugChar(c)
  }

  predicate IsDash(c: char) {
    c == '-'
  }

  /** `slugify(input)` */
  function Slugify(input: string): string {
    var normalized := Fold(Whitespace.Normalize(input));
    var dashed := CollapseRuns(normalized, IsOther, '-');
    var single := CollapseRuns(dashed, IsDash, '-');
    StripEdge(single, '-')
  }

  /** The form the source's opening comment describes: lowercase letters,
      digits and single dashes, with no dash at either end. */
  predicate IsSlug(r: string) {
    && (forall i :: 0 <= i < |r| ==> IsSlugChar(r[i]) || r[i] == '-')
    && (r != [] ==> r[0] != '-' && r[|r| - 1] != '-')
    && (forall i :: 0 <= i < |r| - 1 ==> r[i] != '-' || r[i + 1] != '-')
  }

  // ---------------------------------------------------------------------

  /** The Turkish letters, both cases, and ASCII `I`/`i` become plain ASCII
      lowercase letters; dotted capital `İ` becomes a bare `i`. */
  lemma TurkishLettersFold()
    ensures FoldChar('ç') == 'c' && FoldChar('ğ') == 'g' && FoldChar('ı') == 'i'
    ensures FoldChar('ö') == 'o' && FoldChar('ş') == 's' && FoldChar('ü') == 'u'
    ensures FoldChar('Ç') == 'c' && FoldChar('Ğ') == 'g' && FoldChar('Ö') == 'o'
    ensures FoldChar('Ş') == 's' && FoldChar('Ü') == 'u'
    ensures FoldChar('İ') == 'i' && FoldChar('I') == 'i' && FoldChar('i') == 'i'
  {
  }

  /** Exactly the ASCII letters and digits, the table's letters and the Kelvin
      sign reach the slug; ASCII capitals turn into their lowercase letter and
      digits are kept as they are. */
  lemma FoldSurvivors(c: char)
    ensures IsSlugChar(FoldChar(c)) <==>
      IsUpperAscii(c) || IsLowerAscii(c) || IsDigit(c) || c in TR_MAP || c == KELVIN
    ensures IsUpperAscii(c) && c != 'I' ==> FoldChar(c) as int == c as int + 32
    ensures IsSlugChar(c) ==> FoldChar(c) == c
  {
  }

  /** Every output is in slug form. */
  lemma SlugifyIsSlug(input: string)
    ensures IsSlug(Slugify(input))
  {
    SlugifyIsJoinedWords(input);
    var ws := Words(Fold(Whitespace.Normalize(input)), IsOther);
    WordsAreProper(Fold(Whitespace.Normalize(input)), IsOther);
    JoinEdges(ws, IsOther, '-');
    JoinNoAdjacent(ws, IsOther, '-');
    JoinChars(ws, '-', c => IsSlugChar(c) || c == '-');
  }

  /** Reference view of the pipeline: the slug is the maximal runs of
      `[a-z0-9]` of the folded, whitespace-normalised input, joined by single
      dashes: every maximal run of other characters between two such runs
      becomes exactly one `-`, and runs at either end disappear. */
  lemma SlugifyIsJoinedWords(input: string)
    ensures Slugify(input) == Join(Words(Fold(Whitespace.Normalize(input)), IsOther), '-')
  {
    var normalized := Fold(Whitespace.Normalize(input));
    var dashed := CollapseRuns(normalized, IsOther, '-');
    CollapseRunsNoAdjacent(normalized, IsOther, '-');
    assert NoAdjacent(dashed, IsDash);
    CollapseRunsIdle(dashed, IsDash, '-');
    StripEdgeOfCollapse(normalized, IsOther, '-');
  }

  /** A slug is a fixed point: `replace(/-+/g, "-")` and the other stages have
      nothing left to do on it. */
  lemma SlugifyFixesSlugs(r: string)
    requires IsSlug(r)
    ensures Slugify(r) == r
  {
    NormalizeOfSlug(r);
    FoldOfSlug(r);
    SlugIsJoinedWords(r);
    SlugifyIsJoinedWords(r);
  }

  lemma NormalizeOfSlug(r: string)
    requires IsSlug(r)
    ensures Whitespace.Normalize(r) == r
  {
    assert NoneSatisfy(r, IsJsSpace) by {
      forall i | 0 <= i < |r| ensures !IsJsSpace(r[i]) {
        assert IsSlugChar(r[i]) || r[i] == '-';
      }
    }
    WordsOfPlain(r, IsJsSpace);
    Whitespace.NormalizeIsJoinedWords(r);
  }

  lemma FoldOfSlug(r: string)
    requires IsSlug(r)
    ensures Fold(r) == r
  {
    forall i | 0 <= i < |r| ensures Fold(r)[i] == r[i] {
      FoldSurvivors(r[i]);
    }
  }

  /** A slug is its own runs of `[a-z0-9]` joined by dashes. */
  lemma SlugIsJoinedWords(r: string)
    requires IsSlug(r)
    ensures Join(Words(r, IsOther), '-') == r
  {
    assert forall i :: 0 <= i < |r| && IsOther(r[i]) ==> r[i] == '-';
    assert NoAdjacent(r, IsOther);
    CollapseRunsIdle(r, IsOther, '-');
    CollapseRunsShape(r, IsOther, '-');
    if r != [] {
      assert !IsOther(r[0]) && !IsOther(r[|r| - 1]);
    }
  }

  /** `slugify(slugify(s)) == slugify(s)`. */
  lemma SlugifyIdempotent(input: string)
    ensures Slugify(Slugify(input)) == Slugify(input)
  {
    SlugifyIsSlug(input);
    SlugifyFixesSlugs(Slugify(input));
  }

  /** Input with no letter or digit gives the empty slug. */
  lemma SlugifyEmptyWithoutAlnum(input: string)
    requires forall i :: 0 <= i < |input| ==> IsOther(FoldChar(input[i]))
    ensures Slugify(input) == ""
  {
    var n := Whitespace.Normalize(input);
    Whitespace.NormalizeKeepsText(input);
    Whitespace.NormalizeShape(input);
    NoFoldedSurvivor(input, n);
    SlugifyIsJoinedWords(input);
    DropWhileAllSeparators(Fold(n), IsOther);
  }

  /** Normalising whitespace creates no character that survives the fold. */
  lemma NoFoldedSurvivor(input: string, n: string)
    requires forall i :: 0 <= i < |input| ==> IsOther(FoldChar(input[i]))
    requires forall i :: 0 <= i < |n| && IsJsSpace(n[i]) ==> n[i] == ' '
    requires Filter(n, IsJsSpace) == Filter(input, IsJsSpace)
    ensures forall i :: 0 <= i < |n| ==> IsOther(FoldChar(n[i]))
  {
    forall i | 0 <= i < |n| ensures IsOther(FoldChar(n[i])) {
      if IsJsSpace(n[i]) {
        assert n[i] == ' ';
      } else {
        FilterHas(n, i, IsJsSpace);
        FilterFrom(input, IsJsSpace, n[i]);
      }
    }
  }

  lemma {:induction false} FilterHas(s: string, i: nat, p: char -> bool)
    requires i < |s| && !p(s[i])
    ensures s[i] in Filter(s, p)
    decreases i
  {
    if i > 0 {
      FilterHas(s[1..], i - 1, p);
    }
  }

  lemma {:induction false} FilterFrom(s: string, p: char -> bool, c: char)
    requires c in Filter(s, p)
    ensures c in s
  {
    if s[0] != c || p(s[0]) {
      FilterFrom(s[1..], p, c);
    }
  }
}
