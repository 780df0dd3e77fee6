/** Runs of separator characters. Both normalisers of the system have the
    same shape: `trim().replace(/\s+/g, " ")` for titles and category names,
    and `replace(/[^a-z0-9]+/g, "-")` followed by edge-dash stripping for
    slugs. Each is a global regex replacement of the maximal runs of one
    character class, stated here once for a class `p`, together with the
    reference view that says what such a replacement produces: the words
    between the runs, joined by the replacement character. */
module TextRuns {

  /** `s` without its leading characters that satisfy `p`. */
  function DropWhile(s: string, p: char -> bool): (r: string)
    ensures |r| <= |s|
    ensures r == [] || !p(r[0])
  {
    if s == [] || !p(s[0]) then s else DropWhile(s[1..], p)
  }

  /** `s` without its trailing characters that satisfy `p`. */
  function DropWhileEnd(s: string, p: char -> bool): (r: string)
    ensures |r| <= |s|
    ensures r == [] || !p(r[|r| - 1])
  {
    if s == [] || !p(s[|s| - 1]) then s else DropWhileEnd(s[..|s| - 1], p)
  }

  /** `String.prototype.trim` when `p` is the whitespace class. */
  function TrimBy(s: string, p: char -> bool): string {
    DropWhileEnd(DropWhile(s, p), p)
  }

  /** The longest prefix of `s` in which no character satisfies `p`. */
  function Span(s: string, p: char -> bool): (w: string)
    ensures |w| <= |s|
    ensures |w| < |s| ==> p(s[|w|])
    ensures s != [] && !p(s[0]) ==> |w| >= 1
  {
    if s == [] || p(s[0]) then [] else [s[0]] + Span(s[1..], p)
  }

  /** `s.replace(/P+/g, c)` for the class `P` that `p` decides: every maximal
      run of `p` characters is replaced by the single character `c`. */
  function CollapseRuns(s: string, p: char -> bool, c: char): string
    decreases |s|
  {
    if s == [] then []
    else if p(s[0]) then [c] + CollapseRuns(DropWhile(s[1..], p), p, c)
    else [s[0]] + CollapseRuns(s[1..], p, c)
  }

  /** The maximal non-empty runs of characters that do not satisfy `p`, in order. */
  function Words(s: string, p: char -> bool): seq<string>
    decreases |s|
  {
    var t := DropWhile(s, p);
    if t == [] then []
    else
      var w := Span(t, p);
      [w] + Words(t[|w|..], p)
  }

  /** The words joined by single `c` characters. */
  function Join(ws: seq<string>, c: char): string {
    if ws == [] then []
    else if |ws| == 1 then ws[0]
    else ws[0] + [c] + Join(ws[1..], c)
  }

  /** `s.replace(/^c|c$/g, "")`: one leading and one trailing `c` removed. */
  function StripEdge(s: string, c: char): string {
    var t := if s != [] && s[0] == c then s[1..] else s;
    if t != [] && t[|t| - 1] == c then t[..|t| - 1] else t
  }

  /** Every word is non-empty and free of `p` characters. */
  predicate ProperWords(ws: seq<string>, p: char -> bool) {
    forall k :: 0 <= k < |ws| ==> ws[k] != [] && NoneSatisfy(ws[k], p)
  }

  predicate NoneSatisfy(s: string, p: char -> bool) {
    forall i :: 0 <= i < |s| ==> !p(s[i])
  }

  /** No two neighbouring characters of `s` both satisfy `p`. */
  predicate NoAdjacent(s: string, p: char -> bool) {
    forall i :: 0 <= i < |s| - 1 ==> !p(s[i]) || !p(s[i + 1])
  }

  /** The separator a replacement leaves in front of the first word. */
  function Lead(s: string, p: char -> bool, c: char): string {
    if s != [] && p(s[0]) then [c] else []
  }

  /** The separator a replacement leaves behind the last word. */
  function Trail(s: string, p: char -> bool, c: char): string {
    if DropWhile(s, p) != [] && p(s[|s| - 1]) then [c] else []
  }

  // ---------------------------------------------------------------------
  // Basic facts about the building blocks

  lemma {:induction false} DropWhileSuffix(s: string, p: char -> bool)
    ensures DropWhile(s, p) == s[|s| - |DropWhile(s, p)|..]
    ensures forall i :: 0 <= i < |s| - |DropWhile(s, p)| ==> p(s[i])
  {
    if s != [] && p(s[0]) {
      DropWhileSuffix(s[1..], p);
    }
  }

  lemma {:induction false} DropWhileEndPrefix(s: string, p: char -> bool)
    ensures DropWhileEnd(s, p) == s[..|DropWhileEnd(s, p)|]
    ensures forall i :: |DropWhileEnd(s, p)| <= i < |s| ==> p(s[i])
  {
    if s != [] && p(s[|s| - 1]) {
      DropWhileEndPrefix(s[..|s| - 1], p);
    }
  }

  lemma {:induction false} SpanPrefix(s: string, p: char -> bool)
    ensures Span(s, p) == s[..|Span(s, p)|]
    ensures NoneSatisfy(Span(s, p), p)
  {
    if s != [] && !p(s[0]) {
      SpanPrefix(s[1..], p);
      assert Span(s, p) == [s[0]] + Span(s[1..], p);
    }
  }

  lemma DropWhileIdle(s: string, p: char -> bool)
    requires s == [] || !p(s[0])
    ensures DropWhile(s, p) == s
  {
  }

  lemma SpanWhole(s: string, p: char -> bool)
    requires NoneSatisfy(s, p)
    ensures Span(s, p) == s
  {
  }

  /** Leading separators do not change the words. */
  lemma WordsDropLeading(s: string, p: char -> bool)
    ensures Words(DropWhile(s, p), p) == Words(s, p)
  {
    var t := DropWhile(s, p);
    DropWhileIdle(t, p);
  }

  /** The words of a string that starts inside a word. */
  lemma WordsFromWord(s: string, p: char -> bool)
    requires s != [] && !p(s[0])
    ensures Words(s, p) == [Span(s, p)] + Words(s[|Span(s, p)|..], p)
  {
    DropWhileIdle(s, p);
  }

  lemma {:induction false} WordsAreProper(s: string, p: char -> bool)
    ensures ProperWords(Words(s, p), p)
    decreases |s|
  {
    var t := DropWhile(s, p);
    if t != [] {
      var w := Span(t, p);
      SpanPrefix(t, p);
      WordsAreProper(t[|w|..], p);
      assert Words(s, p) == [w] + Words(t[|w|..], p);
    }
  }

  /** A replacement copies a prefix without separators unchanged. */
  lemma {:induction false} CollapseRunsAppend(w: string, r: string, p: char -> bool, c: char)
    requires NoneSatisfy(w, p)
    ensures CollapseRuns(w + r, p, c) == w + CollapseRuns(r, p, c)
    decreases |w|
  {
    if w != [] {
      assert (w + r)[0] == w[0] && (w + r)[1..] == w[1..] + r;
      assert NoneSatisfy(w[1..], p);
      CollapseRunsAppend(w[1..], r, p, c);
      calc {
        CollapseRuns(w + r, p, c);
        [w[0]] + CollapseRuns(w[1..] + r, p, c);
        [w[0]] + (w[1..] + CollapseRuns(r, p, c));
        { assert [w[0]] + w[1..] == w; }
        w + CollapseRuns(r, p, c);
      }
    } else {
      assert w + r == r;
    }
  }

  // ---------------------------------------------------------------------
  // The shape of a run replacement

  /** One run of separators at the front of `r`. */
  lemma RunStep(r: string, p: char -> bool, c: char)
    requires r != [] && p(r[0])
    ensures CollapseRuns(r, p, c) == [c] + CollapseRuns(DropWhile(r[1..], p), p, c)
    ensures Words(r, p) == Words(DropWhile(r[1..], p), p)
    ensures DropWhile(r[1..], p) != [] ==> r[|r| - 1] == DropWhile(r[1..], p)[|DropWhile(r[1..], p)| - 1]
    ensures DropWhile(r[1..], p) == [] ==> p(r[|r| - 1])
  {
    var t := DropWhile(r[1..], p);
    assert DropWhile(r, p) == t;
    DropWhileSuffix(r[1..], p);
    WordsDropLeading(r, p);
    if t == [] && |r| > 1 {
      assert r[|r| - 1] == r[1..][|r| - 2];
    }
  }

  lemma Assoc(a: string, b: string, c: string, d: string)
    ensures a + (b + (c + d)) == a + b + c + d
  {
  }

  lemma JoinCons(w: string, ws: seq<string>, c: char)
    requires ws != []
    ensures Join([w] + ws, c) == w + [c] + Join(ws, c)
  {
    assert ([w] + ws)[1..] == ws;
  }

  lemma {:induction false} CollapseRunsFromWord(s: string, p: char -> bool, c: char)
    requires p(c)
    requires s == [] || !p(s[0])
    ensures CollapseRuns(s, p, c) == Join(Words(s, p), c) + Trail(s, p, c)
    decreases |s|
  {
    if s != [] {
      var w := Span(s, p);
      var rest := s[|w|..];
      WordStep(s, p, c);
      if rest == [] {
        TrailOfWord(s, p, c);
        SingleWord(s, w, p, c);
      } else {
        TrailStep(s, p, c);
        var t := DropWhile(rest[1..], p);
        RunStep(rest, p, c);
        CollapseRunsFromWord(t, p, c);
        if t == [] {
          WordThenRun(s, w, rest, p, c);
        } else {
          WordRunWords(w, t, p, c);
        }
      }
    }
  }

  lemma SingleWord(s: string, w: string, p: char -> bool, c: char)
    requires CollapseRuns(s, p, c) == w + CollapseRuns([], p, c)
    requires Words(s, p) == [w] + Words([], p)
    requires Trail(s, p, c) == []
    ensures CollapseRuns(s, p, c) == Join(Words(s, p), c) + Trail(s, p, c)
  {
  }

  lemma WordThenRun(s: string, w: string, rest: string, p: char -> bool, c: char)
    requires rest != [] && p(rest[0])
    requires CollapseRuns(s, p, c) == w + CollapseRuns(rest, p, c)
    requires CollapseRuns(rest, p, c) == [c] + CollapseRuns([], p, c)
    requires Words(s, p) == [w] + Words(rest, p) && Words(rest, p) == Words([], p)
    requires Trail(s, p, c) == [c]
    ensures CollapseRuns(s, p, c) == Join(Words(s, p), c) + Trail(s, p, c)
  {
  }

  /** A text that starts with a word: the word, then the rest. */
  lemma WordStep(s: string, p: char -> bool, c: char)
    requires s != [] && !p(s[0])
    ensures var w := Span(s, p);
      && w != [] && s == w + s[|w|..]
      && CollapseRuns(s, p, c) == w + CollapseRuns(s[|w|..], p, c)
      && Words(s, p) == [w] + Words(s[|w|..], p)
      && (s[|w|..] != [] ==> p(s[|w|..][0]))
  {
    var w := Span(s, p);
    var rest := s[|w|..];
    SpanPrefix(s, p);
    assert s == w + rest;
    CollapseRunsAppend(w, rest, p, c);
    WordsFromWord(s, p);
  }

  /** No separator follows a text that is a single word. */
  lemma TrailOfWord(s: string, p: char -> bool, c: char)
    requires s != [] && !p(s[0]) && s[|Span(s, p)|..] == []
    ensures Trail(s, p, c) == []
  {
    var w := Span(s, p);
    SpanPrefix(s, p);
    assert s == w;
    assert s[|s| - 1] == w[|w| - 1];
  }

  /** The separator behind the last word, one word and one run later. */
  lemma TrailStep(s: string, p: char -> bool, c: char)
    requires s != [] && !p(s[0]) && s[|Span(s, p)|..] != []
    ensures var t := DropWhile(s[|Span(s, p)|..][1..], p);
      Trail(s, p, c) == (if t == [] then [c] else Trail(t, p, c))
  {
    var w := Span(s, p);
    var rest := s[|w|..];
    var t := DropWhile(rest[1..], p);
    DropWhileIdle(s, p);
    RunEnds(rest, p);
    DropWhileIdle(t, p);
    LastOfSuffix(s, |w|);
    TrailAfterRun(s, rest, t, p, c);
  }

  lemma LastOfSuffix(s: string, k: nat)
    requires k < |s|
    ensures s[k..] != [] && s[k..][|s[k..]| - 1] == s[|s| - 1]
  {
  }

  /** The last character of a text that starts with a run. */
  lemma RunEnds(r: string, p: char -> bool)
    requires r != [] && p(r[0])
    ensures DropWhile(r[1..], p) != [] ==> r[|r| - 1] == DropWhile(r[1..], p)[|DropWhile(r[1..], p)| - 1]
    ensures DropWhile(r[1..], p) == [] ==> p(r[|r| - 1])
  {
    var t := DropWhile(r[1..], p);
    DropWhileSuffix(r[1..], p);
    if t == [] && |r| > 1 {
      assert r[|r| - 1] == r[1..][|r| - 2];
    }
  }

  lemma TrailAfterRun(s: string, rest: string, t: string, p: char -> bool, c: char)
    requires DropWhile(s, p) != [] && s != [] && rest != [] && s[|s| - 1] == rest[|rest| - 1]
    requires t == [] ==> p(rest[|rest| - 1])
    requires t != [] ==> DropWhile(t, p) != [] && rest[|rest| - 1] == t[|t| - 1]
    ensures Trail(s, p, c) == (if t == [] then [c] else Trail(t, p, c))
  {
  }

  /** A word, one run, and text starting with a word. */
  lemma WordRunWords(w: string, t: string, p: char -> bool, c: char)
    requires t != [] && !p(t[0])
    ensures w + ([c] + (Join(Words(t, p), c) + Trail(t, p, c))) == Join([w] + Words(t, p), c) + Trail(t, p, c)
  {
    WordsFromWord(t, p);
    JoinCons(w, Words(t, p), c);
    Assoc(w, [c], Join(Words(t, p), c), Trail(t, p, c));
  }

  /** What `s.replace(/P+/g, c)` produces: the words of `s` joined by `c`,
      with one `c` in front when `s` starts with a run and one behind when
      a word is followed by a final run. */
  lemma CollapseRunsShape(s: string, p: char -> bool, c: char)
    requires p(c)
    ensures CollapseRuns(s, p, c) == Lead(s, p, c) + Join(Words(s, p), c) + Trail(s, p, c)
  {
    if s == [] || !p(s[0]) {
      CollapseRunsFromWord(s, p, c);
    } else {
      CollapseRunsFromRun(s, p, c);
    }
  }

  /** The case of a text that starts with a run. */
  lemma CollapseRunsFromRun(s: string, p: char -> bool, c: char)
    requires p(c)
    requires s != [] && p(s[0])
    ensures CollapseRuns(s, p, c) == [c] + Join(Words(s, p), c) + Trail(s, p, c)
  {
    var t := DropWhile(s[1..], p);
    RunStep(s, p, c);
    CollapseRunsFromWord(t, p, c);
    if t == [] {
      assert Words(s, p) == [];
      assert Trail(s, p, c) == [];
    } else {
      WordsFromWord(t, p);
      assert Trail(s, p, c) == Trail(t, p, c);
    }
  }

  // ---------------------------------------------------------------------
  // Facts about joined words

  lemma {:induction false} JoinEdges(ws: seq<string>, p: char -> bool, c: char)
    requires ProperWords(ws, p)
    ensures (Join(ws, c) == []) == (ws == [])
    ensures ws != [] ==> !p(Join(ws, c)[0]) && !p(Join(ws, c)[|Join(ws, c)| - 1])
  {
    if |ws| > 1 {
      JoinEdges(ws[1..], p, c);
    }
  }

  /** Joining proper words by a separator character leaves no two separator
      characters side by side. */
  lemma {:induction false} JoinNoAdjacent(ws: seq<string>, p: char -> bool, c: char)
    requires ProperWords(ws, p)
    ensures NoAdjacent(Join(ws, c), p)
  {
    if |ws| > 1 {
      JoinNoAdjacent(ws[1..], p, c);
      JoinEdges(ws[1..], p, c);
      var j := Join(ws[1..], c);
      var s := ws[0] + [c] + j;
      forall i | 0 <= i < |s| - 1
        ensures !p(s[i]) || !p(s[i + 1])
      {
        if i < |ws[0]| {
          assert s[i] == ws[0][i];
        } else if i == |ws[0]| {
          assert s[i + 1] == j[0];
        } else {
          assert s[i] == j[i - |ws[0]| - 1] && s[i + 1] == j[i - |ws[0]|];
        }
      }
    }
  }

  /** Every character of the joined string is a word character or `c`. */
  lemma {:induction false} JoinChars(ws: seq<string>, c: char, ok: char -> bool)
    requires forall k, i :: 0 <= k < |ws| && 0 <= i < |ws[k]| ==> ok(ws[k][i])
    requires ok(c)
    ensures forall i :: 0 <= i < |Join(ws, c)| ==> ok(Join(ws, c)[i])
  {
    if |ws| > 1 {
      JoinChars(ws[1..], c, ok);
      var j := Join(ws[1..], c);
      var s := ws[0] + [c] + j;
      forall i | 0 <= i < |s| ensures ok(s[i]) {
        if i < |ws[0]| {
          assert s[i] == ws[0][i];
        } else if i > |ws[0]| {
          assert s[i] == j[i - |ws[0]| - 1];
        }
      }
    } else if |ws| == 1 {
      assert forall i :: 0 <= i < |ws[0]| ==> ok(ws[0][i]);
    }
  }

  /** Splitting a join gives the words back. */
  lemma {:induction false} WordsOfJoin(ws: seq<string>, p: char -> bool, c: char)
    requires p(c)
    requires ProperWords(ws, p)
    ensures Words(Join(ws, c), p) == ws
  {
    if ws == [] {
    } else if |ws| == 1 {
      var w := ws[0];
      SpanWhole(w, p);
      WordsFromWord(w, p);
      assert w[|w|..] == [];
    } else {
      var w := ws[0];
      var j := Join(ws[1..], c);
      var s := w + [c] + j;
      JoinEdges(ws[1..], p, c);
      assert s[..|w|] == w;
      SpanUpTo(s, w, p);
      WordsFromWord(s, p);
      assert s[|w|..] == [c] + j;
      assert DropWhile([c] + j, p) == DropWhile(j, p);
      WordsDropLeading([c] + j, p);
      DropWhileIdle(j, p);
      WordsOfJoin(ws[1..], p, c);
    }
  }

  lemma {:induction false} SpanUpTo(s: string, w: string, p: char -> bool)
    requires NoneSatisfy(w, p) && |w| < |s| && s[..|w|] == w && p(s[|w|])
    ensures Span(s, p) == w
    decreases |w|
  {
    if w != [] {
      assert s[1..][..|w| - 1] == w[1..];
      SpanUpTo(s[1..], w[1..], p);
    }
  }

  /** A join of proper words by `c` is left as it is by replacing runs with `c`. */
  lemma CollapseRunsOfJoin(ws: seq<string>, p: char -> bool, c: char)
    requires p(c)
    requires ProperWords(ws, p)
    ensures CollapseRuns(Join(ws, c), p, c) == Join(ws, c)
  {
    var s := Join(ws, c);
    CollapseRunsShape(s, p, c);
    WordsOfJoin(ws, p, c);
    JoinEdges(ws, p, c);
  }

  /** Stripping one edge `c` from a replacement leaves exactly the joined words. */
  lemma StripEdgeOfCollapse(s: string, p: char -> bool, c: char)
    requires p(c)
    ensures StripEdge(CollapseRuns(s, p, c), c) == Join(Words(s, p), c)
  {
    CollapseRunsShape(s, p, c);
    WordsAreProper(s, p);
    JoinEdges(Words(s, p), p, c);
    StripFramed(Lead(s, p, c), Join(Words(s, p), c), Trail(s, p, c), c);
  }

  /** A text framed by at most one `c` on each side, and not starting or
      ending with `c` itself, loses exactly its frame. */
  lemma StripFramed(l: string, j: string, t: string, c: char)
    requires l == [] || l == [c]
    requires t == [] || (t == [c] && j != [])
    requires j != [] ==> j[0] != c && j[|j| - 1] != c
    ensures StripEdge(l + j + t, c) == j
  {
    if j != [] {
      assert (l + j + t)[0] == (if l == [] then j[0] else c);
      var u := if l != [] then (l + j + t)[1..] else l + j + t;
      assert u == j + t;
      assert (j + t)[|j + t| - 1] == (if t == [] then j[|j| - 1] else c);
      assert t != [] ==> (j + t)[..|j + t| - 1] == j;
    }
  }

  // ---------------------------------------------------------------------
  // Trimming

  lemma {:induction false} DropWhileAppend(y: string, z: string, p: char -> bool)
    requires DropWhile(y, p) != []
    ensures DropWhile(y + z, p) == DropWhile(y, p) + z
    decreases |y|
  {
    if p(y[0]) {
      assert (y + z)[1..] == y[1..] + z;
      DropWhileAppend(y[1..], z, p);
    }
  }

  lemma {:induction false} DropWhileAllSeparators(s: string, p: char -> bool)
    requires forall i :: 0 <= i < |s| ==> p(s[i])
    ensures DropWhile(s, p) == []
    decreases |s|
  {
    if s != [] {
      DropWhileAllSeparators(s[1..], p);
    }
  }

  lemma {:induction false} SpanAppend(y: string, z: string, p: char -> bool)
    requires z == [] || p(z[0])
    ensures Span(y + z, p) == Span(y, p)
    decreases |y|
  {
    if y == [] {
      assert y + z == z;
    } else if !p(y[0]) {
      assert (y + z)[1..] == y[1..] + z;
      SpanAppend(y[1..], z, p);
    }
  }

  /** Trailing separators do not change the words. */
  lemma {:induction false} WordsAppendSeparators(y: string, z: string, p: char -> bool)
    requires forall i :: 0 <= i < |z| ==> p(z[i])
    ensures Words(y + z, p) == Words(y, p)
    decreases |y|
  {
    var d := DropWhile(y, p);
    if d == [] {
      DropWhileSuffix(y, p);
      assert forall i :: 0 <= i < |y + z| ==> p((y + z)[i]) by {
        forall i | 0 <= i < |y + z| ensures p((y + z)[i]) {
          if i < |y| { assert (y + z)[i] == y[i]; } else { assert (y + z)[i] == z[i - |y|]; }
        }
      }
      DropWhileAllSeparators(y + z, p);
    } else {
      DropWhileAppend(y, z, p);
      var w := Span(d, p);
      SpanAppend(d, z, p);
      assert (d + z)[|w|..] == d[|w|..] + z;
      WordsAppendSeparators(d[|w|..], z, p);
    }
  }

  /** Leading separators do not change where the text resumes. */
  lemma {:induction false} DropWhileAfterSeparators(a: string, z: string, p: char -> bool)
    requires forall i :: 0 <= i < |a| ==> p(a[i])
    ensures DropWhile(a + z, p) == DropWhile(z, p)
    decreases |a|
  {
    if a == [] {
      assert a + z == z;
    } else {
      assert (a + z)[1..] == a[1..] + z;
      DropWhileAfterSeparators(a[1..], z, p);
    }
  }

  /** A word between separators is the next word. */
  lemma WordsOfPadded(a: string, w: string, b: string, p: char -> bool)
    requires forall i :: 0 <= i < |a| ==> p(a[i])
    requires w != [] && NoneSatisfy(w, p)
    requires b == [] || p(b[0])
    ensures Words(a + w + b, p) == [w] + Words(b, p)
  {
    assert a + w + b == a + (w + b);
    DropWhileAfterSeparators(a, w + b, p);
    DropWhileIdle(w + b, p);
    WordsDropLeading(a + w + b, p);
    SpanAppend(w, b, p);
    SpanWhole(w, p);
    WordsFromWord(w + b, p);
    assert (w + b)[|w|..] == b;
  }

  lemma WordsOfTrim(s: string, p: char -> bool)
    ensures Words(TrimBy(s, p), p) == Words(s, p)
  {
    var d := DropWhile(s, p);
    var e := DropWhileEnd(d, p);
    DropWhileEndPrefix(d, p);
    assert d == e + d[|e|..];
    WordsAppendSeparators(e, d[|e|..], p);
    WordsDropLeading(s, p);
  }

  /** `trim()` followed by `replace(/P+/g, c)`: the words joined by `c`. */
  lemma CollapseRunsOfTrim(s: string, p: char -> bool, c: char)
    requires p(c)
    ensures CollapseRuns(TrimBy(s, p), p, c) == Join(Words(s, p), c)
  {
    var t := TrimBy(s, p);
    CollapseRunsShape(t, p, c);
    WordsOfTrim(s, p);
    if t != [] {
      var d := DropWhile(s, p);
      DropWhileEndPrefix(d, p);
      assert t == d[..|t|];
    }
  }

  /** A string without separators is one word, or none when it is empty. */
  lemma WordsOfPlain(s: string, p: char -> bool)
    requires NoneSatisfy(s, p)
    ensures Words(s, p) == if s == [] then [] else [s]
  {
    if s != [] {
      SpanWhole(s, p);
      WordsFromWord(s, p);
      assert s[|s|..] == [];
    }
  }

  /** A replacement never leaves two `p` characters side by side. */
  lemma {:induction false} CollapseRunsNoAdjacent(s: string, p: char -> bool, c: char)
    requires p(c)
    ensures NoAdjacent(CollapseRuns(s, p, c), p)
  {
    CollapseRunsShape(s, p, c);
    WordsAreProper(s, p);
    JoinEdges(Words(s, p), p, c);
    JoinNoAdjacent(Words(s, p), p, c);
    NoAdjacentFramed(Lead(s, p, c), Join(Words(s, p), c), Trail(s, p, c), p, c);
  }

  /** At most one `c` on each side of a text without neighbouring `p`
      characters and without `p` characters at its ends. */
  lemma NoAdjacentFramed(l: string, j: string, t: string, p: char -> bool, c: char)
    requires l == [] || l == [c]
    requires t == [] || (t == [c] && j != [])
    requires j != [] ==> !p(j[0]) && !p(j[|j| - 1])
    requires NoAdjacent(j, p)
    ensures NoAdjacent(l + j + t, p)
  {
    var r := l + j + t;
    forall i | 0 <= i < |r| - 1
      ensures !p(r[i]) || !p(r[i + 1])
    {
      if j == [] {
        assert false;
      } else if l != [] && i == 0 {
        assert r[1] == j[0];
      } else if i < |l| + |j| - 1 {
        assert r[i] == j[i - |l|] && r[i + 1] == j[i - |l| + 1];
      } else {
        assert r[i] == j[|j| - 1];
      }
    }
  }

  /** Replacing runs of `p` by a `p` character changes nothing in a string
      that has no two `p` characters side by side. */
  lemma {:induction false} CollapseRunsIdle(s: string, p: char -> bool, c: char)
    requires NoAdjacent(s, p)
    requires forall i :: 0 <= i < |s| && p(s[i]) ==> s[i] == c
    ensures CollapseRuns(s, p, c) == s
    decreases |s|
  {
    if s != [] {
      if p(s[0]) {
        assert s[1..] == [] || !p(s[1..][0]);
        DropWhileIdle(s[1..], p);
      }
      CollapseRunsIdle(s[1..], p, c);
      assert s == [s[0]] + s[1..];
    }
  }

  // ---------------------------------------------------------------------
  // The characters outside the runs

  /** The characters of `s` that do not satisfy `p`, in order. */
  function Filter(s: string, p: char -> bool): string {
    if s == [] then [] else (if p(s[0]) then [] else [s[0]]) + Filter(s[1..], p)
  }

  function Concat(ws: seq<string>): string {
    if ws == [] then [] else ws[0] + Concat(ws[1..])
  }

  lemma {:induction false} FilterAppend(a: string, b: string, p: char -> bool)
    ensures Filter(a + b, p) == Filter(a, p) + Filter(b, p)
    decreases |a|
  {
    if a == [] {
      assert a + b == b;
    } else {
      var h := if p(a[0]) then [] else [a[0]];
      assert (a + b)[0] == a[0] && (a + b)[1..] == a[1..] + b;
      assert Filter(a + b, p) == h + Filter(a[1..] + b, p);
      FilterAppend(a[1..], b, p);
      assert Filter(a, p) == h + Filter(a[1..], p);
      assert h + (Filter(a[1..], p) + Filter(b, p)) == (h + Filter(a[1..], p)) + Filter(b, p);
    }
  }

  lemma {:induction false} FilterOfSeparators(s: string, p: char -> bool)
    requires forall i :: 0 <= i < |s| ==> p(s[i])
    ensures Filter(s, p) == []
    decreases |s|
  {
    if s != [] {
      FilterOfSeparators(s[1..], p);
    }
  }

  lemma {:induction false} FilterOfPlain(s: string, p: char -> bool)
    requires NoneSatisfy(s, p)
    ensures Filter(s, p) == s
    decreases |s|
  {
    if s != [] {
      FilterOfPlain(s[1..], p);
      assert s == [s[0]] + s[1..];
    }
  }

  /** The characters outside the runs are exactly the words, in order. */
  lemma {:induction false} FilterIsConcatOfWords(s: string, p: char -> bool)
    ensures Filter(s, p) == Concat(Words(s, p))
    decreases |s|, 1
  {
    var t := DropWhile(s, p);
    DropWhileSuffix(s, p);
    var lead := s[..|s| - |t|];
    assert s == lead + t;
    FilterAppend(lead, t, p);
    FilterOfSeparators(lead, p);
    WordsDropLeading(s, p);
    if t != [] {
      FilterFromWord(t, p);
    }
  }

  lemma {:induction false} FilterFromWord(t: string, p: char -> bool)
    requires t != [] && !p(t[0])
    ensures Filter(t, p) == Concat(Words(t, p))
    decreases |t|, 0
  {
    var w := Span(t, p);
    SpanPrefix(t, p);
    var rest := t[|w|..];
    assert t == w + rest;
    FilterAppend(w, rest, p);
    FilterOfPlain(w, p);
    FilterIsConcatOfWords(rest, p);
    WordsFromWord(t, p);
    var ws := Words(rest, p);
    assert ([w] + ws)[1..] == ws;
    assert Concat([w] + ws) == w + Concat(ws);
  }

  lemma {:induction false} FilterOfJoin(ws: seq<string>, p: char -> bool, c: char)
    requires p(c)
    requires ProperWords(ws, p)
    ensures Filter(Join(ws, c), p) == Concat(ws)
  {
    if ws == [] {
    } else if |ws| == 1 {
      FilterOfPlain(ws[0], p);
      assert Concat(ws) == ws[0] + Concat([]);
    } else {
      FilterOfJoin(ws[1..], p, c);
      FilterAppend(ws[0] + [c], Join(ws[1..], c), p);
      FilterAppend(ws[0], [c], p);
      FilterOfPlain(ws[0], p);
    }
  }
}
