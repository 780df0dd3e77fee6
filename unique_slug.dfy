/** The unique-slug loops of `createArticle` and `updateArticle`: starting
    from a base slug, the candidates `base`, `base-1`, `base-2`, ... are
    tried against the article collection until one is not taken under the
    collation. The collection is a map from article id to slug. */
module UniqueSlug {
  import opened Js
  import opened Collation

  /** The candidate tried after `n` collisions: `base`, then `${base}-${n}`.
      The suffix always goes onto the base, never onto the previous try. */
  function Candidate(base: string, n: nat): string {
    if n == 0 then base else base + "-" + NatToString(n)
  }

  /** `s` is what the loop settles on: the first candidate that no article
      other than `except` holds. */
  ghost predicate LeastFree(slugs: map<string, string>, fold: char -> char, base: string, except: Option<string>, s: string) {
    exists n: nat :: LeastFreeAt(slugs, fold, base, except, s, n)
  }

  predicate LeastFreeAt(slugs: map<string, string>, fold: char -> char, base: string, except: Option<string>, s: string, n: nat) {
    && s == Candidate(base, n)
    && !TakenBy(slugs, fold, s, except)
    && forall k :: 0 <= k < n ==> TakenBy(slugs, fold, Candidate(base, k), except)
  }

  /** The articles other than `except` whose slug matches none of the first
      `n` candidates: each further collision uses up one of them. */
  function Unmatched(slugs: map<string, string>, fold: char -> char, base: string, except: Option<string>, n: nat): set<string> {
    set id | id in slugs && Some(id) != except && forall k :: 0 <= k < n ==> !Equivalent(fold, slugs[id], Candidate(base, k))
  }

  /** The loop. `n` counts the collisions. It stops whatever the collection
      holds, after at most one collision per other article. */
  method ResolveSlug(base: string, slugs: map<string, string>, fold: char -> char, except: Option<string>)
    returns (unique: string, ghost n: nat)
    requires CaseOnly(fold)
    ensures LeastFreeAt(slugs, fold, base, except, unique, n)
    ensures n <= |slugs|
  {
    unique := base;
    var i := 1;
    UnmatchedStart(slugs, fold, base, except);
    while exists id :: id in slugs && Some(id) != except && Equivalent(fold, slugs[id], unique)
      invariant i >= 1
      invariant unique == Candidate(base, i - 1)
      invariant forall k :: 0 <= k < i - 1 ==> TakenBy(slugs, fold, Candidate(base, k), except)
      invariant |Unmatched(slugs, fold, base, except, i - 1)| + (i - 1) <= |slugs|
      decreases |Unmatched(slugs, fold, base, except, i - 1)|
    {
      UnmatchedStep(slugs, fold, base, except, i - 1);
      unique := base + "-" + IntToString(i);
      i := i + 1;
    }
    n := i - 1;
  }

  // ---------------------------------------------------------------------
  // Properties

  /** Distinct candidates are never equivalent, since a digit or a dash is
      equivalent to itself alone and decimal forms are read back uniquely. */
  lemma CandidatesDistinct(fold: char -> char, base: string, j: nat, k: nat)
    requires CaseOnly(fold)
    requires j != k
    ensures !Equivalent(fold, Candidate(base, j), Candidate(base, k))
  {
    if Equivalent(fold, Candidate(base, j), Candidate(base, k)) {
      EquivalentLength(fold, Candidate(base, j), Candidate(base, k));
      if j != 0 && k != 0 {
        var sj, sk := "-" + NatToString(j), "-" + NatToString(k);
        assert Candidate(base, j) == base + sj;
        assert Candidate(base, k) == base + sk;
        KeyAppend(fold, base, sj);
        KeyAppend(fold, base, sk);
        var kb := Key(fold, base);
        assert Key(fold, sj) == (kb + Key(fold, sj))[|kb|..] == (kb + Key(fold, sk))[|kb|..] == Key(fold, sk);
        assert forall i :: 0 <= i < |sk| ==> IsDigit(sk[i]) || sk[i] == '-' by {
          assert forall i :: 1 <= i < |sk| ==> sk[i] == NatToString(k)[i - 1];
        }
        CaseOnlyRigid(fold, sj, sk);
        assert NatToString(j) == sj[1..] == sk[1..] == NatToString(k);
        NatToStringInjective(j, k);
      }
    }
  }

  /** Before any collision every other article is unmatched. */
  lemma UnmatchedStart(slugs: map<string, string>, fold: char -> char, base: string, except: Option<string>)
    ensures |Unmatched(slugs, fold, base, except, 0)| <= |slugs|
  {
    SubsetCardinality(Unmatched(slugs, fold, base, except, 0), slugs.Keys);
  }

  /** A collision on candidate `n` uses up an unmatched article. */
  lemma UnmatchedStep(slugs: map<string, string>, fold: char -> char, base: string, except: Option<string>, n: nat)
    requires CaseOnly(fold)
    requires TakenBy(slugs, fold, Candidate(base, n), except)
    ensures |Unmatched(slugs, fold, base, except, n + 1)| < |Unmatched(slugs, fold, base, except, n)|
  {
    var before, after := Unmatched(slugs, fold, base, except, n), Unmatched(slugs, fold, base, except, n + 1);
    var w :| w in slugs && Some(w) != except && Equivalent(fold, slugs[w], Candidate(base, n));
    forall k | 0 <= k < n ensures !Equivalent(fold, slugs[w], Candidate(base, k)) {
      CandidatesDistinct(fold, base, n, k);
      EquivalentIsEquivalence(fold, Candidate(base, n), slugs[w], Candidate(base, k));
    }
    assert w in before && w !in after;
    SubsetCardinality(after, before - {w});
  }

  lemma {:induction false} SubsetCardinality<T>(a: set<T>, b: set<T>)
    requires a <= b
    ensures |a| <= |b|
    decreases |b|
  {
    if b != {} {
      var x :| x in b;
      SubsetCardinality(a - {x}, b - {x});
    }
  }

  /** The loop's answer is determined: two least free candidates coincide. */
  lemma LeastFreeUnique(slugs: map<string, string>, fold: char -> char, base: string, except: Option<string>, s: string, t: string)
    requires LeastFree(slugs, fold, base, except, s) && LeastFree(slugs, fold, base, except, t)
    ensures s == t
  {
    var m: nat :| LeastFreeAt(slugs, fold, base, except, s, m);
    var n: nat :| LeastFreeAt(slugs, fold, base, except, t, n);
  }

  /** A free base is kept as it is; otherwise the answer carries a suffix
      of one or more. */
  lemma BaseKeptWhenFree(slugs: map<string, string>, fold: char -> char, base: string, except: Option<string>, s: string, n: nat)
    requires LeastFreeAt(slugs, fold, base, except, s, n)
    ensures !TakenBy(slugs, fold, base, except) <==> n == 0
    ensures n == 0 <==> s == base
  {
    if n > 0 {
      assert TakenBy(slugs, fold, Candidate(base, 0), except);
      assert |s| > |base|;
    }
  }

  /** The loop answers the empty slug exactly when its base is empty, as
      long as no article holds the empty slug: a non-empty base only grows,
      and an empty one collides with nothing. */
  lemma EmptyOnlyFromEmptyBase(slugs: map<string, string>, fold: char -> char, base: string, except: Option<string>, s: string)
    requires LeastFree(slugs, fold, base, except, s)
    requires forall id :: id in slugs ==> slugs[id] != ""
    ensures s == "" <==> base == ""
  {
    var n: nat :| LeastFreeAt(slugs, fold, base, except, s, n);
    if n > 0 {
      assert TakenBy(slugs, fold, Candidate(base, 0), except);
      var id :| id in slugs && Some(id) != except && Equivalent(fold, slugs[id], base);
      EquivalentLength(fold, slugs[id], base);
    }
  }

  /** Storing the loop's answer keeps the unique slug index: for a new
      article (nothing excepted) and for the article being updated. */
  lemma StoreKeepsUnique(slugs: map<string, string>, fold: char -> char, base: string, except: Option<string>, id: string, s: string)
    requires Unique(slugs, fold)
    requires LeastFree(slugs, fold, base, except, s)
    requires except == None || except == Some(id)
    ensures Unique(slugs[id := s], fold)
  {
    UniqueAfterStore(slugs, fold, id, s);
  }

  /** On update the article's own slug never counts as a collision: a base
      equivalent to its current slug is kept, when no other article holds it. */
  lemma OwnSlugIsFree(slugs: map<string, string>, fold: char -> char, id: string, base: string)
    requires Unique(slugs, fold)
    requires id in slugs && Equivalent(fold, slugs[id], base)
    ensures LeastFreeAt(slugs, fold, base, Some(id), base, 0)
  {
    if TakenBy(slugs, fold, base, Some(id)) {
      var other :| other in slugs && Some(other) != Some(id) && Equivalent(fold, slugs[other], base);
      EquivalentIsEquivalence(fold, slugs[other], base, slugs[id]);
    }
  }
}
