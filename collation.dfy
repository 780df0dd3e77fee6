/** The `tr` collation at strength 2 that the unique indexes and the lookups
    use, as an abstract per-character fold: two strings are equivalent when
    their folded forms agree. Which letters fold together is left open;
    strength 2 only ignores case, so a digit or a dash is equivalent to
    itself alone. */
module Collation {
  import opened Js

  /** The comparison key of `s`. */
  function Key(fold: char -> char, s: string): (r: string)
    ensures |r| == |s|
  {
    seq(|s|, i requires 0 <= i < |s| => fold(s[i]))
  }

  predicate Equivalent(fold: char -> char, a: string, b: string) {
    Key(fold, a) == Key(fold, b)
  }

  /** Digits and the dash have no case: nothing else folds onto them. */
  predicate CaseOnly(fold: char -> char) {
    forall c, d :: fold(c) == fold(d) && (IsDigit(d) || d == '-') ==> c == d
  }

  /** No two entries of `m` are equivalent: the unique index on the field. */
  predicate Unique(m: map<string, string>, fold: char -> char) {
    forall a, b :: a in m && b in m && a != b ==> !Equivalent(fold, m[a], m[b])
  }

  /** Some entry other than `except` is equivalent to `s`. */
  predicate TakenBy(m: map<string, string>, fold: char -> char, s: string, except: Option<string>) {
    exists id :: id in m && Some(id) != except && Equivalent(fold, m[id], s)
  }

  // ---------------------------------------------------------------------

  /** The relation is an equivalence. */
  lemma EquivalentIsEquivalence(fold: char -> char, a: string, b: string, c: string)
    ensures Equivalent(fold, a, a)
    ensures Equivalent(fold, a, b) ==> Equivalent(fold, b, a)
    ensures Equivalent(fold, a, b) && Equivalent(fold, b, c) ==> Equivalent(fold, a, c)
  {
  }

  /** Keys split along concatenation. */
  lemma KeyAppend(fold: char -> char, a: string, b: string)
    ensures Key(fold, a + b) == Key(fold, a) + Key(fold, b)
  {
  }

  /** Equivalent strings have the same length. */
  lemma EquivalentLength(fold: char -> char, a: string, b: string)
    requires Equivalent(fold, a, b)
    ensures |a| == |b|
  {
    assert |Key(fold, a)| == |a|;
  }

  /** A string of digits and dashes is equivalent to itself alone. */
  lemma CaseOnlyRigid(fold: char -> char, a: string, s: string)
    requires CaseOnly(fold)
    requires forall i :: 0 <= i < |s| ==> IsDigit(s[i]) || s[i] == '-'
    requires Equivalent(fold, a, s)
    ensures a == s
  {
    EquivalentLength(fold, a, s);
    forall i | 0 <= i < |s| ensures a[i] == s[i] {
      assert Key(fold, a)[i] == Key(fold, s)[i];
    }
  }

  /** Index entries are unique exactly when no entry is taken by another. */
  lemma UniqueIffUntaken(m: map<string, string>, fold: char -> char)
    ensures Unique(m, fold) <==> forall id :: id in m ==> !TakenBy(m, fold, m[id], Some(id))
  {
    if !Unique(m, fold) {
      var a, b :| a in m && b in m && a != b && Equivalent(fold, m[a], m[b]);
      assert TakenBy(m, fold, m[a], Some(a)) by {
        assert b in m && Some(b) != Some(a) && Equivalent(fold, m[b], m[a]);
      }
    }
  }

  /** Storing a value that no other entry is equivalent to keeps the index
      unique; this covers both a fresh id and an id whose value is replaced. */
  lemma UniqueAfterStore(m: map<string, string>, fold: char -> char, id: string, s: string)
    requires Unique(m, fold)
    requires !TakenBy(m, fold, s, Some(id))
    ensures Unique(m[id := s], fold)
  {
    var n := m[id := s];
    forall a, b | a in n && b in n && a != b ensures !Equivalent(fold, n[a], n[b]) {
      if a == id {
        assert !Equivalent(fold, m[b], s);
      } else if b == id {
        assert !Equivalent(fold, m[a], s);
      }
    }
  }

  /** Removing an entry keeps the index unique. */
  lemma UniqueAfterRemove(m: map<string, string>, fold: char -> char, id: string)
    requires Unique(m, fold)
    ensures Unique(m - {id}, fold)
  {
  }
}
