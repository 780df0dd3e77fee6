/** The category table: the handlers of
    `src/modules/category/category.controller.ts` over the collection of
    `src/modules/category/category.model.ts`, together with the category
    references held by articles and videos. Id validity, `String` of the
    values the model does not spell out and the collation fold are oracles. */
module Categories {
  import opened Js
  import opened TextRuns
  import opened Collation
  import Whitespace

  /** Why a handler stops early. */
  datatype Refusal = InvalidId | InvalidName | DuplicateName | NotFound | InArticles | InVideos

  function RefusalStatus(f: Refusal): nat {
    match f
    case InvalidId => 400
    case InvalidName => 400
    case DuplicateName => 409
    case NotFound => 404
    case InArticles => 409
    case InVideos => 409
  }

  /** The `code` field of the reply, where the handler sends one. */
  function RefusalCode(f: Refusal): Option<string> {
    match f
    case InArticles => Some("CATEGORY_IN_ARTICLES")
    case InVideos => Some("CATEGORY_IN_VIDEOS")
    case _ => None
  }

  datatype Outcome = Stored(status: nat, id: string, name: string) | Removed | Refused(why: Refusal)

  /** `String(req.body?.name ?? "").trim()` */
  function NameOf(body: Value, str: Value -> string): string {
    var v := Get(body, "name");
    TrimBy(if Nullish(v) then "" else JsString(v, str), IsJsSpace)
  }

  /** `categorySchema`: a name of at least two UTF-16 code units. */
  predicate IsName(name: string) {
    JsLength(name) >= 2
  }

  /** Code-point order of strings, which is the order of their UTF-8 bytes
      that MongoDB's `sort({ name: 1 })` without a collation compares. */
  predicate Below(a: string, b: string)
    decreases |a|
  {
    if a == [] then b != []
    else if b == [] then false
    else if a[0] != b[0] then a[0] < b[0]
    else Below(a[1..], b[1..])
  }

  /** `{ id, name }` as listed. */
  datatype Entry = Entry(id: string, name: string)

  predicate SortedByName(s: seq<Entry>) {
    forall i :: 0 < i < |s| ==> Below(s[i - 1].name, s[i].name)
  }

  /** Where `insert` goes in a listing sorted by name. */
  function InsertByName(s: seq<Entry>, e: Entry): seq<Entry>
    decreases |s|
  {
    if s == [] then [e]
    else if Below(e.name, s[0].name) then [e] + s
    else [s[0]] + InsertByName(s[1..], e)
  }

  class CategoryTable {
    /** Stored names by id. */
    var names: map<string, string>
    /** Category ids some article refers to. */
    var articleRefs: set<string>
    /** Category ids some video refers to. */
    var videoRefs: set<string>
    const fold: char -> char
    const isValidId: string -> bool

    /** The unique name index. */
    predicate Valid()
      reads this
    {
      Unique(names, fold)
    }

    constructor (fold: char -> char, isValidId: string -> bool)
      ensures names == map[] && articleRefs == {} && videoRefs == {}
      ensures this.fold == fold && this.isValidId == isValidId
      ensures Valid()
    {
      names := map[];
      articleRefs := {};
      videoRefs := {};
      this.fold := fold;
      this.isValidId := isValidId;
    }

    /** `createCategory`. `newId` is the id the store assigns. The lookup
        compares the trimmed name; the document hook then collapses its
        whitespace and the unique index compares that stored form, which
        the store reports as error 11000. */
    method Create(body: Value, newId: string, str: Value -> string) returns (r: Outcome)
      requires Valid()
      requires newId !in names
      modifies this
      ensures Valid()
      ensures articleRefs == old(articleRefs) && videoRefs == old(videoRefs)
      ensures var name := NameOf(body, str);
        && (!IsName(name) ==> r == Refused(InvalidName))
        && (IsName(name) && TakenBy(old(names), fold, name, None) ==> r == Refused(DuplicateName))
        && (IsName(name) && TakenBy(old(names), fold, Whitespace.Normalize(name), None) ==> r == Refused(DuplicateName))
        && (IsName(name) && !TakenBy(old(names), fold, name, None) && !TakenBy(old(names), fold, Whitespace.Normalize(name), None) ==>
              r == Stored(201, newId, Whitespace.Normalize(name)))
      ensures r.Stored? ==> names == old(names)[newId := r.name]
      ensures !r.Stored? ==> names == old(names)
    {
      var name := NameOf(body, str);
      if !IsName(name) {
        return Refused(InvalidName);
      }
      if exists id :: id in names && Equivalent(fold, names[id], name) {
        return Refused(DuplicateName);
      }
      var stored := Whitespace.Normalize(name);
      if exists id :: id in names && Equivalent(fold, names[id], stored) {
        return Refused(DuplicateName);
      }
      UniqueAfterStore(names, fold, newId, stored);
      names := names[newId := stored];
      r := Stored(201, newId, stored);
    }

    /** `updateCategory`. The lookup skips the record itself; the update
        query stores the trimmed name, and runs no document hook. */
    method Rename(id: string, body: Value, str: Value -> string) returns (r: Outcome)
      requires Valid()
      modifies this
      ensures Valid()
      ensures articleRefs == old(articleRefs) && videoRefs == old(videoRefs)
      ensures var name := NameOf(body, str);
        && (!isValidId(id) ==> r == Refused(InvalidId))
        && (isValidId(id) && !IsName(name) ==> r == Refused(InvalidName))
        && (isValidId(id) && IsName(name) && TakenBy(old(names), fold, name, Some(id)) ==> r == Refused(DuplicateName))
        && (isValidId(id) && IsName(name) && !TakenBy(old(names), fold, name, Some(id)) && id !in old(names) ==>
              r == Refused(NotFound))
        && (isValidId(id) && IsName(name) && !TakenBy(old(names), fold, name, Some(id)) && id in old(names) ==>
              r == Stored(200, id, name))
      ensures r.Stored? ==> names == old(names)[id := r.name]
      ensures !r.Stored? ==> names == old(names)
    {
      if !isValidId(id) {
        return Refused(InvalidId);
      }
      var name := NameOf(body, str);
      if !IsName(name) {
        return Refused(InvalidName);
      }
      if exists other :: other in names && other != id && Equivalent(fold, names[other], name) {
        return Refused(DuplicateName);
      }
      if id !in names {
        return Refused(NotFound);
      }
      UniqueAfterStore(names, fold, id, name);
      names := names[id := name];
      r := Stored(200, id, name);
    }

    /** `deleteCategory`: articles are checked before videos, and nothing is
        removed on a refusal. */
    method Delete(id: string) returns (r: Outcome)
      requires Valid()
      modifies this
      ensures Valid()
      ensures articleRefs == old(articleRefs) && videoRefs == old(videoRefs)
      ensures !isValidId(id) ==> r == Refused(InvalidId)
      ensures isValidId(id) && id in articleRefs ==> r == Refused(InArticles)
      ensures isValidId(id) && id !in articleRefs && id in videoRefs ==> r == Refused(InVideos)
      ensures isValidId(id) && id !in articleRefs && id !in videoRefs && id !in old(names) ==> r == Refused(NotFound)
      ensures isValidId(id) && id !in articleRefs && id !in videoRefs && id in old(names) ==> r == Removed
      ensures r == Removed ==> names == old(names) - {id}
      ensures r != Removed ==> names == old(names)
    {
      if !isValidId(id) {
        return Refused(InvalidId);
      }
      if id in articleRefs {
        return Refused(InArticles);
      }
      if id in videoRefs {
        return Refused(InVideos);
      }
      if id !in names {
        return Refused(NotFound);
      }
      UniqueAfterRemove(names, fold, id);
      names := names - {id};
      r := Removed;
    }

    /** `listCategories`: every stored category once, in name order. The
        store's sort is spelled out as insertion into the listing. */
    method List() returns (items: seq<Entry>)
      requires Valid()
      ensures SortedByName(items)
      ensures |items| == |names|
      ensures forall e :: e in items <==> e.id in names && names[e.id] == e.name
    {
      var rest := names;
      items := [];
      while rest != map[]
        invariant rest.Keys <= names.Keys
        invariant forall k :: k in rest ==> rest[k] == names[k]
        invariant SortedByName(items)
        invariant |items| + |rest| == |names|
        invariant forall e :: e in items <==> e.id in names && e.id !in rest && names[e.id] == e.name
        decreases |rest|
      {
        var k :| k in rest;
        var e := Entry(k, names[k]);
        InsertKeepsSorted(items, e);
        InsertByNameElements(items, e);
        items := InsertByName(items, e);
        rest := rest - {k};
      }
    }
  }

  // ---------------------------------------------------------------------
  // Properties

  /** Renaming a category to a name equivalent to its own current name meets
      no conflict: the only record holding such a name is the record itself. */
  lemma RenameToOwnEquivalent(names: map<string, string>, fold: char -> char, id: string, name: string)
    requires Unique(names, fold)
    requires id in names && Equivalent(fold, names[id], name)
    ensures !TakenBy(names, fold, name, Some(id))
  {
    if TakenBy(names, fold, name, Some(id)) {
      var other :| other in names && Some(other) != Some(id) && Equivalent(fold, names[other], name);
      EquivalentIsEquivalence(fold, names[other], name, names[id]);
    }
  }

  /** The order is strict and total on distinct strings. */
  lemma {:induction false} BelowTotal(a: string, b: string)
    ensures a != b ==> Below(a, b) || Below(b, a)
    ensures !(Below(a, b) && Below(b, a))
    decreases |a|
  {
    if a != [] && b != [] && a[0] == b[0] {
      BelowTotal(a[1..], b[1..]);
      assert a == [a[0]] + a[1..] && b == [b[0]] + b[1..];
    }
  }

  /** Inserting `e` yields the listing with `e` added. */
  lemma {:induction false} InsertByNameElements(s: seq<Entry>, e: Entry)
    ensures |InsertByName(s, e)| == |s| + 1
    ensures forall x :: x in InsertByName(s, e) <==> x == e || x in s
    decreases |s|
  {
    if s != [] && !Below(e.name, s[0].name) {
      InsertByNameElements(s[1..], e);
      assert s == [s[0]] + s[1..];
    }
  }

  /** Insertion keeps a listing sorted when its names and the new one are
      pairwise distinct, which the unique index guarantees. */
  lemma {:induction false} InsertKeepsSorted(s: seq<Entry>, e: Entry)
    requires SortedByName(s)
    requires forall x :: x in s ==> x.name != e.name
    ensures SortedByName(InsertByName(s, e))
    ensures |InsertByName(s, e)| > 0
    ensures InsertByName(s, e)[0] == e || (s != [] && InsertByName(s, e)[0] == s[0])
    decreases |s|
  {
    if s != [] && !Below(e.name, s[0].name) {
      var t := s[1..];
      assert SortedByName(t) by {
        forall i | 0 < i < |t| ensures Below(t[i - 1].name, t[i].name) {
          assert t[i - 1] == s[i] && t[i] == s[i + 1];
        }
      }
      assert forall x :: x in t ==> x in s;
      InsertKeepsSorted(t, e);
      BelowTotal(e.name, s[0].name);
      var u := InsertByName(t, e);
      var w := [s[0]] + u;
      forall i | 0 < i < |w| ensures Below(w[i - 1].name, w[i].name) {
        if i == 1 {
          if u[0] != e {
            assert u[0] == t[0] == s[1];
          }
        } else {
          assert w[i - 1] == u[i - 2] && w[i] == u[i - 1];
        }
      }
    } else if s != [] {
      var w := [e] + s;
      forall i | 0 < i < |w| ensures Below(w[i - 1].name, w[i].name) {
        if i > 1 {
          assert w[i - 1] == s[i - 2] && w[i] == s[i - 1];
        }
      }
    }
  }
}
