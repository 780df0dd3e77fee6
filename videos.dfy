/** The video endpoints: the request schema of
    `src/modules/videos/videos.schema.ts` and the pure and patch-building parts
    of `src/modules/videos/videos.controller.ts`. Id validity, the category
    lookup, the thumbnail probe, the upload and `String` of the values the
    model does not spell out are oracles. */
module Videos {
  import opened Js
  import Thumb
  import Whitespace

  // ---------------------------------------------------------------------
  // videos.schema.ts

  /** `/^[a-zA-Z0-9_-]{6,}$/` */
  predicate IsYoutubeId(s: string) {
    |s| >= 6 && forall i :: 0 <= i < |s| ==> IsIdChar(s[i])
  }

  /** `z.string().min(3)`, counted in UTF-16 code units. */
  predicate IsTitle(v: Value) {
    v.Str? && JsLength(v.s) >= 3
  }

  /** `z.string().optional().nullable()` */
  predicate IsCategoryIdField(v: Value) {
    v.Undefined? || v.Null? || v.Str?
  }

  /** `z.string().datetime().optional()`; `isDatetime` is zod's check. */
  predicate IsDateField(v: Value, isDatetime: string -> bool) {
    v.Undefined? || (v.Str? && isDatetime(v.s))
  }

  /** `videoSchema` (and `videoSchema.partial()` when `partial`) accepts the body. */
  predicate AcceptsVideo(body: Value, partial: bool, isDatetime: string -> bool) {
    var title, yt := Get(body, "title"), Get(body, "youtubeId");
    && body.Obj?
    && ((partial && title.Undefined?) || IsTitle(title))
    && ((partial && yt.Undefined?) || (yt.Str? && IsYoutubeId(yt.s)))
    && IsCategoryIdField(Get(body, "categoryId"))
    && IsDateField(Get(body, "createdAt"), isDatetime)
    && IsDateField(Get(body, "updatedAt"), isDatetime)
  }

  /** The three states of `categoryId`: absent, `null`, or a string. */
  datatype CategoryField = Absent | NullCategory | CategoryString(s: string)

  /** The parsed body; `None` is a field left out. */
  datatype VideoInput = VideoInput(title: Option<string>, youtubeId: Option<string>, categoryId: CategoryField)

  function CategoryFieldOf(v: Value): CategoryField {
    if v.Str? then CategoryString(v.s) else if v.Null? then NullCategory else Absent
  }

  function StringField(v: Value): Option<string> {
    if v.Str? then Some(v.s) else None
  }

  /** `safeParse`: the data when the schema accepts the body. */
  function ParseVideo(body: Value, partial: bool, isDatetime: string -> bool): (r: Option<VideoInput>)
    ensures r.Some? <==> AcceptsVideo(body, partial, isDatetime)
    ensures r.Some? && !partial ==> r.value.title.Some? && r.value.youtubeId.Some?
    ensures r.Some? && r.value.title.Some? ==> JsLength(r.value.title.value) >= 3
    ensures r.Some? && r.value.youtubeId.Some? ==> IsYoutubeId(r.value.youtubeId.value)
    ensures r.Some? && r.value.categoryId.CategoryString? ==> Get(body, "categoryId") == Str(r.value.categoryId.s)
  {
    if !AcceptsVideo(body, partial, isDatetime) then None
    else Some(VideoInput(StringField(Get(body, "title")), StringField(Get(body, "youtubeId")),
                         CategoryFieldOf(Get(body, "categoryId"))))
  }

  // ---------------------------------------------------------------------
  // videos.controller.ts

  /** A stored video, as far as the handlers read it. */
  datatype VideoRecord = VideoRecord(title: string, youtubeId: string, coverUrl: string,
                                     coverPublicId: string, category: Option<string>)

  datatype CategoryRef = CategoryRef(id: string, name: string)

  /** The API form of a video. */
  datatype VideoView = VideoView(id: string, title: string, youtubeId: string, category: Option<CategoryRef>)

  /** `cat._id && cat.name`: the category was populated. */
  predicate Populated(cat: Value) {
    Truthy(Get(cat, "_id")) && Truthy(Get(cat, "name"))
  }

  /** `mapVideo(doc)`; `isValidId` is `Types.ObjectId.isValid`. */
  function MapVideo(doc: Value, isValidId: Value -> bool, str: Value -> string): VideoView {
    var cat := Get(doc, "category");
    var category :=
      if Truthy(cat) && TypeofObject(cat) then
        if Populated(cat) then Some(CategoryRef(JsString(Get(cat, "_id"), str), JsString(Get(cat, "name"), str)))
        else if isValidId(cat) then Some(CategoryRef(JsString(cat, str), ""))
        else None
      else None;
    var title, yt := Get(doc, "title"), Get(doc, "youtubeId");
    VideoView(JsString(Get(doc, "_id"), str),
              if Nullish(title) then "" else JsString(title, str),
              if Nullish(yt) then "" else JsString(yt, str),
              category)
  }

  /** `existing.coverPublicId || existing.youtubeId`: the id a cover is
      destroyed under. */
  function CoverIdOf(v: VideoRecord): string {
    if v.coverPublicId != "" then v.coverPublicId else v.youtubeId
  }

  /** How the handlers answer when they stop early. `Rejected` is a failed
      `required` validator, which reaches the error handler. */
  datatype Refusal = InvalidId | InvalidCategoryId | CategoryNotFound | VideoNotFound | Rejected

  function RefusalStatus(f: Refusal): nat {
    match f
    case InvalidId => 400
    case InvalidCategoryId => 400
    case CategoryNotFound => 404
    case VideoNotFound => 404
    case Rejected => 500
  }

  /** A value written into the update: a string, or `undefined`. */
  datatype PatchValue = PStr(s: string) | PUndefined

  datatype PatchResult = Patched(patch: map<string, PatchValue>) | PatchRefused(why: Refusal)

  /** `body.youtubeId` is a non-empty string other than the stored one. */
  predicate YoutubeIdChanges(body: VideoInput, existing: VideoRecord) {
    body.youtubeId.Some? && body.youtubeId.value != "" && body.youtubeId.value != existing.youtubeId
  }

  /** The patch construction of `updateVideo` (after the id, body and lookup
      checks). `destroyed` is the public id the old cover is destroyed under, if
      any. */
  method BuildVideoPatch(body: VideoInput, existing: VideoRecord, isValidId: string -> bool,
                         categoryExists: string -> bool, headOk: string -> bool,
                         upload: (string, string) -> Thumb.UploadOutcome)
    returns (r: PatchResult, destroyed: Option<string>)
    ensures destroyed == (if YoutubeIdChanges(body, existing) then Thumb.CoverPublicId(CoverIdOf(existing)) else None)
    ensures r.PatchRefused? <==> CategoryRefusal(body.categoryId, isValidId, categoryExists).Some?
    ensures r.PatchRefused? ==> r.why == CategoryRefusal(body.categoryId, isValidId, categoryExists).value
    ensures r.Patched? ==> PatchSpec(r.patch, body, existing, Thumb.CoverFor(body.youtubeId.GetOr(""), headOk, upload))
  {
    var patch: map<string, PatchValue> := map[];
    destroyed := None;
    if body.title.Some? {
      patch := patch["title" := PStr(body.title.value)];
    }
    if body.youtubeId.Some? && |body.youtubeId.value| > 0 {
      if body.youtubeId.value != existing.youtubeId {
        destroyed := Thumb.CoverPublicId(CoverIdOf(existing));
        var uploaded := Thumb.UploadCoverToCloudinary(body.youtubeId.value, headOk, upload);
        patch := patch["youtubeId" := PStr(body.youtubeId.value)];
        patch := patch["coverUrl" := PStr(uploaded.coverUrl.GetOr(""))];
        patch := patch["coverPublicId" := PStr(uploaded.coverPublicId.GetOr(""))];
      }
    }
    if !body.categoryId.Absent? {
      if body.categoryId.NullCategory? || body.categoryId.s == "" {
        patch := patch["category" := PUndefined];
      } else {
        if !isValidId(body.categoryId.s) {
          return PatchRefused(InvalidCategoryId), destroyed;
        }
        if !categoryExists(body.categoryId.s) {
          return PatchRefused(CategoryNotFound), destroyed;
        }
        patch := patch["category" := PStr(body.categoryId.s)];
      }
    }
    r := Patched(patch);
  }

  /** What the patch holds, field by field. */
  predicate PatchSpec(patch: map<string, PatchValue>, body: VideoInput, existing: VideoRecord, cover: Thumb.CoverUpload) {
    && patch.Keys <= {"title", "youtubeId", "coverUrl", "coverPublicId", "category"}
    && ("title" in patch <==> body.title.Some?)
    && (body.title.Some? ==> patch["title"] == PStr(body.title.value))
    && ("youtubeId" in patch <==> YoutubeIdChanges(body, existing))
    && ("coverUrl" in patch <==> YoutubeIdChanges(body, existing))
    && ("coverPublicId" in patch <==> YoutubeIdChanges(body, existing))
    && (YoutubeIdChanges(body, existing) ==>
          && patch["youtubeId"] == PStr(body.youtubeId.value)
          && patch["coverUrl"] == PStr(cover.coverUrl.GetOr(""))
          && patch["coverPublicId"] == PStr(cover.coverPublicId.GetOr("")))
    && ("category" in patch <==> !body.categoryId.Absent?)
    && (body.categoryId.NullCategory? || body.categoryId == CategoryString("") ==> patch["category"] == PUndefined)
    && (body.categoryId.CategoryString? && body.categoryId.s != "" ==> patch["category"] == PStr(body.categoryId.s))
  }

  /** `createVideo` after the body check: the record inserted, the category
      refusal, or the `required` refusal of a title or YouTube id that the
      `trim: true` setters leave empty (the cover is uploaded before it). */
  method CreateVideo(body: VideoInput, isValidId: string -> bool, categoryExists: string -> bool,
                     headOk: string -> bool, upload: (string, string) -> Thumb.UploadOutcome)
    returns (r: Result<VideoRecord>)
    requires body.title.Some? && body.youtubeId.Some?
    ensures CategoryRefusal(body.categoryId, isValidId, categoryExists).Some? ==>
      r == Failure(CategoryRefusal(body.categoryId, isValidId, categoryExists).value)
    ensures CategoryRefusal(body.categoryId, isValidId, categoryExists).None? &&
            (Whitespace.Trim(body.title.value) == "" || Whitespace.Trim(body.youtubeId.value) == "") ==>
      r == Failure(Rejected)
    ensures CategoryRefusal(body.categoryId, isValidId, categoryExists).None? &&
            Whitespace.Trim(body.title.value) != "" && Whitespace.Trim(body.youtubeId.value) != "" ==>
      var cover := Thumb.CoverFor(body.youtubeId.value, headOk, upload);
      r == Success(VideoRecord(Whitespace.Trim(body.title.value), Whitespace.Trim(body.youtubeId.value), cover.coverUrl.GetOr(""),
                               cover.coverPublicId.GetOr(""), CategoryOf(body.categoryId)))
  {
    var categoryId: Option<string> := None;
    if body.categoryId.CategoryString? && body.categoryId.s != "" {
      if !isValidId(body.categoryId.s) {
        return Failure(InvalidCategoryId);
      }
      if !categoryExists(body.categoryId.s) {
        return Failure(CategoryNotFound);
      }
      categoryId := Some(body.categoryId.s);
    }
    var uploaded := Thumb.UploadCoverToCloudinary(body.youtubeId.value, headOk, upload);
    var title, youtubeId := Whitespace.Trim(body.title.value), Whitespace.Trim(body.youtubeId.value);
    if title == "" || youtubeId == "" {
      return Failure(Rejected);
    }
    r := Success(VideoRecord(title, youtubeId, uploaded.coverUrl.GetOr(""),
                             uploaded.coverPublicId.GetOr(""), categoryId));
  }

  datatype Result<T> = Success(value: T) | Failure(why: Refusal)

  /** The refusal a truthy `categoryId` draws, on create and on update
      alike; `null` and `""` draw none. */
  function CategoryRefusal(c: CategoryField, isValidId: string -> bool, categoryExists: string -> bool): Option<Refusal> {
    if c.CategoryString? && c.s != "" then
      if !isValidId(c.s) then Some(InvalidCategoryId)
      else if !categoryExists(c.s) then Some(CategoryNotFound)
      else None
    else None
  }

  /** The category stored on create: the id when one was sent. */
  function CategoryOf(c: CategoryField): Option<string> {
    if c.CategoryString? && c.s != "" then Some(c.s) else None
  }

  /** `deleteVideo`: `deleted` is what `findByIdAndDelete` returned. */
  function DeleteVideo(id: string, isValidId: string -> bool, deleted: Option<VideoRecord>): (r: Result<Option<string>>)
    ensures !isValidId(id) ==> r == Failure(InvalidId)
    ensures isValidId(id) && deleted.None? ==> r == Failure(VideoNotFound)
    ensures isValidId(id) && deleted.Some? ==> r.Success?
    ensures r.Success? ==> deleted.Some? && r.value == Thumb.CoverPublicId(CoverIdOf(deleted.value))
  {
    if !isValidId(id) then Failure(InvalidId)
    else if deleted.None? then Failure(VideoNotFound)
    else Success(Thumb.CoverPublicId(CoverIdOf(deleted.value)))
  }

  // ---------------------------------------------------------------------
  // Properties

  /** The YouTube-id rule: only `[A-Za-z0-9_-]`, at least six, any length above. */
  lemma YoutubeIdRule(s: string, extra: string)
    requires IsYoutubeId(s)
    requires forall i :: 0 <= i < |extra| ==> IsIdChar(extra[i])
    ensures IsYoutubeId(s + extra)
    ensures forall i :: 0 <= i < |s| ==> IsLowerAscii(s[i]) || IsUpperAscii(s[i]) || IsDigit(s[i]) || s[i] == '_' || s[i] == '-'
  {
    assert forall i :: |s| <= i < |s + extra| ==> (s + extra)[i] == extra[i - |s|];
  }

  /** The partial schema accepts every object whose present fields pass, the
      empty one included; `categoryId` takes any string, with no id check. */
  lemma PartialAcceptsEmpty(isDatetime: string -> bool, c: string)
    ensures AcceptsVideo(Obj(map[]), true, isDatetime)
    ensures !AcceptsVideo(Obj(map[]), false, isDatetime)
    ensures AcceptsVideo(Obj(map["categoryId" := Str(c)]), true, isDatetime)
    ensures ParseVideo(Obj(map["categoryId" := Str(c)]), true, isDatetime) == Some(VideoInput(None, None, CategoryString(c)))
  {
    assert Get(Obj(map["categoryId" := Str(c)]), "title") == Undefined;
  }

  /** A populated category maps to its id and name, a bare valid id to that
      id with an empty name, and a missing or `null` category to none. */
  lemma MapVideoCategory(doc: Value, isValidId: Value -> bool, str: Value -> string, h: string, n: string)
    requires doc.Obj?
    ensures n != "" && "category" in doc.fields && doc.fields["category"] == Obj(map["_id" := ObjectId(h), "name" := Str(n)]) ==>
      MapVideo(doc, isValidId, str).category == Some(CategoryRef(h, n))
    ensures "category" in doc.fields && doc.fields["category"] == ObjectId(h) && isValidId(ObjectId(h)) ==>
      MapVideo(doc, isValidId, str).category == Some(CategoryRef(h, ""))
    ensures "category" in doc.fields && doc.fields["category"] == ObjectId(h) && !isValidId(ObjectId(h)) ==>
      MapVideo(doc, isValidId, str).category == None
    ensures ("category" !in doc.fields || doc.fields["category"] == Null) ==> MapVideo(doc, isValidId, str).category == None
  {
    var cat := Obj(map["_id" := ObjectId(h), "name" := Str(n)]);
    assert Get(cat, "_id") == ObjectId(h) && Get(cat, "name") == Str(n);
    assert Get(ObjectId(h), "_id") == Undefined;
  }

  /** A result's category always carries the id it was read from; its name
      is empty unless the category was populated. */
  lemma MapVideoCategoryOrigin(doc: Value, isValidId: Value -> bool, str: Value -> string)
    ensures var r := MapVideo(doc, isValidId, str).category;
      r.Some? ==> Truthy(Get(doc, "category")) && TypeofObject(Get(doc, "category"))
    ensures var r := MapVideo(doc, isValidId, str).category;
      r.Some? && !Populated(Get(doc, "category")) ==>
        r.value == CategoryRef(JsString(Get(doc, "category"), str), "") && isValidId(Get(doc, "category"))
  {
  }

  /** The cover of a video is destroyed under its stored public id when it
      has one and under its YouTube id otherwise, and always under `videos/`;
      updating and deleting agree on it. */
  lemma CoverIdRule(v: VideoRecord, isValidId: string -> bool, id: string)
    requires isValidId(id)
    ensures v.coverPublicId != "" ==> CoverIdOf(v) == v.coverPublicId
    ensures v.coverPublicId == "" ==> CoverIdOf(v) == v.youtubeId
    ensures DeleteVideo(id, isValidId, Some(v)) == Success(Thumb.CoverPublicId(CoverIdOf(v)))
    ensures CoverIdOf(v) != "" ==> StartsWith(Thumb.CoverPublicId(CoverIdOf(v)).value, Thumb.VIDEOS_PREFIX)
  {
    Thumb.CoverPublicIdShape(CoverIdOf(v));
  }

  /** A YouTube id that passes the schema has no whitespace, so its setter
      leaves it as sent and it never draws the `required` refusal; a title
      of three spaces passes the schema and is emptied by its setter. */
  lemma TrimmedFields(youtubeId: string)
    requires IsYoutubeId(youtubeId)
    ensures Whitespace.Trim(youtubeId) == youtubeId != ""
    ensures IsTitle(Str("   ")) && Whitespace.Trim("   ") == ""
  {
    assert !IsJsSpace(youtubeId[0]) && !IsJsSpace(youtubeId[|youtubeId| - 1]);
  }

  /** Without a thumbnail or with a failed upload, the cover fields of both
      create and update are empty strings. */
  lemma EmptyCoverFields(youtubeId: string, headOk: string -> bool, upload: (string, string) -> Thumb.UploadOutcome)
    requires Thumb.FirstOk(Thumb.ThumbCandidates(youtubeId), headOk).None? ||
             upload(Thumb.FirstOk(Thumb.ThumbCandidates(youtubeId), headOk).value, youtubeId).UploadFailed?
    ensures Thumb.CoverFor(youtubeId, headOk, upload).coverUrl.GetOr("") == ""
    ensures Thumb.CoverFor(youtubeId, headOk, upload).coverPublicId.GetOr("") == ""
  {
  }
}
