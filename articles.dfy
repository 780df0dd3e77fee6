/** The article handlers of `src/modules/article/article.controller.ts` over
    the collection of `src/modules/article/article.model.ts`: creating,
    patching and deleting an article, and the image an upload produces. The
    Cloudinary SDK (upload, import, destroy), the size probe, `JSON.parse`,
    `Types.ObjectId.isValid`, zod's URL check and the collation are oracles;
    the categories are the table of category names by id. */
module Articles {
  import opened Js
  import opened Collation
  import opened UniqueSlug
  import Whitespace
  import SlugifyTR
  import ArticleSchema
  import CloudinaryUrl

  /** The alt text used when neither the body nor the stored image has one. */
  const DEFAULT_ALT: string := "Kapak görseli"

  /** The keys a body may carry alone and still count as a bare file upload. */
  const FILE_ONLY_KEYS: set<string> := {"slug", "_action", "data"}

  function TrimOpt(s: Option<string>): Option<string> {
    if s.Some? then Some(Whitespace.Trim(s.value)) else None
  }

  /** `ImageSub`; `None` is a field left unset. */
  datatype Image = Image(url: Option<string>, alt: string, tinyUrl: Option<string>, publicId: Option<string>)

  /** A stored article; `category` is the id of its category. */
  datatype Article = Article(
    title: string, slug: string, content: string, image: Image,
    summary: Option<string>, category: Option<string>, keywords: seq<string>, readingMinutes: Option<int>)

  /** What a saved article satisfies: the `required` string fields are
      non-empty and the title is in the form the hook leaves. */
  predicate WellFormed(a: Article) {
    && a.title != "" && a.title == Whitespace.Normalize(a.title)
    && a.slug != "" && a.content != ""
    && a.image.url.Some? && a.image.url.value != "" && a.image.alt != ""
  }

  /** Every stored article passed the required validators. */
  predicate AllWellFormed(docs: map<string, Article>) {
    forall id :: id in docs ==> WellFormed(docs[id])
  }

  /** The slug column of the collection. */
  function SlugsOf(docs: map<string, Article>): (m: map<string, string>)
    ensures m.Keys == docs.Keys
    ensures forall id :: id in docs ==> m[id] == docs[id].slug
  {
    map id | id in docs :: docs[id].slug
  }

  /** Why a handler stops early. */
  datatype Refusal =
    | InvalidBody | InvalidId | InvalidCategoryId | CategoryNotFound | ArticleNotFound
    | MissingAlt | MissingImage | Rejected | DuplicateSlug | CloudinaryError

  /** `Rejected` (a failed `required` validator), `DuplicateSlug` (error
      11000 from the unique index) and `CloudinaryError` (a failed upload or
      import) reach the error handler. */
  function RefusalStatus(f: Refusal): nat {
    match f
    case InvalidBody => 400
    case InvalidId => 400
    case InvalidCategoryId => 400
    case CategoryNotFound => 404
    case ArticleNotFound => 404
    case MissingAlt => 400
    case MissingImage => 400
    case Rejected => 500
    case DuplicateSlug => 500
    case CloudinaryError => 500
  }

  datatype Reply =
    | Saved(status: nat, id: string, article: Article)
    | ImageSaved(url: Option<string>, tinyUrl: string)
    | Deleted
    | Refused(why: Refusal)

  // ---------------------------------------------------------------------
  // Decision rules

  /** `body.slug ? slugify(body.slug) : slugify(title)`, the base of the
      slug loop on create and on update. */
  function BaseSlug(slug: Option<string>, title: string): (r: string)
    ensures SlugifyTR.IsSlug(r)
    ensures slug.Some? && slug.value != "" ==> r == SlugifyTR.Slugify(slug.value)
    ensures slug.None? || slug.value == "" ==> r == SlugifyTR.Slugify(title)
  {
    var source := if slug.Some? && slug.value != "" then slug.value else title;
    SlugifyTR.SlugifyIsSlug(source);
    SlugifyTR.Slugify(source)
  }

  /** `isFileOnlyUpload`: a file and no body field but at most one of
      `slug`, `_action` and `data`. With at most one key the order that
      `Object.keys` reports plays no part, so the keys are a set. */
  predicate IsFileOnlyUpload(hasFile: bool, keys: set<string>) {
    hasFile && (|keys| == 0 || (|keys| == 1 && keys <= FILE_ONLY_KEYS))
  }

  /** `Object.keys(req.body ?? {})` for a body that is an object or nullish. */
  function KeysOf(body: Value): set<string> {
    if body.Obj? then body.fields.Keys else {}
  }

  /** `bodyAlt ?? storedAlt ?? "Kapak görseli"` */
  function AltFallback(bodyAlt: Option<string>, storedAlt: Option<string>): string {
    if bodyAlt.Some? then bodyAlt.value else if storedAlt.Some? then storedAlt.value else DEFAULT_ALT
  }

  /** `existing.image?.alt || "Kapak görseli"`, the bare upload's rule. */
  function FileOnlyAlt(storedAlt: string): string {
    if storedAlt != "" then storedAlt else DEFAULT_ALT
  }

  /** `req.body ?? {}`, or the object its `data` string decodes to. */
  function ParseIncomingBody(reqBody: Value, parseJson: string -> Option<Value>): Value {
    var b := if Nullish(reqBody) then Obj(map[]) else reqBody;
    var d := Get(b, "data");
    if d.Str? then (match parseJson(d.s) case Some(v) => v case None => b) else b
  }

  // ---------------------------------------------------------------------
  // Images

  /** What Cloudinary answers for an upload or an import. */
  datatype Asset = Asset(publicId: string, secureUrl: string)

  /** An upload or an import either stores an asset or throws; the handlers
      do not catch the error, which reaches the error handler. */
  datatype Upload = Uploaded(asset: Asset) | UploadFailed

  /** What `uploadToCloudinary` and `importUrlToCloudinary` return. The URL
      is missing when the answer is not a Cloudinary URL: the `!` after
      `noCropFitCloudinary` checks nothing. */
  datatype Processed = Processed(url: Option<string>, tinyUrl: string, publicId: string)

  const WIDTHS: seq<int> := [1920, 1600]
  const QUALITIES: seq<CloudinaryUrl.Param> := [CloudinaryUrl.Named("auto:eco"), CloudinaryUrl.Named("auto:low"), CloudinaryUrl.Level(60)]
  const FIT_1600: CloudinaryUrl.NoCropFitOpts := CloudinaryUrl.NoCropFitOpts(1600, None, None, None, None)

  function FirstOf(a: Option<string>, b: Option<string>): Option<string> {
    if a.Some? then a else b
  }

  /** The URLs derived from an asset, with both fallbacks as written. */
  function ProcessedOf(a: Asset, probe: string -> CloudinaryUrl.Probe): Processed {
    var u := a.secureUrl;
    var chosen := if CloudinaryUrl.IsCloudinaryUrl(u) then CloudinaryUrl.Pick(CloudinaryUrl.Candidates(u, WIDTHS, QUALITIES), probe) else None;
    var tiny := FirstOf(CloudinaryUrl.TinyBlur(Some(u), CloudinaryUrl.NO_TINY_BLUR_OPTS),
                        CloudinaryUrl.TinyBlurFill(Some(u), CloudinaryUrl.NO_TINY_BLUR_OPTS, Some(1600)));
    Processed(FirstOf(chosen, CloudinaryUrl.NoCropFitUrl(Some(u), FIT_1600)), tiny.GetOr(u), a.publicId)
  }

  /** The processing the two helpers share. */
  method ProcessAsset(a: Asset, probe: string -> CloudinaryUrl.Probe) returns (p: Processed)
    ensures p == ProcessedOf(a, probe)
  {
    var rawUrl := a.secureUrl;
    var optimized := CloudinaryUrl.ChooseNoCropUnder1MB(rawUrl, WIDTHS, QUALITIES, probe);
    if optimized.None? {
      optimized := CloudinaryUrl.NoCropFit(Some(rawUrl), FIT_1600);
    }
    var tiny := CloudinaryUrl.TinyBlur(Some(rawUrl), CloudinaryUrl.NO_TINY_BLUR_OPTS);
    if tiny.None? {
      tiny := CloudinaryUrl.TinyBlurFill(Some(rawUrl), CloudinaryUrl.NO_TINY_BLUR_OPTS, Some(1600));
    }
    p := Processed(optimized, tiny.GetOr(rawUrl), a.publicId);
  }

  /** The image stored for a fresh asset. */
  function NewImage(p: Processed, alt: string): Image {
    Image(p.url, Whitespace.Trim(alt), Some(p.tinyUrl), Some(Whitespace.Trim(p.publicId)))
  }

  /** `destroyIfExists(publicId)`: what is destroyed. */
  function DestroyIfExists(publicId: Option<string>): seq<string> {
    if publicId.Some? && publicId.value != "" then [publicId.value] else []
  }

  function AltOf(bi: Option<ArticleSchema.ImageInput>): Option<string> {
    if bi.Some? then bi.value.alt else None
  }

  /** `body.image.url` is sent, non-empty and not the stored URL. */
  predicate ImportsNewUrl(e: Image, bi: Option<ArticleSchema.ImageInput>) {
    bi.Some? && bi.value.url.Some? && bi.value.url.value != "" && Some(bi.value.url.value) != e.url
  }

  /** The upload the `GÖRSEL` part of a patch makes: the sent file, else the
      import of a new URL, else none. */
  function PatchUpload(e: Image, file: Option<Upload>, bi: Option<ArticleSchema.ImageInput>,
                       importUrl: string -> Upload): Option<Upload>
  {
    if file.Some? then file
    else if ImportsNewUrl(e, bi) then Some(importUrl(bi.value.url.value))
    else None
  }

  predicate UploadFails(up: Option<Upload>) {
    up.Some? && up.value.UploadFailed?
  }

  /** The image after the `GÖRSEL` part of a patch: a new file wins, then an
      image with a new URL to import, then an image that only changes the
      alt text or the small URL. A failed upload throws before the image is
      assigned. */
  function ImageAfterPatch(e: Image, file: Option<Upload>, bi: Option<ArticleSchema.ImageInput>,
                           importUrl: string -> Upload, probe: string -> CloudinaryUrl.Probe): Image
  {
    var up := PatchUpload(e, file, bi, importUrl);
    if up.Some? then
      (if up.value.Uploaded? then NewImage(ProcessedOf(up.value.asset, probe), AltFallback(AltOf(bi), Some(e.alt))) else e)
    else if bi.Some? then Image(e.url, Whitespace.Trim(AltFallback(bi.value.alt, Some(e.alt))), FirstOf(bi.value.tinyUrl, e.tinyUrl), TrimOpt(e.publicId))
    else e
  }

  /** The public ids the patch destroys. */
  function DestroyedByPatch(e: Image, file: Option<Upload>, bi: Option<ArticleSchema.ImageInput>): seq<string> {
    if file.Some? || ImportsNewUrl(e, bi) then DestroyIfExists(e.publicId) else []
  }

  /** The image of a bare file upload. */
  function FileOnlyImage(e: Image, p: Processed): Image {
    Image(p.url, Whitespace.Trim(FileOnlyAlt(e.alt)), Some(p.tinyUrl), Some(Whitespace.Trim(p.publicId)))
  }

  // ---------------------------------------------------------------------
  // Categories

  /** How the category part of a handler ends. */
  datatype CategoryChoice = Unchanged | Chosen(id: string) | NoCategory(why: Refusal)

  /** A category field the handler acts on: on create a truthy one
      (`if (body.categoryId)`), on update any string (`typeof … === "string"`). */
  predicate Sent(v: Option<string>, create: bool) {
    v.Some? && (!create || v.value != "")
  }

  /** The answer the category part stops with, if any. */
  function CategoryRefusal(categoryId: Option<string>, category: Option<string>, create: bool,
                           categories: map<string, string>, fold: char -> char, isValidId: string -> bool): Option<Refusal>
  {
    if Sent(categoryId, create) then
      if !isValidId(categoryId.value) then Some(InvalidCategoryId)
      else if categoryId.value !in categories then Some(CategoryNotFound)
      else None
    else if Sent(category, create) && !TakenBy(categories, fold, category.value, None) then Some(CategoryNotFound)
    else None
  }

  /** `categoryId` first, checked for format and then for existence; else
      `category`, looked up by name under the collation. */
  method ChooseCategory(categoryId: Option<string>, category: Option<string>, create: bool,
                        categories: map<string, string>, fold: char -> char, isValidId: string -> bool)
    returns (c: CategoryChoice)
    ensures c.NoCategory? <==> CategoryRefusal(categoryId, category, create, categories, fold, isValidId).Some?
    ensures c.NoCategory? ==> c.why == CategoryRefusal(categoryId, category, create, categories, fold, isValidId).value
    ensures Sent(categoryId, create) && !isValidId(categoryId.value) ==> c == NoCategory(InvalidCategoryId)
    ensures Sent(categoryId, create) && isValidId(categoryId.value) && categoryId.value !in categories ==>
      c == NoCategory(CategoryNotFound)
    ensures Sent(categoryId, create) && isValidId(categoryId.value) && categoryId.value in categories ==>
      c == Chosen(categoryId.value)
    ensures !Sent(categoryId, create) && Sent(category, create) && !TakenBy(categories, fold, category.value, None) ==>
      c == NoCategory(CategoryNotFound)
    ensures !Sent(categoryId, create) && Sent(category, create) && TakenBy(categories, fold, category.value, None) ==>
      c.Chosen? && c.id in categories && Equivalent(fold, categories[c.id], category.value)
    ensures !Sent(categoryId, create) && !Sent(category, create) ==> c == Unchanged
  {
    if Sent(categoryId, create) {
      if !isValidId(categoryId.value) {
        return NoCategory(InvalidCategoryId);
      }
      if categoryId.value !in categories {
        return NoCategory(CategoryNotFound);
      }
      return Chosen(categoryId.value);
    } else if Sent(category, create) {
      if !exists id :: id in categories && Equivalent(fold, categories[id], category.value) {
        return NoCategory(CategoryNotFound);
      }
      var id :| id in categories && Equivalent(fold, categories[id], category.value);
      return Chosen(id);
    }
    return Unchanged;
  }

  // ---------------------------------------------------------------------
  // The document being saved

  /** A hydrated document: `findById` or `create` builds one, the handler
      assigns its fields, and `save` runs the hook on it. */
  class ArticleDoc {
    var title: string
    var slug: string
    var content: string
    var image: Image
    var summary: Option<string>
    var category: Option<string>
    var keywords: seq<string>
    var readingMinutes: Option<int>

    constructor (a: Article)
      ensures Value() == a
    {
      title, slug, content, image := a.title, a.slug, a.content, a.image;
      summary, category, keywords, readingMinutes := a.summary, a.category, a.keywords, a.readingMinutes;
    }

    function Value(): Article
      reads this
    {
      Article(title, slug, content, image, summary, category, keywords, readingMinutes)
    }

    /** The pre-validate hook: the title is trimmed and its whitespace runs
        become single spaces; nothing else changes. */
    method PreValidate()
      modifies this
      ensures Value() == old(Value()).(title := Whitespace.Normalize(old(title)))
      ensures title == Whitespace.Normalize(title)
    {
      Whitespace.NormalizeIdempotent(title);
      title := Whitespace.Normalize(title);
    }

    /** The title, slug and text fields of `updateArticle`: slug and title
        move together, and only for a new non-empty title; `summary` and
        `readingMinutes` are assigned whether sent or not. */
    method PatchFields(b: ArticleSchema.ArticleInput, id: string, slugs: map<string, string>, fold: char -> char)
      requires CaseOnly(fold) && Unique(slugs, fold)
      requires id in slugs && slugs[id] == slug
      modifies this
      ensures FieldsPatched(old(Value()), Value(), b, id, slugs, fold)
      ensures !TakenBy(slugs, fold, slug, Some(id))
    {
      if b.title.Some? && b.title.value != "" && b.title.value != title {
        var uniqueSlug, n := ResolveSlug(BaseSlug(b.slug, b.title.value), slugs, fold, Some(id));
        slug := uniqueSlug;
        title := Whitespace.Trim(b.title.value);
      } else {
        RenameKeepsOwnSlug(slugs, fold, id);
      }
      if b.content.Some? {
        content := b.content.value;
      }
      summary := TrimOpt(b.summary);
      if b.keywords.Some? {
        keywords := b.keywords.value;
      }
      readingMinutes := b.readingMinutes;
    }

    /** The `GÖRSEL` part of `updateArticle`; `ok` is false when the upload
        or the import throws, after the old image has been destroyed. */
    method PatchImage(file: Option<Upload>, bi: Option<ArticleSchema.ImageInput>,
                      importUrl: string -> Upload, probe: string -> CloudinaryUrl.Probe)
      returns (destroyed: seq<string>, ok: bool)
      modifies this
      ensures Value() == old(Value()).(image := ImageAfterPatch(old(image), file, bi, importUrl, probe))
      ensures destroyed == DestroyedByPatch(old(image), file, bi)
      ensures ok <==> !UploadFails(PatchUpload(old(image), file, bi, importUrl))
    {
      destroyed, ok := [], true;
      if file.Some? {
        destroyed := DestroyIfExists(image.publicId);
        if file.value.UploadFailed? {
          return destroyed, false;
        }
        var uploaded := ProcessAsset(file.value.asset, probe);
        image := NewImage(uploaded, AltFallback(AltOf(bi), Some(image.alt)));
      } else if bi.Some? {
        var b := bi.value;
        if b.url.Some? && b.url.value != "" && Some(b.url.value) != image.url {
          destroyed := DestroyIfExists(image.publicId);
          var answer := importUrl(b.url.value);
          if answer.UploadFailed? {
            return destroyed, false;
          }
          var imported := ProcessAsset(answer.asset, probe);
          image := NewImage(imported, AltFallback(b.alt, Some(image.alt)));
        } else {
          image := Image(image.url, Whitespace.Trim(AltFallback(b.alt, Some(image.alt))), FirstOf(b.tinyUrl, image.tinyUrl), TrimOpt(image.publicId));
        }
      }
    }
  }

  // ---------------------------------------------------------------------
  // What the handlers promise about a saved article

  /** The field part of `updateArticle` turns `e` into `f`: slug and title
      move together, and only for a new non-empty title, to the least free
      slug and the trimmed title; content and keywords are kept unless sent;
      summary and reading time take the sent values; image and category are
      left to the later parts. */
  ghost predicate FieldsPatched(e: Article, f: Article, b: ArticleSchema.ArticleInput, id: string,
                                slugs: map<string, string>, fold: char -> char)
  {
    && (TitleChanges(b, e) ==>
          LeastFree(slugs, fold, BaseSlug(b.slug, b.title.value), Some(id), f.slug) && f.title == Whitespace.Trim(b.title.value))
    && (!TitleChanges(b, e) ==> f.slug == e.slug && f.title == e.title)
    && f.content == b.content.GetOr(e.content) && f.summary == TrimOpt(b.summary)
    && f.keywords == b.keywords.GetOr(e.keywords) && f.readingMinutes == b.readingMinutes
    && f.image == e.image && f.category == e.category
  }

  /** `body.title && body.title !== existing.title` */
  predicate TitleChanges(b: ArticleSchema.ArticleInput, e: Article) {
    b.title.Some? && b.title.value != "" && b.title.value != e.title
  }

  /** The category an article ends with, given the choice the handler made. */
  ghost predicate CategoryFits(category: Option<string>, before: Option<string>, categoryId: Option<string>, name: Option<string>,
                               create: bool, categories: map<string, string>, fold: char -> char)
  {
    && (Sent(categoryId, create) ==> category == categoryId && categoryId.value in categories)
    && (!Sent(categoryId, create) && Sent(name, create) ==>
          category.Some? && category.value in categories && Equivalent(fold, categories[category.value], name.value))
    && (!Sent(categoryId, create) && !Sent(name, create) ==> category == before)
  }

  /** The `required` validators pass on an article assembled from these
      values once the hook has run: its normalised title, its slug, its
      content, its image URL and its alt text are all non-empty. The slug
      loop answers the empty slug exactly when its base is empty
      (`UniqueSlug.EmptyOnlyFromEmptyBase`), so the outcomes below pass the
      base in the slug's place. */
  predicate Storable(title: string, slug: string, content: string, image: Image) {
    && Whitespace.Normalize(title) != "" && slug != "" && content != ""
    && image.url.Some? && image.url.value != "" && image.alt != ""
  }

  /** The fields `createArticle` reads without a check; the full schema
      guarantees them. */
  predicate Complete(b: ArticleSchema.ArticleInput) {
    b.title.Some? && b.content.Some? && b.image.Some? && b.image.value.alt.Some? && b.image.value.url.Some?
  }

  /** The upload `createArticle` makes: the sent file, else the import of
      the sent URL. */
  function CreateUpload(b: ArticleSchema.ArticleInput, file: Option<Upload>, importUrl: string -> Upload): Upload
    requires Complete(b)
  {
    if file.Some? then file.value else importUrl(b.image.value.url.value)
  }

  /** The article `createArticle` stores for the parsed body `b`. */
  ghost predicate CreateSpec(docs: map<string, Article>, b: ArticleSchema.ArticleInput, a: Article, file: Option<Upload>,
                             importUrl: string -> Upload, probe: string -> CloudinaryUrl.Probe,
                             categories: map<string, string>, fold: char -> char)
  {
    && Complete(b)
    && LeastFree(SlugsOf(docs), fold, BaseSlug(b.slug, b.title.value), None, a.slug)
    && a.title == Whitespace.Normalize(Whitespace.Trim(b.title.value))
    && a.content == b.content.value
    && CreateUpload(b, file, importUrl).Uploaded?
    && a.image == NewImage(ProcessedOf(CreateUpload(b, file, importUrl).asset, probe), b.image.value.alt.value)
    && a.summary == TrimOpt(b.summary)
    && CategoryFits(a.category, None, b.categoryId, b.category, true, categories, fold)
    && a.keywords == b.keywords.GetOr([])
    && a.readingMinutes == b.readingMinutes
  }

  /** The article `updateArticle` stores after patching `e` with `b`. */
  ghost predicate PatchSpec(docs: map<string, Article>, id: string, b: ArticleSchema.ArticleInput, a: Article,
                            file: Option<Upload>, importUrl: string -> Upload, probe: string -> CloudinaryUrl.Probe,
                            categories: map<string, string>, fold: char -> char)
    requires id in docs
  {
    var e := docs[id];
    && (TitleChanges(b, e) ==>
          LeastFree(SlugsOf(docs), fold, BaseSlug(b.slug, b.title.value), Some(id), a.slug)
          && a.title == Whitespace.Normalize(Whitespace.Trim(b.title.value)))
    && (!TitleChanges(b, e) ==> a.slug == e.slug && a.title == e.title)
    && a.content == b.content.GetOr(e.content)
    && a.summary == TrimOpt(b.summary)
    && CategoryFits(a.category, e.category, b.categoryId, b.category, false, categories, fold)
    && a.keywords == b.keywords.GetOr(e.keywords)
    && a.readingMinutes == b.readingMinutes
    && a.image == ImageAfterPatch(e.image, file, b.image, importUrl, probe)
  }

  /** The validators pass on what a patch of `e` with `b` saves. */
  predicate PatchStorable(e: Article, b: ArticleSchema.ArticleInput, file: Option<Upload>,
                          importUrl: string -> Upload, probe: string -> CloudinaryUrl.Probe)
  {
    var image, content := ImageAfterPatch(e.image, file, b.image, importUrl, probe), b.content.GetOr(e.content);
    if TitleChanges(b, e) then Storable(Whitespace.Trim(b.title.value), BaseSlug(b.slug, b.title.value), content, image)
    else Storable(e.title, e.slug, content, image)
  }

  /** Everything `createArticle` promises for the parsed body `b`, case by
      case in the order the handler meets them: a category refusal; else a
      failed upload or import; else the article it stores when the
      validators pass on it, and `Rejected` otherwise. */
  ghost predicate CreateOutcome(docs: map<string, Article>, b: ArticleSchema.ArticleInput, r: Reply, file: Option<Upload>,
                                importUrl: string -> Upload, probe: string -> CloudinaryUrl.Probe,
                                categories: map<string, string>, fold: char -> char, isValidId: string -> bool)
  {
    var refusal := CategoryRefusal(b.categoryId, b.category, true, categories, fold, isValidId);
    && Complete(b)
    && (refusal.Some? ==> r == Refused(refusal.value))
    && (refusal.None? && CreateUpload(b, file, importUrl).UploadFailed? ==> r == Refused(CloudinaryError))
    && (refusal.None? && CreateUpload(b, file, importUrl).Uploaded? ==>
          && (r.Saved? || r == Refused(Rejected))
          && (r.Saved? <==> Storable(Whitespace.Trim(b.title.value), BaseSlug(b.slug, b.title.value), b.content.value,
                                     NewImage(ProcessedOf(CreateUpload(b, file, importUrl).asset, probe), b.image.value.alt.value))))
    && (r.Saved? ==> CreateSpec(docs, b, r.article, file, importUrl, probe, categories, fold))
  }

  /** Everything the patch branch of `updateArticle` promises for the parsed
      body `b`, case by case: a category refusal destroys nothing; past it
      the old image is destroyed when a new one replaces it; then a failed
      upload or import; else the article it stores when the validators pass
      on it, and `Rejected` otherwise. */
  ghost predicate PatchOutcome(docs: map<string, Article>, id: string, b: ArticleSchema.ArticleInput, r: Reply,
                               destroyed: seq<string>, file: Option<Upload>, importUrl: string -> Upload,
                               probe: string -> CloudinaryUrl.Probe, categories: map<string, string>,
                               fold: char -> char, isValidId: string -> bool)
    requires id in docs
  {
    var e := docs[id];
    var refusal := CategoryRefusal(b.categoryId, b.category, false, categories, fold, isValidId);
    var fails := UploadFails(PatchUpload(e.image, file, b.image, importUrl));
    && (refusal.Some? ==> r == Refused(refusal.value) && destroyed == [])
    && (refusal.None? ==> destroyed == DestroyedByPatch(e.image, file, b.image))
    && (refusal.None? && fails ==> r == Refused(CloudinaryError))
    && (refusal.None? && !fails ==>
          && (r.Saved? || r == Refused(Rejected))
          && (r.Saved? <==> PatchStorable(e, b, file, importUrl, probe)))
    && (r.Saved? ==> r.status == 200 && r.id == id && PatchSpec(docs, id, b, r.article, file, importUrl, probe, categories, fold))
  }

  /** What the bare upload branch of `updateArticle` promises: the stored
      image is destroyed first; a failed upload changes nothing else; a
      successful one replaces only the image, when the validators pass. */
  ghost predicate FileOnlyOutcome(docs: map<string, Article>, id: string, up: Upload, probe: string -> CloudinaryUrl.Probe,
                                  r: Reply, destroyed: seq<string>, after: map<string, Article>)
    requires id in docs
  {
    var e := docs[id];
    && destroyed == DestroyIfExists(e.image.publicId)
    && (up.UploadFailed? ==> r == Refused(CloudinaryError) && after == docs)
    && (up.Uploaded? ==>
          var p := ProcessedOf(up.asset, probe);
          && (r.ImageSaved? || r == Refused(Rejected))
          && (r.ImageSaved? <==> Storable(e.title, e.slug, e.content, FileOnlyImage(e.image, p)))
          && (r.ImageSaved? ==> r == ImageSaved(p.url, p.tinyUrl) && after == docs[id := e.(image := FileOnlyImage(e.image, p))]))
  }

  function CreateBody(body: Value, parseJson: string -> Option<Value>, isUrl: string -> bool): Option<ArticleSchema.ArticleInput> {
    ArticleSchema.ParseArticle(ParseIncomingBody(body, parseJson), false, isUrl)
  }

  function PatchBody(body: Value, parseJson: string -> Option<Value>, isUrl: string -> bool): Option<ArticleSchema.ArticleInput> {
    ArticleSchema.ParseArticle(ParseIncomingBody(body, parseJson), true, isUrl)
  }

  // ---------------------------------------------------------------------
  // The collection

  /** Storing a well-formed article whose slug no other article holds keeps
      the unique slug index and the validators' guarantee. */
  lemma StoreKeepsInvariant(docs: map<string, Article>, fold: char -> char, id: string, a: Article)
    requires Unique(SlugsOf(docs), fold) && AllWellFormed(docs)
    requires WellFormed(a) && !TakenBy(SlugsOf(docs), fold, a.slug, Some(id))
    ensures Unique(SlugsOf(docs[id := a]), fold)
    ensures AllWellFormed(docs[id := a])
  {
    var slugs := SlugsOf(docs);
    UniqueAfterStore(slugs, fold, id, a.slug);
    assert SlugsOf(docs[id := a]) == slugs[id := a.slug];
  }

  /** No stored article has the empty slug. */
  lemma SlugsNonEmpty(docs: map<string, Article>)
    requires AllWellFormed(docs)
    ensures forall id :: id in SlugsOf(docs) ==> SlugsOf(docs)[id] != ""
  {
  }

  /** The validators' verdict on a document after the hook, in terms of its
      fields before the hook and the base its slug came from. */
  lemma HookedWellFormed(a: Article, base: string)
    requires a.slug == "" <==> base == ""
    ensures WellFormed(a.(title := Whitespace.Normalize(a.title))) <==> Storable(a.title, base, a.content, a.image)
  {
    Whitespace.NormalizeIdempotent(a.title);
  }

  /** The validators pass on a patched document exactly when
      `PatchStorable` says so. */
  lemma PatchedStorable(docs: map<string, Article>, id: string, b: ArticleSchema.ArticleInput, a: Article,
                        file: Option<Upload>, importUrl: string -> Upload, probe: string -> CloudinaryUrl.Probe,
                        fold: char -> char)
    requires AllWellFormed(docs) && id in docs
    requires TitleChanges(b, docs[id]) ==>
      LeastFree(SlugsOf(docs), fold, BaseSlug(b.slug, b.title.value), Some(id), a.slug) && a.title == Whitespace.Trim(b.title.value)
    requires !TitleChanges(b, docs[id]) ==> a.slug == docs[id].slug && a.title == docs[id].title
    requires a.content == b.content.GetOr(docs[id].content)
    requires a.image == ImageAfterPatch(docs[id].image, file, b.image, importUrl, probe)
    ensures WellFormed(a.(title := Whitespace.Normalize(a.title))) <==> PatchStorable(docs[id], b, file, importUrl, probe)
  {
    var e := docs[id];
    if TitleChanges(b, e) {
      var base := BaseSlug(b.slug, b.title.value);
      SlugsNonEmpty(docs);
      EmptyOnlyFromEmptyBase(SlugsOf(docs), fold, base, Some(id), a.slug);
      HookedWellFormed(a, base);
    } else {
      HookedWellFormed(a, e.slug);
    }
  }

  /** `CreateOutcome` for a create that reached `save`: `pre` is the
      document before the hook, `r` what the save answered. */
  lemma CreateSaveOutcome(docs: map<string, Article>, b: ArticleSchema.ArticleInput, pre: Article, r: Reply,
                          file: Option<Upload>, importUrl: string -> Upload, probe: string -> CloudinaryUrl.Probe,
                          categories: map<string, string>, fold: char -> char, isValidId: string -> bool)
    requires AllWellFormed(docs) && Complete(b)
    requires CategoryRefusal(b.categoryId, b.category, true, categories, fold, isValidId).None?
    requires CreateUpload(b, file, importUrl).Uploaded?
    requires LeastFree(SlugsOf(docs), fold, BaseSlug(b.slug, b.title.value), None, pre.slug)
    requires pre == Article(Whitespace.Trim(b.title.value), pre.slug, b.content.value,
                            NewImage(ProcessedOf(CreateUpload(b, file, importUrl).asset, probe), b.image.value.alt.value),
                            TrimOpt(b.summary), pre.category, b.keywords.GetOr([]), b.readingMinutes)
    requires CategoryFits(pre.category, None, b.categoryId, b.category, true, categories, fold)
    requires r.Saved? ==> r.article == pre.(title := Whitespace.Normalize(pre.title))
    requires r.Saved? || r == Refused(Rejected)
    requires r.Saved? <==> WellFormed(pre.(title := Whitespace.Normalize(pre.title)))
    ensures CreateOutcome(docs, b, r, file, importUrl, probe, categories, fold, isValidId)
  {
    var base := BaseSlug(b.slug, b.title.value);
    SlugsNonEmpty(docs);
    EmptyOnlyFromEmptyBase(SlugsOf(docs), fold, base, None, pre.slug);
    HookedWellFormed(pre, base);
  }

  /** `PatchOutcome` for a patch that reached `save`: `pre` is the patched
      document before the hook, `r` what the save answered. */
  lemma PatchSaveOutcome(docs: map<string, Article>, id: string, b: ArticleSchema.ArticleInput, fields: Article,
                         category: Option<string>, pre: Article, r: Reply,
                         destroyed: seq<string>, file: Option<Upload>, importUrl: string -> Upload,
                         probe: string -> CloudinaryUrl.Probe, categories: map<string, string>,
                         fold: char -> char, isValidId: string -> bool)
    requires AllWellFormed(docs) && id in docs
    requires FieldsPatched(docs[id], fields, b, id, SlugsOf(docs), fold)
    requires CategoryRefusal(b.categoryId, b.category, false, categories, fold, isValidId).None?
    requires CategoryFits(category, docs[id].category, b.categoryId, b.category, false, categories, fold)
    requires !UploadFails(PatchUpload(docs[id].image, file, b.image, importUrl))
    requires destroyed == DestroyedByPatch(docs[id].image, file, b.image)
    requires pre == fields.(category := category, image := ImageAfterPatch(docs[id].image, file, b.image, importUrl, probe))
    requires r.Saved? ==> r == Saved(200, id, pre.(title := Whitespace.Normalize(pre.title)))
    requires r.Saved? || r == Refused(Rejected)
    requires r.Saved? <==> WellFormed(pre.(title := Whitespace.Normalize(pre.title)))
    ensures PatchOutcome(docs, id, b, r, destroyed, file, importUrl, probe, categories, fold, isValidId)
  {
    PatchedStorable(docs, id, b, pre, file, importUrl, probe, fold);
    if !TitleChanges(b, docs[id]) {
      assert WellFormed(docs[id]);
    }
  }

  class ArticleStore {
    /** Stored articles by id. */
    var docs: map<string, Article>
    const fold: char -> char
    const isValidId: string -> bool

    /** The unique slug index holds, and every stored article passed the
        validators. */
    predicate Valid()
      reads this
    {
      && CaseOnly(fold)
      && Unique(SlugsOf(docs), fold)
      && AllWellFormed(docs)
    }

    constructor (fold: char -> char, isValidId: string -> bool)
      requires CaseOnly(fold)
      ensures docs == map[] && this.fold == fold && this.isValidId == isValidId
      ensures Valid()
    {
      docs := map[];
      this.fold := fold;
      this.isValidId := isValidId;
    }

    /** `doc.save()` (and the insert of `create`): the hook runs, then the
        `required` validators, then the unique slug index. */
    method Save(doc: ArticleDoc, id: string) returns (why: Option<Refusal>)
      requires Valid()
      modifies this, doc
      ensures Valid()
      ensures doc.Value() == old(doc.Value()).(title := Whitespace.Normalize(old(doc.title)))
      ensures why.None? <==> WellFormed(doc.Value()) && !TakenBy(SlugsOf(old(docs)), fold, doc.slug, Some(id))
      ensures why.Some? ==> why.value == (if WellFormed(doc.Value()) then DuplicateSlug else Rejected)
      ensures why.None? ==> docs == old(docs)[id := doc.Value()]
      ensures why.Some? ==> docs == old(docs)
    {
      doc.PreValidate();
      var a := doc.Value();
      if !WellFormed(a) {
        return Some(Rejected);
      }
      if TakenBy(SlugsOf(docs), fold, a.slug, Some(id)) {
        return Some(DuplicateSlug);
      }
      StoreKeepsInvariant(docs, fold, id, a);
      docs := docs[id := a];
      why := None;
    }

    /** `createArticle`. `file` is what Cloudinary answers for the uploaded
        file, when there is one; `newId` is the id the store assigns. */
    method Create(body: Value, file: Option<Upload>, importUrl: string -> Upload, probe: string -> CloudinaryUrl.Probe,
                  parseJson: string -> Option<Value>, isUrl: string -> bool, categories: map<string, string>, newId: string)
      returns (r: Reply)
      requires Valid()
      requires newId !in docs
      modifies this
      ensures Valid()
      ensures r.Saved? || r.Refused?
      ensures r.Saved? ==> r.status == 201 && r.id == newId && docs == old(docs)[newId := r.article]
      ensures r.Refused? ==> docs == old(docs)
      ensures r != Refused(DuplicateSlug) && r != Refused(MissingAlt) && r != Refused(MissingImage)
      ensures CreateBody(body, parseJson, isUrl).None? <==> r == Refused(InvalidBody)
      ensures CreateBody(body, parseJson, isUrl).Some? ==>
        CreateOutcome(old(docs), CreateBody(body, parseJson, isUrl).value, r, file, importUrl, probe, categories, fold, isValidId)
    {
      var raw := ParseIncomingBody(body, parseJson);
      var parsed := ArticleSchema.ParseArticle(raw, false, isUrl);
      if parsed.None? {
        return Refused(InvalidBody);
      }
      ArticleSchema.ParsedArticleBounds(raw, false, isUrl);
      r := CreateFrom(parsed.value, file, importUrl, probe, categories, newId);
    }

    /** `createArticle` once the body has passed the schema. */
    method CreateFrom(b: ArticleSchema.ArticleInput, file: Option<Upload>, importUrl: string -> Upload,
                      probe: string -> CloudinaryUrl.Probe, categories: map<string, string>, newId: string)
      returns (r: Reply)
      requires Valid()
      requires newId !in docs
      requires Complete(b)
      requires b.image.value.url.value != "" && b.image.value.alt.value != ""
      modifies this
      ensures Valid()
      ensures r.Saved? || r.Refused?
      ensures r.Saved? ==> r.status == 201 && r.id == newId && docs == old(docs)[newId := r.article]
      ensures r.Refused? ==> docs == old(docs)
      ensures r != Refused(DuplicateSlug) && r != Refused(MissingAlt) && r != Refused(MissingImage) && r != Refused(InvalidBody)
      ensures CreateOutcome(old(docs), b, r, file, importUrl, probe, categories, fold, isValidId)
    {
      var slugs := SlugsOf(docs);
      var base := BaseSlug(b.slug, b.title.value);
      var uniqueSlug, n := ResolveSlug(base, slugs, fold, None);
      var choice := ChooseCategory(b.categoryId, b.category, true, categories, fold, isValidId);
      if choice.NoCategory? {
        return Refused(choice.why);
      }
      var catId := if choice.Chosen? then Some(choice.id) else None;
      var img := b.image.value;
      if img.alt.None? || img.alt.value == "" {
        return Refused(MissingAlt);
      }
      var url := if img.url.Some? then img.url.value else "";
      var answer: Upload;
      if file.Some? {
        answer := file.value;
      } else if url != "" {
        answer := importUrl(url);
      } else {
        return Refused(MissingImage);
      }
      if answer.UploadFailed? {
        return Refused(CloudinaryError);
      }
      var uploaded := ProcessAsset(answer.asset, probe);
      var pre := Article(Whitespace.Trim(b.title.value), uniqueSlug, b.content.value, NewImage(uploaded, img.alt.value),
                         TrimOpt(b.summary), catId, b.keywords.GetOr([]), b.readingMinutes);
      var doc := new ArticleDoc(pre);
      assert docs == old(docs);
      assert !TakenBy(slugs, fold, doc.slug, Some(newId));
      var why := Save(doc, newId);
      if why.Some? {
        r := Refused(why.value);
      } else {
        r := Saved(201, newId, doc.Value());
      }
      CreateSaveOutcome(old(docs), b, pre, r, file, importUrl, probe, categories, fold, isValidId);
    }

    /** `updateArticle`. `file` is what Cloudinary answers for the uploaded
        file, when there is one; `destroyed` lists the public ids handed to
        `destroyIfExists`. */
    method Update(id: string, body: Value, file: Option<Upload>, importUrl: string -> Upload,
                  probe: string -> CloudinaryUrl.Probe, parseJson: string -> Option<Value>,
                  isUrl: string -> bool, categories: map<string, string>)
      returns (r: Reply, destroyed: seq<string>)
      requires Valid()
      modifies this
      ensures Valid()
      ensures !isValidId(id) ==> r == Refused(InvalidId) && destroyed == []
      ensures isValidId(id) && id !in old(docs) ==> r == Refused(ArticleNotFound) && destroyed == []
      ensures r != Refused(DuplicateSlug) && r != Deleted
      ensures r.Refused? ==> docs == old(docs)
      ensures !r.Refused? ==> id in old(docs) && id in docs && docs == old(docs)[id := docs[id]]
      ensures r.ImageSaved? ==> IsFileOnlyUpload(file.Some?, KeysOf(body))
      ensures isValidId(id) && id in old(docs) && IsFileOnlyUpload(file.Some?, KeysOf(body)) ==>
        FileOnlyOutcome(old(docs), id, file.value, probe, r, destroyed, docs)
      ensures isValidId(id) && id in old(docs) && !IsFileOnlyUpload(file.Some?, KeysOf(body)) && PatchBody(body, parseJson, isUrl).None? ==>
        r == Refused(InvalidBody) && destroyed == []
      ensures isValidId(id) && id in old(docs) && !IsFileOnlyUpload(file.Some?, KeysOf(body)) && PatchBody(body, parseJson, isUrl).Some? ==>
        PatchOutcome(old(docs), id, PatchBody(body, parseJson, isUrl).value, r, destroyed, file, importUrl, probe, categories, fold, isValidId)
    {
      destroyed := [];
      if !isValidId(id) {
        return Refused(InvalidId), [];
      }
      if id !in docs {
        return Refused(ArticleNotFound), [];
      }
      var existing := new ArticleDoc(docs[id]);
      if IsFileOnlyUpload(file.Some?, KeysOf(body)) {
        r, destroyed := SaveFileOnly(id, existing, file.value, probe);
        return;
      }
      r, destroyed := PatchRequest(id, existing, body, file, importUrl, probe, parseJson, isUrl, categories);
    }

    /** The body of a patch is decoded and checked against the partial
        schema before any field is touched. */
    method PatchRequest(id: string, existing: ArticleDoc, body: Value, file: Option<Upload>, importUrl: string -> Upload,
                        probe: string -> CloudinaryUrl.Probe, parseJson: string -> Option<Value>,
                        isUrl: string -> bool, categories: map<string, string>)
      returns (r: Reply, destroyed: seq<string>)
      requires Valid()
      requires id in docs && existing.Value() == docs[id]
      modifies this, existing
      ensures Valid()
      ensures r.Saved? || r.Refused?
      ensures r != Refused(DuplicateSlug)
      ensures r.Refused? ==> docs == old(docs)
      ensures r.Saved? ==> docs == old(docs)[id := r.article]
      ensures PatchBody(body, parseJson, isUrl).None? ==> r == Refused(InvalidBody) && destroyed == []
      ensures PatchBody(body, parseJson, isUrl).Some? ==>
        PatchOutcome(old(docs), id, PatchBody(body, parseJson, isUrl).value, r, destroyed, file, importUrl, probe, categories, fold, isValidId)
    {
      var raw := ParseIncomingBody(body, parseJson);
      var parsed := ArticleSchema.ParseArticle(raw, true, isUrl);
      if parsed.None? {
        return Refused(InvalidBody), [];
      }
      r, destroyed := Patch(id, existing, parsed.value, file, importUrl, probe, categories);
    }

    /** The bare upload branch of `updateArticle`. */
    method SaveFileOnly(id: string, existing: ArticleDoc, up: Upload, probe: string -> CloudinaryUrl.Probe)
      returns (r: Reply, destroyed: seq<string>)
      requires Valid()
      requires id in docs && existing.Value() == docs[id]
      modifies this, existing
      ensures Valid()
      ensures r.ImageSaved? || r == Refused(Rejected) || r == Refused(CloudinaryError)
      ensures r.Refused? ==> docs == old(docs)
      ensures r.ImageSaved? ==> id in docs && docs == old(docs)[id := docs[id]]
      ensures FileOnlyOutcome(old(docs), id, up, probe, r, destroyed, docs)
    {
      destroyed := DestroyIfExists(existing.image.publicId);
      if up.UploadFailed? {
        return Refused(CloudinaryError), destroyed;
      }
      var uploaded := ProcessAsset(up.asset, probe);
      existing.image := FileOnlyImage(existing.image, uploaded);
      ghost var e := old(docs)[id];
      assert existing.Value() == e.(image := FileOnlyImage(e.image, uploaded));
      HookedWellFormed(existing.Value(), e.slug);
      assert SlugsOf(old(docs))[id] == e.slug;
      RenameKeepsOwnSlug(SlugsOf(old(docs)), fold, id);
      var why := Save(existing, id);
      if why.Some? {
        return Refused(Rejected), destroyed;
      }
      assert existing.Value() == e.(image := FileOnlyImage(e.image, uploaded));
      r := ImageSaved(uploaded.url, uploaded.tinyUrl);
    }

    /** The patch branch of `updateArticle`, field by field, for a body that
        has passed the partial schema. */
    method Patch(id: string, existing: ArticleDoc, b: ArticleSchema.ArticleInput, file: Option<Upload>, importUrl: string -> Upload,
                 probe: string -> CloudinaryUrl.Probe, categories: map<string, string>)
      returns (r: Reply, destroyed: seq<string>)
      requires Valid()
      requires id in docs && existing.Value() == docs[id]
      modifies this, existing
      ensures Valid()
      ensures r.Saved? || r.Refused?
      ensures r != Refused(DuplicateSlug) && r != Refused(InvalidBody)
      ensures r.Refused? ==> docs == old(docs)
      ensures r.Saved? ==> docs == old(docs)[id := r.article]
      ensures PatchOutcome(old(docs), id, b, r, destroyed, file, importUrl, probe, categories, fold, isValidId)
    {
      var slugs := SlugsOf(docs);
      existing.PatchFields(b, id, slugs, fold);
      assert docs == old(docs);
      ghost var fields := existing.Value();
      var choice := ChooseCategory(b.categoryId, b.category, false, categories, fold, isValidId);
      if choice.NoCategory? {
        return Refused(choice.why), [];
      }
      if choice.Chosen? {
        existing.category := Some(choice.id);
      }
      r, destroyed := PatchImageAndSave(id, existing, b, file, importUrl, probe, categories, fields, existing.category);
    }

    /** The `GÖRSEL` part of `updateArticle` and the save, once the fields
        and the category are patched: `fields` is the article after the
        field part and `category` the one the category part settled on. */
    method PatchImageAndSave(id: string, existing: ArticleDoc, b: ArticleSchema.ArticleInput, file: Option<Upload>,
                             importUrl: string -> Upload, probe: string -> CloudinaryUrl.Probe,
                             categories: map<string, string>, ghost fields: Article, ghost category: Option<string>)
      returns (r: Reply, destroyed: seq<string>)
      requires Valid()
      requires id in docs
      requires FieldsPatched(docs[id], fields, b, id, SlugsOf(docs), fold)
      requires !TakenBy(SlugsOf(docs), fold, fields.slug, Some(id))
      requires CategoryRefusal(b.categoryId, b.category, false, categories, fold, isValidId).None?
      requires CategoryFits(category, docs[id].category, b.categoryId, b.category, false, categories, fold)
      requires existing.Value() == fields.(category := category)
      modifies this, existing
      ensures Valid()
      ensures r.Saved? || r == Refused(Rejected) || r == Refused(CloudinaryError)
      ensures r.Refused? ==> docs == old(docs)
      ensures r.Saved? ==> docs == old(docs)[id := r.article]
      ensures PatchOutcome(old(docs), id, b, r, destroyed, file, importUrl, probe, categories, fold, isValidId)
    {
      ghost var e := old(docs)[id];
      var ok;
      destroyed, ok := existing.PatchImage(file, b.image, importUrl, probe);
      assert docs == old(docs);
      if !ok {
        return Refused(CloudinaryError), destroyed;
      }
      ghost var pre := existing.Value();
      assert pre == fields.(category := category, image := ImageAfterPatch(e.image, file, b.image, importUrl, probe));
      var why := Save(existing, id);
      if why.Some? {
        r := Refused(Rejected);
      } else {
        r := Saved(200, id, existing.Value());
      }
      PatchSaveOutcome(old(docs), id, b, fields, category, pre, r, destroyed, file, importUrl, probe, categories, fold, isValidId);
    }

    /** `deleteArticle`: the record goes, then its image. */
    method Delete(id: string) returns (r: Reply, destroyed: seq<string>)
      requires Valid()
      modifies this
      ensures Valid()
      ensures !isValidId(id) ==> r == Refused(InvalidId)
      ensures isValidId(id) && id !in old(docs) ==> r == Refused(ArticleNotFound)
      ensures isValidId(id) && id in old(docs) ==> r == Deleted
      ensures r == Deleted ==> docs == old(docs) - {id} && destroyed == DestroyIfExists(old(docs)[id].image.publicId)
      ensures r != Deleted ==> docs == old(docs) && destroyed == []
    {
      if !isValidId(id) {
        return Refused(InvalidId), [];
      }
      if id !in docs {
        return Refused(ArticleNotFound), [];
      }
      var gone := docs[id];
      assert SlugsOf(docs - {id}) == SlugsOf(docs) - {id};
      UniqueAfterRemove(SlugsOf(docs), fold, id);
      docs := docs - {id};
      r, destroyed := Deleted, DestroyIfExists(gone.image.publicId);
    }
  }

  // ---------------------------------------------------------------------
  // Properties

  /** An article keeping its slug meets no collision: the index is unique. */
  lemma RenameKeepsOwnSlug(slugs: map<string, string>, fold: char -> char, id: string)
    requires Unique(slugs, fold) && id in slugs
    ensures !TakenBy(slugs, fold, slugs[id], Some(id))
  {
    EquivalentIsEquivalence(fold, slugs[id], slugs[id], slugs[id]);
    OwnSlugIsFree(slugs, fold, id, slugs[id]);
  }

  /** A bare upload is a file with an empty body or a body holding just one
      of `slug`, `_action` and `data`; any other field makes it a patch. */
  lemma FileOnlyUploadRule(hasFile: bool, keys: set<string>)
    ensures IsFileOnlyUpload(hasFile, keys) <==> hasFile && |keys| <= 1 && keys <= FILE_ONLY_KEYS
    ensures IsFileOnlyUpload(hasFile, keys) ==> keys == {} || keys == {"slug"} || keys == {"_action"} || keys == {"data"}
    ensures hasFile && keys == {"slug"} ==> IsFileOnlyUpload(hasFile, keys)
    ensures "title" in keys || "image" in keys ==> !IsFileOnlyUpload(hasFile, keys)
  {
    if IsFileOnlyUpload(hasFile, keys) && |keys| == 1 {
      var k :| k in keys;
      assert keys == {k} by {
        assert |keys - {k}| == 0;
      }
    }
  }

  /** Whenever a patch touches the image and its upload succeeds, the alt
      text is the one the body sends, else the stored one; the default is
      never reached there, since a stored image always has an alt text. */
  lemma PatchAltFallback(e: Image, file: Option<Upload>, bi: Option<ArticleSchema.ImageInput>,
                         importUrl: string -> Upload, probe: string -> CloudinaryUrl.Probe)
    requires file.Some? || bi.Some?
    ensures !UploadFails(PatchUpload(e, file, bi, importUrl)) ==>
      var alt := ImageAfterPatch(e, file, bi, importUrl, probe).alt;
      && (AltOf(bi).Some? ==> alt == Whitespace.Trim(AltOf(bi).value))
      && (AltOf(bi).None? ==> alt == Whitespace.Trim(e.alt))
  {
  }

  /** The bare upload keeps a non-empty stored alt text and falls back to
      the default for an empty one: its `||` and the patch's `??` agree
      exactly when the stored alt text is not empty. */
  lemma FileOnlyAltRule(e: Image, p: Processed)
    ensures e.alt != "" ==> FileOnlyImage(e, p).alt == Whitespace.Trim(e.alt)
    ensures e.alt == "" ==> FileOnlyImage(e, p).alt == Whitespace.Trim(DEFAULT_ALT)
    ensures FileOnlyAlt(e.alt) == AltFallback(None, Some(e.alt)) <==> e.alt != ""
  {
    assert DEFAULT_ALT != "";
  }

  /** A patch without a file and without an image leaves the image alone and
      destroys nothing; one whose URL is the stored URL (or that sends no
      URL) keeps the stored asset and destroys nothing either. */
  lemma PatchKeepsStoredAsset(e: Image, bi: Option<ArticleSchema.ImageInput>,
                              importUrl: string -> Upload, probe: string -> CloudinaryUrl.Probe)
    ensures bi.None? ==> ImageAfterPatch(e, None, bi, importUrl, probe) == e && DestroyedByPatch(e, None, bi) == []
    ensures bi.Some? && (bi.value.url.None? || bi.value.url == e.url) ==>
      var img := ImageAfterPatch(e, None, bi, importUrl, probe);
      && DestroyedByPatch(e, None, bi) == []
      && img.url == e.url && img.publicId == TrimOpt(e.publicId)
      && img.tinyUrl == (if bi.value.tinyUrl.Some? then bi.value.tinyUrl else e.tinyUrl)
  {
  }

  /** Only the stored public id is ever destroyed, and only when a new asset
      replaces it. */
  lemma PatchDestroysOnlyOld(e: Image, file: Option<Upload>, bi: Option<ArticleSchema.ImageInput>,
                             importUrl: string -> Upload, probe: string -> CloudinaryUrl.Probe)
    ensures var d := DestroyedByPatch(e, file, bi);
      && (d == [] || (e.publicId.Some? && d == [e.publicId.value]))
      && (d != [] ==> ImageAfterPatch(e, file, bi, importUrl, probe).publicId != e.publicId || file.Some? || ImportsNewUrl(e, bi))
  {
  }

  /** Neither fallback of the image helpers is ever the one used: the
      1 MB search already covers every Cloudinary URL (and nothing else has
      a no-crop URL), and the small blurred URL exists exactly when the
      filled one would. */
  lemma ProcessingFallbacksUnused(a: Asset, probe: string -> CloudinaryUrl.Probe)
    ensures var p, u := ProcessedOf(a, probe), a.secureUrl;
      && (p.url.Some? <==> CloudinaryUrl.IsCloudinaryUrl(u))
      && (CloudinaryUrl.IsCloudinaryUrl(u) ==> p.url == CloudinaryUrl.Pick(CloudinaryUrl.Candidates(u, WIDTHS, QUALITIES), probe))
      && (CloudinaryUrl.Applicable(Some(u)) ==> p.tinyUrl == CloudinaryUrl.Rewrite(u, CloudinaryUrl.TinyBlurSegment(CloudinaryUrl.NO_TINY_BLUR_OPTS)))
      && (!CloudinaryUrl.Applicable(Some(u)) ==> p.tinyUrl == u)
      && p.publicId == a.publicId
  {
    var u := a.secureUrl;
    if CloudinaryUrl.IsCloudinaryUrl(u) {
      var c := CloudinaryUrl.Candidates(u, WIDTHS, QUALITIES);
      CloudinaryUrl.CandidatesOrder(u, WIDTHS, QUALITIES);
      CloudinaryUrl.OffsetIsProduct(|WIDTHS|, |QUALITIES|);
      CloudinaryUrl.PickIsFirstSmallElseLast(c, probe);
    }
  }

  /** A sent slug already in slug form is the base as it is. */
  lemma SentSlugIsBase(slug: string, title: string)
    requires SlugifyTR.IsSlug(slug) && slug != ""
    ensures BaseSlug(Some(slug), title) == slug
  {
    SlugifyTR.SlugifyFixesSlugs(slug);
  }

  /** The two handlers differ on an empty category id: creating skips it
      and goes on to the name, patching checks it as an id. */
  lemma EmptyCategoryId(name: Option<string>, categories: map<string, string>, fold: char -> char, isValidId: string -> bool)
    ensures CategoryRefusal(Some(""), name, true, categories, fold, isValidId) == CategoryRefusal(None, name, true, categories, fold, isValidId)
    ensures !isValidId("") ==> CategoryRefusal(Some(""), name, false, categories, fold, isValidId) == Some(InvalidCategoryId)
    ensures isValidId("") && "" !in categories ==> CategoryRefusal(Some(""), name, false, categories, fold, isValidId) == Some(CategoryNotFound)
  {
  }

  /** A patch whose upload or import fails answers 500 after destroying the
      stored image, and the article it leaves in place still names that
      public id. */
  lemma FailedUploadKeepsDestroyedId(docs: map<string, Article>, id: string, b: ArticleSchema.ArticleInput, r: Reply,
                                     destroyed: seq<string>, file: Option<Upload>, importUrl: string -> Upload,
                                     probe: string -> CloudinaryUrl.Probe, categories: map<string, string>,
                                     fold: char -> char, isValidId: string -> bool)
    requires id in docs
    requires PatchOutcome(docs, id, b, r, destroyed, file, importUrl, probe, categories, fold, isValidId)
    requires CategoryRefusal(b.categoryId, b.category, false, categories, fold, isValidId).None?
    requires UploadFails(PatchUpload(docs[id].image, file, b.image, importUrl))
    requires docs[id].image.publicId.Some? && docs[id].image.publicId.value != ""
    ensures r == Refused(CloudinaryError)
    ensures destroyed == [docs[id].image.publicId.value]
  {
  }

  // ---------------------------------------------------------------------
  // mapArticle

  datatype ImageView = ImageView(url: string, alt: string, tinyUrl: Value)
  datatype CategoryView = CategoryView(id: string, name: Value)

  /** The JSON `mapArticle` builds; `Undefined` is a field left out. */
  datatype ArticleView = ArticleView(
    id: string, title: string, slug: string, content: string, image: ImageView,
    summary: Value, category: Option<CategoryView>, keywords: seq<Value>,
    publishedAt: string, updatedAt: Option<string>, readingMinutes: Option<real>)

  /** `String(v ?? "")` */
  function StringOr(v: Value, str: Value -> string): string {
    if Nullish(v) then "" else JsString(v, str)
  }

  /** `v ?? undefined` */
  function OrUndefined(v: Value): Value {
    if Nullish(v) then Undefined else v
  }

  /** `mapArticle(doc)`; `now` is `new Date().toISOString()`. */
  function MapArticle(doc: Value, now: string, str: Value -> string): ArticleView {
    var image, cat, kw := Get(doc, "image"), Get(doc, "category"), Get(doc, "keywords");
    var created, updated, minutes := Get(doc, "createdAt"), Get(doc, "updatedAt"), Get(doc, "readingMinutes");
    ArticleView(
      JsString(Get(doc, "_id"), str), StringOr(Get(doc, "title"), str), StringOr(Get(doc, "slug"), str),
      StringOr(Get(doc, "content"), str),
      ImageView(StringOr(Get(image, "url"), str), StringOr(Get(image, "alt"), str), OrUndefined(Get(image, "tinyUrl"))),
      OrUndefined(Get(doc, "summary")),
      if Truthy(cat) then Some(CategoryView(JsString(Get(cat, "_id"), str), Get(cat, "name"))) else None,
      if kw.Arr? then kw.items else [],
      if created.Date? then created.iso else now,
      if updated.Date? then Some(updated.iso) else None,
      if minutes.Num? then Some(minutes.n) else None)
  }

  function OptStr(s: Option<string>): Value {
    if s.Some? then Str(s.value) else Undefined
  }

  function Strs(ws: seq<string>): (r: seq<Value>)
    ensures |r| == |ws| && forall i :: 0 <= i < |ws| ==> r[i] == Str(ws[i])
  {
    seq(|ws|, i requires 0 <= i < |ws| => Str(ws[i]))
  }

  /** The lean form of a stored article with its category populated
      (`Null` when its category is gone or unset). */
  function DocOf(id: string, a: Article, category: Value, created: string, updated: string): Value {
    Obj(map[
      "_id" := ObjectId(id), "title" := Str(a.title), "slug" := Str(a.slug), "content" := Str(a.content),
      "image" := Obj(map["url" := OptStr(a.image.url), "alt" := Str(a.image.alt), "tinyUrl" := OptStr(a.image.tinyUrl)]),
      "summary" := OptStr(a.summary), "category" := category, "keywords" := Arr(Strs(a.keywords)),
      "createdAt" := Date(created), "updatedAt" := Date(updated),
      "readingMinutes" := if a.readingMinutes.Some? then Num(a.readingMinutes.value as real) else Undefined])
  }

  /** The fields of the lean form, one by one. */
  lemma DocOfFields(id: string, a: Article, category: Value, created: string, updated: string)
    ensures var doc := DocOf(id, a, category, created, updated);
      && Get(doc, "_id") == ObjectId(id) && Get(doc, "title") == Str(a.title)
      && Get(doc, "slug") == Str(a.slug) && Get(doc, "content") == Str(a.content)
      && Get(doc, "image") == Obj(map["url" := OptStr(a.image.url), "alt" := Str(a.image.alt), "tinyUrl" := OptStr(a.image.tinyUrl)])
      && Get(doc, "category") == category && Get(doc, "keywords") == Arr(Strs(a.keywords))
      && Get(doc, "createdAt") == Date(created) && Get(doc, "updatedAt") == Date(updated)
      && (Get(doc, "readingMinutes").Num? <==> a.readingMinutes.Some?)
  {
  }

  /** A stored article reads back as it was stored: the view carries its
      id, its texts, its image, its category, its keywords and its
      timestamps. */
  lemma MapStoredArticle(id: string, a: Article, catId: string, catName: string, created: string, updated: string,
                         now: string, str: Value -> string)
    requires WellFormed(a)
    ensures var v := MapArticle(DocOf(id, a, Obj(map["_id" := ObjectId(catId), "name" := Str(catName)]), created, updated), now, str);
      && v.id == id && v.title == a.title && v.slug == a.slug && v.content == a.content
      && v.image.url == a.image.url.value && v.image.alt == a.image.alt
      && v.category == Some(CategoryView(catId, Str(catName)))
      && v.keywords == Strs(a.keywords)
      && v.publishedAt == created && v.updatedAt == Some(updated)
      && (v.readingMinutes.Some? <==> a.readingMinutes.Some?)
  {
    var cat := Obj(map["_id" := ObjectId(catId), "name" := Str(catName)]);
    var doc := DocOf(id, a, cat, created, updated);
    DocOfFields(id, a, cat, created, updated);
    MapImageAndCategory(doc, a.image, catId, catName, now, str);
  }

  lemma MapImageAndCategory(doc: Value, img: Image, catId: string, catName: string, now: string, str: Value -> string)
    requires img.url.Some?
    requires Get(doc, "image") == Obj(map["url" := OptStr(img.url), "alt" := Str(img.alt), "tinyUrl" := OptStr(img.tinyUrl)])
    requires Get(doc, "category") == Obj(map["_id" := ObjectId(catId), "name" := Str(catName)])
    ensures var v := MapArticle(doc, now, str);
      && v.image.url == img.url.value && v.image.alt == img.alt
      && v.category == Some(CategoryView(catId, Str(catName)))
  {
    var i := Get(doc, "image");
    var cat := Get(doc, "category");
    assert Get(i, "url") == Str(img.url.value) && Get(i, "alt") == Str(img.alt);
    assert Get(cat, "_id") == ObjectId(catId) && Get(cat, "name") == Str(catName);
  }

  /** The defaults: no keywords unless an array is stored, a reading time
      only when a number is stored, the clock's time when no creation date
      is, and no category when none is populated. */
  lemma MapArticleDefaults(doc: Value, now: string, str: Value -> string)
    ensures !Get(doc, "keywords").Arr? ==> MapArticle(doc, now, str).keywords == []
    ensures MapArticle(doc, now, str).readingMinutes.Some? <==> Get(doc, "readingMinutes").Num?
    ensures !Get(doc, "createdAt").Date? ==> MapArticle(doc, now, str).publishedAt == now
    ensures Nullish(Get(doc, "category")) ==> MapArticle(doc, now, str).category.None?
    ensures Nullish(Get(doc, "title")) ==> MapArticle(doc, now, str).title == ""
  {
  }
}
