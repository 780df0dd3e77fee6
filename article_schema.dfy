/** The zod schemas of `src/modules/article/article.schema.ts`, as predicates
    over a decoded body, and the data `safeParse` extracts. zod's URL check is
    the oracle `isUrl`; lengths are counted in UTF-16 code units. */
module ArticleSchema {
  import opened Js

  /** `z.string().min(n)` */
  predicate StrMin(v: Value, n: nat) {
    v.Str? && JsLength(v.s) >= n
  }

  /** `[a-z0-9-]` */
  predicate IsSlugSchemaChar(c: char) {
    IsLowerAscii(c) || IsDigit(c) || c == '-'
  }

  /** `z.string().min(3).regex(/^[a-z0-9-]+$/)` */
  predicate SlugOk(v: Value) {
    StrMin(v, 3) && forall i :: 0 <= i < |v.s| ==> IsSlugSchemaChar(v.s[i])
  }

  /** `z.number().int().positive()` */
  predicate ReadingMinutesOk(v: Value) {
    v.Num? && IsInteger(v.n) && v.n > 0.0
  }

  predicate IsStringArray(v: Value) {
    v.Arr? && forall i :: 0 <= i < |v.items| ==> v.items[i].Str?
  }

  predicate UrlOk(v: Value, isUrl: string -> bool) {
    v.Str? && isUrl(v.s)
  }

  /** `imageSchema`; with `partial`, `imageSchema.partial()`. */
  predicate ImageOk(v: Value, partial: bool, isUrl: string -> bool) {
    var url, alt, tiny, pid := Get(v, "url"), Get(v, "alt"), Get(v, "tinyUrl"), Get(v, "publicId");
    && v.Obj?
    && ((partial && url.Undefined?) || (UrlOk(url, isUrl) && StrMin(url, 1)))
    && ((partial && alt.Undefined?) || StrMin(alt, 3))
    && (tiny.Undefined? || UrlOk(tiny, isUrl))
    && ((partial && pid.Undefined?) || StrMin(pid, 3))
  }

  /** The `superRefine` of `imageUpdateSchema`: a URL and a public id come
      together or not at all. */
  predicate ImagePairOk(v: Value) {
    Get(v, "url").Str? == Get(v, "publicId").Str?
  }

  /** `imageUpdateSchema.optional()` */
  predicate UpdateImageOk(v: Value, isUrl: string -> bool) {
    v.Undefined? || (ImageOk(v, true, isUrl) && ImagePairOk(v))
  }

  /** A field that is absent (when `optional`) or passes `ok`. */
  predicate Field(v: Value, optional: bool, ok: bool) {
    (optional && v.Undefined?) || ok
  }

  /** The top-level fields of `baseArticleSchema` other than `image`; with
      `partial` every one of them may be absent. */
  predicate FieldsOk(body: Value, partial: bool) {
    var title, content := Get(body, "title"), Get(body, "content");
    var slug, summary := Get(body, "slug"), Get(body, "summary");
    var category, categoryId := Get(body, "category"), Get(body, "categoryId");
    var keywords, published, updated := Get(body, "keywords"), Get(body, "publishedAt"), Get(body, "updatedAt");
    var minutes := Get(body, "readingMinutes");
    && body.Obj?
    && Field(title, partial, StrMin(title, 3))
    && Field(content, partial, StrMin(content, 10))
    && Field(slug, true, SlugOk(slug))
    && Field(summary, true, summary.Str?)
    && Field(category, true, category.Str?)
    && Field(categoryId, true, categoryId.Str?)
    && Field(keywords, true, IsStringArray(keywords))
    && Field(published, true, published.Str?)
    && Field(updated, true, updated.Str?)
    && Field(minutes, true, ReadingMinutesOk(minutes))
  }

  /** `articleSchema` (and `articleSchema.partial()` when `partial`, where a
      present image still has to pass the whole image schema). */
  predicate AcceptsArticle(body: Value, partial: bool, isUrl: string -> bool) {
    var image := Get(body, "image");
    FieldsOk(body, partial) && Field(image, partial, ImageOk(image, false, isUrl))
  }

  /** `articleUpdateSchema` */
  predicate AcceptsArticleUpdate(body: Value, isUrl: string -> bool) {
    FieldsOk(body, true) && UpdateImageOk(Get(body, "image"), isUrl)
  }

  /** The image of the parsed body. */
  datatype ImageInput = ImageInput(url: Option<string>, alt: Option<string>, tinyUrl: Option<string>, publicId: Option<string>)

  /** The parsed body; `None` is a field left out. */
  datatype ArticleInput = ArticleInput(
    title: Option<string>, content: Option<string>, slug: Option<string>, image: Option<ImageInput>,
    summary: Option<string>, category: Option<string>, categoryId: Option<string>,
    keywords: Option<seq<string>>, readingMinutes: Option<int>)

  function Text(v: Value): Option<string> {
    if v.Str? then Some(v.s) else None
  }

  function Texts(items: seq<Value>): seq<string>
    decreases |items|
  {
    if items == [] then [] else (if items[0].Str? then [items[0].s] else []) + Texts(items[1..])
  }

  function ImageOf(v: Value): Option<ImageInput> {
    if v.Obj? then Some(ImageInput(Text(Get(v, "url")), Text(Get(v, "alt")), Text(Get(v, "tinyUrl")), Text(Get(v, "publicId"))))
    else None
  }

  /** The data `safeParse` returns for an accepted body: `.default([])` fills
      in absent keywords, but under `.partial()` an absent field stays
      absent. */
  function ParseArticle(body: Value, partial: bool, isUrl: string -> bool): (r: Option<ArticleInput>)
    ensures r.Some? <==> AcceptsArticle(body, partial, isUrl)
  {
    if !AcceptsArticle(body, partial, isUrl) then None
    else
      var kw := Get(body, "keywords");
      var minutes := Get(body, "readingMinutes");
      Some(ArticleInput(
        Text(Get(body, "title")), Text(Get(body, "content")), Text(Get(body, "slug")), ImageOf(Get(body, "image")),
        Text(Get(body, "summary")), Text(Get(body, "category")), Text(Get(body, "categoryId")),
        if kw.Arr? then Some(Texts(kw.items)) else if partial then None else Some([]),
        if minutes.Num? then Some(minutes.n.Floor) else None))
  }

  // ---------------------------------------------------------------------
  // Properties

  /** What an accepted body carries: a title of three code units or more, a
      content of ten or more, a slug of three or more from `[a-z0-9-]`, an
      integer reading time above zero, and (unless partial) an image with a
      URL, an alt of three or more and a public id of three or more. */
  lemma {:induction false} ParsedArticleBounds(body: Value, partial: bool, isUrl: string -> bool)
    requires AcceptsArticle(body, partial, isUrl)
    ensures var a := ParseArticle(body, partial, isUrl).value;
      && (a.title.Some? ==> JsLength(a.title.value) >= 3)
      && (!partial ==> a.title.Some? && a.content.Some? && a.image.Some?)
      && (a.content.Some? ==> JsLength(a.content.value) >= 10)
      && (a.slug.Some? ==> JsLength(a.slug.value) >= 3 && forall i :: 0 <= i < |a.slug.value| ==> IsSlugSchemaChar(a.slug.value[i]))
      && (a.readingMinutes.Some? ==> a.readingMinutes.value >= 1)
      && (a.image.Some? ==> var img := a.image.value;
            img.url.Some? && isUrl(img.url.value) && img.alt.Some? && JsLength(img.alt.value) >= 3
            && img.publicId.Some? && JsLength(img.publicId.value) >= 3)
  {
    var minutes := Get(body, "readingMinutes");
    if minutes.Num? {
      assert minutes.n.Floor as real == minutes.n;
    }
  }

  /** Absent keywords become `[]` on create and stay absent under the partial
      schema; a list of strings is kept as it is. */
  lemma KeywordsDefault(body: Value, partial: bool, isUrl: string -> bool)
    requires AcceptsArticle(body, partial, isUrl)
    ensures Get(body, "keywords").Undefined? && !partial ==> ParseArticle(body, partial, isUrl).value.keywords == Some([])
    ensures Get(body, "keywords").Undefined? && partial ==> ParseArticle(body, partial, isUrl).value.keywords == None
    ensures Get(body, "keywords").Arr? ==>
      ParseArticle(body, partial, isUrl).value.keywords == Some(Texts(Get(body, "keywords").items))
      && |Texts(Get(body, "keywords").items)| == |Get(body, "keywords").items|
  {
    var kw := Get(body, "keywords");
    if kw.Arr? {
      TextsOfStrings(kw.items);
    }
  }

  lemma {:induction false} TextsOfStrings(items: seq<Value>)
    requires forall i :: 0 <= i < |items| ==> items[i].Str?
    ensures |Texts(items)| == |items|
    ensures forall i :: 0 <= i < |items| ==> Texts(items)[i] == items[i].s
    decreases |items|
  {
    if items != [] {
      TextsOfStrings(items[1..]);
    }
  }

  /** The update image is accepted only with both or neither of `url` and
      `publicId`; an image that sends just one of them is refused. */
  lemma UpdateImagePairing(body: Value, isUrl: string -> bool)
    requires AcceptsArticleUpdate(body, isUrl)
    requires Get(body, "image").Obj?
    ensures Get(Get(body, "image"), "url").Undefined? <==> Get(Get(body, "image"), "publicId").Undefined?
    ensures Get(Get(body, "image"), "url").Str? ==>
      Get(Get(body, "image"), "publicId").Str? && JsLength(Get(Get(body, "image"), "publicId").s) >= 3
  {
  }

  /** The partial schemas take the empty object; the full schema does not. */
  lemma PartialMakesFieldsOptional(isUrl: string -> bool)
    ensures AcceptsArticle(Obj(map[]), true, isUrl)
    ensures AcceptsArticleUpdate(Obj(map[]), isUrl)
    ensures !AcceptsArticle(Obj(map[]), false, isUrl)
  {
  }

  /** Under the partial schema an image that sends only an alt text is
      refused, while the update schema takes it. */
  lemma PartialKeepsWholeImage(isUrl: string -> bool, alt: string)
    requires JsLength(alt) >= 3
    ensures var body := Obj(map["image" := Obj(map["alt" := Str(alt)])]);
      !AcceptsArticle(body, true, isUrl) && AcceptsArticleUpdate(body, isUrl)
  {
    var img := Obj(map["alt" := Str(alt)]);
    var body := Obj(map["image" := img]);
    ImageOnlyFields(img);
    assert Get(body, "image") == img;
    AltOnlyImage(alt, isUrl);
  }

  /** A body holding only an image passes every other field as absent. */
  lemma ImageOnlyFields(img: Value)
    ensures FieldsOk(Obj(map["image" := img]), true)
  {
    var body := Obj(map["image" := img]);
    assert body.fields.Keys == {"image"};
    forall k | k != "image" ensures Get(body, k) == Undefined {
    }
  }

  /** An image that sends only an alt passes the partial image schema and
      the pairing rule, but not the whole image schema. */
  lemma AltOnlyImage(alt: string, isUrl: string -> bool)
    requires JsLength(alt) >= 3
    ensures !ImageOk(Obj(map["alt" := Str(alt)]), false, isUrl)
    ensures UpdateImageOk(Obj(map["alt" := Str(alt)]), isUrl)
  {
    var img := Obj(map["alt" := Str(alt)]);
    assert Get(img, "alt") == Str(alt);
    forall k | k != "alt" ensures Get(img, k) == Undefined {
    }
  }
}
