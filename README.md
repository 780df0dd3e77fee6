# A verified model of the blog backend's core logic

This project models the deterministic core of an Express/Mongoose/Cloudinary
blog backend. It covers articles with a cover image, categories, YouTube
videos and signed browser uploads. Every database query, Cloudinary SDK
call, HTTP probe, `JSON.parse`, ObjectId check, zod URL or datetime check,
and the MongoDB `tr` collation at strength 2 becomes a function-typed
parameter (an oracle). What is left is proved against its contracts.

The modules follow the source files:

- `Js` (`js.dfy`): the JavaScript values a handler reads (`undefined`,
  `null`, booleans, numbers, strings, arrays, objects, ObjectIds, dates).
  It also holds property access, truthiness, `String(v)`, UTF-16 `length`,
  the `\s` class and `${n}`.
- `TextRuns` (`text_runs.dfy`): the one regex-replacement shape both
  normalisers share, a global replacement of the maximal runs of a
  character class. It comes with the reference view: the words between the
  runs, joined by the replacement character.
- `Whitespace` (`whitespace.dfy`): `s.trim().replace(/\s+/g, " ")`, the
  pre-validate hook of articles (title) and of categories (name).
- `SlugifyTR` and `SlugifyExamples`: the Turkish slug normaliser and its
  worked examples.
- `Collation` (`collation.dfy`): the collation as an abstract per-character
  fold, and the unique-index invariant over a map from id to indexed value.
- `UniqueSlug` (`unique_slug.dfy`): the `base`, `base-1`, `base-2`, ... loop
  of `createArticle` and `updateArticle`.
- `CloudinaryUrl` (`cloudinary_url.dfy`): the URL test, the four builders of
  a delivery-URL transformation, the width-by-quality candidates and the
  "first under 1 MB, else the last" choice.
- `ArticleSchema` (`article_schema.dfy`): the zod article schemas, as
  predicates, and the data `safeParse` returns.
- `Articles` (`articles.dfy`): the article collection as a class
  `ArticleStore` with a map of articles, and a hydrated document
  `ArticleDoc`. It models create, patch, bare-file update and delete, `save`
  (hook, required validators, unique slug index), the image helpers and
  their fallbacks, the category choice, and `mapArticle`.
- `Categories` (`categories.dfy`): the category table as a class holding
  the names by id and the sets of category ids that articles and videos
  refer to. It models create, rename, delete and the sorted listing.
- `Videos` (`videos.dfy`): the video schema, `mapVideo`, the patch built by
  `updateVideo`, the category and cover rules of `createVideo`, and
  `deleteVideo`.
- `Thumb` (`thumb.dfy`): the YouTube thumbnail search, the cover upload and
  the public id a cover is destroyed under.
- `Uploads` (`uploads.dfy`): `createSignedUpload`. This covers the target,
  the `publicId` rule, the parameters handed to the signer and the reply.

The article and category handlers change state step by step, so they are
methods on classes: they assign the document's fields and then save it.
Their `ensures` tie the new collection to the old one and to a
specification predicate of the request. Each class's `Valid()` holds the
unique index, which every operation is proved to preserve. The pure parts
(slugs, URLs, schemas, view mapping) are functions with lemmas. The loops of
the source (the slug loop, the candidate loops, the thumbnail loops, the
listing) are `while`/`for` loops proved against functions on their inputs.

## Model

| member | source | states |
|---|---|---|
| Whitespace.NormalizeIsJoinedWords | src/modules/article/article.model.ts:45 | The hook's value is the whitespace-separated words of the input, joined by single spaces. |
| Whitespace.NormalizeShape | src/modules/article/article.model.ts:43-46 | After the hook there is no leading or trailing whitespace, every whitespace character left is a plain space, and no two of them are adjacent. |
| Whitespace.NormalizeKeepsText | src/modules/category/category.model.ts:28 | The characters other than whitespace survive in the same order and number. |
| Whitespace.NormalizeIdempotent | src/modules/category/category.model.ts:26-29 | Running the normaliser twice gives what running it once gives. |
| TextRuns.CollapseRunsOfTrim | src/modules/article/article.model.ts:45 | Trimming and then collapsing runs of a class yields the words of the input joined by the replacement. |
| TextRuns.StripEdgeOfCollapse | src/utils/slugifyTR.ts:29-31 | Collapsing the runs and then stripping one replacement at each end yields the words joined by the replacement. |
| TextRuns.CollapseRunsNoAdjacent | src/utils/slugifyTR.ts:29 | After a run replacement, no two neighbouring characters are both in the class. |
| TextRuns.CollapseRunsIdle | src/utils/slugifyTR.ts:30 | A second run replacement has nothing to do on a string whose class characters are isolated copies of the replacement. |
| TextRuns.WordsOfJoin | src/utils/slugifyTR.ts:29 | Joining proper words and splitting again gives back the same words, so the word view loses nothing. |
| TextRuns.FilterIsConcatOfWords | src/modules/article/article.model.ts:45 | The characters outside the class are exactly the words, concatenated. |
| SlugifyTR.TurkishLettersFold | src/utils/slugifyTR.ts:3-18 | The Turkish letters of both cases, `İ`, `I` and `i` all become plain ASCII lowercase letters. |
| SlugifyTR.FoldSurvivors | src/utils/slugifyTR.ts:24-26 | A character reaches the slug exactly when it is an ASCII letter or digit, a table letter or the Kelvin sign. Capitals are lowercased and digits are kept. |
| SlugifyTR.SlugifyIsSlug | src/utils/slugifyTR.ts:28-31 | Every output has only `a-z`, `0-9` and `-`, no dash at either end and no `--`. |
| SlugifyTR.SlugifyIsJoinedWords | src/utils/slugifyTR.ts:20-31 | The slug is the maximal `[a-z0-9]` runs of the folded, normalised input joined by single dashes: each run of other characters between two of them becomes exactly one `-`. |
| SlugifyTR.SlugifyFixesSlugs | src/utils/slugifyTR.ts:28-31 | A string already in slug form is its own slug. |
| SlugifyTR.SlugifyIdempotent | src/utils/slugifyTR.ts:1 | `slugify(slugify(s)) == slugify(s)`. |
| SlugifyTR.SlugifyEmptyWithoutAlnum | src/utils/slugifyTR.ts:29-31 | Input with no character that folds to a letter or digit gives the empty slug. |
| SlugifyExamples.SlugifyTurkishExample | src/utils/slugifyTR.ts:21-29 | `"Öğüt Şışır"` gives `"ogut-sisir"`. |
| SlugifyExamples.SlugifySpacesExample | src/utils/slugifyTR.ts:21-29 | `"  Multiple   Spaces  "` gives `"multiple-spaces"`. |
| SlugifyExamples.SlugifyPunctuationExample | src/utils/slugifyTR.ts:29-31 | `"!!!"` gives the empty slug. |
| Collation.EquivalentIsEquivalence | src/modules/article/article.model.ts:38-41 | Collation equivalence is reflexive, symmetric and transitive. |
| Collation.CaseOnlyRigid | src/modules/article/article.model.ts:38-41 | Under the model's per-character, length-preserving fold, a string of digits and dashes is equivalent to itself alone. |
| Collation.UniqueIffUntaken | src/modules/category/category.model.ts:17-23 | The index is unique exactly when no entry's value is held by another entry. |
| Collation.UniqueAfterStore | src/modules/category/category.model.ts:17-23 | Storing a value no other entry is equivalent to keeps the index unique, for a fresh id and for a replaced value. |
| Collation.UniqueAfterRemove | src/modules/category/category.controller.ts:139-142 | Removing an entry keeps the index unique. |
| UniqueSlug.ResolveSlug | src/modules/article/article.controller.ts:190-198 | The loop stops on every finite collection, after at most one collision per article. Its answer is the least free candidate: `base` if free, else `base-n` for the least `n` whose candidate no other article holds. |
| UniqueSlug.CandidatesDistinct | src/modules/article/article.controller.ts:190-198 | With the suffix always on the base, two different candidates are never equivalent. |
| UniqueSlug.UnmatchedStep | src/modules/article/article.controller.ts:192-198 | Each collision uses up an article that matched no earlier candidate, which bounds the loop. |
| UniqueSlug.LeastFreeUnique | src/modules/article/article.controller.ts:192-198 | The least free candidate is determined by the collection and the base. |
| UniqueSlug.BaseKeptWhenFree | src/modules/article/article.controller.ts:192-198 | The answer is the base exactly when the base is free, and carries a suffix of at least 1 otherwise. |
| UniqueSlug.EmptyOnlyFromEmptyBase | src/modules/article/article.controller.ts:190-198 | When no stored slug is empty, the loop answers the empty slug exactly for the empty base. |
| UniqueSlug.StoreKeepsUnique | src/modules/article/article.model.ts:38-41 | Storing the loop's answer, for a new article or for the article being updated, keeps the unique slug index. |
| UniqueSlug.OwnSlugIsFree | src/modules/article/article.controller.ts:314 | On update the article's own slug is never a collision: a base equivalent to it is kept unchanged. |
| ArticleSchema.ParseArticle | src/modules/article/article.schema.ts:14-35 | `safeParse` yields data exactly when the schema (or its partial form) accepts the body. |
| ArticleSchema.ParsedArticleBounds | src/modules/article/article.schema.ts:4-32 | Title of at least 3 code units, content of at least 10, slug of at least 3 from `[a-z0-9-]`, reading time a positive integer. Outside the partial form there must be title, content and an image with a URL, an alt of 3 or more and a public id of 3 or more. |
| ArticleSchema.KeywordsDefault | src/modules/article/article.schema.ts:29 | Absent keywords become `[]` on create and stay absent under the partial schema; a string array is kept. |
| ArticleSchema.UpdateImagePairing | src/modules/article/article.schema.ts:37-47 | An accepted update image leaves out `url` exactly when it leaves out `publicId`, and a sent URL comes with a public id of at least 3 code units. |
| ArticleSchema.PartialMakesFieldsOptional | src/modules/article/article.schema.ts:49-51 | The partial schemas accept the empty object and the full schema refuses it. |
| ArticleSchema.PartialKeepsWholeImage | src/modules/article/article.controller.ts:300-304 | The partial schema the update handler uses refuses an image that sends only an alt text, which the update schema would take. |
| Articles.BaseSlug | src/modules/article/article.controller.ts:189 | The base is `slugify(body.slug)` for a non-empty sent slug, else `slugify(title)`, and is in slug form. |
| Articles.ProcessAsset | src/modules/article/article.controller.ts:38-70 | An upload's URLs are the 1 MB choice with the no-crop fallback, and the blurred URL with its fallbacks. |
| Articles.ProcessingFallbacksUnused | src/modules/article/article.controller.ts:57-67 | The processed URL exists exactly for a Cloudinary URL and is then the 1 MB choice. The small URL is the default blurred one, or the raw URL. Neither fallback is ever used. |
| Articles.ChooseCategory | src/modules/article/article.controller.ts:200-214 | `categoryId` is tried first (400 for a malformed id, 404 for an unknown one). Otherwise `category` is looked up by name under the collation (404 when nothing matches). Otherwise the category is unchanged. The choice refuses exactly when `CategoryRefusal` gives a reason, and with that reason. |
| Articles.EmptyCategoryId | src/modules/article/article.controller.ts:329-341 | On create an empty `categoryId` draws the same refusal as an absent one. On update it is acted on: 400 when the id check refuses it, else 404 when no category has it as id. |
| Articles.SentSlugIsBase | src/modules/article/article.controller.ts:189 | A sent slug already in slug form is taken as the base unchanged. |
| Articles.FileOnlyUploadRule | src/modules/article/article.controller.ts:274-281 | A bare upload is a file with no body key, or exactly one of `slug`, `_action`, `data`. |
| Articles.PatchAltFallback | src/modules/article/article.controller.ts:352-385 | When a patch touches the image, the alt is the body's alt if sent, else the stored alt. |
| Articles.FileOnlyAltRule | src/modules/article/article.controller.ts:290 | A bare upload keeps a non-empty stored alt and otherwise uses `Kapak görseli`. Its rule agrees with the patch rule exactly for a non-empty stored alt. |
| Articles.PatchKeepsStoredAsset | src/modules/article/article.controller.ts:352-385 | Without a file and a new URL the asset is kept and nothing is destroyed; only the alt and small URL can change. |
| Articles.PatchDestroysOnlyOld | src/modules/article/article.controller.ts:352-385 | A patch destroys at most the stored public id, and only when a new asset replaces it. |
| Articles.FailedUploadKeepsDestroyedId | src/modules/article/article.controller.ts:352-372 | When the new file or the import fails after the category part, the stored public id has already been destroyed and the reply is 500. |
| Articles.ArticleDoc.PreValidate | src/modules/article/article.model.ts:43-48 | The hook replaces the title by its normal form and changes nothing else. |
| Articles.ArticleDoc.PatchFields | src/modules/article/article.controller.ts:307-349 | `FieldsPatched`: slug and title change together, only for a new non-empty title, and the slug is the least free candidate. Content and keywords are kept unless sent; summary and reading time take the sent values or become absent; image and category are untouched. |
| Articles.ArticleDoc.PatchImage | src/modules/article/article.controller.ts:352-385 | The image becomes the patch image: a new file, else an imported new URL, else an alt or small-URL change. The old public id is destroyed only for a new asset. `ok` is false exactly when the upload or the import fails, and the image is then left as it was. |
| Articles.StoreKeepsInvariant | src/modules/article/article.model.ts:38-41 | Storing a validated article whose slug no other article holds keeps the unique slug index and the validators' guarantee. |
| Articles.RenameKeepsOwnSlug | src/modules/article/article.controller.ts:314 | An article keeping its slug meets no collision. |
| Articles.HookedWellFormed | src/modules/article/article.model.ts:14-48 | For a slug that is empty exactly when its base is, the `required` validators pass after the hook exactly when the normalised title, the base, the content, the image URL and the alt are all non-empty. |
| Articles.ArticleStore.Save | src/modules/article/article.model.ts:14-48 | Save runs the hook. It stores the article exactly when the required fields are set and no other article holds an equivalent slug, and otherwise reports the validator failure or the duplicate key. |
| Articles.ArticleStore.Create | src/modules/article/article.controller.ts:176-257 | 400 exactly for a body the schema refuses. Otherwise, in order: a category refusal (400 or 404); else 500 when the upload or the import fails; else 201 exactly when the validators pass on the trimmed title, the base slug, the content and the processed image, and a `required` 500 otherwise. A stored article goes under the new id with the least free slug, the normalised title and the processed image. A duplicate slug, missing alt or missing image never occurs. |
| Articles.ArticleStore.CreateFrom | src/modules/article/article.controller.ts:189-250 | For an accepted body, the whole case split of `CreateOutcome`: the category refusal, then the 500 of a failed upload or import, then the insert. The insert succeeds exactly when the validators pass on the assembled article; otherwise nothing is stored. |
| Articles.ArticleStore.Update | src/modules/article/article.controller.ts:260-391 | 400 for a malformed id and 404 for an unknown one, with nothing destroyed. A bare upload has the outcome of `SaveFileOnly`. Any other body gets a 400 when the partial schema refuses it, and otherwise the outcome of `Patch`. Only that article changes, and never through a duplicate slug. |
| Articles.ArticleStore.PatchRequest | src/modules/article/article.controller.ts:300-304 | A body the partial schema refuses gives 400 before any field or image is touched. An accepted body has the outcome of `Patch`. |
| Articles.ArticleStore.SaveFileOnly | src/modules/article/article.controller.ts:284-297 | The stored public id is destroyed first. A failed upload then gives 500 and changes nothing else. Otherwise the image becomes the upload with the bare-upload alt. The save succeeds exactly when the validators pass on the article with that image, and the reply carries the new URLs. Otherwise a `required` 500 is given and nothing is stored. |
| Articles.ArticleStore.Patch | src/modules/article/article.controller.ts:307-387 | A category refusal (400 or 404) comes before any image is touched and destroys nothing. Past it the old public id is destroyed when a new asset replaces it, and a failed upload or import then gives 500. Otherwise the reply is 200 exactly when the validators pass on the patched article, which is stored under its id, and a `required` 500 otherwise. The unique slug index is kept. |
| Articles.ArticleStore.PatchImageAndSave | src/modules/article/article.controller.ts:352-389 | After the field and category parts: the image patch, a 500 for a failed upload or import, then the save. The save succeeds exactly when the validators pass on the patched article. |
| Articles.ArticleStore.Delete | src/modules/article/article.controller.ts:396-415 | 400 and 404 remove nothing. Otherwise the article is removed and its stored public id, if any, is destroyed. |
| Articles.MapStoredArticle | src/modules/article/article.controller.ts:112-133 | A stored article with its populated category reads back with its id, texts, image, category, keywords and timestamps. |
| Articles.MapArticleDefaults | src/modules/article/article.controller.ts:127-131 | Keywords are `[]` unless an array is stored, and a reading time appears only for a stored number. The clock's time replaces a missing creation date, and there is no category when none is set. |
| CloudinaryUrl.CloudinaryUrlOf | src/utils/cloudinaryUrl.ts:5-7 | Anything, `res.cloudinary.com/`, at least one non-line-terminator, `/image/upload/`, anything, is a Cloudinary URL. |
| CloudinaryUrl.CloudinaryUrlSplit | src/utils/cloudinaryUrl.ts:5-7 | Every Cloudinary URL has that shape. |
| CloudinaryUrl.RewriteSpec | src/utils/cloudinaryUrl.ts:91 | The segment and a `/` go right after the leftmost `/image/upload/` not followed by `a-z`; everything else is kept, and without such an occurrence the URL is unchanged. |
| CloudinaryUrl.VersionedNotMatched | src/utils/cloudinaryUrl.ts:91 | An occurrence followed by a lowercase letter, as in `/image/upload/v123/`, is not a match. |
| CloudinaryUrl.BuildersKeepUnmatched | src/utils/cloudinaryUrl.ts:25-28 | For a Cloudinary URL without a matching occurrence, every builder returns the URL unchanged. |
| CloudinaryUrl.TinyBlur | src/utils/cloudinaryUrl.ts:18-29 | No URL for a missing, empty or non-Cloudinary URL; otherwise the rewrite with the blur segment. |
| CloudinaryUrl.TinyBlurFill | src/utils/cloudinaryUrl.ts:32-44 | The same guard, then the rewrite with the fill segment. |
| CloudinaryUrl.OptimizedCover | src/utils/cloudinaryUrl.ts:53-63 | The same guard, then the rewrite with the cover segment. |
| CloudinaryUrl.NoCropFit | src/utils/cloudinaryUrl.ts:78-92 | The same guard, then the rewrite with the comma-joined parts. |
| CloudinaryUrl.TinyBlurDefaultSegment | src/utils/cloudinaryUrl.ts:23-27 | The default blur segment is `q_20,w_96,dpr_1,e_blur:300`. |
| CloudinaryUrl.OptimizedCoverDefaultSegment | src/utils/cloudinaryUrl.ts:58-61 | The default cover segment is `f_auto,q_auto:good`. |
| CloudinaryUrl.TinyBlurFillDefaultSegments | src/utils/cloudinaryUrl.ts:37-42 | With fill width 1600 the segment is `f_auto,q_20,w_1600,c_fill,g_auto,dpr_1,e_blur:1200`. |
| CloudinaryUrl.TinyBlurFillPlainSegment | src/utils/cloudinaryUrl.ts:37-42 | Without a fill width the segment is `f_auto,q_20,w_96,dpr_1,e_blur:1200`. |
| CloudinaryUrl.NoCropPartsOrder | src/utils/cloudinaryUrl.ts:83-90 | The parts are, in order: format, quality, `dpr_auto` unless switched off, `h_` for a non-zero height, width, `c_limit`. |
| CloudinaryUrl.NoCropDefaultSegment | src/utils/cloudinaryUrl.ts:83-90 | Width 1600 and no options give `f_auto,q_auto:eco,dpr_auto,w_1600,c_limit`. |
| CloudinaryUrl.PickUnder1MB | src/utils/cloudinaryUrl.ts:97-108 | The loop returns the choice `Pick` defines. |
| CloudinaryUrl.PickIsFirstSmallElseLast | src/utils/cloudinaryUrl.ts:97-108 | The choice is the first candidate whose length is non-zero and below 1 000 000, else the last candidate. A negative length counts as small. There is no choice only for an empty list. |
| CloudinaryUrl.ChooseNoCropUnder1MB | src/utils/cloudinaryUrl.ts:114-128 | No URL for a non-Cloudinary base; otherwise the choice over the candidate list. |
| CloudinaryUrl.BuildRow | src/utils/cloudinaryUrl.ts:122-125 | The inner loop collects one width's candidates in quality order. |
| CloudinaryUrl.CandidatesOrder | src/utils/cloudinaryUrl.ts:119-126 | For a Cloudinary base there is one candidate per width and quality, width-major: the one for width number `i` and quality number `j` sits at `i` times the number of qualities, plus `j`. |
| CloudinaryUrl.OffsetIsProduct | src/utils/cloudinaryUrl.ts:121-122 | The start of width `i`'s block is `i` times the number of qualities. |
| CloudinaryUrl.CandidatesEmpty | src/utils/cloudinaryUrl.ts:121-126 | No widths or no qualities give no candidates. |
| Categories.CategoryTable.Create | src/modules/category/category.controller.ts:27-59 | 400 for a trimmed name under two code units. 409 when the trimmed name or its normalised stored form is held under the collation. Otherwise 201, with the normalised name stored under the new id. The unique name index is kept. |
| Categories.CategoryTable.Rename | src/modules/category/category.controller.ts:62-107 | 400 for a malformed id or a short name, then 409 only when another category holds an equivalent name, then 404 for an unknown id. Otherwise the trimmed name is stored, and the index is kept. |
| Categories.CategoryTable.Delete | src/modules/category/category.controller.ts:110-148 | 400 for a malformed id. `CATEGORY_IN_ARTICLES` is checked before `CATEGORY_IN_VIDEOS`, then 404. Only an unreferenced category is removed. |
| Categories.CategoryTable.List | src/modules/category/category.controller.ts:9-24 | Every stored category appears once with its name, in ascending name order. |
| Categories.RenameToOwnEquivalent | src/modules/category/category.controller.ts:80-88 | Renaming to a name equivalent to its own meets no conflict. |
| Categories.BelowTotal | src/modules/category/category.controller.ts:15 | The name order is strict and total on distinct names. |
| Categories.InsertByNameElements | src/modules/category/category.controller.ts:15 | Insertion adds exactly the new entry. |
| Categories.InsertKeepsSorted | src/modules/category/category.controller.ts:15 | Insertion keeps a listing with distinct names sorted. |
| Videos.ParseVideo | src/modules/videos/videos.schema.ts:6-15 | Data exactly when the schema accepts the body. There must be a title of 3 or more and a valid YouTube id unless partial, and a string `categoryId` is passed through. |
| Videos.YoutubeIdRule | src/modules/videos/videos.schema.ts:4 | YouTube ids are made of `[A-Za-z0-9_-]`, have at least six characters and no upper bound. |
| Videos.PartialAcceptsEmpty | src/modules/videos/videos.schema.ts:6-15 | The partial schema takes the empty object and any string `categoryId`, with no id check; the full schema refuses the empty object. |
| Videos.TrimmedFields | src/modules/videos/videos.model.ts:12-13 | A YouTube id that passes the schema is unchanged by its setter and never empty. A title of three spaces passes the schema but is emptied by its setter. |
| Videos.BuildVideoPatch | src/modules/videos/videos.controller.ts:150-186 | The patch is refused exactly when `CategoryRefusal` gives a reason, and with that reason. `title` is in the patch iff sent. The YouTube id and cover fields are in it iff the id is a new non-empty one, and the old cover is then destroyed. Category: absent leaves it alone, null or `""` unsets it, otherwise the id. |
| Videos.CreateVideo | src/modules/videos/videos.controller.ts:95-115 | A sent category id is checked (400 or 404) before the upload. After the cover lookup, a title or YouTube id that the `trim: true` setters leave empty is refused by `required` (500). Otherwise the record holds the trimmed title and id, the cover fields or `""`, and the category when one was sent. |
| Videos.DeleteVideo | src/modules/videos/videos.controller.ts:204-225 | 400 for a malformed id and 404 for a missing record. For a valid id of a deleted record it succeeds, and the cover is destroyed under the normalised id. |
| Videos.CoverIdRule | src/modules/videos/videos.controller.ts:161-163 | The cover is destroyed under the public id when set, else the YouTube id, under `videos/`, the same on update and delete. |
| Videos.EmptyCoverFields | src/modules/videos/videos.controller.ts:112-113 | With no thumbnail or a failed upload, both cover fields are `""`. |
| Videos.MapVideoCategory | src/modules/videos/videos.controller.ts:23-30 | A populated category maps to its id and name, a bare valid id to that id with an empty name, and no category or `null` to none. |
| Videos.MapVideoCategoryOrigin | src/modules/videos/videos.controller.ts:23-30 | A mapped category always comes from a truthy object value; an unpopulated one is a valid id with an empty name. |
| Thumb.ThumbCandidatesOrder | src/modules/videos/thumb.helper.ts:20-26 | There are 2 domains × 5 variants, domain-major, each `https://{d}/vi/{id}/{v}.jpg`. |
| Thumb.FindBestYouTubeThumb | src/modules/videos/thumb.helper.ts:20-28 | The nested loops return the first candidate the probe accepts, or nothing. |
| Thumb.FirstOkAt | src/modules/videos/thumb.helper.ts:24 | The entry accepted first is the one returned. |
| Thumb.FirstOkNone | src/modules/videos/thumb.helper.ts:27 | With nothing accepted there is no thumbnail. |
| Thumb.FirstOkFound | src/modules/videos/thumb.helper.ts:20-28 | A returned thumbnail is accepted and every earlier candidate was refused. |
| Thumb.UploadCoverToCloudinary | src/modules/videos/thumb.helper.ts:38-64 | The method yields the cover `CoverFor` describes. |
| Thumb.CoverFor | src/modules/videos/thumb.helper.ts:42-63 | `{}` when no thumbnail is found or the upload fails. Otherwise the uploaded URL and public id. |
| Thumb.CoverPublicIdShape | src/modules/videos/thumb.helper.ts:71-77 | The empty input destroys nothing. Any other id names a cover under `videos/`: one already there is unchanged, otherwise the prefix is added. |
| Thumb.CoverPublicIdIdempotent | src/modules/videos/thumb.helper.ts:75-77 | Normalising a normalised id changes nothing. |
| Thumb.CoverPublicIdForms | src/modules/videos/thumb.helper.ts:75-77 | The bare YouTube id and the full `videos/` id name the same cover. |
| Uploads.SelectTarget | src/modules/uploads/uploads.controller.ts:25-28 | With `in` over the table's own keys the target is always `article`. |
| Uploads.TargetConfigOf | src/modules/uploads/uploads.controller.ts:8-14 | The article target always has a non-empty folder: the configured one, or `articles` when none is set. Its resource type is `image`, and it has a preset exactly when a non-empty one is configured. An inherited name has no folder, type or preset. |
| Uploads.SelectTargetOwnKeys | src/modules/uploads/uploads.controller.ts:25-28 | The intended selection agrees with the code on `article`, and its target always has the `articles` folder fallback. |
| Uploads.SelectionsDiffer | src/modules/uploads/uploads.controller.ts:25-30 | The code's selection and the intended one differ exactly on the names every object inherits. On every other body both select the same table entry. |
| Uploads.InheritedTargetSelected | src/modules/uploads/uploads.controller.ts:26 | As written, `{"target": "toString"}` selects `toString`. Its entry has no resource type or preset, and the signed folder is `undefined`. |
| Uploads.CreateSignedUpload | src/modules/uploads/uploads.controller.ts:24-73 | The handler as written, target selection included. 500 exactly when the API key or secret is unset. 400 exactly when they are set and a `publicId` is sent that is not a matching string. Nothing is signed in either case. Otherwise it signs `ParamsToSign`, and the reply carries the selected target and that target's folder, resource type and preset, the public id, the timestamp, the signature and the credentials. |
| Uploads.ParamsToSign | src/modules/uploads/uploads.controller.ts:39-56 | Always `timestamp` and `folder`, the folder being `undefined` for a target without one. `upload_preset` iff the target has a non-empty preset, and `public_id` iff a string one is sent, equal to it. |
| Uploads.SecondsRounds | src/modules/uploads/uploads.controller.ts:38 | The timestamp is the clock in seconds, rounded to the nearest second. |

## Left out

- HTTP plumbing is not part of this model: routers, `app.ts`, `server.ts`, multer, status shaping beyond the guards above, and the JSON body of each reply beyond its status and the fields listed. The same goes for authentication, the database connection, environment loading and the contact module.
- `listArticles`, `getArticleBySlug`, `listVideos` and `getVideoById` are left out: they are a database query plus `mapArticle` or `mapVideo`, and those two are modelled.
- The Cloudinary SDK (upload, upload stream, import, destroy, request signing), `fetch` HEAD probes, `JSON.parse`, `Types.ObjectId.isValid`, zod's URL and datetime checks and `String` of numbers, arrays and dates are oracles (function parameters). A reply's exact wording is not modelled.
- The `tr` collation at strength 2 is modelled as a per-character fold, so equivalent strings have the same length. Real ICU collation is not like that: it has expansions (`ß` against `ss`), ignorable characters and full-width digits. The only fact assumed about the fold (`CaseOnly`) is that a digit or a dash is equivalent to itself alone. Which letters fold together is left open. The collation lemmas hold for that model, not for ICU itself.
- The race between an existence check and the insert is concurrency. Each request runs alone, and the unique index is the class invariant `Valid()`.
- The clock (`Date.now`, `new Date().toISOString()`) and the id the store assigns are inputs.
- Numbers are exact reals, with no NaN and no infinity, except for the NaN a size probe can report, which `Probe` models.
- `Object.keys` order is not modelled: `isFileOnlyUpload` only looks at bodies with at most one key, where order plays no part.
- `src/config/env.ts` defines no article folder and no upload preset, so both are configuration inputs that may be unset.
- Slugs are not trimmed on assignment (`trim` is applied to title, alt and public id). A slug always comes from `slugify` and has no whitespace to trim.
- The update handler parses with `articleSchema.partial()`, not with `articleUpdateSchema`. The model follows the handler; `ArticleSchema.AcceptsArticleUpdate` models the unused schema and its pairing rule.
- In `createArticle` the 400 guards for a missing alt and a missing image cannot fire, because the schema already demands both. They are in the model, and the contract of `Create` states that neither refusal occurs.
- On update, `summary` and `readingMinutes` are assigned on every patch, so a patch that leaves them out clears them. This is modelled as written.
- A slug sent without a title change is ignored by the patch, and the bare-upload branch ignores a sent slug. Both are modelled as written.
- In the image helpers the `!` after `noCropFitCloudinary` checks nothing. A non-Cloudinary answer leaves the image without a URL, and the `required` validator then refuses the save (500). This is modelled as written.
- The old image is destroyed before a save that may still be refused (500), and before an upload or import that may still fail (500). `updateVideo` destroys the old cover and uploads the new one before it validates the category. `createVideo` uploads the cover before the `required` validators refuse a title or YouTube id that trims to nothing. All these orders are modelled as written.
- A failed Cloudinary upload or import is one outcome, `UploadFailed`, answered with 500 by the error handler; the error itself is not modelled.
- Videos.BuildVideoPatch: the final `findByIdAndUpdate` (with its 404, `runValidators` and the `trim: true` setters) and the populate step are not modelled. The patch stops at the record it builds.
- `mapVideo` and `mapArticle` are functions with no contract of their own. Their properties are the lemmas in the table. `String` of the values they do not spell out is an oracle.
- `toLowerCase` is modelled only as far as the slug can see it: ASCII capitals, and the Kelvin sign, which lowercases to ASCII `k`. Every other non-ASCII character falls into the "other" class, whatever its case.

## Findings

| source | as written | input that shows it | evidently intended | confidence | as-written member | corrected member |
|---|---|---|---|---|---|---|
| src/modules/uploads/uploads.controller.ts:26 | `body.target in UPLOAD_TARGETS` is also true for names every object inherits from `Object.prototype`, and that name becomes the target; its entry has no folder, resource type or preset, so `Uploads.CreateSignedUpload` (modelled as written) signs with the folder `undefined` and replies with that target | `{"target": "toString"}` | only a key of `UPLOAD_TARGETS` itself (`Object.hasOwn`); anything else selects `article` | high, not executed | Uploads.InheritedTargetSelected | Uploads.SelectTargetOwnKeys |
