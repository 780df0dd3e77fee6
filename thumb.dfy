/** The YouTube cover helpers of `src/modules/videos/thumb.helper.ts`: the
    search for the best reachable thumbnail, its upload to Cloudinary and the
    public id a cover is destroyed under. The HEAD probe and the upload are
    oracles. */
module Thumb {
  import opened Js

  const VARIANTS: seq<string> := ["maxresdefault", "sddefault", "hqdefault", "mqdefault", "0"]
  const DOMAINS: seq<string> := ["i.ytimg.com", "img.youtube.com"]

  /** The folder covers are uploaded to, as a public-id prefix. */
  const VIDEOS_PREFIX: string := "videos/"

  /** `https://${d}/vi/${youtubeId}/${v}.jpg` */
  function ThumbUrl(d: string, id: string, v: string): string {
    "https://" + d + "/vi/" + id + "/" + v + ".jpg"
  }

  /** The thumbnails of one domain, in variant order. */
  function DomainThumbs(d: string, id: string): seq<string> {
    seq(|VARIANTS|, j requires 0 <= j < |VARIANTS| => ThumbUrl(d, id, VARIANTS[j]))
  }

  /** The candidates in the order the nested loops try them. */
  function ThumbCandidates(id: string): seq<string> {
    DomainThumbs(DOMAINS[0], id) + DomainThumbs(DOMAINS[1], id)
  }

  /** The first entry the probe accepts. */
  function FirstOk(s: seq<string>, ok: string -> bool): Option<string> {
    if s == [] then None else if ok(s[0]) then Some(s[0]) else FirstOk(s[1..], ok)
  }

  /** `findBestYouTubeThumb(youtubeId)`, with `headOk` as the probe. */
  method FindBestYouTubeThumb(id: string, headOk: string -> bool) returns (r: Option<string>)
    ensures r == FirstOk(ThumbCandidates(id), headOk)
  {
    ghost var c := ThumbCandidates(id);
    assert |c| == 10;
    for i := 0 to |DOMAINS|
      invariant forall k :: 0 <= k < 5 * i ==> !headOk(c[k])
    {
      var d := DOMAINS[i];
      for j := 0 to |VARIANTS|
        invariant forall k :: 0 <= k < 5 * i + j ==> !headOk(c[k])
      {
        var jpg := ThumbUrl(d, id, VARIANTS[j]);
        ThumbAt(id, i, j);
        if headOk(jpg) {
          FirstOkAt(c, headOk, 5 * i + j);
          return Some(jpg);
        }
      }
    }
    FirstOkNone(c, headOk);
    return None;
  }

  /** What the upload reports: the failure of `cloudinary.uploader.upload`,
      or its `secure_url` and `public_id`. */
  datatype UploadOutcome = UploadFailed | Uploaded(secureUrl: string, publicId: string)

  /** `{ coverUrl?, coverPublicId? }`; `None` is a property left out. */
  datatype CoverUpload = CoverUpload(coverUrl: Option<string>, coverPublicId: Option<string>)

  const NO_COVER: CoverUpload := CoverUpload(None, None)

  /** `uploadCoverToCloudinary(youtubeId)`. `upload(url, publicId)` is the
      upload into folder `videos` under the given public id. */
  method UploadCoverToCloudinary(id: string, headOk: string -> bool, upload: (string, string) -> UploadOutcome)
    returns (r: CoverUpload)
    ensures r == CoverFor(id, headOk, upload)
  {
    var best := FindBestYouTubeThumb(id, headOk);
    if best.None? {
      return NO_COVER;
    }
    var outcome := upload(best.value, id);
    if outcome.UploadFailed? {
      return NO_COVER;
    }
    return CoverUpload(Some(outcome.secureUrl), Some(outcome.publicId));
  }

  /** The cover an upload attempt yields: nothing when no thumbnail is
      reachable or the upload fails, otherwise the uploaded URL and id. */
  function CoverFor(id: string, headOk: string -> bool, upload: (string, string) -> UploadOutcome): (r: CoverUpload)
    ensures FirstOk(ThumbCandidates(id), headOk).None? ==> r == NO_COVER
    ensures r != NO_COVER <==>
      FirstOk(ThumbCandidates(id), headOk).Some? && upload(FirstOk(ThumbCandidates(id), headOk).value, id).Uploaded?
    ensures r != NO_COVER ==>
      var o := upload(FirstOk(ThumbCandidates(id), headOk).value, id);
      r.coverUrl == Some(o.secureUrl) && r.coverPublicId == Some(o.publicId)
  {
    var best := FirstOk(ThumbCandidates(id), headOk);
    if best.None? then NO_COVER
    else match upload(best.value, id)
      case UploadFailed => NO_COVER
      case Uploaded(u, p) => CoverUpload(Some(u), Some(p))
  }

  /** The public id `deleteCoverFromCloudinary(publicIdOrYoutube)` destroys:
      none for the empty string, otherwise the input under `videos/`. */
  function CoverPublicId(s: string): Option<string> {
    if s == "" then None
    else if StartsWith(s, VIDEOS_PREFIX) then Some(s)
    else Some(VIDEOS_PREFIX + s)
  }

  // ---------------------------------------------------------------------
  // Properties

  /** Two domains times five variants, domain-major: the candidate for domain
      number `i` and variant number `j` sits at `5 * i + j`. */
  lemma ThumbCandidatesOrder(id: string)
    ensures |ThumbCandidates(id)| == |DOMAINS| * |VARIANTS| == 10
    ensures forall i, j :: 0 <= i < 2 && 0 <= j < 5 ==>
      ThumbCandidates(id)[5 * i + j] == ThumbUrl(DOMAINS[i], id, VARIANTS[j])
  {
    var c := ThumbCandidates(id);
    forall i, j | 0 <= i < 2 && 0 <= j < 5
      ensures c[5 * i + j] == ThumbUrl(DOMAINS[i], id, VARIANTS[j])
    {
      if i == 0 {
        assert c[j] == DomainThumbs(DOMAINS[0], id)[j];
      } else {
        assert c[5 + j] == DomainThumbs(DOMAINS[1], id)[j];
      }
    }
  }

  lemma ThumbAt(id: string, i: nat, j: nat)
    requires i < 2 && j < 5
    ensures |ThumbCandidates(id)| == 10
    ensures ThumbCandidates(id)[5 * i + j] == ThumbUrl(DOMAINS[i], id, VARIANTS[j])
  {
    ThumbCandidatesOrder(id);
  }

  /** The probe picks the entry it accepts first. */
  lemma {:induction false} FirstOkAt(s: seq<string>, ok: string -> bool, k: nat)
    requires k < |s| && ok(s[k])
    requires forall m :: 0 <= m < k ==> !ok(s[m])
    ensures FirstOk(s, ok) == Some(s[k])
    decreases k
  {
    if k > 0 {
      assert !ok(s[0]);
      FirstOkAt(s[1..], ok, k - 1);
    }
  }

  /** With nothing accepted there is no result. */
  lemma {:induction false} FirstOkNone(s: seq<string>, ok: string -> bool)
    requires forall m :: 0 <= m < |s| ==> !ok(s[m])
    ensures FirstOk(s, ok) == None
    decreases |s|
  {
    if s != [] {
      assert !ok(s[0]);
      FirstOkNone(s[1..], ok);
    }
  }

  /** A result is an accepted entry with every entry before it refused. */
  lemma {:induction false} FirstOkFound(s: seq<string>, ok: string -> bool)
    requires FirstOk(s, ok).Some?
    ensures exists k :: 0 <= k < |s| && s[k] == FirstOk(s, ok).value && ok(s[k]) &&
                        (forall m :: 0 <= m < k ==> !ok(s[m]))
    decreases |s|
  {
    if !ok(s[0]) {
      FirstOkFound(s[1..], ok);
      var k :| 0 <= k < |s[1..]| && s[1..][k] == FirstOk(s[1..], ok).value && ok(s[1..][k]) &&
               (forall m :: 0 <= m < k ==> !ok(s[1..][m]));
      assert s[k + 1] == s[1..][k];
      assert forall m :: 0 < m < k + 1 ==> s[m] == s[1..][m - 1];
    } else {
      assert s[0] == FirstOk(s, ok).value;
    }
  }

  /** The empty input destroys nothing; every other input names an id under
      `videos/`, leaves one already there unchanged and otherwise prefixes it. */
  lemma CoverPublicIdShape(s: string)
    ensures CoverPublicId(s).None? <==> s == ""
    ensures CoverPublicId(s).Some? ==> StartsWith(CoverPublicId(s).value, VIDEOS_PREFIX)
    ensures s != "" && StartsWith(s, VIDEOS_PREFIX) ==> CoverPublicId(s) == Some(s)
    ensures s != "" && !StartsWith(s, VIDEOS_PREFIX) ==>
      CoverPublicId(s) == Some(VIDEOS_PREFIX + s) && CoverPublicId(s).value[|VIDEOS_PREFIX|..] == s
  {
    if s != "" && !StartsWith(s, VIDEOS_PREFIX) {
      var r := VIDEOS_PREFIX + s;
      assert r[..|VIDEOS_PREFIX|] == VIDEOS_PREFIX;
    }
  }

  /** Normalising twice is normalising once. */
  lemma CoverPublicIdIdempotent(s: string)
    requires s != ""
    ensures CoverPublicId(CoverPublicId(s).value) == CoverPublicId(s)
  {
    CoverPublicIdShape(s);
  }

  /** The bare YouTube id and the full public id Cloudinary returns name the
      same cover. */
  lemma CoverPublicIdForms(youtubeId: string)
    requires youtubeId != "" && !StartsWith(youtubeId, VIDEOS_PREFIX)
    ensures CoverPublicId(VIDEOS_PREFIX + youtubeId) == CoverPublicId(youtubeId)
  {
    var r := VIDEOS_PREFIX + youtubeId;
    assert r[..|VIDEOS_PREFIX|] == VIDEOS_PREFIX;
  }
}
