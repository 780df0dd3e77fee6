/** The Cloudinary delivery-URL helpers of `src/utils/cloudinaryUrl.ts`:
    recognising a Cloudinary image URL, inserting a transformation segment
    after its `/image/upload/` path part, the four segment builders, the
    width-by-quality candidate list and the "first candidate under 1 MB"
    choice. The HEAD probe is a parameter. */
module CloudinaryUrl {
  import opened Js
  import TextRuns

  const HOST: string := "res.cloudinary.com/"
  const UPLOAD: string := "/image/upload/"

  /** The characters a regular-expression `.` does not match. */
  predicate IsLineTerminator(c: char) {
    c == '\n' || c == '\r' || c as int == 0x2028 || c as int == 0x2029
  }

  /** `res.cloudinary.com/` at `i`, `/image/upload/` at `j`, and between them
      at least one character, none a line terminator. */
  predicate MatchesAt(u: string, i: int, j: int) {
    && OccursAt(u, HOST, i)
    && i + |HOST| < j
    && OccursAt(u, UPLOAD, j)
    && (forall k :: i + |HOST| <= k < j ==> !IsLineTerminator(u[k]))
  }

  /** `/res\.cloudinary\.com\/.+\/image\/upload\//.test(url)` */
  predicate IsCloudinaryUrl(u: string) {
    exists i, j :: 0 <= i < |u| && i < j < |u| && MatchesAt(u, i, j)
  }

  /** An occurrence of `/image/upload/` that `/\/image\/upload\/(?![a-z])/`
      matches: the next character is not `a`-`z`, or there is none. */
  predicate UploadAt(u: string, k: int) {
    OccursAt(u, UPLOAD, k) && (k + |UPLOAD| == |u| || !IsLowerAscii(u[k + |UPLOAD|]))
  }

  /** The match the non-global `replace` rewrites: the leftmost one. */
  predicate FirstUploadAt(u: string, k: int) {
    UploadAt(u, k) && forall j :: 0 <= j < k ==> !UploadAt(u, j)
  }

  /** The leftmost matching `/image/upload/` at or after `from`. */
  function FindUpload(u: string, from: nat): (r: Option<nat>)
    requires from <= |u|
    ensures r.Some? ==> from <= r.value && UploadAt(u, r.value)
    ensures r.Some? ==> forall k :: from <= k < r.value ==> !UploadAt(u, k)
    ensures r.None? ==> forall k :: from <= k ==> !UploadAt(u, k)
    decreases |u| - from
  {
    if from + |UPLOAD| > |u| then None
    else if UploadAt(u, from) then Some(from)
    else FindUpload(u, from + 1)
  }

  /** `url.replace(/\/image\/upload\/(?![a-z])/, "/image/upload/" + seg + "/")`:
      the segment and a `/` go in right after the leftmost matching
      `/image/upload/`; everything before and after is kept, and without such
      an occurrence the URL is returned as it is. */
  function Rewrite(u: string, seg: string): (r: string)
    ensures |r| >= |u|
  {
    match FindUpload(u, 0)
    case None => u
    case Some(k) => u[..k + |UPLOAD|] + seg + "/" + u[k + |UPLOAD|..]
  }

  /** What `Rewrite` does, in terms of the matches alone. */
  lemma RewriteSpec(u: string, seg: string)
    ensures (forall k :: !UploadAt(u, k)) ==> Rewrite(u, seg) == u
    ensures forall k :: FirstUploadAt(u, k) ==>
      Rewrite(u, seg) == u[..k + |UPLOAD|] + seg + "/" + u[k + |UPLOAD|..]
  {
    match FindUpload(u, 0)
    case None =>
    case Some(k) =>
      assert forall k' :: FirstUploadAt(u, k') ==> k' == k;
  }

  /** A number or a named setting such as `auto:good`, as the builders'
      options allow for quality. */
  datatype Param = Level(n: int) | Named(name: string)

  /** `${p}` */
  function Render(p: Param): string {
    match p
    case Level(n) => IntToString(n)
    case Named(name) => name
  }

  /** `!url || !isCloudinaryUrl(url)` fails: the builders' common guard. */
  predicate Applicable(url: Option<string>) {
    url.Some? && url.value != "" && IsCloudinaryUrl(url.value)
  }

  /** `TinyBlurOpts`; `None` is a property left undefined. */
  datatype TinyBlurOpts = TinyBlurOpts(w: Option<int>, q: Option<int>, blur: Option<int>, dpr: Option<int>)

  const NO_TINY_BLUR_OPTS: TinyBlurOpts := TinyBlurOpts(None, None, None, None)

  function TinyBlurSegment(o: TinyBlurOpts): string {
    var w, q, blur, dpr := o.w.GetOr(96), o.q.GetOr(20), o.blur.GetOr(300), o.dpr.GetOr(1);
    "q_" + IntToString(q) + ",w_" + IntToString(w) + ",dpr_" + IntToString(dpr)
      + ",e_blur:" + IntToString(blur)
  }

  /** `tinyBlurCloudinary(url, opts)` */
  function TinyBlur(url: Option<string>, o: TinyBlurOpts): (r: Option<string>)
    ensures r.None? <==> !Applicable(url)
    ensures r.Some? ==> r.value == Rewrite(url.value, TinyBlurSegment(o))
  {
    if !Applicable(url) then None else Some(Rewrite(url.value, TinyBlurSegment(o)))
  }

  function TinyBlurFillSegment(o: TinyBlurOpts, fillWidth: Option<int>): string {
    var w, q, blur, dpr := o.w.GetOr(96), o.q.GetOr(20), o.blur.GetOr(1200), o.dpr.GetOr(1);
    var fill := if fillWidth.Some? then ",w_" + IntToString(fillWidth.value) + ",c_fill,g_auto"
                else ",w_" + IntToString(w);
    "f_auto,q_" + IntToString(q) + fill + ",dpr_" + IntToString(dpr) + ",e_blur:" + IntToString(blur)
  }

  /** `tinyBlurFillCloudinary(url, { ...opts, fillWidth })` */
  function TinyBlurFill(url: Option<string>, o: TinyBlurOpts, fillWidth: Option<int>): (r: Option<string>)
    ensures r.None? <==> !Applicable(url)
    ensures r.Some? ==> r.value == Rewrite(url.value, TinyBlurFillSegment(o, fillWidth))
  {
    if !Applicable(url) then None else Some(Rewrite(url.value, TinyBlurFillSegment(o, fillWidth)))
  }

  function OptimizedCoverSegment(q: Option<Param>, f: Option<string>): string {
    "f_" + f.GetOr("auto") + ",q_" + Render(q.GetOr(Named("auto:good")))
  }

  /** `optimizedCoverCloudinary(url, { q, f })` */
  function OptimizedCover(url: Option<string>, q: Option<Param>, f: Option<string>): (r: Option<string>)
    ensures r.None? <==> !Applicable(url)
    ensures r.Some? ==> r.value == Rewrite(url.value, OptimizedCoverSegment(q, f))
  {
    if !Applicable(url) then None else Some(Rewrite(url.value, OptimizedCoverSegment(q, f)))
  }

  /** `NoCropFitOpts`: the width is required, the rest may be left undefined. */
  datatype NoCropFitOpts = NoCropFitOpts(w: int, h: Option<int>, q: Option<Param>, f: Option<string>, dprAuto: Option<bool>)

  /** The `parts` array `noCropFitCloudinary` assembles. */
  function NoCropParts(o: NoCropFitOpts): seq<string> {
    ["f_" + o.f.GetOr("auto"), "q_" + Render(o.q.GetOr(Named("auto:eco")))]
      + (if o.dprAuto.GetOr(true) then ["dpr_auto"] else [])
      + (if o.h.Some? && o.h.value != 0 then ["h_" + IntToString(o.h.value)] else [])
      + ["w_" + IntToString(o.w), "c_limit"]
  }

  /** The URL `noCropFitCloudinary` returns. */
  function NoCropFitUrl(url: Option<string>, o: NoCropFitOpts): Option<string> {
    if !Applicable(url) then None
    else Some(Rewrite(url.value, TextRuns.Join(NoCropParts(o), ',')))
  }

  /** `noCropFitCloudinary(url, opts)`, pushing onto `parts` as the source does. */
  method NoCropFit(url: Option<string>, o: NoCropFitOpts) returns (r: Option<string>)
    ensures r == NoCropFitUrl(url, o)
    ensures r.None? <==> !Applicable(url)
  {
    if !Applicable(url) {
      return None;
    }
    var parts := ["f_" + o.f.GetOr("auto"), "q_" + Render(o.q.GetOr(Named("auto:eco")))];
    if o.dprAuto.GetOr(true) {
      parts := parts + ["dpr_auto"];
    }
    if o.h.Some? && o.h.value != 0 {
      parts := parts + ["h_" + IntToString(o.h.value)];
    }
    parts := parts + ["w_" + IntToString(o.w), "c_limit"];
    assert parts == NoCropParts(o);
    var t := TextRuns.Join(parts, ',');
    r := Some(Rewrite(url.value, t));
  }

  // ---------------------------------------------------------------------
  // Choosing a candidate under 1 MB

  /** What a HEAD request for a candidate yields: the request throws, or
      `Number(content-length ?? 0)` is a number or NaN. */
  datatype Probe = Failed | Length(n: real) | NotANumber

  /** `len && len < 1_000_000` */
  predicate Small(p: Probe) {
    p.Length? && p.n != 0.0 && p.n < 1000000.0
  }

  /** The candidate `pickUnder1MB` settles on: the first small one, else the
      last one (`urls.at(-1)`, undefined for an empty list). */
  function Pick(urls: seq<string>, probe: string -> Probe): Option<string>
    decreases |urls|
  {
    if urls == [] then None
    else if Small(probe(urls[0])) || |urls| == 1 then Some(urls[0])
    else Pick(urls[1..], probe)
  }

  /** `i` is the first candidate whose probe reports a small size. */
  predicate FirstSmall(urls: seq<string>, probe: string -> Probe, i: int) {
    0 <= i < |urls| && Small(probe(urls[i])) && forall j :: 0 <= j < i ==> !Small(probe(urls[j]))
  }

  /** `pickUnder1MB(urls)`: a for-loop that returns from inside. */
  method PickUnder1MB(urls: seq<string>, probe: string -> Probe) returns (r: Option<string>)
    ensures r == Pick(urls, probe)
  {
    var i := 0;
    while i < |urls|
      invariant 0 <= i <= |urls|
      invariant forall j :: 0 <= j < i ==> !Small(probe(urls[j]))
      invariant i < |urls| ==> Pick(urls[i..], probe) == Pick(urls, probe)
      invariant i == |urls| && urls != [] ==> Pick(urls, probe) == Some(urls[|urls| - 1])
    {
      if Small(probe(urls[i])) {
        return Some(urls[i]);
      }
      if i + 1 < |urls| {
        assert urls[i..][1..] == urls[i + 1..];
      }
      i := i + 1;
    }
    if urls == [] {
      return None;
    }
    return Some(urls[|urls| - 1]);
  }

  /** The choice is the first candidate under 1 MB, and the last candidate
      when none is; there is none only for an empty list. */
  lemma {:induction false} PickIsFirstSmallElseLast(urls: seq<string>, probe: string -> Probe)
    ensures urls == [] <==> Pick(urls, probe).None?
    ensures forall i :: FirstSmall(urls, probe, i) ==> Pick(urls, probe) == Some(urls[i])
    ensures urls != [] && (forall i :: 0 <= i < |urls| ==> !Small(probe(urls[i]))) ==>
      Pick(urls, probe) == Some(urls[|urls| - 1])
    decreases |urls|
  {
    if urls != [] && !Small(probe(urls[0])) && |urls| > 1 {
      PickIsFirstSmallElseLast(urls[1..], probe);
      forall i | FirstSmall(urls, probe, i) ensures Pick(urls, probe) == Some(urls[i]) {
        assert i > 0;
        assert FirstSmall(urls[1..], probe, i - 1);
      }
    }
  }

  /** The options `chooseNoCropUnder1MB` passes for one candidate. */
  function CandidateOpts(w: int, q: Param): NoCropFitOpts {
    NoCropFitOpts(w, None, Some(q), None, Some(true))
  }

  /** `if (u) candidates.push(u)` */
  function Keep(u: Option<string>): seq<string> {
    if u.Some? && u.value != "" then [u.value] else []
  }

  /** The candidates of one width, in quality order. */
  function Row(base: string, w: int, qs: seq<Param>): seq<string>
    decreases |qs|
  {
    if qs == [] then []
    else Row(base, w, qs[..|qs| - 1]) + Keep(NoCropFitUrl(Some(base), CandidateOpts(w, qs[|qs| - 1])))
  }

  /** One row per width. */
  function Rows(base: string, ws: seq<int>, qs: seq<Param>): seq<seq<string>>
    decreases |ws|
  {
    if ws == [] then []
    else Rows(base, ws[..|ws| - 1], qs) + [Row(base, ws[|ws| - 1], qs)]
  }

  /** The rows one after the other. */
  function Flatten<T>(rs: seq<seq<T>>): seq<T>
    decreases |rs|
  {
    if rs == [] then [] else Flatten(rs[..|rs| - 1]) + rs[|rs| - 1]
  }

  /** The candidate list, width-major. */
  function Candidates(base: string, ws: seq<int>, qs: seq<Param>): seq<string> {
    Flatten(Rows(base, ws, qs))
  }

  /** `chooseNoCropUnder1MB(baseUrl, widths, qualities)` */
  method ChooseNoCropUnder1MB(base: string, widths: seq<int>, qualities: seq<Param>, probe: string -> Probe)
    returns (r: Option<string>)
    ensures !IsCloudinaryUrl(base) ==> r.None?
    ensures IsCloudinaryUrl(base) ==> r == Pick(Candidates(base, widths, qualities), probe)
  {
    if !IsCloudinaryUrl(base) {
      return None;
    }
    var candidates: seq<string> := [];
    for i := 0 to |widths|
      invariant candidates == Candidates(base, widths[..i], qualities)
    {
      var row := BuildRow(base, widths[i], qualities);
      candidates := candidates + row;
      assert widths[..i + 1][..i] == widths[..i];
    }
    assert widths[..|widths|] == widths;
    r := PickUnder1MB(candidates, probe);
  }

  /** The inner loop of `chooseNoCropUnder1MB`: the candidates of one width. */
  method BuildRow(base: string, w: int, qualities: seq<Param>) returns (row: seq<string>)
    ensures row == Row(base, w, qualities)
  {
    row := [];
    for j := 0 to |qualities|
      invariant row == Row(base, w, qualities[..j])
    {
      var u := NoCropFit(Some(base), CandidateOpts(w, qualities[j]));
      if u.Some? && u.value != "" {
        row := row + [u.value];
      }
      assert qualities[..j + 1][..j] == qualities[..j];
    }
    assert qualities[..|qualities|] == qualities;
  }

  // ---------------------------------------------------------------------
  // Properties

  /** A URL is a Cloudinary URL exactly when it reads: anything,
      `res.cloudinary.com/`, at least one character other than a line
      terminator, `/image/upload/`, anything. */
  lemma CloudinaryUrlOf(a: string, m: string, b: string)
    requires m != [] && forall k :: 0 <= k < |m| ==> !IsLineTerminator(m[k])
    ensures IsCloudinaryUrl(a + (HOST + (m + (UPLOAD + b))))
  {
    var u := a + (HOST + (m + (UPLOAD + b)));
    var i, j := |a|, |a| + |HOST| + |m|;
    assert u[i..i + |HOST|] == HOST;
    assert u[j..j + |UPLOAD|] == UPLOAD;
    assert forall k :: i + |HOST| <= k < j ==> u[k] == m[k - i - |HOST|];
    assert MatchesAt(u, i, j);
  }

  lemma CloudinaryUrlSplit(u: string) returns (a: string, m: string, b: string)
    requires IsCloudinaryUrl(u)
    ensures u == a + (HOST + (m + (UPLOAD + b)))
    ensures m != [] && forall k :: 0 <= k < |m| ==> !IsLineTerminator(m[k])
  {
    var i, j :| 0 <= i < |u| && i < j < |u| && MatchesAt(u, i, j);
    a, m, b := SplitAround(u, HOST, UPLOAD, i, j);
    forall k | 0 <= k < |m| ensures !IsLineTerminator(m[k]) {
      assert m[k] == u[i + |HOST| + k];
    }
  }

  /** A string holding `p` at `i` and `q` further on at `j` splits into the
      text before `p`, the text between the two, and the text after `q`. */
  lemma SplitAround(u: string, p: string, q: string, i: int, j: int) returns (a: string, m: string, b: string)
    requires OccursAt(u, p, i) && i + |p| < j && OccursAt(u, q, j)
    ensures a == u[..i] && m == u[i + |p|..j] && b == u[j + |q|..]
    ensures u == a + (p + (m + (q + b)))
  {
    var h, x := i + |p|, j + |q|;
    a, m, b := u[..i], u[h..j], u[x..];
    assert u[j..] == q + b by {
      assert u[j..] == u[j..x] + u[x..];
    }
    assert u[h..] == m + (q + b) by {
      assert u[h..] == u[h..j] + u[j..];
    }
    assert u[i..] == p + (m + (q + b)) by {
      assert u[i..] == u[i..h] + u[h..];
    }
    assert u == u[..i] + u[i..];
  }

  /** Without a matching `/image/upload/`, in particular when every one is
      followed by a lowercase letter as in a versioned `/image/upload/v123/`,
      every builder hands back the URL unchanged. */
  lemma BuildersKeepUnmatched(url: string, o: TinyBlurOpts, fillWidth: Option<int>, q: Option<Param>, f: Option<string>, n: NoCropFitOpts)
    requires IsCloudinaryUrl(url)
    requires forall k :: !UploadAt(url, k)
    ensures TinyBlur(Some(url), o) == Some(url)
    ensures TinyBlurFill(Some(url), o, fillWidth) == Some(url)
    ensures OptimizedCover(Some(url), q, f) == Some(url)
    ensures NoCropFitUrl(Some(url), n) == Some(url)
  {
    RewriteSpec(url, TinyBlurSegment(o));
    RewriteSpec(url, TinyBlurFillSegment(o, fillWidth));
    RewriteSpec(url, OptimizedCoverSegment(q, f));
    RewriteSpec(url, TextRuns.Join(NoCropParts(n), ','));
  }

  /** An occurrence followed by a lowercase letter is not rewritten. */
  lemma VersionedNotMatched(a: string, c: char, b: string)
    requires IsLowerAscii(c)
    ensures !UploadAt(a + UPLOAD + [c] + b, |a|)
  {
    var u := a + UPLOAD + [c] + b;
    assert u[|a| + |UPLOAD|] == c;
  }

  /** `q_20,w_96,dpr_1,e_blur:300` when no option is given. */
  lemma TinyBlurDefaultSegment()
    ensures TinyBlurSegment(NO_TINY_BLUR_OPTS) == "q_" + "20" + ",w_" + "96" + ",dpr_" + "1" + ",e_blur:" + "300"
  {
    assert IntToString(20) == "20" && IntToString(96) == "96";
    assert IntToString(1) == "1" && IntToString(300) == "300";
  }

  /** `f_auto,q_auto:good` when no option is given. */
  lemma OptimizedCoverDefaultSegment()
    ensures OptimizedCoverSegment(None, None) == "f_" + "auto" + ",q_" + "auto:good"
  {
  }

  /** Blur 1200 by default; the fill width replaces the plain width:
      `f_auto,q_20,w_1600,c_fill,g_auto,dpr_1,e_blur:1200`. */
  lemma TinyBlurFillDefaultSegments()
    ensures TinyBlurFillSegment(NO_TINY_BLUR_OPTS, Some(1600))
      == "f_auto,q_" + "20" + (",w_" + "1600" + ",c_fill,g_auto") + ",dpr_" + "1" + ",e_blur:" + "1200"
  {
    Sixteen(1600);
    assert IntToString(20) == "20" && IntToString(1) == "1" && IntToString(1200) == "1200";
  }

  lemma Sixteen(n: int)
    requires n == 1600
    ensures IntToString(n) == "1600"
  {
    assert NatToString(16) == "16";
    assert NatToString(160) == "160";
  }

  /** Without a fill width: `f_auto,q_20,w_96,dpr_1,e_blur:1200`. */
  lemma TinyBlurFillPlainSegment()
    ensures TinyBlurFillSegment(NO_TINY_BLUR_OPTS, None)
      == "f_auto,q_" + "20" + (",w_" + "96") + ",dpr_" + "1" + ",e_blur:" + "1200"
  {
    assert IntToString(96) == "96" && IntToString(20) == "20";
    assert IntToString(1) == "1" && IntToString(1200) == "1200";
  }

  /** The parts come in the order format, quality, `dpr_auto` unless switched
      off, `h_` for a non-zero height, width, `c_limit`. */
  lemma NoCropPartsOrder(o: NoCropFitOpts)
    ensures var ps := NoCropParts(o);
      var d := if o.dprAuto != Some(false) then 1 else 0;
      var hh := if o.h.Some? && o.h.value != 0 then 1 else 0;
      && |ps| == 4 + d + hh
      && ps[0] == "f_" + o.f.GetOr("auto")
      && ps[1] == "q_" + Render(o.q.GetOr(Named("auto:eco")))
      && (d == 1 ==> ps[2] == "dpr_auto")
      && (hh == 1 ==> ps[2 + d] == "h_" + IntToString(o.h.value))
      && ps[|ps| - 2] == "w_" + IntToString(o.w)
      && ps[|ps| - 1] == "c_limit"
  {
  }

  /** `f_auto,q_auto:eco,dpr_auto,w_1600,c_limit` for a width of 1600 and no
      other option. */
  lemma NoCropDefaultSegment()
    ensures NoCropParts(NoCropFitOpts(1600, None, None, None, None))
      == ["f_" + "auto", "q_" + "auto:eco", "dpr_auto", "w_" + "1600", "c_limit"]
    ensures TextRuns.Join(NoCropParts(NoCropFitOpts(1600, None, None, None, None)), ',')
      == ("f_" + "auto") + ("," + (("q_" + "auto:eco") + ("," + ("dpr_auto" + ("," + (("w_" + "1600") + ("," + "c_limit")))))))
  {
    Sixteen(1600);
    JoinFive("f_" + "auto", "q_" + "auto:eco", "dpr_auto", "w_" + "1600", "c_limit");
  }

  lemma JoinFive(a: string, b: string, c: string, d: string, e: string)
    ensures TextRuns.Join([a, b, c, d, e], ',') == a + ("," + (b + ("," + (c + ("," + (d + ("," + e)))))))
  {
    assert [a, b, c, d, e][1..] == [b, c, d, e];
    assert [b, c, d, e][1..] == [c, d, e];
    assert [c, d, e][1..] == [d, e];
    assert [d, e][1..] == [e];
    assert TextRuns.Join([d, e], ',') == d + "," + e;
    assert TextRuns.Join([c, d, e], ',') == c + "," + TextRuns.Join([d, e], ',');
    assert TextRuns.Join([b, c, d, e], ',') == b + "," + TextRuns.Join([c, d, e], ',');
    assert TextRuns.Join([a, b, c, d, e], ',') == a + "," + TextRuns.Join([b, c, d, e], ',');
  }

  /** The URL built for one width and one quality of a Cloudinary base. */
  function CandidateUrl(base: string, w: int, q: Param): string {
    Rewrite(base, TextRuns.Join(NoCropParts(CandidateOpts(w, q)), ','))
  }

  /** For a Cloudinary base every width and quality gives a candidate, width
      by width and, within a width, quality by quality: the candidate for
      width number `i` and quality number `j` sits at `i * |qualities| + j`
      (`Offset`, see `OffsetIsProduct`). */
  lemma CandidatesOrder(base: string, ws: seq<int>, qs: seq<Param>)
    requires IsCloudinaryUrl(base)
    ensures |Candidates(base, ws, qs)| == Offset(|ws|, |qs|)
    ensures forall i, j :: 0 <= i < |ws| && 0 <= j < |qs| ==> CandidateIs(base, ws, qs, i, j)
  {
    CandidatesLength(base, ws, qs);
    forall i, j | 0 <= i < |ws| && 0 <= j < |qs|
      ensures CandidateIs(base, ws, qs, i, j)
    {
      CandidateAt(base, ws, qs, i, j);
    }
  }

  /** The candidate for width number `i` and quality number `j` sits at
      `Offset(i, |qs|) + j`. */
  predicate CandidateIs(base: string, ws: seq<int>, qs: seq<Param>, i: nat, j: nat)
    requires i < |ws| && j < |qs|
  {
    var c := Candidates(base, ws, qs);
    Offset(i, |qs|) + j < |c| && c[Offset(i, |qs|) + j] == CandidateUrl(base, ws[i], qs[j])
  }

  /** Every width and quality gives one candidate. */
  lemma CandidatesLength(base: string, ws: seq<int>, qs: seq<Param>)
    requires IsCloudinaryUrl(base)
    ensures |Candidates(base, ws, qs)| == Offset(|ws|, |qs|)
  {
    RowsAt(base, ws, qs);
    RowsLength(base, ws, qs);
    FlattenLength(Rows(base, ws, qs), |qs|);
  }

  /** Every row holds one candidate per quality. */
  lemma RowsLength(base: string, ws: seq<int>, qs: seq<Param>)
    requires IsCloudinaryUrl(base)
    ensures forall r :: r in Rows(base, ws, qs) ==> |r| == |qs|
  {
    var rs := Rows(base, ws, qs);
    RowsAt(base, ws, qs);
    forall r | r in rs ensures |r| == |qs| {
      var k :| 0 <= k < |rs| && rs[k] == r;
      RowLength(base, ws[k], qs);
    }
  }

  lemma CandidatesEmpty(base: string, ws: seq<int>, qs: seq<Param>)
    requires ws == [] || qs == []
    ensures Candidates(base, ws, qs) == []
  {
    if ws != [] {
      RowsAt(base, ws, qs);
      assert forall r :: r in Rows(base, ws, qs) ==> r == [];
      FlattenEmpty(Rows(base, ws, qs));
    }
  }

  lemma {:induction false} FlattenEmpty<T>(rs: seq<seq<T>>)
    requires forall r :: r in rs ==> r == []
    ensures Flatten(rs) == []
    decreases |rs|
  {
    if rs != [] {
      var front := rs[..|rs| - 1];
      forall r | r in front ensures r == [] {
        var k :| 0 <= k < |front| && front[k] == r;
        assert rs[k] == r && rs[k] in rs;
      }
      FlattenEmpty(front);
      assert rs[|rs| - 1] in rs;
    }
  }

  /** Where the block of width number `i` starts: `i * q`, by repeated addition. */
  function Offset(i: nat, q: nat): nat {
    if i == 0 then 0 else Offset(i - 1, q) + q
  }

  lemma {:induction false} OffsetIsProduct(i: nat, q: nat)
    ensures Offset(i, q) == i * q
  {
    if i > 0 {
      OffsetIsProduct(i - 1, q);
      assert i * q == (i - 1) * q + q;
    }
  }

  lemma {:induction false} OffsetMono(i: nat, m: nat, q: nat)
    requires i < m
    ensures Offset(i, q) + q <= Offset(m, q)
    decreases m
  {
    if i + 1 < m {
      OffsetMono(i, m - 1, q);
    }
  }

  lemma CandidateAt(base: string, ws: seq<int>, qs: seq<Param>, i: nat, j: nat)
    requires IsCloudinaryUrl(base) && i < |ws| && j < |qs|
    ensures CandidateIs(base, ws, qs, i, j)
  {
    var rs := Rows(base, ws, qs);
    RowsLength(base, ws, qs);
    RowsAt(base, ws, qs);
    FlattenAt(rs, |qs|, i, j);
    RowAt(base, ws[i], qs, j);
  }

  lemma RowsAt(base: string, ws: seq<int>, qs: seq<Param>)
    ensures |Rows(base, ws, qs)| == |ws|
    ensures forall i :: 0 <= i < |ws| ==> Rows(base, ws, qs)[i] == Row(base, ws[i], qs)
  {
    RowsCount(base, ws, qs);
    forall i | 0 <= i < |ws| ensures Rows(base, ws, qs)[i] == Row(base, ws[i], qs) {
      RowAtIndex(base, ws, qs, i);
    }
  }

  lemma {:induction false} RowsCount(base: string, ws: seq<int>, qs: seq<Param>)
    ensures |Rows(base, ws, qs)| == |ws|
    decreases |ws|
  {
    if ws != [] {
      RowsCount(base, ws[..|ws| - 1], qs);
    }
  }

  lemma {:induction false} RowAtIndex(base: string, ws: seq<int>, qs: seq<Param>, i: nat)
    requires i < |ws|
    ensures |Rows(base, ws, qs)| == |ws| && Rows(base, ws, qs)[i] == Row(base, ws[i], qs)
    decreases |ws|
  {
    var front := ws[..|ws| - 1];
    RowsCount(base, ws, qs);
    RowsCount(base, front, qs);
    if i < |ws| - 1 {
      RowAtIndex(base, front, qs, i);
      assert front[i] == ws[i];
    }
  }

  /** Rows of one length `q` laid end to end: entry `j` of row `i` sits at
      `Offset(i, q) + j`. */
  lemma {:induction false} FlattenAt<T>(rs: seq<seq<T>>, q: nat, i: nat, j: nat)
    requires forall r :: r in rs ==> |r| == q
    requires i < |rs| && j < q
    ensures |Flatten(rs)| == Offset(|rs|, q)
    ensures Offset(i, q) + j < |Flatten(rs)| && Flatten(rs)[Offset(i, q) + j] == rs[i][j]
    decreases |rs|
  {
    var front := rs[..|rs| - 1];
    assert forall r :: r in front ==> r in rs;
    FlattenLength(front, q);
    if i < |rs| - 1 {
      FlattenAt(front, q, i, j);
      OffsetMono(i, |rs| - 1, q);
    }
  }

  lemma {:induction false} FlattenLength<T>(rs: seq<seq<T>>, q: nat)
    requires forall r :: r in rs ==> |r| == q
    ensures |Flatten(rs)| == Offset(|rs|, q)
    decreases |rs|
  {
    if rs != [] {
      var front := rs[..|rs| - 1];
      assert forall r :: r in front ==> r in rs;
      FlattenLength(front, q);
    }
  }

  lemma {:induction false} RowLength(base: string, w: int, qs: seq<Param>)
    requires IsCloudinaryUrl(base)
    ensures |Row(base, w, qs)| == |qs|
    decreases |qs|
  {
    if qs != [] {
      RowLength(base, w, qs[..|qs| - 1]);
      KeepCandidate(base, w, qs[|qs| - 1]);
    }
  }

  lemma {:induction false} RowAt(base: string, w: int, qs: seq<Param>, j: nat)
    requires IsCloudinaryUrl(base) && j < |qs|
    ensures |Row(base, w, qs)| == |qs| && Row(base, w, qs)[j] == CandidateUrl(base, w, qs[j])
    decreases |qs|
  {
    RowLength(base, w, qs);
    var front := qs[..|qs| - 1];
    RowLength(base, w, front);
    KeepCandidate(base, w, qs[|qs| - 1]);
    assert Row(base, w, qs) == Row(base, w, front) + [CandidateUrl(base, w, qs[|qs| - 1])];
    if j < |qs| - 1 {
      RowAt(base, w, front, j);
      assert front[j] == qs[j];
    }
  }

  /** A Cloudinary base always yields a non-empty URL, which is kept. */
  lemma KeepCandidate(base: string, w: int, q: Param)
    requires IsCloudinaryUrl(base)
    ensures Keep(NoCropFitUrl(Some(base), CandidateOpts(w, q))) == [CandidateUrl(base, w, q)]
  {
    assert Applicable(Some(base));
  }
}
