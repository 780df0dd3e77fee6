/** `createSignedUpload` of `src/modules/uploads/uploads.controller.ts`: the
    upload target, the parameters handed to Cloudinary's request signer and
    the reply. The clock and the signer are inputs. */
module Uploads {
  import opened Js

  /** The Cloudinary settings the handler reads; `None` is an unset value.
      `src/config/env.ts` defines neither a folder nor a preset, so with that
      file both are `None`. */
  datatype CloudinaryEnv = CloudinaryEnv(cloudName: string, apiKey: string, apiSecret: string,
                                         articleFolder: Option<string>, articleUploadPreset: Option<string>)

  /** An entry of `UPLOAD_TARGETS`. Looking up an inherited name yields a
      function, whose `folder`, `resourceType` and `uploadPreset` are all
      `undefined`: that is `TargetConfig(None, None, None)`. */
  datatype TargetConfig = TargetConfig(folder: Option<string>, resourceType: Option<string>, uploadPreset: Option<string>)

  const ARTICLE: string := "article"

  /** The names every plain object inherits from `Object.prototype`. */
  const INHERITED_NAMES: set<string> := {
    "constructor", "hasOwnProperty", "isPrototypeOf", "propertyIsEnumerable",
    "toString", "toLocaleString", "valueOf", "__proto__",
    "__defineGetter__", "__defineSetter__", "__lookupGetter__", "__lookupSetter__"
  }

  /** `a || b` for strings that may be unset. */
  function OrElse(a: Option<string>, b: Option<string>): Option<string> {
    if a.Some? && a.value != "" then a else b
  }

  /** `UPLOAD_TARGETS[name]`: the article target always has a folder,
      `articles` when none is configured, and a preset only when one is
      configured; an inherited name has none of the three. */
  function TargetConfigOf(name: string, env: CloudinaryEnv): (c: TargetConfig)
    ensures name == ARTICLE ==> c.folder.Some? && c.folder.value != "" && c.resourceType == Some("image")
    ensures name == ARTICLE && (env.articleFolder.None? || env.articleFolder == Some("")) ==> c.folder == Some("articles")
    ensures name == ARTICLE && env.articleFolder.Some? && env.articleFolder.value != "" ==> c.folder == env.articleFolder
    ensures name == ARTICLE ==> (c.uploadPreset.Some? <==> env.articleUploadPreset.Some? && env.articleUploadPreset.value != "")
    ensures name == ARTICLE && c.uploadPreset.Some? ==> c.uploadPreset == env.articleUploadPreset
    ensures name != ARTICLE ==> c == TargetConfig(None, None, None)
  {
    if name == ARTICLE then
      TargetConfig(OrElse(env.articleFolder, Some("articles")), Some("image"), OrElse(env.articleUploadPreset, None))
    else TargetConfig(None, None, None)
  }

  /** `typeof body?.target === "string" && body.target in UPLOAD_TARGETS ?
      body.target : "article"`, where `in` also sees inherited names. */
  function SelectTargetAsWritten(body: Value): string {
    var t := Get(body, "target");
    if t.Str? && (t.s == ARTICLE || t.s in INHERITED_NAMES) then t.s else ARTICLE
  }

  /** The target selection with `in` restricted to the table's own keys. */
  function SelectTarget(body: Value): (r: string)
    ensures r == ARTICLE
  {
    var t := Get(body, "target");
    if t.Str? && t.s == ARTICLE then t.s else ARTICLE
  }

  /** `/^[a-zA-Z0-9_-]+$/` */
  predicate IsPublicId(s: string) {
    |s| >= 1 && forall i :: 0 <= i < |s| ==> IsIdChar(s[i])
  }

  /** A value in `paramsToSign`; `SUndefined` is a key holding `undefined`. */
  datatype SignValue = SNum(n: int) | SText(s: string) | SUndefined

  function OptText(s: Option<string>): SignValue {
    if s.Some? then SText(s.value) else SUndefined
  }

  /** The handler's answer. */
  datatype Reply =
    | MissingCredentials
    | InvalidPublicId
    | Signed(cloudName: string, apiKey: string, timestamp: int, signature: string,
             folder: Option<string>, resourceType: Option<string>, uploadPreset: Option<string>,
             publicId: Option<string>, target: string)

  function ReplyStatus(r: Reply): nat {
    match r
    case MissingCredentials => 500
    case InvalidPublicId => 400
    case Signed(_, _, _, _, _, _, _, _, _) => 200
  }

  /** `Math.round(nowMs / 1000)` for a non-negative clock reading. */
  function Seconds(nowMs: nat): nat {
    (nowMs + 500) / 1000
  }

  /** `createSignedUpload`, with the target selected as written.
      `rawBody` is `req.body`, `nowMs` is `Date.now()`, `sign` is
      `cloudinary.utils.api_sign_request`; `signed` is what was handed to the
      signer, none when the handler stops first. */
  method CreateSignedUpload(rawBody: Value, env: CloudinaryEnv, nowMs: nat,
                            sign: (map<string, SignValue>, string) -> string)
    returns (r: Reply, signed: Option<map<string, SignValue>>)
    ensures r == MissingCredentials <==> env.apiSecret == "" || env.apiKey == ""
    ensures r == InvalidPublicId <==>
      env.apiSecret != "" && env.apiKey != "" && !PublicIdOk(BodyOf(rawBody))
    ensures r.Signed? <==> env.apiSecret != "" && env.apiKey != "" && PublicIdOk(BodyOf(rawBody))
    ensures signed.Some? <==> r.Signed?
    ensures r.Signed? ==>
      var p, body := signed.value, BodyOf(rawBody);
      var c := TargetConfigOf(SelectTargetAsWritten(body), env);
      && p == ParamsToSign(body, env, nowMs)
      && r.signature == sign(p, env.apiSecret)
      && p["timestamp"] == SNum(r.timestamp)
      && r.target == SelectTargetAsWritten(body)
      && r.folder == c.folder && r.resourceType == c.resourceType && r.uploadPreset == c.uploadPreset
      && ("public_id" in p <==> r.publicId.Some?)
      && (r.publicId.Some? ==> p["public_id"] == SText(r.publicId.value))
      && r.cloudName == env.cloudName && r.apiKey == env.apiKey
  {
    var body := if Nullish(rawBody) then Obj(map[]) else rawBody;
    var target := SelectTargetAsWritten(body);
    var config := TargetConfigOf(target, env);
    if env.apiSecret == "" || env.apiKey == "" {
      return MissingCredentials, None;
    }
    var timestamp := Seconds(nowMs);
    var params: map<string, SignValue> := map["timestamp" := SNum(timestamp), "folder" := OptText(config.folder)];
    if config.uploadPreset.Some? && config.uploadPreset.value != "" {
      params := params["upload_preset" := SText(config.uploadPreset.value)];
    }
    var publicId := Get(body, "publicId");
    if !publicId.Undefined? {
      if !publicId.Str? || !IsPublicId(publicId.s) {
        return InvalidPublicId, None;
      }
      params := params["public_id" := SText(publicId.s)];
    }
    var signature := sign(params, env.apiSecret);
    r := Signed(env.cloudName, env.apiKey, timestamp, signature, config.folder, config.resourceType,
                config.uploadPreset, if "public_id" in params then Some(publicId.s) else None, target);
    signed := Some(params);
  }

  /** `req.body ?? {}` */
  function BodyOf(rawBody: Value): Value {
    if Nullish(rawBody) then Obj(map[]) else rawBody
  }

  /** The `publicId` rule: absent, or a string matching the pattern. */
  predicate PublicIdOk(body: Value) {
    var v := Get(body, "publicId");
    v.Undefined? || (v.Str? && IsPublicId(v.s))
  }

  /** The parameters signed for a body that passes the `publicId` rule:
      `timestamp` and the target's `folder` (`undefined` when it has none),
      `upload_preset` when the target has one and `public_id` when one is
      sent. For the article target these are the configured folder, or
      `articles`, and the configured preset. */
  function ParamsToSign(body: Value, env: CloudinaryEnv, nowMs: nat): (p: map<string, SignValue>)
    ensures var c := TargetConfigOf(SelectTargetAsWritten(body), env);
      && "timestamp" in p && "folder" in p
      && p.Keys <= {"timestamp", "folder", "upload_preset", "public_id"}
      && p["timestamp"] == SNum(Seconds(nowMs))
      && p["folder"] == OptText(c.folder)
      && ("upload_preset" in p <==> c.uploadPreset.Some? && c.uploadPreset.value != "")
      && ("upload_preset" in p ==> p["upload_preset"] == SText(c.uploadPreset.value))
    ensures "public_id" in p <==> Get(body, "publicId").Str?
    ensures "public_id" in p ==> p["public_id"] == SText(Get(body, "publicId").s)
  {
    var config := TargetConfigOf(SelectTargetAsWritten(body), env);
    var base := map["timestamp" := SNum(Seconds(nowMs)), "folder" := OptText(config.folder)];
    var withPreset := if config.uploadPreset.Some? && config.uploadPreset.value != "" then base["upload_preset" := SText(config.uploadPreset.value)] else base;
    var v := Get(body, "publicId");
    if v.Str? then withPreset["public_id" := SText(v.s)] else withPreset
  }

  // ---------------------------------------------------------------------
  // Properties

  /** As written, a name inherited from `Object.prototype` passes the `in`
      test and is selected: its entry has no folder, resource type or
      preset, so the upload is signed with the folder `undefined`. */
  lemma InheritedTargetSelected(env: CloudinaryEnv, nowMs: nat)
    ensures var body := Obj(map["target" := Str("toString")]);
      && SelectTargetAsWritten(body) == "toString"
      && ParamsToSign(body, env, nowMs)["folder"] == SUndefined
      && "upload_preset" !in ParamsToSign(body, env, nowMs)
      && TargetConfigOf(SelectTargetAsWritten(body), env).resourceType.None?
  {
    assert Get(Obj(map["target" := Str("toString")]), "target") == Str("toString");
  }

  /** The intended selection: the sent target exactly when it is a key of the
      table itself, and `article` otherwise. */
  lemma SelectTargetOwnKeys(body: Value)
    ensures SelectTarget(body) == ARTICLE
    ensures Get(body, "target") == Str(ARTICLE) ==> SelectTarget(body) == SelectTargetAsWritten(body)
    ensures TargetConfigOf(SelectTarget(body), CloudinaryEnv("", "", "", None, None)).folder == Some("articles")
  {
  }

  /** The two selections differ exactly on the inherited names; on every
      other body the handler as written signs what the corrected selection
      would. */
  lemma SelectionsDiffer(body: Value, env: CloudinaryEnv)
    ensures SelectTarget(body) != SelectTargetAsWritten(body) <==>
      Get(body, "target").Str? && Get(body, "target").s in INHERITED_NAMES
    ensures !(Get(body, "target").Str? && Get(body, "target").s in INHERITED_NAMES) ==>
      TargetConfigOf(SelectTargetAsWritten(body), env) == TargetConfigOf(SelectTarget(body), env)
  {
    assert ARTICLE !in INHERITED_NAMES;
  }

  /** `Math.round` of the seconds: within half a second of the clock. */
  lemma SecondsRounds(nowMs: nat)
    ensures Seconds(nowMs) * 1000 <= nowMs + 500
    ensures nowMs + 500 < Seconds(nowMs) * 1000 + 1000
  {
  }
}
