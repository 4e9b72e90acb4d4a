/**
 * `publishPost(view, settings)`: the steps it takes in order, each of which
 * may throw and so end the publish, and what it hands to the network.
 *
 * The token signer, the Markdown renderer, the frontmatter parser, the file
 * reads and `Math.random` are outside the model: their results are
 * parameters.
 */
module Publish {
  import opened Wrappers
  import opened Text
  import opened Bytes
  import opened WikiLinks
  import opened PostPayload
  import opened AdminKey
  import opened Multipart

  /** The plugin settings as key/value pairs. */
  type Settings = map<string, string>

  /** `${settings.key}` in a template literal: a missing key reads as "undefined". */
  function Setting(settings: Settings, key: string): (v: string)
    ensures key in settings ==> v == settings[key]
    ensures key !in settings ==> v == "undefined"
  {
    if key in settings then settings[key] else "undefined"
  }

  /**
   * The open note: its file's base name, its cached frontmatter (`None`
   * when it has none) and its body without the frontmatter block.
   */
  datatype NoteView = NoteView(basename: string, frontmatter: Option<Frontmatter>, body: string)

  /**
   * The image upload handed to `requestUrl`. `Authorization` carries
   * "Ghost " and a token signed with `claims`.
   */
  datatype UploadRequest = UploadRequest(
    httpMethod: string,
    url: string,
    contentType: string,
    body: seq<byte>,
    headers: map<string, string>,
    claims: Claims)

  /** What one publish computes: the token claims, the post payload and the upload. */
  datatype Publication = Publication(claims: Claims, payload: Payload, upload: UploadRequest)

  /** The points at which `publishPost` throws. */
  datatype PublishError =
    | AdminKeyMissing        // `settings.adminToken` is undefined: `key.split` throws
    | AdminKeyWithoutSecret  // no ':' in the key: `Buffer.from(undefined, "hex")` throws
    | LocalImageUnreadable   // `readFileSync("ultra.png")` throws
    | AttachmentUnreadable   // `vault.adapter.readBinary("Attachments/ultra.png")` rejects

  const UploadPath := "/ghost/api/admin/images/upload/"

  /** The vault path of the image the upload reads. */
  const AttachmentPath := "Attachments/ultra.png"

  /** The upload request for one boundary and one file's bytes. */
  function Upload(settings: Settings, boundary: string, file: seq<byte>, claims: Claims): (u: UploadRequest)
    ensures u.httpMethod == "POST" && u.url == Setting(settings, "url") + UploadPath
    ensures u.contentType == "multipart/form-data; boundary=" + BoundaryParameter(boundary)
    ensures u.body == Encode(PreString(boundary)) + file + Encode(PostString(boundary))
    ensures "Accept-Version" in u.headers && u.headers["Accept-Version"] == "v4"
  {
    UploadRequest("POST", Setting(settings, "url") + UploadPath, ContentType(boundary),
      UploadBody(boundary, file),
      map["Content-Type" := "multipart/form-data", "Accept-Version" := Version],
      claims)
  }

  /** Every step of `publishPost` that can throw gets what it needs. */
  predicate Publishable(settings: Settings, localImage: Option<seq<byte>>, attachment: Option<seq<byte>>)
  {
    "adminToken" in settings && ':' in settings["adminToken"] && localImage.Some? && attachment.Some?
  }

  /**
   * `publishPost`, step by step. `render` is the Markdown renderer,
   * `randomText` the value of `Math.random().toString(36)`, `localImage` what
   * `readFileSync("ultra.png")` reads and `attachment` what the vault holds
   * at "Attachments/ultra.png".
   */
  method PublishPost(view: NoteView, settings: Settings, render: string -> string,
                     randomText: string, localImage: Option<seq<byte>>,
                     attachment: Option<seq<byte>>)
    returns (r: Result<Publication, PublishError>)
    ensures r == Err(AdminKeyMissing) <==> "adminToken" !in settings
    ensures r == Err(AdminKeyWithoutSecret) <==>
      "adminToken" in settings && ':' !in settings["adminToken"]
    ensures r == Err(LocalImageUnreadable) <==>
      "adminToken" in settings && ':' in settings["adminToken"] && localImage.None?
    ensures r == Err(AttachmentUnreadable) <==>
      "adminToken" in settings && ':' in settings["adminToken"] && localImage.Some? &&
      attachment.None?
    ensures r.Ok? <==> Publishable(settings, localImage, attachment)
    ensures r.Ok? ==>
      var key := settings["adminToken"]; var id := r.value.claims.keyid;
      |id| < |key| && key[..|id|] == id && ':' !in id && key[|id|] == ':' &&
      r.value.claims.audience == "/v4/admin/" && r.value.upload.claims == r.value.claims &&
      r.value.claims == TokenClaims(SplitKey(key).value)
    ensures r.Ok? ==>
      r.value.payload == ContentPost(BuildFields(view.frontmatter, view.basename),
                                     RewriteLinks(view.body, Setting(settings, "baseURL")), render)
    ensures r.Ok? ==>
      r.value.upload == Upload(settings, Boundary(randomText), attachment.value, r.value.claims)
  {
    if "adminToken" !in settings {
      return Err(AdminKeyMissing);
    }
    var key := settings["adminToken"];
    var claims := ClaimsForKey(key);
    if claims.None? {
      return Err(AdminKeyWithoutSecret);
    }

    var fields := BuildFields(view.frontmatter, view.basename);
    var baseUrl := Setting(settings, "baseURL");
    var content := view.body;
    content := RewriteLinks(content, baseUrl);
    var payload := ContentPost(fields, content, render);

    if localImage.None? {
      return Err(LocalImageUnreadable);
    }

    var boundary := Boundary(randomText);
    if attachment.None? {
      return Err(AttachmentUnreadable);
    }
    var upload := Upload(settings, boundary, attachment.value, claims.value);
    r := Ok(Publication(claims.value, payload, upload));
  }
}
