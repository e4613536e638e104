/**
 * The decision logic of the Pixelfed client: normalising the instance address, picking a
 * MIME type from a file's extension, assembling the post caption, and sequencing the two
 * remote steps of `upload_and_post` (upload the media, then create a post with it).
 * The remote calls themselves are not modelled: their responses are inputs.
 */
module Client {
  import opened Wrappers
  import Text

  /** The MIME type sent for each extension the client knows. */
  const MimeTypes: map<string, string> := map[
    ".jpg" := "image/jpeg",
    ".jpeg" := "image/jpeg",
    ".png" := "image/png",
    ".gif" := "image/gif",
    ".webp" := "image/webp"]

  const OctetStream := "application/octet-stream"

  /** `_get_mime_type`: look up the lower-cased suffix, falling back to a generic binary type. */
  function MimeType(path: string): (mime: string)
    ensures mime == OctetStream <==> Text.Lower(Text.Suffix(path)) !in MimeTypes
    ensures mime in MimeTypes.Values || mime == OctetStream
    ensures Text.Lower(Text.Suffix(path)) in MimeTypes ==> mime == MimeTypes[Text.Lower(Text.Suffix(path))]
  {
    var ext := Text.Lower(Text.Suffix(path));
    if ext in MimeTypes then MimeTypes[ext] else OctetStream
  }

  /** The lookup does not depend on the case of the path. */
  lemma MimeTypeIgnoresCase(p: string, q: string)
    requires Text.Lower(p) == Text.Lower(q)
    ensures MimeType(p) == MimeType(q)
  {
    Text.SuffixIgnoresCase(p, q);
  }

  /** An upper-case JPEG extension gets the JPEG type; an unknown extension the generic one. */
  lemma MimeTypeExamples()
    ensures MimeType("test.JPG") == "image/jpeg"
    ensures MimeType("test.unknown") == OctetStream
  {
    Text.LastIndexAt("test.JPG", '/', -1);
    Text.LastIndexAt("test.JPG", '.', 4);
    assert Text.Lower(".JPG") == ".jpg";
    Text.LastIndexAt("test.unknown", '/', -1);
    Text.LastIndexAt("test.unknown", '.', 4);
    assert Text.Lower(".unknown") == ".unknown";
  }

  /** The parts that are not empty, in order. */
  function NonEmpty(parts: seq<string>): (r: seq<string>)
    ensures |r| <= |parts|
    ensures forall i :: 0 <= i < |r| ==> r[i] != ""
  {
    if |parts| == 0 then []
    else (if parts[0] == "" then [] else [parts[0]]) + NonEmpty(parts[1..])
  }

  /** The caption of a post: the non-empty ones of the three texts, in this order, separated by one space. */
  function PostCaption(caption: string, defaultCaption: string, ccLicense: string): string {
    Text.Join(" ", NonEmpty([caption, defaultCaption, ccLicense]))
  }

  /** `upload_and_post` collects the caption parts by three conditional appends; that is the filter. */
  lemma {:induction false} NonEmptyOfThree(a: string, b: string, c: string)
    ensures NonEmpty([a, b, c]) ==
      (if a != "" then [a] else []) + (if b != "" then [b] else []) + (if c != "" then [c] else [])
  {
    assert [a, b, c][1..] == [b, c];
    assert [b, c][1..] == [c];
    assert [c][1..] == [];
    assert NonEmpty([c]) == (if c != "" then [c] else []) + NonEmpty([]);
  }

  /** The caption is empty exactly when all three texts are. */
  lemma PostCaptionEmpty(caption: string, defaultCaption: string, ccLicense: string)
    ensures PostCaption(caption, defaultCaption, ccLicense) == "" <==>
      caption == "" && defaultCaption == "" && ccLicense == ""
  {
    NonEmptyOfThree(caption, defaultCaption, ccLicense);
    Text.JoinNonEmpty(" ", NonEmpty([caption, defaultCaption, ccLicense]));
  }

  /** With all three texts present the caption is all three, space-separated. */
  lemma PostCaptionAll(caption: string, defaultCaption: string, ccLicense: string)
    requires caption != "" && defaultCaption != "" && ccLicense != ""
    ensures PostCaption(caption, defaultCaption, ccLicense) == caption + " " + defaultCaption + " " + ccLicense
  {
    var parts := [caption, defaultCaption, ccLicense];
    NonEmptyOfThree(caption, defaultCaption, ccLicense);
    assert NonEmpty(parts) == parts;
    assert parts[1..] == [defaultCaption, ccLicense];
    assert [defaultCaption, ccLicense][1..] == [ccLicense];
    assert Text.Join(" ", [defaultCaption, ccLicense]) == defaultCaption + " " + ccLicense;
  }

  /** With only one text present the caption is that text. */
  lemma PostCaptionSingle(caption: string, defaultCaption: string, ccLicense: string)
    ensures defaultCaption == "" && ccLicense == "" ==> PostCaption(caption, defaultCaption, ccLicense) == caption
    ensures caption == "" && ccLicense == "" ==> PostCaption(caption, defaultCaption, ccLicense) == defaultCaption
    ensures caption == "" && defaultCaption == "" ==> PostCaption(caption, defaultCaption, ccLicense) == ccLicense
  {
    NonEmptyOfThree(caption, defaultCaption, ccLicense);
  }

  /** A JSON object returned by the server (only string-valued fields are modelled). */
  type Json = map<string, string>

  /** What a remote step returned: the object (None on failure) and an error message. */
  datatype Response = Response(body: Option<Json>, error: Option<string>)

  /** Python truthiness of a returned object: present and not the empty object. */
  predicate Truthy(body: Option<Json>) {
    body.Some? && |body.value| > 0
  }

  /** `media.get('id')`, when it is truthy. */
  function MediaId(media: Json): Option<string> {
    if "id" in media && media["id"] != "" then Some(media["id"]) else None
  }

  /** The `create_post` call the client makes. */
  datatype PostRequest = PostRequest(mediaIds: seq<string>, status: string)

  /** The outcome of `upload_and_post`, with the post request it sent (None: no post was attempted). */
  datatype Attempt = Attempt(success: bool, error: Option<string>, request: Option<PostRequest>)

  class PixelfedClient {
    const instanceUrl: string
    const accessToken: string
    const defaultCaption: string
    const ccLicense: string

    /** The instance address is kept without trailing slashes. */
    constructor (instanceUrl: string, accessToken: string, defaultCaption: string, ccLicense: string)
      ensures this.instanceUrl == Text.RStripSlash(instanceUrl)
      ensures this.instanceUrl == "" || this.instanceUrl[|this.instanceUrl| - 1] != '/'
      ensures this.accessToken == accessToken && this.defaultCaption == defaultCaption && this.ccLicense == ccLicense
    {
      this.instanceUrl := Text.RStripSlash(instanceUrl);
      this.accessToken := accessToken;
      this.defaultCaption := defaultCaption;
      this.ccLicense := ccLicense;
    }

    /**
     * `upload_and_post`: given what the upload returned, and what the post creation would
     * return, the outcome. A post is requested only when the upload produced an object
     * with an id; failures carry the failing step's error message.
     */
    function UploadAndPost(filePath: string, caption: string, upload: Response, post: Response): (a: Attempt)
      ensures a.request.Some? <==> Truthy(upload.body) && MediaId(upload.body.value).Some?
      ensures a.request.Some? ==>
        a.request.value == PostRequest([MediaId(upload.body.value).value], PostCaption(caption, defaultCaption, ccLicense))
      ensures a.success <==> a.request.Some? && Truthy(post.body)
      ensures a.success ==> a.error.None?
      ensures !Truthy(upload.body) ==> !a.success && a.error == upload.error
      ensures Truthy(upload.body) && MediaId(upload.body.value).None? ==>
        !a.success && a.error == Some("No media ID returned for " + filePath)
      ensures a.request.Some? && !a.success ==> a.error == post.error
    {
      if !Truthy(upload.body) then Attempt(false, upload.error, None)
      else
        var mediaId := MediaId(upload.body.value);
        if mediaId.None? then Attempt(false, Some("No media ID returned for " + filePath), None)
        else
          var parts := (if caption != "" then [caption] else [])
            + (if defaultCaption != "" then [defaultCaption] else [])
            + (if ccLicense != "" then [ccLicense] else []);
          NonEmptyOfThree(caption, defaultCaption, ccLicense);
          var request := PostRequest([mediaId.value], Text.Join(" ", parts));
          if !Truthy(post.body) then Attempt(false, post.error, Some(request))
          else Attempt(true, None, Some(request))
    }
  }
}
