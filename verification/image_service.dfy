/** The client's image helpers: the decisions `uploadFileToCloudinary`
    makes around its single network call, the error message it reports,
    and `getAvatarPath`. The upload itself is a parameter: the outcome the
    network returned. */
module ImageService {
  import opened Common

  // ---- upload input ------------------------------------------------------

  /** The `file` argument: `null`/`undefined`, a string (an already
      uploaded URL), or a picked asset whose fields may be missing. */
  datatype FileArg =
    | NoFile
    | UrlText(url: string)
    | Picked(uri: Option<string>, mediaType: Option<string>, fileName: Option<string>, mimeType: Option<string>)

  /** `{ success, data?, msg? }`. */
  datatype UploadResponse = UploadResponse(success: bool, data: Option<string>, msg: Option<string>)

  /** The `file` part of the multipart form. */
  datatype FormFile = FormFile(uri: string, mediaType: string, name: string)

  /** What happens before any network traffic: an immediate answer, or an
      upload of one form file into a folder. */
  datatype UploadPlan = Immediate(response: UploadResponse) | Send(file: FormFile, folder: string)

  const DefaultMediaType := "image/jpeg"
  const DefaultFileName := "photo.jpg"

  /** `uri.split('/').pop()`: the text after the last '/', or the whole
      string when it has none. */
  function LastSegment(uri: string): (r: string)
    ensures |r| <= |uri| && r == uri[|uri| - |r|..]
    ensures forall k :: 0 <= k < |r| ==> r[k] != '/'
    ensures |r| < |uri| ==> uri[|uri| - |r| - 1] == '/'
  {
    if uri == [] || uri[|uri| - 1] == '/' then []
    else LastSegment(uri[..|uri| - 1]) + [uri[|uri| - 1]]
  }

  /** `file.mimeType || file.type || "image/jpeg"`. */
  function MediaTypeOf(mimeType: Option<string>, mediaType: Option<string>): (r: string)
    ensures r != ""
    ensures Truthy(mimeType) ==> r == mimeType.value
    ensures !Truthy(mimeType) && Truthy(mediaType) ==> r == mediaType.value
    ensures !Truthy(mimeType) && !Truthy(mediaType) ==> r == DefaultMediaType
  {
    OrElse(mimeType, OrElse(mediaType, DefaultMediaType))
  }

  /** `file.fileName || uri.split('/').pop() || "photo.jpg"`. */
  function FileNameOf(fileName: Option<string>, uri: string): (r: string)
    ensures r != ""
    ensures Truthy(fileName) ==> r == fileName.value
    ensures !Truthy(fileName) && LastSegment(uri) != "" ==> r == LastSegment(uri) && '/' !in r
    ensures !Truthy(fileName) && LastSegment(uri) == "" ==> r == DefaultFileName
  {
    if Truthy(fileName) then fileName.value
    else if LastSegment(uri) != "" then LastSegment(uri)
    else DefaultFileName
  }

  /** The early returns of `uploadFileToCloudinary`. A falsy file answers
      `{ success: true, data: null }`; a non-empty string is returned as
      the data unchanged; an asset without a truthy `uri` answers
      `{ success: true, data: null }`; only an asset with a `uri` is
      uploaded, with a type and a name that are never empty. */
  function PlanUpload(file: FileArg, folder: string): (r: UploadPlan)
    ensures file.NoFile? || file == UrlText("") ==> r == Immediate(UploadResponse(true, None, None))
    ensures file.UrlText? && file.url != "" ==> r == Immediate(UploadResponse(true, Some(file.url), None))
    ensures file.Picked? && !Truthy(file.uri) ==> r == Immediate(UploadResponse(true, None, None))
    ensures r.Send? <==> file.Picked? && Truthy(file.uri)
    ensures r.Send? ==>
      && r.file.uri == file.uri.value
      && r.file.mediaType != "" && r.file.name != ""
      && r.file.mediaType == MediaTypeOf(file.mimeType, file.mediaType)
      && r.file.name == FileNameOf(file.fileName, file.uri.value)
      && r.folder == folder
  {
    match file
    case NoFile => Immediate(UploadResponse(true, None, None))
    case UrlText(url) =>
      if url == "" then Immediate(UploadResponse(true, None, None))
      else Immediate(UploadResponse(true, Some(url), None))
    case Picked(uri, mediaType, fileName, mimeType) =>
      if !Truthy(uri) then Immediate(UploadResponse(true, None, None))
      else Send(FormFile(uri.value, MediaTypeOf(mimeType, mediaType), FileNameOf(fileName, uri.value)), folder)
  }

  // ---- upload failure ----------------------------------------------------

  /** What the caught error carries: its own `msg`, the server's response
      (with `data.error.message` when present), and whether a request was
      sent. */
  datatype UploadError = UploadError(msg: Option<string>, response: Option<ServerReply>, requestMade: bool)

  datatype ServerReply = ServerReply(errorMessage: Option<string>)

  /** The outcome of the network call. */
  datatype NetworkOutcome = Uploaded(secureUrl: Option<string>) | Failed(error: UploadError)

  const DefaultUploadError := "Error uploading file"
  const NetworkError := "Network error. Please check your connection."

  /** The message reported for a failed upload. The error's own `msg` wins;
      otherwise the server's message when a response exists (falling back
      to the generic text when it has none), the network text when a
      request was made without response, else the generic text. */
  function FailureMessage(e: UploadError): (r: string)
    ensures r != ""
    ensures Truthy(e.msg) ==> r == e.msg.value
    ensures !Truthy(e.msg) && e.response.Some? ==>
      r == (if Truthy(e.response.value.errorMessage) then e.response.value.errorMessage.value else DefaultUploadError)
    ensures !Truthy(e.msg) && e.response.None? && e.requestMade ==> r == NetworkError
    ensures !Truthy(e.msg) && e.response.None? && !e.requestMade ==> r == DefaultUploadError
  {
    var fallback :=
      if e.response.Some? then OrElse(e.response.value.errorMessage, DefaultUploadError)
      else if e.requestMade then NetworkError
      else DefaultUploadError;
    OrElse(e.msg, fallback)
  }

  /** `uploadFileToCloudinary(file, folderName)` with the network answering
      `outcome` if it is asked. A successful upload answers its
      `secure_url`; a failed one answers `success: false` with
      `FailureMessage`. The network is consulted only for a picked asset
      with a `uri`. */
  function UploadFile(file: FileArg, folder: string, outcome: NetworkOutcome): (r: UploadResponse)
    ensures !(file.Picked? && Truthy(file.uri)) ==> r.success && r.msg.None?
    ensures !(file.Picked? && Truthy(file.uri)) ==> r == PlanUpload(file, folder).response
    ensures file.Picked? && Truthy(file.uri) && outcome.Uploaded? ==> r == UploadResponse(true, outcome.secureUrl, None)
    ensures file.Picked? && Truthy(file.uri) && outcome.Failed? ==>
      r == UploadResponse(false, None, Some(FailureMessage(outcome.error)))
  {
    match PlanUpload(file, folder)
    case Immediate(response) => response
    case Send(_, _) =>
      match outcome
      case Uploaded(url) => UploadResponse(true, url, None)
      case Failed(error) => UploadResponse(false, None, Some(FailureMessage(error)))
  }

  // ---- avatar path -------------------------------------------------------

  /** The `file` argument of `getAvatarPath`. */
  datatype AvatarArg = NoAvatar | AvatarText(text: string) | AvatarObject(uri: Option<string>)

  /** A remote URI, an `undefined` result (an object without `uri`), or one
      of the bundled default images. */
  datatype AvatarSource = Remote(uri: string) | Undefined | DefaultGroupAvatar | DefaultUserAvatar

  /** `getAvatarPath(file, isGroup)`: a non-empty string as is, an object's
      `uri`, else the group or the user default. */
  function AvatarPath(file: AvatarArg, isGroup: bool): (r: AvatarSource)
    ensures file.AvatarText? && file.text != "" ==> r == Remote(file.text)
    ensures file.AvatarObject? ==> r == (if file.uri.Some? then Remote(file.uri.value) else Undefined)
    ensures file.NoAvatar? || file == AvatarText("") ==> r == (if isGroup then DefaultGroupAvatar else DefaultUserAvatar)
    ensures r.DefaultGroupAvatar? || r.DefaultUserAvatar? ==> (r.DefaultGroupAvatar? <==> isGroup)
  {
    match file
    case AvatarText(text) =>
      if text != "" then Remote(text) else if isGroup then DefaultGroupAvatar else DefaultUserAvatar
    case AvatarObject(uri) => if uri.Some? then Remote(uri.value) else Undefined
    case NoAvatar => if isGroup then DefaultGroupAvatar else DefaultUserAvatar
  }

  /** Without a picked asset carrying a `uri` the answer does not depend on
      the network at all. */
  lemma NoUploadIgnoresNetwork(file: FileArg, folder: string, o1: NetworkOutcome, o2: NetworkOutcome)
    requires !(file.Picked? && Truthy(file.uri))
    ensures UploadFile(file, folder, o1) == UploadFile(file, folder, o2)
  {
  }

  /** An upload answers `success: false` exactly when a picked asset with a
      `uri` was sent and the network call failed, and then always with a
      non-empty message. */
  lemma UploadFailsOnlyOnNetworkFailure(file: FileArg, folder: string, outcome: NetworkOutcome)
    ensures !UploadFile(file, folder, outcome).success <==> file.Picked? && Truthy(file.uri) && outcome.Failed?
    ensures !UploadFile(file, folder, outcome).success ==>
      UploadFile(file, folder, outcome).msg.Some? && UploadFile(file, folder, outcome).msg.value != ""
  {
  }

  /** An already uploaded URL passes through unchanged: uploading the
      `secure_url` a previous upload returned answers that same URL. */
  lemma UploadedUrlIsStable(file: FileArg, folder: string, outcome: NetworkOutcome, o2: NetworkOutcome)
    requires UploadFile(file, folder, outcome).success
    requires UploadFile(file, folder, outcome).data.Some? && UploadFile(file, folder, outcome).data.value != ""
    ensures var url := UploadFile(file, folder, outcome).data.value;
      UploadFile(UrlText(url), folder, o2) == UploadResponse(true, Some(url), None)
  {
  }

  /** The file name derived from a URI is its last path segment: the part
      after the last '/'. */
  lemma {:induction false} LastSegmentOfPath(dir: string, name: string)
    requires '/' !in name
    ensures LastSegment(dir + "/" + name) == name
    decreases |name|
  {
    if name != [] {
      var init := name[..|name| - 1];
      assert dir + "/" + name == (dir + "/" + init) + [name[|name| - 1]];
      LastSegmentOfPath(dir, init);
      assert init + [name[|name| - 1]] == name;
    } else {
      assert (dir + "/" + name)[|dir + "/" + name| - 1] == '/';
    }
  }
}
