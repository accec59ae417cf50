/** `Config` and `UploadService`: the configured defaults, the local upload
    folder and the relay of a stored file to the n8n webhook. The folder and
    everything under it is the map `disk`, from path to the bytes stored there;
    the HTTP exchange is an input (`reply`) instead of a network call. */
module Service {
  import opened Base
  import opened FileNames

  /** `Config.ALLOWED_EXTENSIONS`. */
  const AllowedExtensions: set<string> := {"csv"}
  /** Default of `Config.UPLOAD_FOLDER` when the environment sets none. */
  const DefaultUploadFolder: string := "uploads"
  /** Default of `Config.N8N_WEBHOOK_URL` when the environment sets none. */
  const DefaultWebhookUrl: string := "https://camiloan11.app.n8n.cloud/webhook-test/csv-upload"

  /** Multipart field name, content type and timeout of the relay POST. */
  const RelayField: string := "file"
  const RelayContentType: string := "text/csv"
  const RelayTimeout: int := 30

  /** A `requests.Response` as the handler reads it. */
  datatype HttpResponse = HttpResponse(statusCode: int, text: string)
  {
    /** `Response.ok`: false exactly when `raise_for_status` would raise. */
    function IsOk(): (ok: bool)
      ensures 100 <= statusCode < 400 ==> ok
      ensures 400 <= statusCode < 500 ==> !ok
      ensures 500 <= statusCode < 600 ==> !ok
    {
      statusCode < 400 || 600 <= statusCode
    }
  }

  /** The multipart POST that `forward_to_n8n` sends. */
  datatype Relay = Relay(
    url: string,
    field: string,
    filename: string,
    contentType: string,
    payload: seq<bv8>,
    data: map<string, string>,
    timeout: int)

  /** What `str(exc)` gives for the `FileNotFoundError` of opening a missing path. */
  function FileNotFoundMessage(path: string): string
  {
    "[Errno 2] No such file or directory: '" + path + "'"
  }

  class UploadService {
    const uploadFolder: string
    const webhookUrl: string
    /** The files of the file system the service writes to and reads from, by path. */
    var disk: map<string, seq<bv8>>

    /** `UploadService.__init__`. Creating the folder with `exist_ok=True`
        keeps whatever is already stored. */
    constructor (uploadFolder: string, webhookUrl: string, existing: map<string, seq<bv8>>)
      ensures this.uploadFolder == uploadFolder && this.webhookUrl == webhookUrl
      ensures disk == existing
    {
      this.uploadFolder := uploadFolder;
      this.webhookUrl := webhookUrl;
      disk := existing;
    }

    /** Where `save` puts a file of the given name: for a name without a
        separator, an entry directly inside the upload folder. */
    function PathOf(filename: string): (path: string)
      ensures '/' !in filename ==> RSplitOnce(path, '/') == [uploadFolder, filename]
    {
      Join(uploadFolder, filename)
    }

    /** `UploadService.save`: writes `content` at `upload_folder / filename`,
        replacing any file already there, and returns that path. `writeError`
        is the exception the file system raises for this write, if it does;
        then nothing is stored. */
    method Save(content: seq<bv8>, filename: string, writeError: Option<Exception>)
      returns (r: Result<string>)
      modifies this`disk
      ensures writeError.Some? ==> r == Raised(writeError.value) && disk == old(disk)
      ensures writeError.None? ==> r == Ok(PathOf(filename)) && disk == old(disk)[PathOf(filename) := content]
      ensures disk.Keys <= old(disk).Keys + {PathOf(filename)}
    {
      match writeError
      case Some(exc) =>
        r := Raised(exc);
      case None =>
        var path := PathOf(filename);
        disk := disk[path := content];
        r := Ok(path);
    }

    /** `UploadService.forward_to_n8n`: opens the file at `filePath` and posts
        it to the webhook with the extra form fields. Returns the request handed
        to the HTTP session (None when opening the file failed first) and what the call
        produced; `reply` is the webhook's answer or the transport error. */
    method ForwardToN8n(filePath: string, filename: string, extra: map<string, string>,
                        reply: Result<HttpResponse>)
      returns (sent: Option<Relay>, r: Result<HttpResponse>)
      ensures filePath !in disk ==>
        sent == None && r == Raised(OtherException(FileNotFoundMessage(filePath)))
      ensures filePath in disk ==> r == reply && sent.Some?
      ensures sent.Some? ==>
        && sent.value.payload == disk[filePath]
        && sent.value.url == webhookUrl
        && sent.value.filename == filename
        && sent.value.data == extra
        && sent.value.field == RelayField
        && sent.value.contentType == RelayContentType
        && sent.value.timeout == RelayTimeout
    {
      if filePath !in disk {
        return None, Raised(OtherException(FileNotFoundMessage(filePath)));
      }
      var bytes := disk[filePath];
      sent := Some(Relay(webhookUrl, RelayField, filename, RelayContentType, bytes, extra, RelayTimeout));
      r := reply;
    }
  }

  /** A name without a separator that `allowed` accepts against an allow-set
      without the empty extension is stored directly inside the upload folder,
      under an entry that is neither "." nor "..". */
  lemma StoredInsideFolder(uploadFolder: string, filename: string, allowedExts: set<string>)
    requires '/' !in filename
    requires "" !in allowedExts
    requires Allowed(filename, allowedExts)
    ensures RSplitOnce(Join(uploadFolder, filename), '/') == [uploadFolder, filename]
    ensures filename != "." && filename != ".." && filename != ""
  {
    AllowedNameNotDotSegment(filename, allowedExts);
  }
}
