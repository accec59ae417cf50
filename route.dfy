/** The `POST /upload` handler `upload_file`: validate the file part, save it,
    relay it to n8n and turn what happened into an HTTP status and a JSON body.
    `secure_filename` is the parameter `sanitize`, the allow-set comes from the
    configuration, and the outcome of the write and of the POST are inputs. */
module Route {
  import opened Base
  import opened FileNames
  import opened Service

  /** The `file` part of the multipart request: its client filename and bytes. */
  datatype FilePart = FilePart(filename: string, content: seq<bv8>)

  /** The JSON bodies the handler returns, by their keys. */
  datatype Body =
    | Error(error: string)                                   // {"error"}
    | ErrorDetail(error: string, detalle: string)            // {"error", "detalle"}
    | Report(mensaje: string, nombreArchivo: string, rutaLocal: string,
             statusN8n: int, respuestaN8n: string)           // {"mensaje", "nombre_archivo", "ruta_local", "status_n8n", "respuesta_n8n"}

  datatype Response = Response(status: int, body: Body)

  const MissingFileMessage: string := "No se encontró archivo en la solicitud"
  const EmptyNameMessage: string := "Nombre de archivo vacío"
  const ExtensionMessage: string := "Tipo de archivo no permitido. Solo CSV."
  const RelayedMessage: string := "Archivo subido localmente y reenviado a n8n \U{2705}"
  const NotRelayedMessage: string := "Archivo guardado localmente pero error al reenviar a n8n"
  const ConnectionMessage: string := "Error al comunicarse con n8n"
  const InternalMessage: string := "Error interno del servidor"

  /** The fixed extra form fields sent with every relay. */
  const ExtraFields: map<string, string> :=
    map["table" := "nombre_tabla_destino", "sessionId" := "test-session-001"]

  /** Result of the checks before anything is stored: the sanitized name to
      store under, or the 400 response. */
  datatype Validation = Accepted(name: string) | Rejected(response: Response)

  /** The three early exits of `upload_file`, in the order the handler takes
      them: no `file` part, an empty client filename, and a sanitized name
      whose extension is not allowed. */
  function Validate(file: Option<FilePart>, sanitize: string -> string, allowedExts: set<string>)
    : (v: Validation)
    ensures v.Accepted? <==>
      file.Some? && file.value.filename != "" && Allowed(sanitize(file.value.filename), allowedExts)
    ensures v.Accepted? ==> v.name == sanitize(file.value.filename) && '.' in v.name
    ensures v.Rejected? ==> v.response.status == 400 && v.response.body.Error?
    ensures file.None? ==> v.Rejected? && v.response.body.error == MissingFileMessage
    ensures file.Some? && file.value.filename == "" ==>
      v.Rejected? && v.response.body.error == EmptyNameMessage
    ensures file.Some? && file.value.filename != "" && !Allowed(sanitize(file.value.filename), allowedExts) ==>
      v.Rejected? && v.response.body.error == ExtensionMessage
  {
    if file.None? then Rejected(Response(400, Error(MissingFileMessage)))
    else if file.value.filename == "" then Rejected(Response(400, Error(EmptyNameMessage)))
    else
      var filename := sanitize(file.value.filename);
      if !Allowed(filename, allowedExts) then Rejected(Response(400, Error(ExtensionMessage)))
      else Accepted(filename)
  }

  /** What `upload_file` answers once validation passed, given how its `try`
      block ended: with the webhook's response, or with an exception raised
      while saving or relaying. */
  function Answer(filename: string, savedPath: string, attempt: Result<HttpResponse>): (r: Response)
    ensures r.status == 200 <==> attempt.Ok? && attempt.value.IsOk()
    ensures r.status == 502 <==>
      (attempt.Ok? && !attempt.value.IsOk()) || (attempt.Raised? && attempt.exc.RequestException?)
    ensures r.status == 500 <==> attempt.Raised? && attempt.exc.OtherException?
    ensures attempt.Ok? ==>
      r.body == Report(if attempt.value.IsOk() then RelayedMessage else NotRelayedMessage,
                       filename, savedPath, attempt.value.statusCode, attempt.value.text)
    ensures attempt.Raised? ==> r.body.ErrorDetail? && r.body.detalle == attempt.exc.msg
    ensures attempt.Raised? ==>
      r.body.error == (if attempt.exc.RequestException? then ConnectionMessage else InternalMessage)
  {
    match attempt
    case Ok(response) =>
      if !response.IsOk() then
        Response(502, Report(NotRelayedMessage, filename, savedPath, response.statusCode, response.text))
      else
        Response(200, Report(RelayedMessage, filename, savedPath, response.statusCode, response.text))
    case Raised(RequestException(msg)) => Response(502, ErrorDetail(ConnectionMessage, msg))
    case Raised(OtherException(msg)) => Response(500, ErrorDetail(InternalMessage, msg))
  }

  /** A `sample.csv` upload whose name survives sanitizing is accepted under
      that name by the default configuration. */
  lemma SampleCsvAccepted(content: seq<bv8>, sanitize: string -> string)
    requires sanitize("sample.csv") == "sample.csv"
    ensures Validate(Some(FilePart("sample.csv", content)), sanitize, AllowedExtensions)
            == Accepted("sample.csv")
  {
    var stem, ext := "sample", "csv";
    assert LowerChar('c') == 'c' && LowerChar('s') == 's' && LowerChar('v') == 'v';
    assert Lower(ext) == "csv";
    AllowedByLastExtension(stem, ext, AllowedExtensions);
    assert Allowed(stem + "." + ext, AllowedExtensions);
    assert stem + "." + ext == "sample.csv";
  }

  /** A `data.txt` upload is turned away with 400 by the default configuration. */
  lemma TextFileRejected(content: seq<bv8>, sanitize: string -> string)
    requires sanitize("data.txt") == "data.txt"
    ensures Validate(Some(FilePart("data.txt", content)), sanitize, AllowedExtensions)
            == Rejected(Response(400, Error(ExtensionMessage)))
  {
    var stem, ext := "data", "txt";
    assert Lower(ext)[0] == LowerChar('t') == 't';
    assert Lower(ext) !in AllowedExtensions;
    AllowedByLastExtension(stem, ext, AllowedExtensions);
    assert !Allowed(stem + "." + ext, AllowedExtensions);
    assert stem + "." + ext == "data.txt";
    assert !Allowed(sanitize("data.txt"), AllowedExtensions);
  }

  /** A client name that sanitizes to the empty string is rejected for its
      extension, never stored. */
  lemma EmptySanitizedNameRejected(file: FilePart, sanitize: string -> string, allowedExts: set<string>)
    requires file.filename != "" && sanitize(file.filename) == ""
    ensures Validate(Some(file), sanitize, allowedExts) == Rejected(Response(400, Error(ExtensionMessage)))
  {
    NoDotNotAllowed("", allowedExts);
  }

  /** `upload_file`. Returns the response and the relay request it sent, if any.
      Storage changes only by the one save the handler makes; the relay is sent
      only after that save succeeded and carries the bytes just stored; a failed
      relay leaves the stored file in place. */
  method UploadFile(service: UploadService, allowedExts: set<string>, file: Option<FilePart>,
                    sanitize: string -> string, writeError: Option<Exception>,
                    reply: Result<HttpResponse>)
    returns (resp: Response, sent: Option<Relay>)
    modifies service
    // Rejected before saving: the 400 response, no write, no relay.
    ensures Validate(file, sanitize, allowedExts).Rejected? ==>
      && resp == Validate(file, sanitize, allowedExts).response
      && service.disk == old(service.disk)
      && sent == None
    // The write failed: nothing stored, nothing relayed.
    ensures Validate(file, sanitize, allowedExts).Accepted? && writeError.Some? ==>
      && resp == Answer(Validate(file, sanitize, allowedExts).name, "", Raised(writeError.value))
      && service.disk == old(service.disk)
      && sent == None
    // Saved and relayed: the content is stored under the sanitized name, the
    // relay carries exactly that content, and the response reports the reply.
    ensures Validate(file, sanitize, allowedExts).Accepted? && writeError.None? ==>
      var name := Validate(file, sanitize, allowedExts).name;
      var path := service.PathOf(name);
      && service.disk == old(service.disk)[path := file.value.content]
      && sent == Some(Relay(service.webhookUrl, RelayField, name, RelayContentType,
                            file.value.content, ExtraFields, RelayTimeout))
      && resp == Answer(name, path, reply)
    // No relay without the saved file: what is sent is what is stored.
    ensures sent.Some? ==> exists p :: p in service.disk && service.disk[p] == sent.value.payload
    ensures service.disk != old(service.disk) ==> Validate(file, sanitize, allowedExts).Accepted?
    // Every response has one of the four documented codes.
    ensures resp.status in {200, 400, 500, 502}
    // A 200 or 502 report names a path that holds the uploaded bytes.
    ensures resp.body.Report? ==>
      file.Some? && resp.body.rutaLocal in service.disk && service.disk[resp.body.rutaLocal] == file.value.content
  {
    if file.None? {
      return Response(400, Error(MissingFileMessage)), None;
    }
    var part := file.value;
    if part.filename == "" {
      return Response(400, Error(EmptyNameMessage)), None;
    }
    var filename := sanitize(part.filename);
    if !Allowed(filename, allowedExts) {
      return Response(400, Error(ExtensionMessage)), None;
    }
    var saved := service.Save(part.content, filename, writeError);
    match saved
    case Raised(exc) =>
      resp, sent := Answer(filename, "", Raised(exc)), None;
    case Ok(savedPath) =>
      var forwarded;
      sent, forwarded := service.ForwardToN8n(savedPath, filename, ExtraFields, reply);
      resp := Answer(filename, savedPath, forwarded);
  }
}
