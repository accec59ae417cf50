# Upload forwarder: a Dafny model

This project models the upload-and-forward path of the Flask service in
`app.py`: the `POST /upload` handler `upload_file`, which validates a CSV
upload, saves it under the configured upload folder and relays it to an n8n
webhook, together with the two `UploadService` operations it relies on,
`allowed` (the extension allow-list check) and `save`, and the relay
`forward_to_n8n`.

- `base.dfy` (module `Base`): `Option`, and `Result` = a Python call that
  returned a value or raised an `Exception`, split into `RequestException`
  (the `requests` family) and every other exception.
- `filenames.dfy` (module `FileNames`): `str.rsplit(".", 1)` (`RSplitOnce`, on
  top of `LastIndex`), `str.lower()` (`Lower`), `allowed` (`Allowed`), and the
  path join `folder / name` (`Join`), with their properties.
- `service.dfy` (module `Service`): the `Config` defaults, `requests.Response`
  (`HttpResponse`, with `ok` as `IsOk`), the relay request (`Relay`), and the
  class `UploadService`, whose field `disk` maps each path of the file system
  to the bytes stored there. `Save` and `ForwardToN8n` read and change it.
- `route.dfy` (module `Route`): the JSON responses, the three early exits as
  the function `Validate`, the classification of the `try` block as the
  function `Answer`, and the handler as the method `UploadFile`, whose
  contract ties the response and the new storage to those two functions.

Inputs that stand for things outside the model: `sanitize` is werkzeug's
`secure_filename`, left uninterpreted; `writeError` is the exception the file
system raises for the write, if any; `reply` is what the webhook POST
produced (a response, or the exception `requests` raised).

## Model

| member | source | states |
|---|---|---|
| FileNames.LastIndex | app.py:45 | the last occurrence of a character: None exactly when it does not occur, otherwise an index holding it with none after it |
| FileNames.RSplitOnce | app.py:45 | `rsplit(sep, 1)`: the whole string when there is no separator, otherwise two parts that rejoin to the input with no separator in the second |
| FileNames.Lower | app.py:45 | lower-casing keeps the length and maps each ASCII capital to its small letter, leaving every other character |
| FileNames.Allowed | app.py:44-45 | `allowed`: false for a name without a dot, where the `"." in filename` test short-circuits before `rsplit`; the characterization in both directions is `FileNames.AllowedIff` |
| FileNames.AllowedIff | app.py:44-45 | `allowed` holds exactly when some dot has no dot after it and the lower-cased text after it is in the allow-set (both directions) |
| FileNames.NoDotNotAllowed | app.py:45 | a name with no dot, the empty name included, is never allowed |
| FileNames.AllowedByLastExtension | app.py:45 | for `stem + "." + ext` with no dot in `ext`, the verdict depends only on `ext` lower-cased, whatever the stem holds |
| FileNames.AllowedIgnoresCase | app.py:45 | lower-casing the whole name does not change the verdict |
| FileNames.AllowedUsesLowerEntries | app.py:45 | only already lower-case allow-set entries can match; dropping the others changes no verdict |
| FileNames.AllowedNameNotDotSegment | app.py:45 | when "" is not allowed, an allowed name is non-empty, does not end in a dot, and is neither "." nor ".." |
| FileNames.UpperCaseExtensionAccepted | app.py:45 | "data.CSV" is allowed by {"csv"} |
| FileNames.DoubleExtensionRejected | app.py:45 | "a.csv.txt" is not allowed by {"csv"} |
| FileNames.Join | app.py:48 | `folder / name`: for a name without "/", splitting the path at its last "/" gives back the folder and the name |
| Service.UploadService.PathOf | app.py:48 | the path `save` writes to: for a name without "/", an entry directly inside the upload folder under that name |
| Service.HttpResponse.IsOk | app.py:105 | `response.ok`: true for 1xx to 3xx statuses, false for 4xx and 5xx |
| Service.StoredInsideFolder | app.py:92-99 | assuming the sanitized name has no "/" and "" is not an allowed extension, an accepted name is saved directly inside the upload folder and is not "", "." or ".." |
| Service.UploadService.constructor | app.py:37-41 | the service keeps the folder and webhook URL it is given, and creating the folder keeps the files already there |
| Service.UploadService.Save | app.py:47-50 | on success stores the content at `folder / filename`, overwriting, leaves every other path as it was and returns that path; on a write error re-raises it and stores nothing |
| Service.UploadService.ForwardToN8n | app.py:52-55 | a missing file raises FileNotFoundError and sends nothing; otherwise one POST to the webhook URL with the stored bytes as field `file`, type `text/csv`, the given name and extra fields, timeout 30, and the call's result is the webhook's |
| Route.Validate | app.py:85-95 | accepted exactly when a `file` part is present, its client name is non-empty and the sanitized name is allowed; accepted under the sanitized name; each early exit is 400 with its own message, in the handler's order |
| Route.Answer | app.py:105-128 | 200 exactly for an ok response, 502 for a non-ok response or a `RequestException`, 500 for any other exception; responses report name, local path, remote status and body; exceptions carry their text as `detalle` and the connection or internal-error message as `error` |
| Route.SampleCsvAccepted | app.py:92-95 | with the default allow-set, `sample.csv` is accepted under its own name |
| Route.TextFileRejected | app.py:92-95 | with the default allow-set, `data.txt` is rejected with 400 and the extension message |
| Route.EmptySanitizedNameRejected | app.py:89-95 | a non-empty client name that sanitizes to "" is rejected by the extension check |
| Route.UploadFile | app.py:85-128 | every response is 200, 400, 500 or 502; a rejection writes and relays nothing; a failed write relays nothing; otherwise the content is stored under the sanitized name (overwriting), the relay sends exactly those bytes, and the response is the classification of the reply; storage changes only after validation; a 200 or 502 report names a path holding the uploaded bytes, so a failed relay keeps the file |

## Left out

- `secure_filename` (app.py:92) is werkzeug code and is not part of this model: it is the uninterpreted parameter `sanitize`. Path containment is proved only under two stated assumptions (`Service.StoredInsideFolder`): the sanitized name has no "/", and "" is not an allowed extension (with "" allowed, ".." passes `allowed` and its path leaves the folder).
- The HTTP POST, its 30-second timeout and the `requests.Session` (app.py:41, 52-55) are network I/O: the POST's outcome is the input `reply`, and the request is returned as a `Relay` value.
- FileNames.Lower: lower-cases ASCII letters only; Python's `str.lower()` also maps non-ASCII capitals (one of them to two characters), which the model does not cover.
- FileNames.Join: concatenates with "/" and does not reproduce `pathlib`'s normalisation (an empty folder, a trailing separator, an absolute second operand).
- Service.UploadService.Save: a failed write is modelled as storing nothing; a partially written file is not modelled.
- Flask and Blueprint routing, `jsonify`, `current_app`, logging and the Swagger configuration (app.py:2-3, 18-31, 60-62, 106, 124, 127, 133-148) are framework glue; responses are the `Response` datatype.
- Creating the folder and reading environment variables (app.py:15, 17, 39, 156) are process setup: the folder and URL are constructor arguments, and the defaults are constants.
- Concurrent requests writing the same name are not modelled; requests run one after another and the last write wins.
- Api/main.py holds four endpoints that return constants; it is not part of this model.

## Notes on the source

- The handler answers a `requests.RequestException` with 502 and `error`/`detalle` (app.py:123-125), as modelled; it is not an internal error.
- Only the extension is lower-cased before the membership test (app.py:45); allow-set entries are used as written, so an entry with capitals never matches (`FileNames.AllowedUsesLowerEntries`). The default set `{"csv"}` is unaffected.
- `Response.ok` is false exactly for a status from 400 to 599, as the `requests` library defines it through `raise_for_status`.
