/** The two request handlers with their I/O replaced by parameters: the engine's
    answer, the directory listing, the correlation token and the clock reading.
    `get_info` (app.py:39-99) and `download_video` (app.py:105-180). */
module Routes {
  import opened Wrappers
  import opened Text
  import opened Sizes
  import opened Catalog
  import opened ErrorText
  import opened DownloadOptions
  import opened Artifact

  /** Python truthiness of a request field: a missing field and "" are falsy. */
  predicate Blank(field: Option<string>) {
    field.None? || field.value == ""
  }

  /** What `extract_info` produced: the `formats` list (empty when the key is
      missing), or the text of the exception it raised. */
  datatype InfoOutcome = Extracted(formats: seq<FormatRecord>) | InfoRaised(message: string)

  /** The JSON body and status of `get_info`'s response. */
  datatype InfoResponse = InfoOk(formats: seq<Entry>) | InfoError(status: nat, error: string)

  const MissingUrl: string := "Please provide a URL"

  /** `get_info`. */
  method GetInfo(url: Option<string>, engine: InfoOutcome, render: real -> string) returns (r: InfoResponse)
    ensures r == InfoError(400, MissingUrl) <==> Blank(url)
    ensures !Blank(url) && engine.InfoRaised? ==> r == InfoError(500, Classify(engine.message))
    ensures !Blank(url) && engine.Extracted? && CatalogOf(engine.formats, render).Success? ==>
      r == InfoOk(CatalogOf(engine.formats, render).value)
    ensures !Blank(url) && engine.Extracted? && CatalogOf(engine.formats, render).Failure? ==>
      r == InfoError(500, FailedPrefix + NatToString(CatalogOf(engine.formats, render).error.key))
  {
    if Blank(url) {
      return InfoError(400, MissingUrl);
    }
    match engine
    case InfoRaised(message) =>
      r := InfoError(500, Classify(message));
    case Extracted(formats) =>
      var catalog := BuildCatalog(formats, render);
      match catalog
      case Success(entries) =>
        r := InfoOk(entries);
      case Failure(e) =>
        var errorMessage := NatToString(e.key);
        DigitsAreUnrecognised(errorMessage);
        r := InfoError(500, Classify(errorMessage));
  }

  /** What `ydl.download` did: finished, or raised with the given text. */
  datatype RunOutcome = Completed | RunRaised(message: string)

  /** `send_file` of an artifact under a delivered name, or an error body and status. */
  datatype DownloadResponse = SendFile(path: string, downloadName: string) | DownloadError(status: nat, body: string)

  const InvalidUrl: string := "Invalid URL"
  const NotFound: string := "Error: File not found after processing. Check ffmpeg logs."
  const DownloadFailedPrefix: string := "Download Failed: "

  /** `download_video`. `request` is the options the engine was started with,
      `None` when the engine was never started. */
  method Download(url: Option<string>, formatId: Option<string>, convertTo: Option<string>,
                  token: string, timestamp: nat, engine: RunOutcome, listing: seq<string>)
    returns (request: Option<Options>, r: DownloadResponse)
    ensures request.None? <==> Blank(url)
    ensures Blank(url) ==> r == DownloadError(400, InvalidUrl)
    ensures !Blank(url) ==> request == Some(SelectOptions(token, convertTo, formatId))
    ensures !Blank(url) && engine.RunRaised? ==> r == DownloadError(500, DownloadFailedPrefix + engine.message)
    ensures !Blank(url) && engine.Completed? ==>
      (r == DownloadError(500, NotFound) <==> forall i :: 0 <= i < |listing| ==> !(token <= listing[i]))
    ensures !Blank(url) && engine.Completed? ==>
      r == match Lookup(listing, token)
           case None => DownloadError(500, NotFound)
           case Some(a) => SendFile(a.path, DeliveredName(timestamp, a.ext))
    ensures !Blank(url) && engine.Completed? && (exists i :: 0 <= i < |listing| && token <= listing[i]) ==>
      exists i :: 0 <= i < |listing| && token <= listing[i] &&
        (forall j :: 0 <= j < i ==> !(token <= listing[j])) &&
        r == SendFile(JoinPath(TempFolder, listing[i]), DeliveredName(timestamp, AfterLastDot(listing[i])))
  {
    if Blank(url) {
      return None, DownloadError(400, InvalidUrl);
    }
    var ydlOpts := SelectOptions(token, convertTo, formatId);
    request := Some(ydlOpts);
    match engine
    case RunRaised(message) =>
      r := DownloadError(500, DownloadFailedPrefix + message);
    case Completed =>
      var finalFile := FindArtifact(listing, token);
      LookupFirstMatch(listing, token);
      if finalFile.None? {
        return request, DownloadError(500, NotFound);
      }
      var artifact := finalFile.value;
      r := SendFile(artifact.path, DeliveredName(timestamp, artifact.ext));
  }
}
