/** The server action `convertFileWithConvertAPI` (app/actions/sendFile.ts):
    guards, source-extension derivation, target-format lookup, the request URL,
    and the normalisation of the provider's reply into one of two result shapes.

    The network is a parameter: `provider` maps the request URL to the reply
    (`fetch`, then `response.text()` or `response.json()`); a rejected promise
    or a thrown parse error is the reply `Thrown(message)`. */
module SendFile {
  import opened Shared
  import opened JsText
  import FormatCatalog

  /** The first entry of the reply's `Files` list: `Url` may be absent. */
  datatype FileEntry = FileEntry(url: Option<string>, fileSize: int)

  /** What the provider call produces. */
  datatype Reply =
    | Response(ok: bool, status: nat, body: string, firstFile: Option<FileEntry>)
    | Thrown(message: string)

  /** The two shapes the action returns: `{success: true, downloadURL, fileSize}` or `{error}`. */
  datatype ConvertResult =
    | Converted(downloadURL: Option<string>, fileSize: int)
    | Failed(error: string)

  const Endpoint := "https://v2.convertapi.com/convert/"
  const NoFileMessage := "No file provided."
  const MissingSecretMessage := "Missing CONVERTAPI_SECRET environment variable."
  const NoConvertedFileMessage := "No converted file found in response"
  const DefaultFailureMessage := "Failed to convert file."
  const FailurePrefix := "Conversion failed: "

  /** `formatMap`: the provider's token for each format the action knows about. */
  const FormatMap: map<string, string> := map[
    "pdf" := "pdf", "doc" := "doc", "docx" := "docx", "jpg" := "jpg", "jpeg" := "jpg",
    "png" := "png", "gif" := "gif", "txt" := "txt", "html" := "html"]

  /** `formatMap[outputFormat] || outputFormat`: only "jpeg" is renamed, every other
      string (a key of the table or not) is passed through unchanged. */
  function MapFormat(outputFormat: string): (mapped: string)
    ensures mapped == if outputFormat == "jpeg" then "jpg" else outputFormat
  {
    if outputFormat in FormatMap && FormatMap[outputFormat] != "" then FormatMap[outputFormat]
    else outputFormat
  }

  /** Mapping a mapped format again changes nothing. */
  lemma MapFormatIdempotent(outputFormat: string)
    ensures MapFormat(MapFormat(outputFormat)) == MapFormat(outputFormat)
  {
  }

  /** Every catalog type is sent to the provider as itself: "pdf", "docx" and "txt"
      are identity keys of the table, "xlsx" and "pptx" are not keys and pass through. */
  lemma CatalogTypesMapToThemselves()
    ensures forall e :: e in FormatCatalog.Catalog ==> MapFormat(e.fileType) == e.fileType
    ensures forall e :: e in FormatCatalog.Catalog && e.fileType in FormatMap ==>
      FormatMap[e.fileType] == e.fileType
  {
  }

  /** `name.split('.').pop()?.toLowerCase() || 'pdf'`. */
  function InputExtension(name: string): (ext: string)
    ensures ext != ""
    ensures '.' !in ext
  {
    SplitFacts(name, '.');
    var lowered := ToLower(Pop(Split(name, '.')));
    ToLowerKeeps(Pop(Split(name, '.')), '.');
    if lowered == "" then "pdf" else lowered
  }

  /** The extension is the lower-cased text after the last '.', or the whole name
      lower-cased when there is no '.'; it is "pdf" exactly when that text is empty. */
  lemma InputExtensionSpec(name: string)
    ensures '.' !in name && name != "" ==> InputExtension(name) == ToLower(name)
    ensures name == "" || name[|name| - 1] == '.' ==> InputExtension(name) == "pdf"
    ensures forall k :: 0 <= k < |name| - 1 && name[k] == '.' && '.' !in name[k + 1..] ==>
      InputExtension(name) == ToLower(name[k + 1..])
  {
    SplitFacts(name, '.');
    var last := Pop(Split(name, '.'));
    assert IsLastPart(name, '.', last);
    if '.' !in name {
      assert |last| == |name|;
    }
    if name != [] && name[|name| - 1] == '.' {
      assert last == [];
    }
    forall k | 0 <= k < |name| - 1 && name[k] == '.' && '.' !in name[k + 1..]
      ensures InputExtension(name) == ToLower(name[k + 1..])
    {
      AfterLastDot(name, k, last);
    }
  }

  lemma AfterLastDot(name: string, k: int, last: string)
    requires 0 <= k < |name| - 1 && name[k] == '.' && '.' !in name[k + 1..]
    requires IsLastPart(name, '.', last)
    ensures last == name[k + 1..]
  {
    var tail := name[k + 1..];
    assert IsLastPart(name, '.', tail) by {
      assert name[|name| - |tail| - 1] == name[k];
    }
    LastPartUnique(name, '.', last, tail);
  }

  /** The request URL: endpoint, source extension, "/to/", target token, then the secret. */
  function RequestURL(inputExt: string, target: string, apiKey: string): string {
    Endpoint + inputExt + "/to/" + target + "?Secret=" + apiKey
  }

  /** When none of the three pieces holds a '/', the text after the endpoint splits on '/'
      into the source extension, "to", and the target followed by "?Secret=" and the key.
      This is a statement about the string only: the pieces are not URL-encoded, so a '#',
      '?' or a backslash inside them still changes how a URL parser reads it
      (see `ExtensionCarriesUrlSyntax`). */
  lemma RequestURLPath(inputExt: string, target: string, apiKey: string)
    requires '/' !in inputExt && '/' !in target && '/' !in apiKey
    ensures var url := RequestURL(inputExt, target, apiKey);
      && |Endpoint| <= |url|
      && url[..|Endpoint|] == Endpoint
      && Split(url[|Endpoint|..], '/') == [inputExt, "to", target + "?Secret=" + apiKey]
  {
    var query := target + "?Secret=" + apiKey;
    RequestURLLayout(inputExt, target, apiKey);
    PathSegments(inputExt, query);
  }

  /** The pieces are interpolated as they are: the file name "n.c#" gives the extension
      "c#", and its '#' lands right after the endpoint's extension slot, ahead of "/to/",
      where it starts the URL's fragment. */
  lemma ExtensionCarriesUrlSyntax(target: string, apiKey: string)
    ensures InputExtension("n.c#") == "c#"
    ensures var url := RequestURL(InputExtension("n.c#"), target, apiKey);
      url[|Endpoint| + 1] == '#' && url[|Endpoint| + 2..|Endpoint| + 6] == "/to/"
  {
    var name := "n.c#";
    InputExtensionSpec(name);
    assert name[1] == '.' && name[2..] == "c#";
    assert ToLower("c#") == "c#" by {
      var r := ToLower("c#");
      assert r[0] == LowerChar('c') && r[1] == LowerChar('#');
    }
    RequestURLLayout("c#", target, apiKey);
  }

  lemma RequestURLLayout(inputExt: string, target: string, apiKey: string)
    ensures var url := RequestURL(inputExt, target, apiKey);
      && |Endpoint| <= |url|
      && url[..|Endpoint|] == Endpoint
      && url[|Endpoint|..] == inputExt + ['/'] + ("to" + ['/'] + (target + "?Secret=" + apiKey))
  {
    var url := RequestURL(inputExt, target, apiKey);
    var path := inputExt + ['/'] + ("to" + ['/'] + (target + "?Secret=" + apiKey));
    assert url == Endpoint + path;
  }

  lemma PathSegments(inputExt: string, query: string)
    requires '/' !in inputExt && '/' !in query
    ensures Split(inputExt + ['/'] + ("to" + ['/'] + query), '/') == [inputExt, "to", query]
  {
    SplitAround(inputExt, "to" + ['/'] + query, '/');
    SplitAround("to", query, '/');
    SplitFacts(query, '/');
  }

  /** The catch block and the two checks inside the try: the reply becomes exactly one
      of the two result shapes, and an error result always carries a non-empty message. */
  function Normalise(reply: Reply): (r: ConvertResult)
    ensures r.Failed? ==> r.error != ""
    ensures r.Converted? <==> reply.Response? && reply.ok && reply.firstFile.Some?
    ensures r.Converted? ==>
      r.downloadURL == reply.firstFile.value.url && r.fileSize == reply.firstFile.value.fileSize
    ensures reply.Response? && reply.ok && reply.firstFile.None? ==> r == Failed(NoConvertedFileMessage)
  {
    match reply
    case Thrown(message) =>
      Failed(if message != "" then message else DefaultFailureMessage)
    case Response(ok, status, body, firstFile) =>
      if !ok then Failed(FailurePrefix + NatToString(status) + " - " + body)
      else if firstFile.Some? then Converted(firstFile.value.url, firstFile.value.fileSize)
      else Failed(NoConvertedFileMessage)
  }

  /** A non-ok reply fails with a message that starts with "Conversion failed: ", carries
      the status as a decimal numeral that reads back as the status, and ends with the body. */
  lemma NonOkMessage(status: nat, body: string, firstFile: Option<FileEntry>)
    ensures var r := Normalise(Response(false, status, body, firstFile));
      && r.Failed?
      && |FailurePrefix| + 3 + |body| < |r.error|
      && r.error[..|FailurePrefix|] == FailurePrefix
      && r.error[|r.error| - |body|..] == body
      && r.error[|r.error| - |body| - 3..|r.error| - |body|] == " - "
      && var numeral := r.error[|FailurePrefix|..|r.error| - |body| - 3];
         && numeral == NatToString(status)
         && (forall i :: 0 <= i < |numeral| ==> IsDigit(numeral[i]))
         && DecimalValue(numeral) == status
  {
    var digits := NatToString(status);
    var msg := FailurePrefix + digits + " - " + body;
    assert Normalise(Response(false, status, body, firstFile)).error == msg;
    assert msg[..|FailurePrefix|] == FailurePrefix;
    assert msg[|msg| - |body|..] == body;
    assert msg[|FailurePrefix|..|msg| - |body| - 3] == digits;
    assert msg[|msg| - |body| - 3..|msg| - |body|] == " - ";
    NatToStringRoundTrip(status);
  }

  /** An exception with an empty message falls back to "Failed to convert file."; any
      other exception message is returned as it is. */
  lemma ThrownMessage(message: string)
    ensures Normalise(Thrown(message)) ==
      Failed(if message == "" then DefaultFailureMessage else message)
  {
  }

  /** The whole action. The file is checked first, then the secret; only then is the
      provider asked, with the URL built from the file name and the target format. */
  function Convert(outputFormat: string, uploadedFile: Option<File>, secret: Option<string>,
                   provider: string -> Reply): (r: ConvertResult)
    ensures uploadedFile.None? ==> r == Failed(NoFileMessage)
    ensures uploadedFile.Some? && !Truthy(secret) ==> r == Failed(MissingSecretMessage)
    ensures r.Failed? ==> r.error != ""
  {
    match uploadedFile
    case None => Failed(NoFileMessage)
    case Some(file) =>
      if !Truthy(secret) then Failed(MissingSecretMessage)
      else
        var inputExt := InputExtension(file.name);
        var mapped := MapFormat(outputFormat);
        Normalise(provider(RequestURL(inputExt, mapped, secret.value)))
  }

  /** When a guard fails no request is issued: the result does not depend on the provider. */
  lemma GuardsIssueNoRequest(outputFormat: string, uploadedFile: Option<File>,
                             secret: Option<string>, p: string -> Reply, q: string -> Reply)
    requires uploadedFile.None? || !Truthy(secret)
    ensures Convert(outputFormat, uploadedFile, secret, p) == Convert(outputFormat, uploadedFile, secret, q)
  {
  }

  /** A conversion succeeds exactly when there is a file, a non-empty secret, and the
      provider answers the request URL with an ok reply that lists a first file;
      the download URL and size are then that entry's. */
  lemma ConvertSucceedsIff(outputFormat: string, uploadedFile: Option<File>,
                           secret: Option<string>, provider: string -> Reply)
    ensures var r := Convert(outputFormat, uploadedFile, secret, provider);
      r.Converted? ==> uploadedFile.Some? && Truthy(secret)
    ensures uploadedFile.Some? && Truthy(secret) ==>
      var r := Convert(outputFormat, uploadedFile, secret, provider);
      var reply := provider(RequestURL(InputExtension(uploadedFile.value.name),
                                       MapFormat(outputFormat), secret.value));
      && (r.Converted? <==> reply.Response? && reply.ok && reply.firstFile.Some?)
      && (r.Converted? ==>
            r.downloadURL == reply.firstFile.value.url && r.fileSize == reply.firstFile.value.fileSize)
  {
  }

  /** For a tile of the catalog the target segment of the URL is the tile's own type. */
  lemma CatalogRequest(e: FormatCatalog.FormatEntry, file: File, apiKey: string, provider: string -> Reply)
    requires e in FormatCatalog.Catalog && apiKey != ""
    ensures Convert(e.fileType, Some(file), Some(apiKey), provider) ==
      Normalise(provider(RequestURL(InputExtension(file.name), e.fileType, apiKey)))
  {
    CatalogTypesMapToThemselves();
  }
}
