# c-file: upload and convert, modelled in Dafny

The application lets a user drop or pick a file, shows it with a local
"download original" link, offers five target formats as tiles, and sends the
file to the ConvertAPI service, then shows a download link for the converted
file or an error. This project models the logic under the interface:

- `FormatCatalog` (format_catalog.dfy): the constant tile list `ext`.
- `SendFile` (send_file.dfy): the server action `convertFileWithConvertAPI` as a
  pure total function. The network is a parameter `provider: string -> Reply`
  that maps the request URL to what `fetch` and the body read produced; a
  rejected promise or parse error is `Thrown(message)`. The secret
  `CONVERTAPI_SECRET` is an `Option<string>`.
- `Settings` (settings.dfy): the conversion panel. `Panel` is a class whose
  fields are the component's state hooks; `HandleConvert` updates them in the
  order of the setters and is proved against the pure `Settle`. Button text,
  button state, tile classes and result display are pure functions.
- `UploadFile` (upload_file.dfy): the upload controller. `Uploader` is a class
  with `status`, `uploadedFile`, `fileDataURL` and the file input's value; the
  handlers are methods proved against the pure `ProcessOutcome`. The file read
  and the simulated upload are outcome parameters. `ChooseThroughInput` stands
  for the browser around the hidden input: it fires `change` only when the
  chosen value differs from the input's current value, which is why
  `resetUpload` empties that value.
- `JsText` (js_text.dfy): the JavaScript string operations the action relies
  on: `split` with `pop`, `toLowerCase`, and number-to-decimal conversion.
- `Shared` (shared.dfy): `Option` for nullable values, the `File` record, and
  string truthiness.

Behaviour the model follows from the code:

- The source extension is `name.split('.').pop().toLowerCase() || 'pdf'`. A
  name without a dot yields the whole name lower-cased; "pdf" is used only when
  the text after the last dot is empty (an empty name, or one ending in a dot).
- Only the target format goes through `formatMap`; the source extension is sent
  as derived. Only "jpeg" is renamed (to "jpg"); every other string passes
  through unchanged, so every catalog type is sent as itself.
- A failed file read leaves the previous `fileDataURL` in place next to the new
  file; a failed simulated upload keeps the new one. Either way the status is
  `error`, so the original-file link is hidden.
- Drag-over and drag-leave set the status from any state. Over a finished
  upload this hides the reset button and the conversion panel while the file
  stays held.
- The panel reads the action's result through truthiness: an `error` field is
  checked first, then `downloadURL`. The action never returns an empty error
  message, so an error result always ends in `error` with the action's message.

## Model

| member | source | states |
|---|---|---|
| `FormatCatalog.CatalogShape` | app/data/types.ts:6-37 | the constant `Catalog` has five entries, in order pdf/red id 1, docx/blue id 2, xlsx/green id 3, pptx/red id 4, txt/yellow id 6 |
| `FormatCatalog.IdsDistinct` | app/data/types.ts:8-32 | the ids are pairwise distinct |
| `FormatCatalog.TypesDistinct` | app/data/types.ts:9-33 | the type strings are pairwise distinct |
| `JsText.Split` | app/actions/sendFile.ts:35 | `split` always yields at least one part, so the `pop()` that follows never meets an empty list; the rest of its meaning is `SplitFacts` |
| `JsText.SplitFacts` | app/actions/sendFile.ts:35 | no part contains the separator, joining the parts with the separator gives back the input, a string without the separator is its own single part, one with a separator has two parts or more, and the last part is the text after the last separator |
| `JsText.Pop` | app/actions/sendFile.ts:35 | `pop()` on the split is its last part; by `SplitFacts` and `LastPartUnique` that is the one text after the last separator (the optional chaining `?.` never fires because `split` never returns an empty list) |
| `JsText.LastPartUnique` | app/actions/sendFile.ts:35 | only one string is the text after the last separator, so `pop()` of the split is determined by that description |
| `JsText.SplitAround` | app/actions/sendFile.ts:35 | a law of `split`: a separator-free head, a separator and a tail split into the head followed by the tail's parts (the helper for reading the request URL back) |
| `JsText.ToLower` | app/actions/sendFile.ts:35 | the ASCII `toLowerCase` keeps the length, lower-cases each ASCII letter, leaves every other character and leaves no upper-case ASCII letter |
| `JsText.ToLowerIdempotent` | app/actions/sendFile.ts:35 | lower-casing twice equals lower-casing once |
| `JsText.ToLowerKeeps` | app/actions/sendFile.ts:35 | lower-casing neither adds nor removes a non-letter such as '.' |
| `JsText.NatToString` | app/actions/sendFile.ts:48 | the status numeral is non-empty, all digits, without a leading zero |
| `JsText.NatToStringRoundTrip` | app/actions/sendFile.ts:48 | reading the numeral back gives the status |
| `SendFile.MapFormat` | app/actions/sendFile.ts:23-36 | `formatMap[f]`, falling back to `f`, over the nine-key table `FormatMap` (lines 23-33): "jpeg" maps to "jpg" and every other string, key or not, to itself |
| `SendFile.MapFormatIdempotent` | app/actions/sendFile.ts:23-36 | mapping twice equals mapping once |
| `SendFile.CatalogTypesMapToThemselves` | app/actions/sendFile.ts:23-36 | every catalog type maps to itself; those that are keys are identity keys |
| `SendFile.InputExtension` | app/actions/sendFile.ts:35 | the extension is never empty and contains no '.' |
| `SendFile.InputExtensionSpec` | app/actions/sendFile.ts:35 | a dot-less non-empty name gives the name lower-cased; an empty name or one ending in '.' gives "pdf"; otherwise the text after the last '.' lower-cased |
| `SendFile.RequestURL` | app/actions/sendFile.ts:38-39 | the body is the template literal: endpoint, extension, "/to/", target, "?Secret=", key, with no encoding; what it yields is stated by `RequestURLPath` and `ExtensionCarriesUrlSyntax` |
| `SendFile.RequestURLPath` | app/actions/sendFile.ts:38-39 | when no piece holds a '/', the URL starts with the ConvertAPI endpoint and the text after it splits on '/' into the extension, "to", and the target followed by "?Secret=" and the key (a statement about the string, not about how a URL parser reads it) |
| `SendFile.ExtensionCarriesUrlSyntax` | app/actions/sendFile.ts:35-39 | the unencoded interpolation lets a file name put URL syntax into the request: "n.c#" gives the extension "c#", whose '#' stands right before "/to/" and so starts a fragment |
| `SendFile.Normalise` | app/actions/sendFile.ts:46-67 | the reply becomes exactly one shape; success iff the reply is ok and lists a first file, with that entry's URL and size; an ok reply without a first file fails with "No converted file found in response"; an error message is never empty |
| `SendFile.NonOkMessage` | app/actions/sendFile.ts:46-49 | a non-ok reply fails with "Conversion failed: ", then exactly `NatToString(status)` (which reads back as the status), then " - ", then the body |
| `SendFile.ThrownMessage` | app/actions/sendFile.ts:63-67 | a thrown error keeps its message, and an empty message becomes "Failed to convert file." |
| `SendFile.Convert` | app/actions/sendFile.ts:4-69 | no file gives "No file provided." whatever the secret; a file with a missing or empty secret gives the missing-secret error; any error message is non-empty |
| `SendFile.GuardsIssueNoRequest` | app/actions/sendFile.ts:8-15 | when a guard fails the result does not depend on the provider, so no request is made |
| `SendFile.ConvertSucceedsIff` | app/actions/sendFile.ts:12-61 | success only with a file and a non-empty secret, and then exactly when the provider answers the built URL with an ok reply listing a first file, whose URL and size the result carries |
| `SendFile.CatalogRequest` | app/actions/sendFile.ts:35-39 | for a catalog tile the request targets the tile's own type |
| `Settings.Settle` | app/components/Settings.tsx:102-115 | the panel ends in success or error and is coherent; success iff the result carries a truthy download URL, which is stored; a non-empty error is stored as the message; in every other case (an empty error or no truthy URL) the message is "No download URL received from conversion service" |
| `Settings.SettleAfterConvert` | app/components/Settings.tsx:99-104 | an error result of the action ends in `error` with exactly its message and no URL |
| `Settings.ConvertButtonText` | app/components/Settings.tsx:119-130 | the body is the switch of `getConvertButtonText`; `ConvertButtonTextInjective` and `RetryEnabled` state its properties |
| `Settings.ConvertButtonTextInjective` | app/components/Settings.tsx:119-130 | each status has its own button text and "Convert" belongs to idle alone |
| `Settings.ButtonVisible` | app/components/Settings.tsx:213 | the button is rendered exactly when a format is selected; `TileClickShowsButton` states that every tile click brings it up |
| `Settings.TileClickShowsButton` | app/components/Settings.tsx:172-177 | every catalog type is non-empty, so after clicking any tile the convert button is rendered |
| `Settings.ButtonDisabled` | app/components/Settings.tsx:227 | the button is disabled exactly while converting; `RetryEnabled` states it is enabled again after a conversion |
| `Settings.RetryEnabled` | app/components/Settings.tsx:213-229 | after a conversion the button is enabled and shows neither "Convert" nor "Converting..." |
| `Settings.ResultLinkVisible` | app/components/Settings.tsx:137-158 | the download link needs the file box (a file), a truthy URL and `success`; `DisplayFollowsStatus` states when it shows |
| `Settings.ErrorBoxVisible` | app/components/Settings.tsx:137-165 | the error box needs the file box (a file), a truthy message and `error`; `DisplayFollowsStatus` states when it shows |
| `Settings.DisplayFollowsStatus` | app/components/Settings.tsx:137-165 | with a file and a coherent panel the download link shows iff success and the error box iff error |
| `Settings.ThemeStyleFor` | app/components/Settings.tsx:32-76 | `themeMap[theme]`, falling back to `themeMap.red`, over the four-theme table; `ThemeFallback` states the fallback and that no catalog theme needs it |
| `Settings.ThemeClasses` | app/components/Settings.tsx:29-83 | the body is the `getThemeClasses` template; `SelectionIsVisible` states that selection always changes the classes |
| `Settings.ThemeFallback` | app/components/Settings.tsx:76 | an unknown theme is drawn as red, and every catalog theme is in the theme table |
| `Settings.SelectionIsVisible` | app/components/Settings.tsx:78-82 | a selected tile's classes differ from the unselected ones for every theme |
| `Settings.TileSelected` | app/components/Settings.tsx:172 | a tile is selected when the selected format equals its type; `OneTileSelected` states that at most one is |
| `Settings.OneTileSelected` | app/components/Settings.tsx:170-177 | at most one tile is drawn as selected, and clicking tile k selects exactly tile k |
| `Settings.Panel.constructor` | app/components/Settings.tsx:15-18 | no format selected, idle, no URL, no error |
| `Settings.Panel.SelectFormat` | app/components/Settings.tsx:177 | a tile click sets the selected format and changes nothing else |
| `Settings.Panel.BeginConversion` | app/components/Settings.tsx:91-93 | status converting, error and URL cleared, before the action is awaited |
| `Settings.Panel.HandleConvert` | app/components/Settings.tsx:85-117 | no format or no file changes nothing; otherwise the new state is `Settle` of the action's result for the selected format; the panel stays coherent |
| `UploadFile.DataURLOf` | app/components/UploadFile.tsx:61-79 | the read resolves iff it loaded a non-empty result, which is the data URL |
| `UploadFile.ProcessOutcome` | app/components/UploadFile.tsx:43-58 | the new file is held; success iff read and upload both succeed; a failed read keeps the previous data URL, a successful read stores its own; the result is consistent |
| `UploadFile.StatusColor` | app/components/UploadFile.tsx:107-120 | the body is the switch of `getStatusColor`; `StatusTextAndColorInjective` states that the colour determines the status |
| `UploadFile.StatusText` | app/components/UploadFile.tsx:122-135 | the body is the switch of `getStatusText`; `StatusTextAndColorInjective` states that the text determines the status and the default text is idle's alone |
| `UploadFile.StatusIcon` | app/components/UploadFile.tsx:162-167 | one icon per status, the folder for both idle and dragging, as `StatusTextAndColorInjective` states |
| `UploadFile.StatusTextAndColorInjective` | app/components/UploadFile.tsx:107-135 | text and colour each determine the status; the default text belongs to idle alone; idle and dragging share the folder icon |
| `UploadFile.OriginalLinkShown` | app/components/UploadFile.tsx:171-189 | the original-file link needs the file box (a file), a truthy data URL and `success`; `ViewsFollowStatus` states when it shows |
| `UploadFile.FinishedControlsShown` | app/components/UploadFile.tsx:204-215 | the reset button and the conversion panel are rendered exactly in `success` and `error`; `ViewsFollowStatus` states they only appear with a file |
| `UploadFile.ViewsFollowStatus` | app/components/UploadFile.tsx:171-214 | in a consistent state the original-file link shows iff success, and the panel is only shown with a file |
| `UploadFile.Uploader.constructor` | app/components/UploadFile.tsx:8-11 | idle, no file, no data URL, empty input |
| `UploadFile.Uploader.HandleDragOver` | app/components/UploadFile.tsx:13-17 | status dragging from any state, nothing else changes |
| `UploadFile.Uploader.HandleDragLeave` | app/components/UploadFile.tsx:19-23 | status idle from any state, nothing else changes |
| `UploadFile.Uploader.BeginUpload` | app/components/UploadFile.tsx:44-45 | the file is held and the status is uploading before the read |
| `UploadFile.Uploader.SettleUpload` | app/components/UploadFile.tsx:47-57 | after the read and upload the state is `ProcessOutcome` of the previous data URL and the held file |
| `UploadFile.Uploader.ProcessFile` | app/components/UploadFile.tsx:43-58 | the state becomes `ProcessOutcome` and stays consistent |
| `UploadFile.Uploader.HandleDrop` | app/components/UploadFile.tsx:25-34 | status idle first; no files changes nothing else; otherwise only the first file is processed |
| `UploadFile.Uploader.HandleFileInputChange` | app/components/UploadFile.tsx:36-41 | no files changes nothing; otherwise only the first file is processed |
| `UploadFile.Uploader.ChooseThroughInput` | app/components/UploadFile.tsx:196-201 | the input takes the chosen value; a choice equal to the old value, or a different one with no files, changes nothing else; a different one with files processes the first |
| `UploadFile.Uploader.ResetUpload` | app/components/UploadFile.tsx:137-144 | idle, no file, no data URL, empty input value |
| `UploadFile.ReselectAfterReset` | app/components/UploadFile.tsx:137-144 | after a reset, choosing the previously chosen value again is processed |

## Left out

- The multipart body (`FormData` with the file and `StoreFile`), `fetch` and the
  JSON parse: the provider is a function from the request URL to a reply.
- SendFile.RequestURL: the source interpolates the extension, the target and the secret without URL encoding, so a '#', '?' or backslash in any of them (a file name such as "n.c#") changes how the URL is parsed; the model treats the URL as a plain string, and `ExtensionCarriesUrlSyntax` exhibits the case.
- JsText.ToLower: models `toLowerCase` on ASCII only ('A'..'Z'); JavaScript also lower-cases other letters and may change the length ("İ" becomes two code units).
- Keys inherited from `Object.prototype` (such as "constructor") in `formatMap`
  and `themeMap`: the model treats them as absent; only catalog types reach them.
- Reply fields of other JSON types: `FileSize` is an integer and `Url` a string
  or absent.
- A rejected call to the server action itself, and the non-`Error` branch of the
  panel's catch (message "Conversion failed"): the action always returns here.
- `formatFileSize`: floating-point `Math.log`, `Math.pow` and `toFixed`.
- `simulateFileUpload`: its 2-second delay and 10% failure rate become the
  boolean `uploadOk`; `FileReader` becomes `ReadOutcome`.
- A null `files` list is treated like an empty one.
- Interleaving of overlapping asynchronous handlers: each handler is one atomic
  step sequence.
- The panel's state being discarded when the panel is unmounted: it is a separate
  object; the conditions under which it is shown are modelled.
- JSX, icons, the selection-indicator colours, the button's colour classes, the
  upper-cased format in the download label, and console logging.
- The `fileDataURL` property handed to the panel, which the panel never reads.
- The click that opens the file picker: only the chosen value and files are modelled.
- The save-to-disk action in app/actions/Test.ts and the static page parts
  (page.tsx, Header, Intro, Footer): no logic of the flow.
