/** The conversion panel (app/components/Settings.tsx): the format tiles, the
    `handleConvert` state machine over `idle | converting | success | error`, and
    the pure view mappings (button text and state, tile classes, result display). */
module Settings {
  import opened Shared
  import opened FormatCatalog
  import SendFile

  datatype ConversionStatus = Idle | Converting | Success | Error

  const NoDownloadURLMessage := "No download URL received from conversion service"

  /** The fields `handleConvert` writes: status, converted-file URL and error message. */
  datatype PanelState = PanelState(
    conversionStatus: ConversionStatus,
    convertedFileURL: Option<string>,
    errorMessage: Option<string>)

  /** What the panel can hold between events: no result while idle or converting,
      a download URL and no error on success, an error and no URL on failure. */
  predicate Coherent(s: PanelState) {
    match s.conversionStatus
    case Idle => s.convertedFileURL.None? && s.errorMessage.None?
    case Converting => s.convertedFileURL.None? && s.errorMessage.None?
    case Success => Truthy(s.convertedFileURL) && s.errorMessage.None?
    case Error => Truthy(s.errorMessage) && s.convertedFileURL.None?
  }

  /** The end of `handleConvert` once the action has answered, starting from the cleared
      `converting` state: an `error` field that is set becomes the error message; otherwise
      a set `downloadURL` becomes the converted-file URL; otherwise the panel reports that
      no download URL was received. */
  function Settle(result: SendFile.ConvertResult): (s: PanelState)
    ensures Coherent(s)
    ensures s.conversionStatus == Success || s.conversionStatus == Error
    ensures s.conversionStatus == Success <==> result.Converted? && Truthy(result.downloadURL)
    ensures s.conversionStatus == Success ==> s.convertedFileURL == result.downloadURL
    ensures result.Failed? && result.error != "" ==> s.errorMessage == Some(result.error)
    ensures !(result.Failed? && result.error != "") &&
            !(result.Converted? && Truthy(result.downloadURL)) ==>
      s.errorMessage == Some(NoDownloadURLMessage)
  {
    if result.Failed? && result.error != "" then
      PanelState(Error, None, Some(result.error))
    else if result.Converted? && Truthy(result.downloadURL) then
      PanelState(Success, result.downloadURL, None)
    else
      PanelState(Error, None, Some(NoDownloadURLMessage))
  }

  /** Over the action's real results the first branch fires for exactly the error shape:
      an error result ends in `error` carrying the action's own message. */
  lemma SettleAfterConvert(outputFormat: string, uploadedFile: Option<File>,
                           secret: Option<string>, provider: string -> SendFile.Reply)
    ensures var result := SendFile.Convert(outputFormat, uploadedFile, secret, provider);
      result.Failed? ==> Settle(result) == PanelState(Error, None, Some(result.error))
  {
  }

  /** `getConvertButtonText`. */
  function ConvertButtonText(status: ConversionStatus): string {
    match status
    case Converting => "Converting..."
    case Success => "Conversion Complete!"
    case Error => "Conversion Failed - Try Again"
    case Idle => "Convert"
  }

  /** Each status has its own button text; the plain "Convert" belongs to `idle` alone. */
  lemma ConvertButtonTextInjective(a: ConversionStatus, b: ConversionStatus)
    ensures ConvertButtonText(a) == ConvertButtonText(b) <==> a == b
    ensures ConvertButtonText(a) == "Convert" <==> a == Idle
  {
  }

  /** The button is rendered only once a format is selected. */
  predicate ButtonVisible(selectedFormat: string) {
    selectedFormat != ""
  }

  /** Every tile names a non-empty type, so clicking any tile brings up the convert button. */
  lemma TileClickShowsButton(k: int)
    requires 0 <= k < |Catalog|
    ensures ButtonVisible(Catalog[k].fileType)
  {
  }

  /** The button is disabled exactly while converting. */
  predicate ButtonDisabled(status: ConversionStatus) {
    status == Converting
  }

  /** Both sit inside the file box, which needs a file: the download link needs a URL and
      `success`, the error box an error message and `error`. */
  predicate ResultLinkVisible(uploadedFile: Option<File>, s: PanelState) {
    uploadedFile.Some? && Truthy(s.convertedFileURL) && s.conversionStatus == Success
  }

  predicate ErrorBoxVisible(uploadedFile: Option<File>, s: PanelState) {
    uploadedFile.Some? && Truthy(s.errorMessage) && s.conversionStatus == Error
  }

  /** With a file and a coherent panel the link shows exactly on success and the error box
      exactly on error, so after a conversion exactly one of them is on screen. */
  lemma DisplayFollowsStatus(uploadedFile: Option<File>, s: PanelState)
    requires uploadedFile.Some? && Coherent(s)
    ensures ResultLinkVisible(uploadedFile, s) <==> s.conversionStatus == Success
    ensures ErrorBoxVisible(uploadedFile, s) <==> s.conversionStatus == Error
  {
  }

  /** After any conversion the button is enabled again, so the user can retry, and its
      text reports the outcome rather than "Convert" or "Converting...". */
  lemma RetryEnabled(result: SendFile.ConvertResult)
    ensures !ButtonDisabled(Settle(result).conversionStatus)
    ensures ConvertButtonText(Settle(result).conversionStatus) !in {"Convert", "Converting..."}
  {
  }

  /** One entry of `themeMap`. */
  datatype ThemeStyle = ThemeStyle(
    border: string, bg: string, hover: string,
    selectedBorder: string, selectedBg: string, indicator: string)

  const BaseClasses := "cursor-pointer rounded-xl flex flex-col p-5 items-center border-2 transition-all duration-200"

  const ThemeMap: map<string, ThemeStyle> := map[
    "red" := ThemeStyle("border-red-500", "bg-red-500", "hover:bg-red-600 hover:border-red-300",
                        "border-red-300", "bg-red-600", "bg-red-300"),
    "blue" := ThemeStyle("border-blue-500", "bg-blue-500", "hover:bg-blue-600 hover:border-blue-300",
                         "border-blue-300", "bg-blue-600", "bg-blue-300"),
    "green" := ThemeStyle("border-green-500", "bg-green-500", "hover:bg-green-600 hover:border-green-300",
                          "border-green-300", "bg-green-600", "bg-green-300"),
    "yellow" := ThemeStyle("border-yellow-500", "bg-yellow-500", "hover:bg-yellow-600 hover:border-yellow-300",
                           "border-yellow-300", "bg-yellow-600", "bg-yellow-300")]

  /** `themeMap[theme] || themeMap.red`. */
  function ThemeStyleFor(theme: string): ThemeStyle {
    if theme in ThemeMap then ThemeMap[theme] else ThemeMap["red"]
  }

  /** `getThemeClasses`: the base classes, then border and background (their selected
      variants when the tile is selected), then the hover classes. */
  function ThemeClasses(theme: string, isSelected: bool): string {
    var style := ThemeStyleFor(theme);
    var border := if isSelected then style.selectedBorder else style.border;
    var bg := if isSelected then style.selectedBg else style.bg;
    BaseClasses + " " + (border + (" " + bg + " " + style.hover))
  }

  /** An unknown theme is drawn like "red"; no catalog entry needs that fallback. */
  lemma ThemeFallback(theme: string, isSelected: bool)
    ensures theme !in ThemeMap ==> ThemeClasses(theme, isSelected) == ThemeClasses("red", isSelected)
    ensures forall e :: e in Catalog ==> e.theme in ThemeMap
  {
  }

  /** For every theme, known or not, a selected tile looks different from an unselected one. */
  lemma {:induction false} SelectionIsVisible(theme: string)
    ensures ThemeClasses(theme, true) != ThemeClasses(theme, false)
  {
    var style := ThemeStyleFor(theme);
    var lead := BaseClasses + " ";
    assert |style.selectedBorder| == |style.border|;
    assert style.selectedBorder[|style.border| - 3] != style.border[|style.border| - 3];
    DifferAt(lead, style.selectedBorder, style.border,
             " " + style.selectedBg + " " + style.hover, " " + style.bg + " " + style.hover,
             |style.border| - 3);
  }

  lemma DifferAt(lead: string, x: string, y: string, xs: string, ys: string, k: int)
    requires |x| == |y| && 0 <= k < |x| && x[k] != y[k]
    ensures lead + (x + xs) != lead + (y + ys)
  {
    assert (lead + (x + xs))[|lead| + k] == x[k];
    assert (lead + (y + ys))[|lead| + k] == y[k];
  }

  /** Tile `i` is drawn as selected when the selected format is its type. */
  predicate TileSelected(selectedFormat: string, i: int)
    requires 0 <= i < |Catalog|
  {
    selectedFormat == Catalog[i].fileType
  }

  /** Whatever the selected format, at most one tile is drawn as selected; clicking tile `k`
      selects exactly tile `k`. */
  lemma {:induction false} OneTileSelected(selectedFormat: string, k: int)
    requires 0 <= k < |Catalog|
    ensures forall i, j ::
      (0 <= i < |Catalog| && 0 <= j < |Catalog| &&
       TileSelected(selectedFormat, i) && TileSelected(selectedFormat, j)) ==> i == j
    ensures forall i :: 0 <= i < |Catalog| ==> (TileSelected(Catalog[k].fileType, i) <==> i == k)
  {
    TypesDistinct();
  }

  /** The panel's own state. `uploadedFile` is a property handed down by the upload
      controller; the secret and the provider are what the server action reaches. */
  class Panel {
    var selectedFormat: string
    var conversionStatus: ConversionStatus
    var convertedFileURL: Option<string>
    var errorMessage: Option<string>

    function State(): PanelState
      reads this
    {
      PanelState(conversionStatus, convertedFileURL, errorMessage)
    }

    ghost predicate Valid()
      reads this
    {
      Coherent(State())
    }

    constructor ()
      ensures Valid()
      ensures selectedFormat == "" && State() == PanelState(Idle, None, None)
    {
      selectedFormat := "";
      conversionStatus := Idle;
      convertedFileURL := None;
      errorMessage := None;
    }

    /** A tile click: `setSelectedFormat(item.type)`, nothing else. */
    method SelectFormat(fileType: string)
      requires Valid()
      modifies this
      ensures Valid()
      ensures selectedFormat == fileType && State() == old(State())
    {
      selectedFormat := fileType;
    }

    /** The three setters before the action is awaited. */
    method BeginConversion()
      modifies this
      ensures Valid()
      ensures State() == PanelState(Converting, None, None)
      ensures selectedFormat == old(selectedFormat)
    {
      conversionStatus := Converting;
      errorMessage := None;
      convertedFileURL := None;
    }

    /** `handleConvert`: without a selected format or a file nothing changes; otherwise
        the panel passes through `converting` and ends as `Settle` says of the action's
        result for the selected format. */
    method HandleConvert(uploadedFile: Option<File>, secret: Option<string>,
                         provider: string -> SendFile.Reply)
      requires Valid()
      modifies this
      ensures Valid()
      ensures selectedFormat == old(selectedFormat)
      ensures selectedFormat == "" || uploadedFile.None? ==> State() == old(State())
      ensures selectedFormat != "" && uploadedFile.Some? ==>
        State() == Settle(SendFile.Convert(selectedFormat, uploadedFile, secret, provider))
    {
      if selectedFormat == "" || uploadedFile.None? {
        return;
      }
      BeginConversion();
      var result := SendFile.Convert(selectedFormat, uploadedFile, secret, provider);
      if result.Failed? && result.error != "" {
        conversionStatus := Error;
        errorMessage := Some(result.error);
      } else if result.Converted? && Truthy(result.downloadURL) {
        convertedFileURL := result.downloadURL;
        conversionStatus := Success;
      } else {
        conversionStatus := Error;
        errorMessage := Some(NoDownloadURLMessage);
      }
    }
  }
}
