/** The upload controller (app/components/UploadFile.tsx): the drop zone's handlers,
    `processFile` and `resetUpload` over `idle | dragging | uploading | success | error`,
    and the pure view mappings (status text and colour, what is shown).

    The browser's file read and the simulated upload are outcomes given as parameters:
    `read` is how `FileReader.readAsDataURL` ended and `uploadOk` whether the simulated
    upload resolved. */
module UploadFile {
  import opened Shared

  datatype UploadStatus = Idle | Dragging | Uploading | Success | Error

  /** How the file read ended: `onload` with the reader's result, or `onerror`. */
  datatype ReadOutcome = Loaded(result: string) | ReadFailed

  /** `convertFileToDataURL`: resolves with the reader's result when it is non-empty and
      rejects on a read error or an empty result. */
  function DataURLOf(read: ReadOutcome): (url: Option<string>)
    ensures url.Some? <==> read.Loaded? && read.result != ""
    ensures url.Some? ==> url.value == read.result && Truthy(url)
  {
    match read
    case Loaded(result) => if result != "" then Some(result) else None
    case ReadFailed => None
  }

  /** The component's state apart from the file input's value. */
  datatype UploadView = UploadView(
    status: UploadStatus,
    uploadedFile: Option<File>,
    fileDataURL: Option<string>)

  /** What the handlers keep true: a file is held whenever an upload has started and not
      been reset, and a successful upload always has a data URL. (A drag started over a
      finished upload moves the status to `dragging` or `idle` and keeps the file.) */
  predicate Consistent(v: UploadView) {
    && (v.status.Uploading? || v.status.Success? || v.status.Error? ==> v.uploadedFile.Some?)
    && (v.status.Success? ==> Truthy(v.fileDataURL))
  }

  /** `processFile` after both awaits, from a state whose data URL was `previousDataURL`:
      the new file is held; the read's data URL replaces the old one only if the read
      succeeded; success needs both the read and the upload, anything else is `error`. */
  function ProcessOutcome(previousDataURL: Option<string>, file: File, read: ReadOutcome,
                          uploadOk: bool): (v: UploadView)
    ensures Consistent(v)
    ensures v.uploadedFile == Some(file)
    ensures v.status == Success || v.status == Error
    ensures v.status == Success <==> DataURLOf(read).Some? && uploadOk
    ensures DataURLOf(read).None? ==> v.fileDataURL == previousDataURL
    ensures DataURLOf(read).Some? ==> v.fileDataURL == DataURLOf(read)
  {
    match DataURLOf(read)
    case None => UploadView(Error, Some(file), previousDataURL)
    case Some(url) => UploadView(if uploadOk then Success else Error, Some(file), Some(url))
  }

  /** `getStatusText`. */
  function StatusText(status: UploadStatus): string {
    match status
    case Dragging => "📂 Drop file to upload..."
    case Uploading => "⏳ Uploading..."
    case Success => "✅ Upload successful!"
    case Error => "❌ Upload failed"
    case Idle => "📁 Drag & drop files here or click to browse"
  }

  /** `getStatusColor`. */
  function StatusColor(status: UploadStatus): string {
    match status
    case Dragging => "border-blue-500 bg-blue-50"
    case Uploading => "border-yellow-500 bg-yellow-50"
    case Success => "border-green-500 bg-green-50"
    case Error => "border-red-500 bg-red-50"
    case Idle => "border-gray-300 bg-white"
  }

  /** The icon above the status text: idle and dragging share the folder. */
  function StatusIcon(status: UploadStatus): string {
    match status
    case Uploading => "⏳"
    case Success => "✅"
    case Error => "❌"
    case Idle => "📁"
    case Dragging => "📁"
  }

  /** Text and colour each tell the status apart; the default text and colour belong to
      `idle` alone. */
  lemma StatusTextAndColorInjective(a: UploadStatus, b: UploadStatus)
    ensures StatusText(a) == StatusText(b) <==> a == b
    ensures StatusColor(a) == StatusColor(b) <==> a == b
    ensures StatusText(a) == StatusText(Idle) <==> a == Idle
    ensures StatusIcon(a) == StatusIcon(Idle) <==> a == Idle || a == Dragging
  {
  }

  /** The reset button and the conversion panel are rendered under one condition. */
  predicate FinishedControlsShown(status: UploadStatus) {
    status == Success || status == Error
  }

  /** The original-file link, inside the file box that needs a file. */
  predicate OriginalLinkShown(v: UploadView) {
    v.uploadedFile.Some? && Truthy(v.fileDataURL) && v.status == Success
  }

  /** In a consistent state the original-file link shows exactly on success, and the
      conversion panel is only ever handed a file, so its "no file" guard cannot fire. */
  lemma ViewsFollowStatus(v: UploadView)
    requires Consistent(v)
    ensures OriginalLinkShown(v) <==> v.status == Success
    ensures FinishedControlsShown(v.status) ==> v.uploadedFile.Some?
  {
  }

  class Uploader {
    var status: UploadStatus
    var uploadedFile: Option<File>
    var fileDataURL: Option<string>
    /** The hidden file input's `value`. */
    var inputValue: string

    function View(): UploadView
      reads this
    {
      UploadView(status, uploadedFile, fileDataURL)
    }

    ghost predicate Valid()
      reads this
    {
      Consistent(View())
    }

    constructor ()
      ensures Valid()
      ensures View() == UploadView(Idle, None, None) && inputValue == ""
    {
      status := Idle;
      uploadedFile := None;
      fileDataURL := None;
      inputValue := "";
    }

    /** Dragging over the zone shows `dragging`, whatever the status was. */
    method HandleDragOver()
      requires Valid()
      modifies this
      ensures Valid()
      ensures View() == old(View()).(status := Dragging) && inputValue == old(inputValue)
    {
      status := Dragging;
    }

    /** Leaving the zone shows `idle`, whatever the status was. */
    method HandleDragLeave()
      requires Valid()
      modifies this
      ensures Valid()
      ensures View() == old(View()).(status := Idle) && inputValue == old(inputValue)
    {
      status := Idle;
    }

    /** The two setters before the file is read. */
    method BeginUpload(file: File)
      modifies this
      ensures View() == old(View()).(status := Uploading, uploadedFile := Some(file))
      ensures inputValue == old(inputValue)
    {
      uploadedFile := Some(file);
      status := Uploading;
    }

    /** The awaited read and upload, and the setters that follow them. */
    method SettleUpload(read: ReadOutcome, uploadOk: bool)
      requires status == Uploading && uploadedFile.Some?
      modifies this
      ensures View() == ProcessOutcome(old(fileDataURL), old(uploadedFile).value, read, uploadOk)
      ensures inputValue == old(inputValue)
    {
      var dataURL := DataURLOf(read);
      if dataURL.None? {
        status := Error;
        return;
      }
      fileDataURL := dataURL;
      if uploadOk {
        status := Success;
      } else {
        status := Error;
      }
    }

    /** `processFile`: take the file, show `uploading`, then settle. */
    method ProcessFile(file: File, read: ReadOutcome, uploadOk: bool)
      modifies this
      ensures Valid()
      ensures View() == ProcessOutcome(old(fileDataURL), file, read, uploadOk)
      ensures inputValue == old(inputValue)
    {
      BeginUpload(file);
      SettleUpload(read, uploadOk);
    }

    /** A drop shows `idle`, then processes the first dropped file if there is one. */
    method HandleDrop(files: seq<File>, read: ReadOutcome, uploadOk: bool)
      requires Valid()
      modifies this
      ensures Valid()
      ensures inputValue == old(inputValue)
      ensures |files| == 0 ==> View() == old(View()).(status := Idle)
      ensures |files| > 0 ==> View() == ProcessOutcome(old(fileDataURL), files[0], read, uploadOk)
    {
      status := Idle;
      if |files| > 0 {
        ProcessFile(files[0], read, uploadOk);
      }
    }

    /** The input's change handler processes the first chosen file if there is one. */
    method HandleFileInputChange(files: seq<File>, read: ReadOutcome, uploadOk: bool)
      requires Valid()
      modifies this
      ensures Valid()
      ensures inputValue == old(inputValue)
      ensures |files| == 0 ==> View() == old(View())
      ensures |files| > 0 ==> View() == ProcessOutcome(old(fileDataURL), files[0], read, uploadOk)
    {
      if |files| > 0 {
        ProcessFile(files[0], read, uploadOk);
      }
    }

    /** The browser's side of choosing through the hidden input: it fires `change` only
        when the chosen value differs from the input's current value. */
    method ChooseThroughInput(value: string, files: seq<File>, read: ReadOutcome, uploadOk: bool)
      requires Valid()
      modifies this
      ensures Valid()
      ensures inputValue == value
      ensures value == old(inputValue) ==> View() == old(View())
      ensures value != old(inputValue) && |files| == 0 ==> View() == old(View())
      ensures value != old(inputValue) && |files| > 0 ==>
        View() == ProcessOutcome(old(fileDataURL), files[0], read, uploadOk)
    {
      if value != inputValue {
        inputValue := value;
        HandleFileInputChange(files, read, uploadOk);
      }
    }

    /** `resetUpload`: back to `idle` with no file, no data URL and an empty input. */
    method ResetUpload()
      modifies this
      ensures Valid()
      ensures View() == UploadView(Idle, None, None) && inputValue == ""
    {
      status := Idle;
      uploadedFile := None;
      fileDataURL := None;
      inputValue := "";
    }
  }

  /** After a reset the same file can be chosen again: the input was emptied, so choosing
      the previous (non-empty) value is processed instead of being ignored. */
  method ReselectAfterReset(u: Uploader, file: File, read: ReadOutcome, uploadOk: bool)
    requires u.Valid() && u.inputValue != ""
    modifies u
    ensures u.Valid()
    ensures u.View() == ProcessOutcome(None, file, read, uploadOk)
  {
    var previous := u.inputValue;
    u.ResetUpload();
    u.ChooseThroughInput(previous, [file], read, uploadOk);
  }
}
