/** The application's data model: output formats, queue entries and their
    status, and the user-configurable conversion options with their defaults. */
module State {
  import opened Common

  /** Output formats offered to the user. */
  datatype ImageFormat = Jpeg | Png | WebP

  /** `ImageFormat::ALL`, the order in which the format picker lists them. */
  const AllFormats: seq<ImageFormat> := [Jpeg, Png, WebP]

  /** `ImageFormat::default()`. */
  const DefaultFormat: ImageFormat := Jpeg

  /** `Display for ImageFormat`: the label shown in the user interface. */
  function FormatLabel(f: ImageFormat): string {
    match f
    case Jpeg => "JPG"
    case Png => "PNG"
    case WebP => "WebP"
  }

  /** Every format appears in `AllFormats`, exactly once. */
  lemma AllFormatsListsEachOnce(f: ImageFormat)
    ensures f in AllFormats
    ensures forall i, j :: 0 <= i < j < |AllFormats| ==> AllFormats[i] != AllFormats[j]
    ensures |AllFormats| == 3 && AllFormats[0] == DefaultFormat
  {
  }

  /** Labels tell formats apart, so the picker never shows two equal entries. */
  lemma FormatLabelInjective(f: ImageFormat, g: ImageFormat)
    requires FormatLabel(f) == FormatLabel(g)
    ensures f == g
  {
  }

  /** Processing status of a queued file. */
  datatype FileStatus = Pending | Processing | Done | Error(message: string)

  /** Queue entries are told apart by an identifier (a random UUID in the
      application; here any natural number chosen by the caller). */
  type Uuid = nat

  datatype FileItem = FileItem(id: Uuid, path: FilePath, status: FileStatus)

  /** `FileItem::new`: a fresh entry for `path`, waiting to be converted. */
  function NewFileItem(id: Uuid, path: FilePath): (r: FileItem)
    ensures r.path == path && r.id == id && r.status == Pending
  {
    FileItem(id, path, Pending)
  }

  type usize = n: nat | n <= UsizeMax

  /** User-configurable conversion options. Directories are kept as strings. */
  datatype ConversionOptions = ConversionOptions(
    format: ImageFormat,
    quality: byte,
    pngCompressed: bool,
    resize: bool,
    targetWidth: string,
    targetHeight: string,
    prefix: string,
    findPattern: string,
    replaceWith: string,
    autoSuffix: bool,
    useCustomOutput: bool,
    customOutputPath: Option<string>,
    keepMetadata: bool,
    generateLog: bool,
    addNumbering: bool,
    isDarkMode: bool,
    maxBatchSize: usize)

  /** `ConversionOptions::default()`. */
  function DefaultOptions(): ConversionOptions {
    ConversionOptions(
      format := Jpeg,
      quality := 80,
      pngCompressed := true,
      resize := false,
      targetWidth := "",
      targetHeight := "",
      prefix := "",
      findPattern := "",
      replaceWith := "",
      autoSuffix := false,
      useCustomOutput := false,
      customOutputPath := None,
      keepMetadata := false,
      generateLog := false,
      addNumbering := false,
      isDarkMode := false,
      maxBatchSize := 50)
  }

  /** The defaults: JPEG at quality 80, compressed PNG, batches of 50, every
      other switch off, every text empty and no output directory. */
  lemma DefaultOptionsValues()
    ensures var d := DefaultOptions();
      && d.format == DefaultFormat && d.quality == 80 && d.pngCompressed && d.maxBatchSize == 50
      && !d.resize && !d.autoSuffix && !d.useCustomOutput && !d.keepMetadata
      && !d.generateLog && !d.addNumbering && !d.isDarkMode
      && d.targetWidth == d.targetHeight == d.prefix == d.findPattern == d.replaceWith == ""
      && d.customOutputPath == None
  {
  }

  /** The application's state: the queue, the selection (indices into the
      queue), whether a batch is running, the options, and the drag in
      progress (the index being dragged and the index under the pointer). */
  class AppState {
    var files: seq<FileItem>
    var selectedIndices: set<nat>
    var isProcessing: bool
    var options: ConversionOptions
    var draggingIndex: Option<nat>
    var hoveredIndex: Option<nat>

    /** `AppState::default()`: an empty queue, nothing selected, idle, default
        options, no drag. */
    constructor ()
      ensures files == [] && selectedIndices == {} && !isProcessing
      ensures options == DefaultOptions()
      ensures draggingIndex == None && hoveredIndex == None
    {
      files := [];
      selectedIndices := {};
      isProcessing := false;
      options := DefaultOptions();
      draggingIndex := None;
      hoveredIndex := None;
    }
  }
}
