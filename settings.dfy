/** Persisting the options in the `settings` key/value table: every option is
    stored as text under its own key, and read back with a fallback for keys
    that are missing or whose text does not parse. The database connection is
    the table object, or `null` when opening the database failed. */
module Settings {
  import opened Common
  import opened State

  /** The `settings` table (`key TEXT PRIMARY KEY, value TEXT NOT NULL`). */
  class SettingsTable {
    var rows: map<Key, string>

    /** A freshly created, empty table. */
    constructor ()
      ensures rows == map[]
    {
      rows := map[];
    }
  }

  /** The keys under which the options are stored. The find pattern and its
      replacement have none: they are never persisted. */
  datatype Key =
    | Format | Quality | PngCompressed | Resize | TargetWidth | TargetHeight
    | Prefix | AutoSuffix | KeepMetadata | UseCustomOutput | CustomOutputPath
    | GenerateLog | AddNumbering | IsDarkMode | MaxBatchSize

  /** The text of a key in the table. */
  function KeyName(k: Key): string {
    match k
    case Format => "format"
    case Quality => "quality"
    case PngCompressed => "png_compressed"
    case Resize => "resize"
    case TargetWidth => "target_width"
    case TargetHeight => "target_height"
    case Prefix => "prefix"
    case AutoSuffix => "auto_suffix"
    case KeepMetadata => "keep_metadata"
    case UseCustomOutput => "use_custom_output"
    case CustomOutputPath => "custom_output_path"
    case GenerateLog => "generate_log"
    case AddNumbering => "add_numbering"
    case IsDarkMode => "is_dark_mode"
    case MaxBatchSize => "max_batch_size"
  }

  /** Distinct keys are stored under distinct texts, so the table's text
      keys and this enumeration correspond one to one. */
  lemma KeyNameInjective(k: Key, l: Key)
    requires KeyName(k) == KeyName(l)
    ensures k == l
  {
    assert KeyName(k)[..2] == KeyName(l)[..2];
  }

  /** How a format is stored (its variant name, not its label). */
  function FormatText(f: ImageFormat): string {
    match f
    case Jpeg => "Jpeg"
    case Png => "Png"
    case WebP => "WebP"
  }

  /** How a stored format is read: anything unknown is JPEG. */
  function FormatFromText(v: string): ImageFormat {
    if v == "Png" then Png else if v == "WebP" then WebP else Jpeg
  }

  function FlagText(b: bool): string {
    if b then "true" else "false"
  }

  /** The text `save_settings` stores under key `k` for the options `o`. A
      missing output directory is stored as the empty string. */
  function StoredText(o: ConversionOptions, k: Key): string {
    match k
    case Format => FormatText(o.format)
    case Quality => NatToString(o.quality)
    case PngCompressed => FlagText(o.pngCompressed)
    case Resize => FlagText(o.resize)
    case TargetWidth => o.targetWidth
    case TargetHeight => o.targetHeight
    case Prefix => o.prefix
    case AutoSuffix => FlagText(o.autoSuffix)
    case KeepMetadata => FlagText(o.keepMetadata)
    case UseCustomOutput => FlagText(o.useCustomOutput)
    case CustomOutputPath => o.customOutputPath.GetOr("")
    case GenerateLog => FlagText(o.generateLog)
    case AddNumbering => FlagText(o.addNumbering)
    case IsDarkMode => FlagText(o.isDarkMode)
    case MaxBatchSize => NatToString(o.maxBatchSize)
  }

  /** The table contents after `save_settings`: a row for every key. */
  function EncodeSettings(o: ConversionOptions): (rows: map<Key, string>)
    ensures forall k: Key :: k in rows && rows[k] == StoredText(o, k)
  {
    map k: Key | true :: StoredText(o, k)
  }

  /** A flag is set exactly when its stored text is `"true"`. */
  function FlagOr(rows: map<Key, string>, key: Key, default: bool): bool {
    if key in rows then rows[key] == "true" else default
  }

  function TextOr(rows: map<Key, string>, key: Key, default: string): string {
    if key in rows then rows[key] else default
  }

  function FormatOr(rows: map<Key, string>, default: ImageFormat): ImageFormat {
    if Format in rows then FormatFromText(rows[Format]) else default
  }

  /** A stored quality that is not a `u8` reads as 80. */
  function QualityOr(rows: map<Key, string>, default: byte): byte {
    if Quality in rows then ParseUnsigned(rows[Quality], U8Max).GetOr(80) else default
  }

  /** An empty stored path means no output directory. */
  function OutputPathOr(rows: map<Key, string>, default: Option<string>): Option<string> {
    if CustomOutputPath in rows && rows[CustomOutputPath] != "" then Some(rows[CustomOutputPath]) else default
  }

  /** A stored batch size that is not a `usize` reads as 10. */
  function BatchSizeOr(rows: map<Key, string>, default: usize): usize {
    if MaxBatchSize in rows then ParseUnsigned(rows[MaxBatchSize], UsizeMax).GetOr(10) else default
  }

  /** The options `load_settings` reads from the table, field by field: each
      option keeps its default unless its key is present. The find pattern and
      its replacement are never read. */
  function DecodeSettings(rows: map<Key, string>): (r: ConversionOptions)
    ensures r.findPattern == "" && r.replaceWith == ""
    ensures r.customOutputPath != Some("")
  {
    var d := DefaultOptions();
    ConversionOptions(
      format := FormatOr(rows, d.format),
      quality := QualityOr(rows, d.quality),
      pngCompressed := FlagOr(rows, PngCompressed, d.pngCompressed),
      resize := FlagOr(rows, Resize, d.resize),
      targetWidth := TextOr(rows, TargetWidth, d.targetWidth),
      targetHeight := TextOr(rows, TargetHeight, d.targetHeight),
      prefix := TextOr(rows, Prefix, d.prefix),
      findPattern := d.findPattern,
      replaceWith := d.replaceWith,
      autoSuffix := FlagOr(rows, AutoSuffix, d.autoSuffix),
      useCustomOutput := FlagOr(rows, UseCustomOutput, d.useCustomOutput),
      customOutputPath := OutputPathOr(rows, d.customOutputPath),
      keepMetadata := FlagOr(rows, KeepMetadata, d.keepMetadata),
      generateLog := FlagOr(rows, GenerateLog, d.generateLog),
      addNumbering := FlagOr(rows, AddNumbering, d.addNumbering),
      isDarkMode := FlagOr(rows, IsDarkMode, d.isDarkMode),
      maxBatchSize := BatchSizeOr(rows, d.maxBatchSize))
  }

  /** `load_settings`: without a database the defaults are returned;
      otherwise the options are read from the table. */
  method LoadSettings(conn: SettingsTable?) returns (opts: ConversionOptions)
    ensures conn == null ==> opts == DefaultOptions()
    ensures conn != null ==> opts == DecodeSettings(conn.rows)
  {
    if conn == null {
      return DefaultOptions();
    }
    opts := ReadOptions(conn.rows);
  }

  /** The reads of `load_settings`: each option starts at its default and is
      overwritten when its key is in the table. (Each option is checked
      against its decoding as soon as it is read, which keeps the proof
      small.) */
  method ReadOptions(rows: map<Key, string>) returns (opts: ConversionOptions)
    ensures opts == DecodeSettings(rows)
  {
    var d := DefaultOptions();
    var format := d.format;
    if Format in rows {
      format := FormatFromText(rows[Format]);
    }
    assert format == FormatOr(rows, d.format);
    var quality: byte := d.quality;
    if Quality in rows {
      var q := ParseUnsigned(rows[Quality], U8Max);
      quality := if q.Some? then q.value else 80;
    }
    assert quality == QualityOr(rows, d.quality);
    var pngCompressed := d.pngCompressed;
    if PngCompressed in rows {
      pngCompressed := rows[PngCompressed] == "true";
    }
    assert pngCompressed == FlagOr(rows, PngCompressed, d.pngCompressed);
    var resize := d.resize;
    if Resize in rows {
      resize := rows[Resize] == "true";
    }
    assert resize == FlagOr(rows, Resize, d.resize);
    var targetWidth := d.targetWidth;
    if TargetWidth in rows {
      targetWidth := rows[TargetWidth];
    }
    assert targetWidth == TextOr(rows, TargetWidth, d.targetWidth);
    var targetHeight := d.targetHeight;
    if TargetHeight in rows {
      targetHeight := rows[TargetHeight];
    }
    assert targetHeight == TextOr(rows, TargetHeight, d.targetHeight);
    var prefix := d.prefix;
    if Prefix in rows {
      prefix := rows[Prefix];
    }
    assert prefix == TextOr(rows, Prefix, d.prefix);
    var autoSuffix := d.autoSuffix;
    if AutoSuffix in rows {
      autoSuffix := rows[AutoSuffix] == "true";
    }
    assert autoSuffix == FlagOr(rows, AutoSuffix, d.autoSuffix);
    var keepMetadata := d.keepMetadata;
    if KeepMetadata in rows {
      keepMetadata := rows[KeepMetadata] == "true";
    }
    assert keepMetadata == FlagOr(rows, KeepMetadata, d.keepMetadata);
    var useCustomOutput := d.useCustomOutput;
    if UseCustomOutput in rows {
      useCustomOutput := rows[UseCustomOutput] == "true";
    }
    assert useCustomOutput == FlagOr(rows, UseCustomOutput, d.useCustomOutput);
    var customOutputPath := d.customOutputPath;
    if CustomOutputPath in rows && rows[CustomOutputPath] != "" {
      customOutputPath := Some(rows[CustomOutputPath]);
    }
    assert customOutputPath == OutputPathOr(rows, d.customOutputPath);
    var generateLog := d.generateLog;
    if GenerateLog in rows {
      generateLog := rows[GenerateLog] == "true";
    }
    assert generateLog == FlagOr(rows, GenerateLog, d.generateLog);
    var addNumbering := d.addNumbering;
    if AddNumbering in rows {
      addNumbering := rows[AddNumbering] == "true";
    }
    assert addNumbering == FlagOr(rows, AddNumbering, d.addNumbering);
    var isDarkMode := d.isDarkMode;
    if IsDarkMode in rows {
      isDarkMode := rows[IsDarkMode] == "true";
    }
    assert isDarkMode == FlagOr(rows, IsDarkMode, d.isDarkMode);
    var maxBatchSize: usize := d.maxBatchSize;
    if MaxBatchSize in rows {
      var n := ParseUnsigned(rows[MaxBatchSize], UsizeMax);
      maxBatchSize := if n.Some? then n.value else 10;
    }
    assert maxBatchSize == BatchSizeOr(rows, d.maxBatchSize);
    opts := ConversionOptions(
      format, quality, pngCompressed, resize, targetWidth, targetHeight, prefix, d.findPattern, d.replaceWith,
      autoSuffix, useCustomOutput, customOutputPath, keepMetadata, generateLog, addNumbering, isDarkMode, maxBatchSize);
  }

  /** The table after the writes of `save_settings`, one per key, in the
      order they are issued, on top of whatever rows it held. `SavedRows`
      shows that this equals `EncodeSettings`, so the old rows never show
      through; `SaveSettings` itself is stated through `EncodeSettings`. */
  function Saved(rows: map<Key, string>, o: ConversionOptions): map<Key, string> {
    SavedFirst(rows, o)
      [AutoSuffix := FlagText(o.autoSuffix)][KeepMetadata := FlagText(o.keepMetadata)]
      [UseCustomOutput := FlagText(o.useCustomOutput)][CustomOutputPath := o.customOutputPath.GetOr("")]
      [GenerateLog := FlagText(o.generateLog)][AddNumbering := FlagText(o.addNumbering)]
      [IsDarkMode := FlagText(o.isDarkMode)][MaxBatchSize := NatToString(o.maxBatchSize)]
  }

  /** The table after the first seven writes, format to prefix. */
  function SavedFirst(rows: map<Key, string>, o: ConversionOptions): map<Key, string> {
    rows[Format := FormatText(o.format)][Quality := NatToString(o.quality)]
      [PngCompressed := FlagText(o.pngCompressed)][Resize := FlagText(o.resize)]
      [TargetWidth := o.targetWidth][TargetHeight := o.targetHeight][Prefix := o.prefix]
  }

  /** The keys of the first seven writes. */
  predicate WrittenFirst(k: Key) {
    k.Format? || k.Quality? || k.PngCompressed? || k.Resize? || k.TargetWidth? || k.TargetHeight? || k.Prefix?
  }

  lemma SavedFirstKey(rows: map<Key, string>, o: ConversionOptions, k: Key)
    requires WrittenFirst(k)
    ensures k in SavedFirst(rows, o) && SavedFirst(rows, o)[k] == StoredText(o, k)
  {
    match k
    case Format =>
    case Quality =>
    case PngCompressed =>
    case Resize =>
    case TargetWidth =>
    case TargetHeight =>
    case Prefix =>
  }

  /** The last eight writes leave the keys of the first seven alone. */
  lemma SavedKeepsFirst(rows: map<Key, string>, o: ConversionOptions, k: Key)
    requires WrittenFirst(k) && k in SavedFirst(rows, o)
    ensures k in Saved(rows, o) && Saved(rows, o)[k] == SavedFirst(rows, o)[k]
  {
  }

  lemma SavedLastKey(rows: map<Key, string>, o: ConversionOptions, k: Key)
    requires !WrittenFirst(k)
    ensures k in Saved(rows, o) && Saved(rows, o)[k] == StoredText(o, k)
  {
    match k
    case AutoSuffix =>
    case KeepMetadata =>
    case UseCustomOutput =>
    case CustomOutputPath =>
    case GenerateLog =>
    case AddNumbering =>
    case IsDarkMode =>
    case MaxBatchSize =>
  }

  /** Each key holds its encoded text after the writes. */
  lemma SavedKey(rows: map<Key, string>, o: ConversionOptions, k: Key)
    ensures k in Saved(rows, o) && Saved(rows, o)[k] == StoredText(o, k)
  {
    if WrittenFirst(k) {
      SavedFirstKey(rows, o, k);
      SavedKeepsFirst(rows, o, k);
    } else {
      SavedLastKey(rows, o, k);
    }
  }

  /** The writes cover every key, so what the table held before does not
      matter: afterwards it holds exactly the encoded options. */
  lemma SavedRows(rows: map<Key, string>, o: ConversionOptions)
    ensures Saved(rows, o) == EncodeSettings(o)
  {
    forall k: Key {
      SavedKey(rows, o, k);
    }
  }

  /** `save_settings`: writes (inserting or replacing) the row of every stored
      option, so that afterwards the table holds exactly the encoded options.
      Without a database nothing happens. */
  method SaveSettings(conn: SettingsTable?, o: ConversionOptions)
    modifies conn
    ensures conn != null ==> conn.rows == EncodeSettings(o)
  {
    if conn == null {
      return;
    }
    var rows := conn.rows;
    rows := rows[Format := FormatText(o.format)];
    rows := rows[Quality := NatToString(o.quality)];
    rows := rows[PngCompressed := FlagText(o.pngCompressed)];
    rows := rows[Resize := FlagText(o.resize)];
    rows := rows[TargetWidth := o.targetWidth];
    rows := rows[TargetHeight := o.targetHeight];
    rows := rows[Prefix := o.prefix];
    rows := rows[AutoSuffix := FlagText(o.autoSuffix)];
    rows := rows[KeepMetadata := FlagText(o.keepMetadata)];
    rows := rows[UseCustomOutput := FlagText(o.useCustomOutput)];
    rows := rows[CustomOutputPath := o.customOutputPath.GetOr("")];
    rows := rows[GenerateLog := FlagText(o.generateLog)];
    rows := rows[AddNumbering := FlagText(o.addNumbering)];
    rows := rows[IsDarkMode := FlagText(o.isDarkMode)];
    rows := rows[MaxBatchSize := NatToString(o.maxBatchSize)];
    SavedRows(conn.rows, o);
    conn.rows := rows;
  }

  /** Formats survive being stored. */
  lemma FormatTextRoundTrip(f: ImageFormat)
    ensures FormatFromText(FormatText(f)) == f
  {
  }

  /** A stored flag reads back as itself, whatever the default. */
  lemma FlagReadsBack(rows: map<Key, string>, k: Key, b: bool)
    requires k in rows && rows[k] == FlagText(b)
    ensures forall default :: FlagOr(rows, k, default) == b
  {
  }

  /** Saving then loading gives back the options, except the two that are
      never stored (they come back empty) and an empty output directory,
      which comes back as none. */
  lemma SettingsRoundTrip(o: ConversionOptions)
    ensures DecodeSettings(EncodeSettings(o)) ==
      o.(findPattern := "", replaceWith := "",
         customOutputPath := if o.customOutputPath == Some("") then None else o.customOutputPath)
  {
    StoredOptionsReadBack(o);
    StoredNumbersReadBack(o);
    StoredFlagsReadBack(o);
    StoredOutputFlagsReadBack(o);
  }

  lemma StoredOptionsReadBack(o: ConversionOptions)
    ensures var r := DecodeSettings(EncodeSettings(o));
      && r.format == o.format
      && r.targetWidth == o.targetWidth && r.targetHeight == o.targetHeight && r.prefix == o.prefix
      && r.customOutputPath == (if o.customOutputPath == Some("") then None else o.customOutputPath)
      && r.findPattern == "" && r.replaceWith == ""
  {
    var rows := EncodeSettings(o);
    assert rows[Format] == FormatText(o.format);
    FormatTextRoundTrip(o.format);
    assert rows[CustomOutputPath] == o.customOutputPath.GetOr("");
  }

  lemma StoredNumbersReadBack(o: ConversionOptions)
    ensures var r := DecodeSettings(EncodeSettings(o));
      r.quality == o.quality && r.maxBatchSize == o.maxBatchSize
  {
    ParseNatToString(o.quality, U8Max);
    ParseNatToString(o.maxBatchSize, UsizeMax);
  }

  lemma StoredFlagsReadBack(o: ConversionOptions)
    ensures var r := DecodeSettings(EncodeSettings(o));
      && r.pngCompressed == o.pngCompressed && r.resize == o.resize && r.autoSuffix == o.autoSuffix
      && r.keepMetadata == o.keepMetadata
  {
    var rows := EncodeSettings(o);
    FlagReadsBack(rows, PngCompressed, o.pngCompressed);
    FlagReadsBack(rows, Resize, o.resize);
    FlagReadsBack(rows, AutoSuffix, o.autoSuffix);
    FlagReadsBack(rows, KeepMetadata, o.keepMetadata);
  }

  lemma StoredOutputFlagsReadBack(o: ConversionOptions)
    ensures var r := DecodeSettings(EncodeSettings(o));
      && r.useCustomOutput == o.useCustomOutput && r.generateLog == o.generateLog
      && r.addNumbering == o.addNumbering && r.isDarkMode == o.isDarkMode
  {
    var rows := EncodeSettings(o);
    FlagReadsBack(rows, UseCustomOutput, o.useCustomOutput);
    FlagReadsBack(rows, GenerateLog, o.generateLog);
    FlagReadsBack(rows, AddNumbering, o.addNumbering);
    FlagReadsBack(rows, IsDarkMode, o.isDarkMode);
  }

  /** Every stored option comes back unchanged when the find pattern and its
      replacement are empty and the output directory is not the empty path. */
  lemma SettingsRoundTripExact(o: ConversionOptions)
    requires o.findPattern == "" && o.replaceWith == "" && o.customOutputPath != Some("")
    ensures DecodeSettings(EncodeSettings(o)) == o
  {
    SettingsRoundTrip(o);
  }

  /** An empty table yields the defaults. */
  lemma EmptyTableGivesDefaults()
    ensures DecodeSettings(map[]) == DefaultOptions()
  {
  }

  /** Fallbacks for unreadable numbers: a quality that is not a `u8` becomes
      80 and a batch size that is not a `usize` becomes 10, which is not the
      default of 50 that a missing batch size keeps. */
  lemma UnreadableNumbersFallBack(q: string, b: string)
    requires ParseUnsigned(q, U8Max).None? && ParseUnsigned(b, UsizeMax).None?
    ensures DecodeSettings(map[Quality := q]).quality == 80
    ensures DecodeSettings(map[MaxBatchSize := b]).maxBatchSize == 10
    ensures DecodeSettings(map[]).maxBatchSize == 50
  {
  }

  /** "300" is not a `u8`, so a stored quality of "300" reads as 80. */
  lemma QualityTextTooLarge()
    ensures ParseUnsigned("300", U8Max) == None
  {
    DigitsValueOfNatToString(300);
    assert NatToString(300) == "300";
  }

  /** "many" is not a number, so a stored batch size of "many" reads as 10. */
  lemma BatchTextNotANumber()
    ensures ParseUnsigned("many", UsizeMax) == None
  {
    assert !IsDigit("many"[1]);
    ParseRejectsNonNumbers("many", UsizeMax);
  }

  /** A stored quality of 255, above the slider's range, is taken as is. */
  lemma StoredQualityAboveRange()
    ensures DecodeSettings(map[Quality := "255"]).quality == 255
  {
    ParseNatToString(255, U8Max);
    assert NatToString(255) == "255";
  }

  /** A flag is read as set only from the exact text `"true"`. */
  lemma FlagsNeedExactTrue(v: string)
    ensures DecodeSettings(map[KeepMetadata := v]).keepMetadata <==> v == "true"
    ensures !DecodeSettings(map[Resize := "TRUE"]).resize
  {
  }
}
