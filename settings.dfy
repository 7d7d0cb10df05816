/**
 * The daemon's settings file (`settings.rs`): defaults, saving, loading and
 * the load-or-create fallback. The file `./settings.json` is an object
 * holding what a read of it would give; serde_json is uninterpreted, so a
 * file either decodes to the settings that were written or does not decode.
 */
module Settings {
  import opened Wrappers

  /** `Thresholds`: percentages below which storage or power count as low (`u8`). */
  datatype Thresholds = Thresholds(lowStorage: byte, lowPower: byte)

  /** `Paths`: where the TLS certificate and key live. */
  datatype Paths = Paths(certPath: string, keyPath: string)

  datatype Settings = Settings(thresholds: Thresholds, paths: Paths, ignoreUpdate: bool)

  /** `SettingError`; I/O and JSON errors are carried as their messages. */
  datatype SettingError = IOError(message: string) | JsonError(message: string)

  /** `Display for SettingError`: the underlying error's text. */
  function Display(e: SettingError): (r: string)
    ensures r == e.message
  {
    match e
    case IOError(m) => m
    case JsonError(m) => m
  }

  /** `Settings::default`. */
  function Default(): (s: Settings)
    ensures s.thresholds.lowStorage == 80 && s.thresholds.lowPower == 25
    ensures s.paths.certPath == "/" && s.paths.keyPath == "/"
    ensures !s.ignoreUpdate
  {
    Settings(Thresholds(80, 25), Paths("/", "/"), false)
  }

  /** What reading `./settings.json` gives. */
  datatype Contents = Holds(settings: Settings) | Garbled(jsonMessage: string) | Unreadable(ioMessage: string)

  /** How a save went: written, or failed at `File::create` or at `write_all`. */
  datatype SaveOutcome = Written | CreateFailed(message: string) | WriteFailed(message: string)

  /** `load_settings` on what the file holds (`None`: there is no file). */
  function Load(file: Option<Contents>): (r: Result<Settings, SettingError>)
    ensures file.None? ==> r.Err? && r.error.IOError?
    ensures r.Ok? <==> file.Some? && file.value.Holds?
    ensures r.Ok? ==> r.value == file.value.settings
  {
    match file
    case None => Err(IOError("No such file or directory"))
    case Some(Holds(s)) => Ok(s)
    case Some(Garbled(m)) => Err(JsonError(m))
    case Some(Unreadable(m)) => Err(IOError(m))
  }

  /** The file after `save_settings`: a failed `create` leaves it alone, a failed write leaves it garbled. */
  function AfterSave(file: Option<Contents>, s: Settings, outcome: SaveOutcome): Option<Contents> {
    match outcome
    case Written => Some(Holds(s))
    case CreateFailed(_) => file
    case WriteFailed(m) => Some(Garbled(m))
  }

  /** Loading what was saved gives the same settings back. */
  lemma LoadAfterSave(file: Option<Contents>, s: Settings)
    ensures Load(AfterSave(file, s, Written)) == Ok(s)
  {
  }

  /** `get_or_create_settings` as a function of the file and of how a save would go. */
  function GetOrCreate(file: Option<Contents>, outcome: SaveOutcome): (r: (Result<Settings, SettingError>, Option<Contents>))
    ensures Load(file).Ok? ==> r == (Load(file), file)
    ensures Load(file).Err? && outcome.Written? ==> r == (Ok(Default()), Some(Holds(Default())))
    ensures Load(file).Err? && !outcome.Written? ==> r == (Err(IOError(outcome.message)), AfterSave(file, Default(), outcome))
  {
    match Load(file)
    case Ok(s) => (Ok(s), file)
    case Err(_) =>
      match outcome
      case Written => (Ok(Default()), AfterSave(file, Default(), outcome))
      case CreateFailed(m) => (Err(IOError(m)), AfterSave(file, Default(), outcome))
      case WriteFailed(m) => (Err(IOError(m)), AfterSave(file, Default(), outcome))
  }

  /** Once a call succeeded, the file holds what it returned, so the next call returns the same and writes nothing. */
  lemma GetOrCreateStable(file: Option<Contents>, first: SaveOutcome, second: SaveOutcome)
    requires GetOrCreate(file, first).0.Ok?
    ensures var (r, file') := GetOrCreate(file, first);
      && file'.Some? && file'.value == Holds(r.value)
      && GetOrCreate(file', second) == (r, file')
  {
  }

  /** The settings file. */
  class SettingsFile {
    var file: Option<Contents>

    constructor(initial: Option<Contents>)
      ensures file == initial
    {
      file := initial;
    }

    /** `save_settings`: replace the file's contents with `s`. */
    method SaveSettings(s: Settings, outcome: SaveOutcome) returns (r: Result<(), SettingError>)
      modifies this
      ensures file == AfterSave(old(file), s, outcome)
      ensures outcome.Written? ==> r == Ok(()) && Load(file) == Ok(s)
      ensures !outcome.Written? ==> r == Err(IOError(outcome.message))
    {
      match outcome {
        case Written =>
          file := Some(Holds(s));
          r := Ok(());
        case CreateFailed(m) =>
          r := Err(IOError(m));
        case WriteFailed(m) =>
          file := Some(Garbled(m));
          r := Err(IOError(m));
      }
    }

    /** `load_settings` on this file: the settings it holds, or why it holds none. */
    function LoadSettings(): (r: Result<Settings, SettingError>)
      reads this
      ensures file.None? ==> r.Err? && r.error.IOError?
      ensures r.Ok? <==> file.Some? && file.value.Holds?
      ensures r.Ok? ==> r.value == file.value.settings
    {
      Load(file)
    }

    /** `get_or_create_settings`: the loaded settings, or the default written out and returned. */
    method GetOrCreateSettings(outcome: SaveOutcome) returns (r: Result<Settings, SettingError>)
      modifies this
      ensures (r, file) == GetOrCreate(old(file), outcome)
      ensures old(LoadSettings()).Ok? ==> r == old(LoadSettings()) && file == old(file)
    {
      var loaded := LoadSettings();
      if loaded.Ok? {
        return loaded;
      }
      var defaults := Default();
      var saved := SaveSettings(defaults, outcome);
      if saved.Err? {
        return Err(saved.error);
      }
      r := Ok(defaults);
    }
  }
}
