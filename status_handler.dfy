/**
 * `get_status` of `handlers/status.rs`: load or create the settings, then
 * compare free storage and battery charge against their thresholds and ask
 * the package manager for updates unless updates are ignored. The storage
 * and power checks of this file are the same as those of `status.rs` and
 * are taken from the `Status` module.
 */
module StatusHandler {
  import opened Wrappers
  import Status
  import UpdateManager
  import Settings
  import Text

  /** `ServerStatus`. */
  datatype ServerStatus = ServerStatus(online: bool, upToDate: bool, lowStorage: bool, lowPower: bool)

  /** The `up_to_date` flag as written: true if updates are ignored, else `check_updates() == [("", "")]`. */
  function UpToDateAsWritten(ignoreUpdate: bool, manager: Option<string>, run: string -> Option<string>): bool {
    if ignoreUpdate then true else UpdateManager.CheckUpdates(manager, run) == [("", "")]
  }

  /** The storage check needs some available space and a small enough quotient. */
  predicate StorageDefined(disks: seq<Status.Disk>) {
    Status.AvailableSpace(disks) > 0 && Status.RatioByte(Status.TotalSpace(disks), Status.AvailableSpace(disks)) <= 100
  }

  /** The status `get_status` reports once it has the settings. */
  function StatusWith(settings: Settings.Settings, disks: seq<Status.Disk>, battery: Status.BatteryQuery,
                      manager: Option<string>, run: string -> Option<string>): (r: Result<ServerStatus, string>)
    requires StorageDefined(disks)
    ensures r.Ok? <==> Status.CheckPower(battery).Ok?
    ensures r.Err? ==> r.error == Status.CheckPower(battery).error
    ensures r.Ok? ==> r.value.online
    ensures r.Ok? ==> (r.value.lowStorage <==> Status.CheckStorage(disks) < settings.thresholds.lowStorage)
    ensures r.Ok? ==> (r.value.lowPower <==> Status.CheckPower(battery).value < settings.thresholds.lowPower)
    ensures r.Ok? && settings.ignoreUpdate ==> r.value.upToDate
  {
    var lowStorage := Status.CheckStorage(disks) < settings.thresholds.lowStorage;
    match Status.CheckPower(battery)
    case Err(e) => Err(e)
    case Ok(power) =>
      Ok(ServerStatus(true, UpToDateAsWritten(settings.ignoreUpdate, manager, run), lowStorage, power < settings.thresholds.lowPower))
  }

  /**
   * Since `check_updates` never yields the pair of empty strings, the
   * reported status is up to date only when updates are ignored.
   */
  lemma UpToDateOnlyWhenIgnored(settings: Settings.Settings, disks: seq<Status.Disk>, battery: Status.BatteryQuery,
                                manager: Option<string>, run: string -> Option<string>)
    requires StorageDefined(disks)
    ensures var r := StatusWith(settings, disks, battery, manager, run);
      r.Ok? ==> (r.value.upToDate <==> settings.ignoreUpdate)
  {
    UpdateManager.NeverEmptyPair(manager, run);
  }

  /** The flag as evidently intended: up to date when updates are ignored or none are listed. */
  function UpToDateIntended(ignoreUpdate: bool, manager: Option<string>, run: string -> Option<string>): bool {
    ignoreUpdate || UpdateManager.CheckUpdates(manager, run) == []
  }

  /**
   * With the intended flag, a package manager that lists the updates `pairs`
   * makes the system up to date exactly when that list is empty, while the
   * flag as written stays false even then.
   */
  lemma IntendedUpToDate(manager: string, command: string, run: string -> Option<string>, pairs: seq<(string, string)>)
    requires UpdateManager.CheckCommand(manager) == Some(command)
    requires run(command) == Some(Text.Terminated(UpdateManager.UpdateLines(pairs)))
    requires UpdateManager.AllWords(pairs)
    ensures UpToDateIntended(false, Some(manager), run) <==> pairs == []
    ensures !UpToDateAsWritten(false, Some(manager), run)
  {
    UpdateManager.CheckUpdatesRuns(manager, command, run);
    UpdateManager.UpdateOutputParses(pairs);
    UpdateManager.NeverEmptyPair(Some(manager), run);
  }

  /**
   * `get_status`: a settings failure or a power failure is reported as its
   * message and nothing else is computed; otherwise the status of the
   * loaded (or freshly created) settings.
   */
  method GetStatus(file: Settings.SettingsFile, save: Settings.SaveOutcome, disks: seq<Status.Disk>,
                   battery: Status.BatteryQuery, manager: Option<string>, run: string -> Option<string>)
    returns (r: Result<ServerStatus, string>)
    requires StorageDefined(disks)
    modifies file
    ensures var (loaded, after) := Settings.GetOrCreate(old(file.file), save);
      && file.file == after
      && (loaded.Err? ==> r == Err(Settings.Display(loaded.error)))
      && (loaded.Ok? ==> r == StatusWith(loaded.value, disks, battery, manager, run))
  {
    var settings := file.GetOrCreateSettings(save);
    if settings.Err? {
      return Err(Settings.Display(settings.error));
    }
    r := StatusWith(settings.value, disks, battery, manager, run);
  }
}
