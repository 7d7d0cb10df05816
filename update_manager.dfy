/**
 * Package-manager selection and the parsing of its output
 * (`update_manager.rs`). Which binaries exist is the set `installed`; running
 * `sh -c <command>` is the parameter `run`, whose `None` stands for a
 * command that could not be started.
 */
module UpdateManager {
  import opened Wrappers
  import Text

  /** The probe table, in the order it is searched: binary path, manager name. */
  const Managers: seq<(string, string)> := [
    ("/usr/bin/apt", "apt"),
    ("/usr/bin/dnf", "dnf"),
    ("/usr/bin/yum", "yum"),
    ("/usr/bin/zypper", "zypper"),
    ("/usr/bin/pacman", "pacman")
  ]

  predicate KnownManager(name: string) {
    name == "apt" || name == "dnf" || name == "yum" || name == "zypper" || name == "pacman"
  }

  /** The manager `detect_package_manager` settles on, searching `Managers` from index `from`. */
  function DetectedFrom(installed: set<string>, from: nat): (r: Option<string>)
    requires from <= |Managers|
    ensures r.Some? ==> KnownManager(r.value)
    decreases |Managers| - from
  {
    if from == |Managers| then None
    else if Managers[from].0 in installed then Some(Managers[from].1)
    else DetectedFrom(installed, from + 1)
  }

  function Detected(installed: set<string>): Option<string> {
    DetectedFrom(installed, 0)
  }

  /** The first binary in table order that exists wins; none existing means `None`. */
  lemma {:induction false} DetectedFromFirstMatch(installed: set<string>, from: nat)
    requires from <= |Managers|
    ensures DetectedFrom(installed, from).None? <==> forall i :: from <= i < |Managers| ==> Managers[i].0 !in installed
    ensures DetectedFrom(installed, from).Some? ==>
      exists i :: from <= i < |Managers| && Managers[i].0 in installed
                  && DetectedFrom(installed, from).value == Managers[i].1
                  && forall j :: from <= j < i ==> Managers[j].0 !in installed
    decreases |Managers| - from
  {
    if from < |Managers| && Managers[from].0 !in installed {
      DetectedFromFirstMatch(installed, from + 1);
    }
  }

  /** `detect_package_manager`: a search loop that returns at the first existing binary. */
  method DetectPackageManager(installed: set<string>) returns (r: Option<string>)
    ensures r == Detected(installed)
    ensures r.None? <==> forall i :: 0 <= i < |Managers| ==> Managers[i].0 !in installed
  {
    DetectedFromFirstMatch(installed, 0);
    for i := 0 to |Managers|
      invariant DetectedFrom(installed, i) == Detected(installed)
    {
      var (path, name) := Managers[i];
      if path in installed {
        return Some(name);
      }
    }
    return None;
  }

  /** The command that lists installed packages, one per line. */
  function ListCommand(manager: string): Option<string> {
    if manager == "apt" then Some("dpkg --get-selections | awk '{print $1}'")
    else if manager == "dnf" then Some("dnf list installed | awk '{print $1}' | tail -n +2")
    else if manager == "yum" then Some("yum list installed | awk '{print $1}' | tail -n +2")
    else if manager == "zypper" then Some("zypper se --installed-only | awk '{print $2}'")
    else if manager == "pacman" then Some("pacman -Q | awk '{print $1}'")
    else None
  }

  /** The command that lists available updates as `name version` lines. */
  function CheckCommand(manager: string): Option<string> {
    if manager == "apt" then Some("apt list --upgradable | awk -F'/' '{print $1, $2}' | tail -n +2")
    else if manager == "dnf" then Some("dnf check-update | awk '{print $1, $2}' | tail -n +2")
    else if manager == "yum" then Some("yum check-update | awk '{print $1, $2}' | tail -n +2")
    else if manager == "zypper" then Some("zypper list-updates | awk '{print $2, $3}'")
    else if manager == "pacman" then Some("pacman -Qu | awk '{print $1, $2}'")
    else None
  }

  /** The command that upgrades everything. */
  function UpgradeCommand(manager: string): Option<string> {
    if manager == "apt" then Some("apt update && apt upgrade -y")
    else if manager == "dnf" then Some("dnf upgrade -y")
    else if manager == "yum" then Some("yum update -y")
    else if manager == "zypper" then Some("zypper refresh && zypper update -y")
    else if manager == "pacman" then Some("pacman -Syu --noconfirm")
    else None
  }

  /** The three command tables cover exactly the managers the probe can report. */
  lemma CommandsCoverKnownManagers(manager: string)
    ensures ListCommand(manager).Some? <==> KnownManager(manager)
    ensures CheckCommand(manager).Some? <==> KnownManager(manager)
    ensures UpgradeCommand(manager).Some? <==> KnownManager(manager)
  {
  }

  /** `list_installed_packages`: the command's output lines, in order. */
  function ListInstalledPackages(manager: Option<string>, run: string -> Option<string>): (r: seq<string>)
    ensures manager.None? || !KnownManager(manager.value) ==> r == []
    ensures manager.Some? && ListCommand(manager.value).Some? && run(ListCommand(manager.value).value).None? ==> r == []
    ensures forall i :: 0 <= i < |r| ==> '\n' !in r[i]
  {
    if manager.None? then []
    else match ListCommand(manager.value)
      case None => []
      case Some(command) =>
        match run(command)
        case None => []
        case Some(output) => Text.Lines(output)
  }

  /** The packages written one per line are listed back exactly. */
  lemma ListInstalledOf(manager: string, command: string, run: string -> Option<string>, packages: seq<string>)
    requires ListCommand(manager) == Some(command)
    requires run(command) == Some(Text.Terminated(packages))
    requires forall i :: 0 <= i < |packages| ==> Text.PlainLine(packages[i])
    ensures ListInstalledPackages(Some(manager), run) == packages
  {
    Text.LinesOfTerminated(packages);
  }

  /** The `filter_map` body: the first two whitespace-separated tokens of a line, if there are two. */
  function ParseUpdate(line: string): (r: Option<(string, string)>)
    ensures r.Some? <==> |Text.Tokens(line)| >= 2
    ensures r.Some? ==> r.value.0 == Text.Tokens(line)[0] && r.value.1 == Text.Tokens(line)[1]
  {
    var tokens := Text.Tokens(line);
    if |tokens| < 2 then None else Some((tokens[0], tokens[1]))
  }

  /** A package name or version the parser can produce. */
  predicate Word(w: string) {
    w != [] && Text.NoWhitespace(w)
  }

  /** Pairs the parser can produce: both parts are words. */
  predicate AllWords(pairs: seq<(string, string)>) {
    forall i :: 0 <= i < |pairs| ==> Word(pairs[i].0) && Word(pairs[i].1)
  }

  /** The parsed pairs of a list of lines, in order, lines with fewer than two tokens dropped. */
  function ParseLines(lines: seq<string>): (r: seq<(string, string)>)
    ensures |r| <= |lines|
    ensures forall i :: 0 <= i < |r| ==> Word(r[i].0) && Word(r[i].1)
  {
    if lines == [] then []
    else match ParseUpdate(lines[0])
      case None => ParseLines(lines[1..])
      case Some(pair) => [pair] + ParseLines(lines[1..])
  }

  /**
   * The parse works line by line: parsing a concatenation parses each part,
   * and a single line gives its first two tokens when it has two, whatever
   * follows them, and nothing otherwise. So the pairs come out in the order
   * of their lines, one per line with at least two tokens.
   */
  lemma {:induction false} ParseLinesConcat(a: seq<string>, b: seq<string>, line: string)
    ensures ParseLines(a + b) == ParseLines(a) + ParseLines(b)
    ensures ParseLines([line]) == (if ParseUpdate(line).Some? then [ParseUpdate(line).value] else [])
    decreases |a|
  {
    if a != [] {
      var ab := a + b;
      assert ab[0] == a[0] && ab[1..] == a[1..] + b;
      ParseLinesConcat(a[1..], b, line);
      if ParseUpdate(a[0]).Some? {
        assert ParseLines(ab) == [ParseUpdate(a[0]).value] + (ParseLines(a[1..]) + ParseLines(b));
      }
    } else {
      assert a + b == b;
    }
  }

  /** A line holding more than a name and a version, as apt's listing does, gives its first two tokens. */
  lemma ExtraTokensIgnored(name: string, version: string, rest: string)
    requires Word(name) && Word(version)
    ensures ParseLines([UpdateLine((name, version)) + " " + rest]) == [(name, version)]
  {
    var line := UpdateLine((name, version)) + " " + rest;
    LeadingTokens(name, version, rest);
    ParseLinesConcat([], [], line);
  }

  /** The tokens of `name version rest` start with the name and the version. */
  lemma LeadingTokens(name: string, version: string, rest: string)
    requires Word(name) && Word(version)
    ensures Text.Tokens(UpdateLine((name, version)) + " " + rest) == [name, version] + Text.Tokens(rest)
  {
    assert UpdateLine((name, version)) + " " + rest == name + " " + (version + " " + rest);
    Text.TokensOfWordSpace(name, version + " " + rest);
    Text.TokensOfWordSpace(version, rest);
  }

  /** `check_updates` applied to the command's output. */
  function ParseUpdates(output: string): (r: seq<(string, string)>)
    ensures AllWords(r) && |r| <= |Text.Lines(output)|
  {
    ParseLines(Text.Lines(output))
  }

  /** `check_updates`: empty for no or an unknown manager and for a command that cannot run. */
  function CheckUpdates(manager: Option<string>, run: string -> Option<string>): (r: seq<(string, string)>)
    ensures manager.None? || !KnownManager(manager.value) ==> r == []
    ensures manager.Some? && CheckCommand(manager.value).Some? && run(CheckCommand(manager.value).value).None? ==> r == []
    ensures forall i :: 0 <= i < |r| ==> Word(r[i].0) && Word(r[i].1)
  {
    if manager.None? then []
    else match CheckCommand(manager.value)
      case None => []
      case Some(command) => UpdatesFrom(run(command))
  }

  /** What `check_updates` makes of the command's result: nothing for a command that cannot run. */
  function UpdatesFrom(output: Option<string>): (r: seq<(string, string)>)
    ensures output.None? ==> r == []
    ensures AllWords(r)
  {
    match output
    case None => []
    case Some(text) => ParseUpdates(text)
  }

  /** Since no name is empty, `check_updates` can never answer the single pair of empty strings. */
  lemma NeverEmptyPair(manager: Option<string>, run: string -> Option<string>)
    ensures CheckUpdates(manager, run) != [("", "")]
  {
    var r := CheckUpdates(manager, run);
    if |r| == 1 {
      assert Word(r[0].0);
    }
  }

  /** The line `name version`, as the awk stage writes it. */
  function UpdateLine(pair: (string, string)): string {
    pair.0 + " " + pair.1
  }

  function UpdateLines(pairs: seq<(string, string)>): (ls: seq<string>)
    ensures |ls| == |pairs|
    ensures forall i :: 0 <= i < |pairs| ==> ls[i] == UpdateLine(pairs[i])
  {
    if pairs == [] then [] else [UpdateLine(pairs[0])] + UpdateLines(pairs[1..])
  }

  lemma UpdateLineTokens(pair: (string, string))
    requires Word(pair.0) && Word(pair.1)
    ensures Text.Tokens(UpdateLine(pair)) == [pair.0, pair.1]
    ensures Text.PlainLine(UpdateLine(pair))
  {
    var (name, version) := pair;
    Text.TokensOfWordSpace(name, version);
    Text.TokensOfWordThen(version, []);
    assert version + [] == version;
    UpdateLinePlain(name, version);
  }

  /** A line of two words holds no newline and does not end in a carriage return. */
  lemma UpdateLinePlain(name: string, version: string)
    requires Word(name) && Word(version)
    ensures Text.PlainLine(UpdateLine((name, version)))
  {
    var l := UpdateLine((name, version));
    assert Text.IsWhitespace('\n') && Text.IsWhitespace('\r');
    forall i | 0 <= i < |l|
      ensures l[i] != '\n'
    {
      if i < |name| {
        assert l[i] == name[i];
      } else if i > |name| {
        assert l[i] == version[i - |name| - 1];
      }
    }
    assert l[|l| - 1] == version[|version| - 1];
  }

  /** Every line with a name and a version is kept, so the parser gives back exactly the pairs. */
  lemma {:induction false} ParseLinesOf(pairs: seq<(string, string)>)
    requires forall i :: 0 <= i < |pairs| ==> Word(pairs[i].0) && Word(pairs[i].1)
    ensures ParseLines(UpdateLines(pairs)) == pairs
    decreases |pairs|
  {
    if pairs != [] {
      UpdateLineTokens(pairs[0]);
      var ls := UpdateLines(pairs);
      assert ls[1..] == UpdateLines(pairs[1..]);
      ParseLinesOf(pairs[1..]);
      assert pairs == [pairs[0]] + pairs[1..];
    }
  }

  /** For a known manager, `check_updates` is the parse of what its command prints. */
  lemma CheckUpdatesRuns(manager: string, command: string, run: string -> Option<string>)
    requires CheckCommand(manager) == Some(command)
    ensures CheckUpdates(Some(manager), run) == UpdatesFrom(run(command))
  {
  }

  /** The update listing of a package manager round-trips through the parser of `check_updates`. */
  lemma UpdateOutputParses(pairs: seq<(string, string)>)
    requires AllWords(pairs)
    ensures ParseUpdates(Text.Terminated(UpdateLines(pairs))) == pairs
  {
    var ls := UpdateLines(pairs);
    forall i | 0 <= i < |ls| ensures Text.PlainLine(ls[i]) {
      UpdateLineTokens(pairs[i]);
    }
    Text.LinesOfTerminated(ls);
    ParseLinesOf(pairs);
  }

  /** A package manager that lists `pairs` as `name version` lines gets exactly `pairs` from `check_updates`. */
  lemma CheckUpdatesOf(manager: string, command: string, run: string -> Option<string>, pairs: seq<(string, string)>)
    requires CheckCommand(manager) == Some(command)
    requires run(command) == Some(Text.Terminated(UpdateLines(pairs)))
    requires AllWords(pairs)
    ensures CheckUpdates(Some(manager), run) == pairs
  {
    CheckUpdatesRuns(manager, command, run);
    UpdateOutputParses(pairs);
  }

  /** A line with fewer than two tokens contributes nothing. */
  lemma DropsShortLine(line: string, rest: seq<string>)
    requires |Text.Tokens(line)| < 2
    ensures ParseLines([line] + rest) == ParseLines(rest)
  {
    assert ([line] + rest)[1..] == rest;
  }

  /** The line `update_packages` prints for one available update. */
  function Announcement(pair: (string, string)): string {
    "  " + pair.0 + " -> " + pair.1
  }

  /** The header and one line per update, in order. */
  method Announce(updates: seq<(string, string)>) returns (printed: seq<string>)
    ensures |printed| == |updates| + 1 && printed[0] == "Available updates:"
    ensures forall i :: 0 <= i < |updates| ==> printed[i + 1] == Announcement(updates[i])
  {
    printed := ["Available updates:"];
    for i := 0 to |updates|
      invariant |printed| == i + 1 && printed[0] == "Available updates:"
      invariant forall j :: 0 <= j < i ==> printed[j + 1] == Announcement(updates[j])
    {
      printed := printed + [Announcement(updates[i])];
    }
  }

  /**
   * `update_packages`: the lines it prints and the upgrade command it runs
   * (`None` when there is nothing to update). The manager is detected a
   * second time before upgrading; both detections see the same `installed`.
   */
  method UpdatePackages(installed: set<string>, run: string -> Option<string>)
    returns (printed: seq<string>, upgrade: Option<string>)
    ensures var updates := CheckUpdates(Detected(installed), run);
      && (updates == [] ==> printed == ["No updates available."] && upgrade == None)
      && (updates != [] ==>
            && Detected(installed).Some?
            && upgrade == UpgradeCommand(Detected(installed).value)
            && upgrade.Some?
            && |printed| == |updates| + 3
            && printed[0] == "Available updates:"
            && (forall i :: 0 <= i < |updates| ==> printed[i + 1] == Announcement(updates[i]))
            && printed[|printed| - 2..] == ["Updating packages...", "Update complete."])
  {
    var manager := DetectPackageManager(installed);
    var updates := CheckUpdates(manager, run);
    if updates == [] {
      return ["No updates available."], None;
    }
    printed := Announce(updates);
    var again := DetectPackageManager(installed);
    CommandsCoverKnownManagers(again.value);
    upgrade := UpgradeCommand(again.value);
    printed := printed + ["Updating packages...", "Update complete."];
  }
}
