/**
 * Account administration through system commands (`handlers/users.rs`):
 * `useradd` then `chpasswd`, `usermod` to add or remove a group, `groupadd`
 * and `userdel`. The commands are not run here; what each one reports is a
 * parameter, and every operation returns, beside its result, the argument
 * vectors of the commands it issued, in order.
 */
module UserAdmin {
  import opened Wrappers
  import Text
  import Utf8
  import RequestHandler

  /** A child's exit status: whether it succeeded and how `ExitStatus` displays. */
  datatype ExitStatus = ExitStatus(success: bool, text: string)

  /** What awaiting a command gave: an I/O error, or an exit status and captured stdout. */
  datatype Run = CannotStart(ioMessage: string) | Ran(status: ExitStatus, stdout: string)

  /** `ManagementError`; I/O and join errors are carried as their messages. */
  datatype ManagementError =
    | IOError(message: string)
    | ExitError(status: ExitStatus)
    | TaskError(message: string)
    | CommandFailed(message: string)

  const ExitPrefix: string := "Command failed with status: "

  /** `Display for ManagementError`: only an exit status gets a prefix. */
  function Display(e: ManagementError): (r: string)
    ensures e.ExitError? ==> |r| == |ExitPrefix| + |e.status.text| && r[..|ExitPrefix|] == ExitPrefix && r[|ExitPrefix|..] == e.status.text
    ensures e.CommandFailed? || e.IOError? || e.TaskError? ==> r == e.message
  {
    match e
    case CommandFailed(m) => m
    case IOError(m) => m
    case ExitError(s) => ExitPrefix + s.text
    case TaskError(m) => m
  }

  /** The line `create_user` feeds to `chpasswd`. */
  function ChpasswdLine(username: string, password: string): (line: string)
    ensures |line| == |username| + |password| + 2 && line[|line| - 1] == '\n'
  {
    username + ":" + password + "\n"
  }

  /**
   * `chpasswd` reads one `name:password` line and splits it at the first `:`,
   * so any username without `:` or line breaks and any password without line
   * breaks or a trailing carriage return reach it intact.
   */
  lemma ChpasswdLineParses(username: string, password: string)
    requires ':' !in username && '\n' !in username
    requires Text.PlainLine(password)
    ensures Text.Lines(ChpasswdLine(username, password)) == [username + ":" + password]
    ensures RequestHandler.SplitCredentials(username + ":" + password) == Some((username, password))
  {
    var entry := username + ":" + password;
    assert '\n' !in entry by {
      assert forall i :: 0 <= i < |entry| ==> entry[i] == (if i < |username| then username[i] else if i == |username| then ':' else password[i - |username| - 1]);
    }
    assert entry == [] || entry[|entry| - 1] != '\r' by {
      if password == [] { assert entry[|entry| - 1] == ':'; } else { assert entry[|entry| - 1] == password[|password| - 1]; }
    }
    assert ChpasswdLine(username, password) == Text.Terminated([entry]);
    Text.LinesOfTerminated([entry]);
    RequestHandler.SplitCredentialsOf(username, password);
  }

  /** What happened to the `chpasswd` child: it could not be spawned, or it ran. */
  datatype Chpasswd =
    | SpawnFailed(ioMessage: string)
    | Spawned(writeError: Option<string>, wait: Result<ExitStatus, string>)

  /** The effect of a status-only command on the operation's result. */
  function ExitResult(run: Run): (r: Result<(), ManagementError>)
    ensures r.Ok? <==> run.Ran? && run.status.success
    ensures run.CannotStart? ==> r == Err(IOError(run.ioMessage))
    ensures run.Ran? && !run.status.success ==> r == Err(ExitError(run.status))
  {
    match run
    case CannotStart(m) => Err(IOError(m))
    case Ran(status, _) => if status.success then Ok(()) else Err(ExitError(status))
  }

  /**
   * `create_user`: `sudo useradd -m <name>`; only if it succeeds, `sudo
   * chpasswd` with the `name:password` line on its stdin.
   */
  method CreateUser(username: string, password: string, useradd: Run, chpasswd: Chpasswd)
    returns (r: Result<(), ManagementError>, commands: seq<seq<string>>, stdin: string)
    ensures |commands| >= 1 && commands[0] == ["sudo", "useradd", "-m", username]
    ensures ExitResult(useradd).Err? ==> r == ExitResult(useradd) && commands == [commands[0]] && stdin == ""
    ensures ExitResult(useradd).Ok? ==> commands == [commands[0], ["sudo", "chpasswd"]]
    ensures ExitResult(useradd).Ok? && chpasswd.Spawned? ==> stdin == ChpasswdLine(username, password)
    ensures r.Ok? <==> ExitResult(useradd).Ok? && chpasswd.Spawned? && chpasswd.writeError.None?
                       && chpasswd.wait.Ok? && chpasswd.wait.value.success
    ensures ExitResult(useradd).Ok? && chpasswd.SpawnFailed? ==> r == Err(IOError(chpasswd.ioMessage))
    ensures ExitResult(useradd).Ok? && chpasswd.Spawned? && chpasswd.writeError.Some?
            ==> r == Err(IOError(chpasswd.writeError.value))
    ensures ExitResult(useradd).Ok? && chpasswd.Spawned? && chpasswd.writeError.None? && chpasswd.wait.Err?
            ==> r == Err(IOError(chpasswd.wait.error))
    ensures ExitResult(useradd).Ok? && chpasswd.Spawned? && chpasswd.writeError.None?
            && chpasswd.wait.Ok? && !chpasswd.wait.value.success
            ==> r == Err(ExitError(chpasswd.wait.value))
  {
    commands := [["sudo", "useradd", "-m", username]];
    stdin := "";
    match useradd {
      case CannotStart(m) =>
        return Err(IOError(m)), commands, stdin;
      case Ran(status, _) =>
        if !status.success {
          return Err(ExitError(status)), commands, stdin;
        }
    }
    commands := commands + [["sudo", "chpasswd"]];
    match chpasswd {
      case SpawnFailed(m) =>
        r := Err(IOError(m));
      case Spawned(writeError, wait) =>
        stdin := ChpasswdLine(username, password);
        if writeError.Some? {
          return Err(IOError(writeError.value)), commands, stdin;
        }
        match wait {
          case Err(m) =>
            r := Err(IOError(m));
          case Ok(status) =>
            r := if status.success then Ok(()) else Err(ExitError(status));
        }
    }
  }

  /** The members of a list of names that can be decoded as UTF-8 (`OsStr::to_str`), in order. */
  function DecodableNames(names: seq<seq<byte>>): (r: seq<string>)
    ensures |r| <= |names|
    ensures forall i :: 0 <= i < |r| ==> exists j :: 0 <= j < |names| && Utf8.Decode(names[j]) == Some(r[i])
  {
    if names == [] then []
    else
      var rest := DecodableNames(names[1..]);
      assert forall i :: 0 <= i < |rest| ==> exists j :: 0 <= j < |names| && Utf8.Decode(names[j]) == Some(rest[i]) by {
        forall i | 0 <= i < |rest| ensures exists j :: 0 <= j < |names| && Utf8.Decode(names[j]) == Some(rest[i]) {
          var j :| 0 <= j < |names[1..]| && Utf8.Decode(names[1..][j]) == Some(rest[i]);
          assert names[j + 1] == names[1..][j];
        }
      }
      match Utf8.Decode(names[0])
      case None => rest
      case Some(name) => [name] + rest
  }

  /**
   * The `filter_map` goes name by name, in order: a concatenation is decoded
   * part by part, and a single name is kept, decoded, exactly when it is
   * valid UTF-8.
   */
  lemma {:induction false} DecodableNamesConcat(a: seq<seq<byte>>, b: seq<seq<byte>>, n: seq<byte>)
    ensures DecodableNames(a + b) == DecodableNames(a) + DecodableNames(b)
    ensures DecodableNames([n]) == (if Utf8.Decode(n).Some? then [Utf8.Decode(n).value] else [])
    decreases |a|
  {
    if a != [] {
      var ab := a + b;
      assert ab[0] == a[0] && ab[1..] == a[1..] + b;
      DecodableNamesConcat(a[1..], b, n);
      if Utf8.Decode(a[0]).Some? {
        assert DecodableNames(ab) == [Utf8.Decode(a[0]).value] + (DecodableNames(a[1..]) + DecodableNames(b));
      }
    } else {
      assert a + b == b;
    }
  }

  /** Names stored as UTF-8 all come back, in order. */
  lemma {:induction false} DecodableNamesOfEncoded(names: seq<string>, stored: seq<seq<byte>>)
    requires |stored| == |names|
    requires forall i :: 0 <= i < |names| ==> stored[i] == Utf8.Encode(names[i])
    ensures DecodableNames(stored) == names
    decreases |names|
  {
    if names != [] {
      Utf8.DecodeEncode(names[0]);
      DecodableNamesOfEncoded(names[1..], stored[1..]);
      assert names == [names[0]] + names[1..];
    }
  }

  /** `list_users`, given the names of all accounts. */
  function ListUsers(accounts: seq<seq<byte>>): (r: Result<seq<string>, ManagementError>)
    ensures r == Ok(DecodableNames(accounts)) && |r.value| <= |accounts|
  {
    Ok(DecodableNames(accounts))
  }

  /** `list_group_members`, given the member list of the group if it exists: an unknown group has no members. */
  function ListGroupMembers(group: Option<seq<seq<byte>>>): (r: Result<seq<string>, ManagementError>)
    ensures r.Ok?
    ensures group.None? ==> r.value == []
    ensures group.Some? ==> r.value == DecodableNames(group.value)
  {
    match group
    case None => Ok([])
    case Some(members) => Ok(DecodableNames(members))
  }

  /** `filter(|g| g != group_name)`: the groups, in order, without `group`. */
  function Without(groups: seq<string>, group: string): (r: seq<string>)
    ensures |r| <= |groups|
    ensures forall x :: x in r <==> x in groups && x != group
  {
    if groups == [] then []
    else if groups[0] == group then Without(groups[1..], group)
    else [groups[0]] + Without(groups[1..], group)
  }

  /**
   * The filter works element by element: filtering a concatenation filters
   * each part, and a single group survives exactly when it is not the one
   * dropped. Together these fix the order and the repeats of what is kept.
   */
  lemma {:induction false} WithoutConcat(a: seq<string>, b: seq<string>, x: string, group: string)
    ensures Without(a + b, group) == Without(a, group) + Without(b, group)
    ensures Without([x], group) == (if x == group then [] else [x])
    decreases |a|
  {
    if a != [] {
      var ab := a + b;
      assert ab[0] == a[0] && ab[1..] == a[1..] + b;
      WithoutConcat(a[1..], b, x, group);
      if a[0] != group {
        assert Without(ab, group) == [a[0]] + (Without(a[1..], group) + Without(b, group));
      }
    } else {
      assert a + b == b;
    }
  }

  /** Dropping a group that is not there changes nothing. */
  lemma {:induction false} WithoutAbsent(groups: seq<string>, group: string)
    requires group !in groups
    ensures Without(groups, group) == groups
    decreases |groups|
  {
    if groups != [] {
      WithoutAbsent(groups[1..], group);
      assert groups == [groups[0]] + groups[1..];
    }
  }

  /** The group list `usermod -G` receives: the `id -nG` tokens without the group, joined by `,`. */
  function RemainingGroups(idOutput: string, group: string): (list: string)
    ensures list == [] <==> Without(Text.Tokens(idOutput), group) == []
  {
    var kept := Without(Text.Tokens(idOutput), group);
    assert kept != [] ==> kept[0] in Text.Tokens(idOutput) && kept[0] != [];
    Text.Join(kept, ",")
  }

  /** Group names as `id` prints them: non-empty, no whitespace, no comma. */
  predicate GroupName(g: string) {
    g != [] && Text.NoWhitespace(g) && ',' !in g
  }

  /**
   * The joined list has no leading or trailing separator, and splitting it at
   * `,` gives back exactly the remaining groups.
   */
  lemma RemainingGroupsSplit(idOutput: string, group: string)
    requires forall t :: t in Text.Tokens(idOutput) ==> ',' !in t
    requires Without(Text.Tokens(idOutput), group) != []
    ensures var list := RemainingGroups(idOutput, group);
      && list != [] && list[0] != ',' && list[|list| - 1] != ','
      && Text.SplitOn(list, ',') == Without(Text.Tokens(idOutput), group)
      && group !in Text.SplitOn(list, ',')
  {
    var kept := Without(Text.Tokens(idOutput), group);
    var list := Text.Join(kept, ",");
    assert forall i :: 0 <= i < |kept| ==> kept[i] in Text.Tokens(idOutput);
    Text.SplitOnJoin(kept, ',');
    JoinEnds(kept, ',');
    assert group !in kept;
  }

  lemma {:induction false} JoinEnds(ts: seq<string>, c: char)
    requires |ts| >= 1
    requires forall i :: 0 <= i < |ts| ==> ts[i] != [] && c !in ts[i]
    ensures var s := Text.Join(ts, [c]); s != [] && s[0] != c && s[|s| - 1] != c
    decreases |ts|
  {
    if |ts| > 1 {
      JoinEnds(ts[1..], c);
      var rest := Text.Join(ts[1..], [c]);
      assert Text.Join(ts, [c]) == ts[0] + [c] + rest;
      assert ts[0][0] in ts[0];
    } else {
      assert ts[0][0] in ts[0] && ts[0][|ts[0]| - 1] in ts[0];
    }
  }

  function AddFailed(username: string, group: string): (m: string)
    ensures Text.Contains(m, username) && Text.Contains(m, group)
  {
    var m := "Failed to add " + username + " to group " + group;
    Text.ContainsAt(m, 14, username);
    Text.ContainsAt(m, |m| - |group|, group);
    m
  }

  function RemoveFailed(username: string, group: string): (m: string)
    ensures Text.Contains(m, username) && Text.Contains(m, group)
  {
    var m := "Failed to remove " + username + " from group " + group;
    Text.ContainsAt(m, 17, username);
    Text.ContainsAt(m, |m| - |group|, group);
    m
  }

  function CreateGroupFailed(group: string): (m: string)
    ensures Text.Contains(m, group)
  {
    var m := "Failed to create group " + group;
    Text.ContainsAt(m, |m| - |group|, group);
    m
  }

  function DeleteFailed(username: string): (m: string)
    ensures Text.Contains(m, username)
  {
    var m := "Failed to delete user " + username;
    Text.ContainsAt(m, |m| - |username|, username);
    m
  }

  /** How `add`, `remove`, `create` and `delete` turn a command's report into a result. */
  function CheckedResult(run: Run, failure: string): (r: Result<(), ManagementError>)
    ensures run.CannotStart? ==> r == Err(IOError(run.ioMessage))
    ensures run.Ran? ==> (r.Ok? <==> run.status.success)
    ensures run.Ran? && !run.status.success ==> r == Err(CommandFailed(failure))
  {
    match run
    case CannotStart(m) => Err(IOError(m))
    case Ran(status, _) => if status.success then Ok(()) else Err(CommandFailed(failure))
  }

  /** `add_user_to_group`: `sudo usermod -a -G <group> <name>`. */
  function AddUserToGroup(username: string, group: string, usermod: Run): (out: (Result<(), ManagementError>, seq<string>))
    ensures out.1 == ["sudo", "usermod", "-a", "-G", group, username]
    ensures out.0 == CheckedResult(usermod, AddFailed(username, group))
  {
    (CheckedResult(usermod, AddFailed(username, group)), ["sudo", "usermod", "-a", "-G", group, username])
  }

  /** `create_group`: `sudo groupadd <group>`. */
  function CreateGroup(group: string, groupadd: Run): (out: (Result<(), ManagementError>, seq<string>))
    ensures out.1 == ["sudo", "groupadd", group]
    ensures out.0 == CheckedResult(groupadd, CreateGroupFailed(group))
  {
    (CheckedResult(groupadd, CreateGroupFailed(group)), ["sudo", "groupadd", group])
  }

  /** `delete_user`: `sudo userdel -r <name>`. */
  function DeleteUser(username: string, userdel: Run): (out: (Result<(), ManagementError>, seq<string>))
    ensures out.1 == ["sudo", "userdel", "-r", username]
    ensures out.0 == CheckedResult(userdel, DeleteFailed(username))
  {
    (CheckedResult(userdel, DeleteFailed(username)), ["sudo", "userdel", "-r", username])
  }

  /**
   * `remove_user_from_group`: `id -nG <name>`; if that fails, stop with
   * "Failed to get user's groups"; otherwise `sudo usermod -G <rest> <name>`.
   */
  method RemoveUserFromGroup(username: string, group: string, id: Run, usermod: Run)
    returns (r: Result<(), ManagementError>, commands: seq<seq<string>>)
    ensures |commands| >= 1 && commands[0] == ["id", "-nG", username]
    ensures id.CannotStart? ==> r == Err(IOError(id.ioMessage)) && |commands| == 1
    ensures id.Ran? && !id.status.success ==> r == Err(CommandFailed("Failed to get user's groups")) && |commands| == 1
    ensures id.Ran? && id.status.success ==>
      && commands == [commands[0], ["sudo", "usermod", "-G", RemainingGroups(id.stdout, group), username]]
      && r == CheckedResult(usermod, RemoveFailed(username, group))
  {
    commands := [["id", "-nG", username]];
    match id {
      case CannotStart(m) =>
        return Err(IOError(m)), commands;
      case Ran(status, stdout) =>
        if !status.success {
          return Err(CommandFailed("Failed to get user's groups")), commands;
        }
        var kept := Without(Text.Tokens(stdout), group);
        var list := Text.Join(kept, ",");
        commands := commands + [["sudo", "usermod", "-G", list, username]];
        match usermod {
          case CannotStart(m) =>
            r := Err(IOError(m));
          case Ran(s, _) =>
            r := if s.success then Ok(()) else Err(CommandFailed(RemoveFailed(username, group)));
        }
    }
  }

  /** `usermod -a -G group`: append the group to the supplementary list unless it is there. */
  function Appended(groups: seq<string>, group: string): (r: seq<string>)
    ensures group in r
    ensures forall x :: x in groups ==> x in r
  {
    if group in groups then groups else groups + [group]
  }

  /** What `id -nG` prints for an account: its primary group, then its supplementary groups. */
  function IdOutput(primary: string, supplementary: seq<string>): string {
    Text.Join([primary] + supplementary, " ")
  }

  /** Adding a group name to a list of group names gives a list of group names. */
  lemma AppendedNames(groups: seq<string>, group: string)
    requires GroupName(group)
    requires forall i :: 0 <= i < |groups| ==> GroupName(groups[i])
    ensures forall i :: 0 <= i < |Appended(groups, group)| ==> GroupName(Appended(groups, group)[i])
  {
    if group !in groups {
      var r := groups + [group];
      forall i | 0 <= i < |r| ensures GroupName(r[i]) {
        if i < |groups| {
          assert r[i] == groups[i];
        }
      }
    }
  }

  /**
   * The lifecycle the handler's test walks through: after an add the account
   * is in the group; after a remove (which rewrites the list from `id`'s
   * output) it is not, and it keeps every other group it had.
   */
  lemma Lifecycle(primary: string, supplementary: seq<string>, group: string)
    requires GroupName(primary) && GroupName(group) && primary != group
    requires forall i :: 0 <= i < |supplementary| ==> GroupName(supplementary[i])
    ensures var added := Appended(supplementary, group);
      && group in added
      && var after := Without(Text.Tokens(IdOutput(primary, added)), group);
      && group !in after
      && forall x :: x in after <==> x == primary || (x in supplementary && x != group)
  {
    var added := Appended(supplementary, group);
    AppendedNames(supplementary, group);
    var all := [primary] + added;
    forall i | 0 <= i < |all| ensures all[i] != [] && Text.NoWhitespace(all[i]) {
      if i > 0 {
        assert all[i] == added[i - 1];
      }
    }
    Text.TokensOfJoin(all);
    forall x ensures x in added <==> x in supplementary || x == group {
    }
  }
}
