# system_manager_server, modelled in Dafny

A model of the decision-making core of `system_manager_server`, a Linux
administration daemon written in Rust. It covers:

- the privileged shell session: the credential bracket under `USER_LOCK`,
  the `--login` choice and the per-frame dispatch;
- the `user:password` handshake on the raw socket;
- package-manager detection and update parsing;
- account administration through `useradd`, `chpasswd`, `usermod`, `id`,
  `groupadd` and `userdel`;
- PAM error classification and the administrator test;
- the daemon's own user database and its settings file;
- the storage, power and update flags of the status report;
- the plugin command registry;
- the handler error type.

Everything the daemon asks of the outside world enters the model as a
value: what a libc call or a spawned command answered, what a file held,
what PAM or Argon2 decided. The process credentials, the user database,
the settings file and a plugin's command table are objects whose methods
update them in place. The text handling is written over `seq<char>`:
`trim`, `split_whitespace`, `lines`, `split`, `join`. UTF-8 is modelled
over bytes, with proofs that decoding and encoding are inverse.

Modules, one per file: `Wrappers`, `Text`, `Utf8` (shared vocabulary),
`Shell`, `RequestHandler`, `Auth`, `UpdateManager`, `UserAdmin`, `Users`,
`Settings`, `Status`, `StatusHandler`, `Plugins`, `Handlers`.

## Model

| member | source | states |
|---|---|---|
| Shell.Process.Lock | src/handlers/shell.rs:15 | taking `USER_LOCK` requires it to be free, leaves the credentials alone and logs the acquisition |
| Shell.Process.GetEuid | src/handlers/shell.rs:17 | `geteuid` returns the effective uid and changes nothing |
| Shell.Process.GetEgid | src/handlers/shell.rs:18 | `getegid` returns the effective gid and changes nothing |
| Shell.Process.GetGroupsInto | src/handlers/shell.rs:21-25 | `getgroups` fills a buffer of exactly the group count with the supplementary groups, in place |
| Shell.Process.SetGroupsCall | src/handlers/shell.rs:31 | `setgroups` installs the list only when the kernel accepts, and reports 0 or -1 |
| Shell.Process.SetEuidCall | src/handlers/shell.rs:39 | `seteuid` changes the effective uid only when the kernel accepts, and never the groups or the gid |
| Shell.Process.Unlock | src/handlers/shell.rs:136 | dropping the guard frees the lock and leaves the credentials alone |
| Shell.TargetGroups | src/handlers/shell.rs:28-37 | the session switches to the account's groups, or to the empty list when they are unknown |
| Shell.BracketOutcome | src/handlers/shell.rs:17-40 | on both spawn outcomes, replaying the session's log leaves the effective gid at its entry value; uid and groups are back at their entry values whenever the two restoring calls succeed |
| Shell.BracketOrder | src/handlers/shell.rs:15-40 | the lock is the first and the last event; the groups are set before the uid is lowered; the uid is restored before the groups; unknown groups give the empty list |
| Shell.FileName | src/handlers/shell.rs:44 | `Path::file_name` yields a non-empty last component without `/` that is not `.` or `..` |
| Shell.FileNameInDirectory | src/handlers/shell.rs:44 | the file name of `dir/name` is `name` |
| Shell.LaunchArgs | src/handlers/shell.rs:43-49 | the shell is spawned with `--login` as the only argument exactly when its file name is `bash` |
| Shell.LoginOnlyForBash | src/handlers/shell.rs:47-49 | in any directory, `--login` is passed iff the shell's file name is exactly `bash` |
| Shell.Dispatch | src/handlers/shell.rs:96-106 | a Binary frame is forwarded with its data; Close, Text, Ping and Pong stop the loop |
| Shell.StopIndex | src/handlers/shell.rs:93-113 | the loop forwards every frame before the first non-binary frame or failed write, and stops there |
| Shell.PumpFrames | src/handlers/shell.rs:93-113 | exactly the binary frames before the stop point reach stdin, verbatim and in order; the frame that stops the loop is consumed |
| Shell.Capture | src/handlers/shell.rs:15-25 | the lock is taken before the uid, gid and groups are read; the captured uid and groups are the entry values |
| Shell.SwitchTo | src/handlers/shell.rs:27-40 | `setgroups` then `seteuid`, each taking effect only if accepted, the gid untouched |
| Shell.RunShell | src/handlers/shell.rs:42-128 | a failed spawn sends exactly one text frame `ERROR: failed to start shell: <reason>`; a started shell receives the forwarded frames and is reaped; credentials are untouched |
| Shell.RestoreAndRelease | src/handlers/shell.rs:130-136 | `seteuid(original)` then `setgroups(original)`, then the lock is released; return codes ignored |
| Shell.StartShell | src/handlers/shell.rs:14-137 | the whole session logs exactly the bracket sequence, keeps the gid, and ends with the uid and groups `FinalEuid`/`FinalGroups` give (the entry values when restoring succeeds) |
| RequestHandler.SplitCredentials | src/server/request_handler.rs:22-24 | no `:` gives nothing; otherwise the username holds no `:` and username, `:`, password rebuild the string |
| RequestHandler.SplitCredentialsOf | src/server/request_handler.rs:21-24 | any username without `:` and any password, `:`s included, are split back out exactly |
| RequestHandler.FirstHandshake | src/server/request_handler.rs:21-33 | a string without `:` yields `None` without authenticating |
| RequestHandler.HandshakeOf | src/server/request_handler.rs:25-31 | the handshake of `user:password` is `Some(account)` on authentication success and `None` on failure |
| RequestHandler.SocketHandle | src/server/request_handler.rs:35-64 | a read error or an empty read returns before decoding; an invalid buffer returns before the handshake; the whole two-byte buffer is decoded; the function returns right after the handshake; at most two characters reach it |
| RequestHandler.TwoByteBufferTruncates | src/server/request_handler.rs:38-50 | for a login such as `alice:secret` whose first two characters are ASCII and not `:`, the whole two-byte buffer decodes to just those two characters, which the handshake rejects without consulting PAM |
| RequestHandler.TruncatedLogin | src/server/request_handler.rs:35-64 | `socket_handle` as written ends such a login with no user, whatever PAM would answer |
| RequestHandler.SocketHandleFixed | src/server/request_handler.rs:38-57 | with a 1024-byte buffer and only the bytes read decoded, the handshake sees exactly what the client sent |
| RequestHandler.FixedHandshakeSeesCredentials | src/server/request_handler.rs:21-61 | with the corrected buffer, sending `user:password` yields PAM's verdict on that pair |
| Auth.FromPamError | src/auth.rs:28-36 | `User_Unknown` and `Auth_Err` become `Invaild`; every other code becomes `PamError` carrying the original error |
| Auth.InvalidExactlyForCredentialCodes | src/auth.rs:23-36 | `is_invaild` holds for a converted PAM error iff its code is one of the two credential codes |
| Auth.IsInvaild | src/auth.rs:23-27 | `is_invaild` holds exactly for the errors that render as `Invaild username or password` |
| Auth.AuthUser | src/auth.rs:38-45 | success iff PAM accepts, returning the looked-up account; every failure is the converted PAM error |
| Auth.Display | src/auth.rs:15-22 | `Invaild` renders as `Invaild username or password`; a PAM error as `Authenticate error: ` followed by exactly the PAM text |
| Auth.DisplayDistinguishes | src/auth.rs:15-22 | equal renderings mean the same variant, and the same PAM text |
| Auth.IsSudo | src/auth.rs:46-58 | true iff the group list is available and some group is named exactly `sudo` or `wheel` |
| Auth.ListContains | src/auth.rs:66 | true iff some entry of the leaders list equals the name |
| Auth.IsGroupLeader | src/auth.rs:60-67 | true iff the user's name is in the group's leaders list |
| UpdateManager.DetectedFrom | src/update_manager.rs:4-19 | whatever is detected is one of apt, dnf, yum, zypper, pacman |
| UpdateManager.DetectedFromFirstMatch | src/update_manager.rs:4-19 | the result is the first manager in table order whose binary exists; `None` iff none exists |
| UpdateManager.DetectPackageManager | src/update_manager.rs:4-19 | the search loop returns the first existing binary's manager, or `None` iff none exists |
| UpdateManager.CommandsCoverKnownManagers | src/update_manager.rs:36-43 | the list, check and upgrade command tables are defined exactly for the five detectable managers |
| UpdateManager.ListInstalledPackages | src/update_manager.rs:35-48 | no or an unknown manager gives the empty list, and so does a list command that cannot run; every entry is a line without `\n` |
| UpdateManager.ListInstalledOf | src/update_manager.rs:45-47 | packages printed one per line come back exactly, in order |
| UpdateManager.ParseUpdate | src/update_manager.rs:65-68 | a line gives a pair iff it has at least two whitespace tokens; the pair is the first two tokens |
| UpdateManager.ParseLines | src/update_manager.rs:62-69 | at most one pair per line; every name and version is non-empty and free of whitespace |
| UpdateManager.ParseLinesConcat | src/update_manager.rs:62-69 | the parse goes line by line, in output order: a concatenation parses part by part, and one line gives its first two tokens when it has two, whatever follows, and nothing otherwise |
| UpdateManager.ExtraTokensIgnored | src/update_manager.rs:53-67 | a line with a name, a version and more, as apt's listing prints, gives the name and the version |
| UpdateManager.LeadingTokens | src/update_manager.rs:66-67 | the tokens of `name version rest` start with the name and then the version |
| UpdateManager.ParseUpdates | src/update_manager.rs:61-70 | the parse of the command's output holds only word pairs, at most one per line |
| UpdateManager.CheckUpdates | src/update_manager.rs:51-72 | no or an unknown manager, or a check command that cannot run, gives the empty list; every name and version is a non-empty word |
| UpdateManager.UpdatesFrom | src/update_manager.rs:61-71 | a command that cannot run gives no updates; whatever is parsed holds only word pairs |
| UpdateManager.NeverEmptyPair | src/update_manager.rs:66-67 | `check_updates` never returns the single pair of empty strings |
| UpdateManager.ParseLinesOf | src/update_manager.rs:62-69 | lines `name version` parse back to exactly their pairs, in order |
| UpdateManager.UpdateOutputParses | src/update_manager.rs:62-70 | the output text made of `name version` lines parses back to exactly its pairs |
| UpdateManager.CheckUpdatesRuns | src/update_manager.rs:51-61 | for a known manager, `check_updates` is the parse of what its check command prints |
| UpdateManager.CheckUpdatesOf | src/update_manager.rs:51-72 | a manager that prints `pairs` as lines gets exactly `pairs` back |
| UpdateManager.DropsShortLine | src/update_manager.rs:65-68 | a line with fewer than two tokens contributes nothing |
| UpdateManager.Announce | src/update_manager.rs:83-86 | a header, then one `  pkg -> version` line per update, in order |
| UpdateManager.UpdatePackages | src/update_manager.rs:76-100 | no updates prints `No updates available.` and runs nothing; otherwise the upgrade command of the detected manager is run |
| UserAdmin.Display | src/handlers/users.rs:24-33 | only an exit status is prefixed, with `Command failed with status: `; `CommandFailed`, `IOError` and `TaskError` show their message alone |
| UserAdmin.ExitResult | src/handlers/users.rs:35-45 | a command that cannot start is an `IOError`; one that ran succeeds iff its status does, and otherwise is an `ExitError` with that status |
| UserAdmin.ChpasswdLine | src/handlers/users.rs:73 | the line is username, `:`, password and a final `\n` |
| UserAdmin.ChpasswdLineParses | src/handlers/users.rs:71-74 | the line is one line, and splitting it at the first `:` gives back the username and password |
| UserAdmin.CreateUser | src/handlers/users.rs:54-83 | `useradd` runs first; if it fails, the result is its error and `chpasswd` never runs; a `chpasswd` spawn, write or wait failure is an `IOError` with its message, a failing status an `ExitError` with that status; success iff both commands succeed and the line was written |
| UserAdmin.DecodableNames | src/handlers/users.rs:86-113 | every name kept is the UTF-8 decoding of a member, and no more names than members |
| UserAdmin.DecodableNamesConcat | src/handlers/users.rs:86-113 | the `filter_map` goes name by name, in order: a concatenation decodes part by part, and a single name is kept, decoded, exactly when it is valid UTF-8 |
| UserAdmin.DecodableNamesOfEncoded | src/handlers/users.rs:103-106 | names stored as UTF-8 all come back, in order |
| UserAdmin.ListUsers | src/handlers/users.rs:86-95 | listing succeeds with exactly the UTF-8-decodable account names, in order, at most one per account |
| UserAdmin.ListGroupMembers | src/handlers/users.rs:98-113 | an unknown group gives the empty list, not an error; a known one its decodable members |
| UserAdmin.Without | src/handlers/users.rs:150-153 | a group survives the filter iff it was in the list and differs from the removed group |
| UserAdmin.WithoutConcat | src/handlers/users.rs:150-153 | the filter goes group by group, in order: a concatenation filters part by part, and one group survives exactly when it is not the removed one, so order and repeats are kept |
| UserAdmin.WithoutAbsent | src/handlers/users.rs:150-153 | removing a group that is not there keeps the list unchanged, order included |
| UserAdmin.RemainingGroups | src/handlers/users.rs:149-155 | the list handed to `usermod -G` is empty exactly when no group is left after removing the group |
| UserAdmin.RemainingGroupsSplit | src/handlers/users.rs:150-155 | the joined list has no leading or trailing `,`; splitting it at `,` gives back the remaining groups, and the removed group is not among them |
| UserAdmin.AddFailed | src/handlers/users.rs:129-132 | the failure message names the user and the group |
| UserAdmin.RemoveFailed | src/handlers/users.rs:168-171 | the failure message names the user and the group |
| UserAdmin.CreateGroupFailed | src/handlers/users.rs:183-186 | the failure message names the group |
| UserAdmin.DeleteFailed | src/handlers/users.rs:200-203 | the failure message names the user |
| UserAdmin.CheckedResult | src/handlers/users.rs:126-133 | a command that cannot start is an I/O error; otherwise success iff the exit is a success, failure being `CommandFailed` with the given message |
| UserAdmin.AddUserToGroup | src/handlers/users.rs:116-134 | runs `sudo usermod -a -G <group> <user>`; a non-success exit is `CommandFailed` naming both |
| UserAdmin.CreateGroup | src/handlers/users.rs:174-188 | runs `sudo groupadd <group>`; a non-success exit is `CommandFailed` naming the group |
| UserAdmin.DeleteUser | src/handlers/users.rs:189-205 | runs `sudo userdel -r <user>`; a non-success exit is `CommandFailed` naming the user |
| UserAdmin.RemoveUserFromGroup | src/handlers/users.rs:137-173 | a failing `id -nG` gives `CommandFailed("Failed to get user's groups")` and no `usermod`; otherwise `usermod -G` receives the remaining groups |
| UserAdmin.Appended | src/handlers/users.rs:117-122 | after `usermod -a -G` the account is in the group and keeps its other groups |
| UserAdmin.Lifecycle | src/handlers/users.rs:254-268 | after an add the account is in the group; after the remove it is not, and it keeps every other group |
| Users.Response | src/users.rs:64-73 | 400 iff `PasswordError`, 404 iff `UserNotFound`, 500 for I/O and other errors |
| Users.Display | src/users.rs:53-62 | `IO Error: ` then the I/O message, `Password Error`, `User Not Found`, or the other error's message alone |
| Users.HashOrEmpty | src/users.rs:107-121 | the stored hash is the hasher's output, or the empty string when hashing failed |
| Users.SetAdmin | src/users.rs:147-149 | writing through `admin_mut` changes only the admin flag |
| Users.SetStorage | src/users.rs:151-153 | writing through `storage_mut` changes only the storage quota |
| Users.NewUser | src/users.rs:102-127 | a new user has the trimmed name, the hash of the trimmed password (empty on hash failure), no admin rights and 1073741824 bytes of storage |
| Users.Saved | src/users.rs:210-217 | saving puts the record under its trimmed name, overwriting, and leaves every other entry alone |
| Users.Read | src/users.rs:199-206 | a missing file is `UserNotFound`; a record is returned exactly as stored; unparsable JSON is `Other` and an unreadable file an I/O error, each with its message |
| Users.FetchFrom | src/users.rs:197-207 | the record under the trimmed name, or `UserNotFound` when there is none; in a store keyed by trimmed names the user found has the name asked for, up to whitespace |
| Users.LoginTo | src/users.rs:156-194 | a name with no stored record is `UserNotFound`; an unparsable or unreadable record passes its error through; a failed check is `PasswordError`; an accepted password returns the stored user unchanged, and only then is the result `Ok` |
| Users.SavedKeyedByName | src/users.rs:210-217 | saving keeps every entry under its own trimmed name |
| Users.FetchAfterSave | src/users.rs:197-217 | what was saved is fetched back, whatever whitespace surrounds the name asked for |
| Users.FetchOtherAfterSave | src/users.rs:210-217 | saving one user does not change what any other name fetches |
| Users.LoginDoesNotTrim | src/users.rs:157 | `login` does not trim, so a name with surrounding whitespace is not found |
| Users.LoginAfterNew | src/users.rs:102-194 | a new user logs in with the trimmed password exactly when Argon2 accepts it, and gets the stored record |
| Users.UserStore.Save | src/users.rs:210-218 | a successful save stores the record under its trimmed name; an I/O failure changes nothing |
| Users.UserStore.New | src/users.rs:102-131 | creates and saves the record, after which `fetch_user` of the name returns it |
| Users.UserStore.FetchUser | src/users.rs:197-207 | succeeds iff a record is stored under the trimmed name; in a valid store the user found bears that name, up to whitespace |
| Users.UserStore.Login | src/users.rs:156-194 | on this store: the record under exactly the given name when Argon2 accepts, `PasswordError` when it does not, the read error otherwise; in a valid store a name with surrounding whitespace is `UserNotFound` |
| Users.UserStore.ChangePassword | src/users.rs:221-243 | replaces only the hash, with the hash of the untrimmed new password, saves, and returns the plaintext |
| Users.UserStore.GetUsers | src/users.rs:247-261 | returns the fetched user of every listed entry, in order; on failure, the error is that of the first entry that fails, all earlier ones having fetched |
| Settings.Default | src/settings.rs:68-85 | defaults are `low_storage` 80, `low_power` 25, both paths `/`, updates not ignored |
| Settings.Display | src/settings.rs:13-20 | an error renders as its underlying message, with no prefix |
| Settings.Load | src/settings.rs:61-67 | a missing file is an I/O error; loading succeeds iff the file holds settings, and returns them |
| Settings.LoadAfterSave | src/settings.rs:52-67 | loading after a successful save gives back the saved settings |
| Settings.GetOrCreate | src/settings.rs:87-97 | loaded settings are returned unchanged and nothing is written; otherwise the default is saved and returned, or the save's own I/O error is returned with the file as the failed save left it |
| Settings.GetOrCreateStable | src/settings.rs:87-97 | after a successful call the file holds the result, so the next call returns the same and writes nothing |
| Settings.SettingsFile.SaveSettings | src/settings.rs:52-59 | a completed write stores the settings; a failed create changes nothing; a failed write leaves the file unreadable |
| Settings.SettingsFile.LoadSettings | src/settings.rs:61-67 | a missing file is an I/O error; loading succeeds iff the file holds settings, and returns them |
| Settings.SettingsFile.GetOrCreateSettings | src/settings.rs:87-97 | the object's file and result follow `GetOrCreate` |
| Status.AvailableWithinTotal | src/status.rs:9-10 | the summed available space never exceeds the summed total |
| Status.StorageAsWritten | src/status.rs:11 | defined only when some space is available and the truncated quotient is at most 100; the result is 100 iff that truncated quotient is 0 |
| Status.CheckStorage | src/status.rs:7-12 | `check_storage` over the disks' sums is at most 100 (the status handler's copy at `src/handlers/status.rs` lines 16-21 is the same formula) |
| Status.FullWhenQuotientZero | src/status.rs:11 | more available than total space gives 100 |
| Status.FullWithoutZeroQuotient | src/status.rs:11 | a quotient of 256 also gives 100, so 100 does not mean the quotient is 0 |
| Status.StorageIsNotAPercentage | src/status.rs:5-11 | half a disk free gives 98, not 50; one byte in a thousand free truncates to 232 and underflows |
| Status.FreeStoragePercent | src/status.rs:5-6 | the intended percentage is at most 100, 100 iff all space is free, 0 iff less than one percent is |
| Status.FreeStorageMonotone | src/status.rs:5-6 | more free space never gives a smaller percentage |
| Status.CheckStorageCorrected | src/status.rs:7-12 | the intended check over the disks is at most 100, and 100 iff everything is available |
| Status.CheckPower | src/status.rs:17-27 | no battery gives 100; manager and listing errors propagate; otherwise the first battery's reading or error (the status handler's copy at `src/handlers/status.rs` lines 27-37 behaves the same, with errors as strings) |
| Status.FirstBatteryDecides | src/status.rs:20-22 | batteries after the first do not affect the result |
| StatusHandler.StatusWith | src/handlers/status.rs:44-63 | a power error is the result; otherwise online is true, low storage and low power are the threshold comparisons, and ignored updates mean up to date |
| StatusHandler.UpToDateOnlyWhenIgnored | src/handlers/status.rs:52-56 | a reported status is up to date iff updates are ignored |
| StatusHandler.IntendedUpToDate | src/handlers/status.rs:52-56 | with the intended comparison, a manager listing no updates makes the system up to date, and only then; the flag as written is false even then |
| StatusHandler.GetStatus | src/handlers/status.rs:42-64 | a settings failure is reported as its message; otherwise the status of the loaded or newly created settings, with the file updated as `GetOrCreate` says |
| Plugins.UpToNul | src/lib.rs:94-95 | a C result string is its bytes before the first NUL |
| Plugins.CreateCommand | src/lib.rs:110-143 | a null plugin or name, or a name that is not UTF-8, registers nothing; otherwise the command is stored under its name, replacing any earlier one |
| Plugins.Plugin.Name | src/lib.rs:63-65 | `name` returns the name the plugin was loaded under |
| Plugins.RegisterReplaces | src/lib.rs:110-143 | two `create_command` calls under the same name keep only the second command and leave every other name alone |
| Plugins.RemoveNul | src/lib.rs:81 | the cleaned message has no NUL, keeps every other character, and is unchanged when there was none |
| Plugins.RemoveNulConcat | src/lib.rs:81 | the filter goes character by character: a concatenation is cleaned part by part, and one character survives exactly when it is not NUL, so order and repeats are kept |
| Plugins.CString | src/lib.rs:82 | `CString::new` succeeds iff the bytes hold no NUL |
| Plugins.Marshal | src/lib.rs:80-87 | the size passed is the byte length of a NUL-free C string; the empty message is the empty string with size 0 |
| Plugins.MarshalSound | src/lib.rs:80-87 | marshalling never fails; the size is the byte length; the bytes decode to the message without NULs; the empty message gives the empty string and size 0 |
| Plugins.MarshalPlain | src/lib.rs:80-84 | a message without NULs is passed as its exact UTF-8 bytes and their count |
| Plugins.CallCommand | src/lib.rs:67-104 | an unknown name gives `None` and calls nothing; otherwise exactly one call with the marshalled message; a null result gives `None`; a non-UTF-8 result gives `None` |
| Handlers.FromString | src/handlers.rs:22-31 | a `String` or `&str` becomes `HandlerFailed` with the same text |
| Handlers.FromError | src/handlers.rs:33-37 | a boxed error becomes `HandlerFailed` with its string form, as a string would |
| Handlers.Display | src/handlers.rs:12-20 | each variant renders as its prefix followed by the message |
| Handlers.DisplayInjective | src/handlers.rs:12-20 | distinct errors never render alike |
| Text.TrimIdempotent | src/users.rs:198 | trimming a trimmed name changes nothing |
| Text.TokensOfJoin | src/update_manager.rs:66 | words joined by single spaces split back into the same words |
| Text.LinesOfTerminated | src/update_manager.rs:46 | newline-terminated lines split back into the same lines |
| Text.SplitOnJoin | src/handlers/users.rs:155 | pieces joined by a separator they do not contain split back into the same pieces |
| Utf8.DecodeEncode | src/lib.rs:95 | the UTF-8 decoding of any string's encoding is that string |
| Utf8.EncodeDecode | src/server/request_handler.rs:50 | whatever the strict decoder accepts re-encodes to the same bytes |
| Utf8.EncodeWithoutNul | src/lib.rs:82 | a string without NUL encodes to bytes without a zero byte |
| Utf8.DecodeLength | src/server/request_handler.rs:50 | decoding never yields more characters than bytes |

## Left out

- Network, TLS, HTTP routing and rendering, the startup code, the build
  script and the C headers are outside this model.
- The concurrency in `start_shell` is not modelled. This covers the
  `select!` pumps, the `mpsc` channel, the forwarding of the shell's
  stdout and stderr to the socket, and the result of `child.wait`. The
  frame loop is modelled as a sequential pass over the frames that arrive.
- Shell.Process.GetGroupsInto: a failing `getgroups(0, NULL)` returning
  -1 (which `as usize` would turn into a huge length) is not modelled.
- Shell.FileName: shell paths are text; a non-UTF-8 `OsStr` is not
  modelled.
- Auth.AuthUser: requires the account lookup to succeed after PAM
  accepted, where the Rust code would panic on `unwrap`.
- Auth.IsGroupLeader: takes the leaders list as given. Opening, reading
  and parsing the group's file, which panic on failure, are not modelled.
- RequestHandler.SocketHandle: the two-byte buffer's initial contents are
  a parameter, because `vec![0,1024]` does not type-check as `Vec<u8>`.
  The unused `Options` enum and the `eprintln!` logging are not modelled.
- UpdateManager.CheckUpdates: the command's output is taken as text, so
  the lossy UTF-8 decoding of `run_command` is not modelled. The same
  holds for UpdateManager.ListInstalledPackages and for the `id` output in
  UserAdmin.RemoveUserFromGroup.
- UpdateManager.UpdatePackages: the status of the upgrade command is
  ignored by the Rust code and is not an input here. Both calls to
  `detect_package_manager` see the same set of installed binaries, so a
  binary appearing or vanishing between the two detections is not
  modelled.
- UserAdmin.ListGroupMembers: a `spawn_blocking` join error (`TaskError`)
  is not modelled. The same holds for UserAdmin.ListUsers.
- UserAdmin.CreateUser: the rendering of an `ExitStatus` is a parameter.
- Users.UserStore.Save: a write that fails part-way is modelled as
  changing nothing. A failing `spawn_blocking` around hashing or
  verification is not modelled.
- Users.UserStore.GetUsers: the listing is given as file names. The
  lossy conversion of the names and errors in the middle of the listing
  are not modelled.
- Users: directory names are the user names as given. How `PathBuf::join`
  treats names that contain `/` or start with `/` is not modelled.
  Neither is the `create_dir_all` that `ENSURE_DIR` runs once.
- Settings: serde_json encoding and decoding are taken to round-trip,
  with the pretty-printed text left abstract.
- Status.CheckStorage: the `u64` sums are unbounded here, so their
  overflow is not modelled.
- Status.CheckPower: each battery's reading arrives as a whole
  percentage. The float scaling, rounding and saturating `as u8` of
  `state_of_charge` are not modelled.
- Plugins.CreateCommand: the insert runs in a spawned task in the Rust
  code; here it happens before the call returns.
- Plugins.CallCommand: a panic inside the callback (a join error, which
  gives `None`) and the `libc::free` of the result are not modelled.
- `Plugin::new` and `load_plugins` (`dlopen`, raw-pointer `Arc` handling,
  directory scan) are not modelled.
- `StatusHandler.StatusWith` keeps the `check_storage` formula and the
  `up_to_date` comparison as written. The corrected versions are separate
  members; see Findings.

## Findings

| source | as written | input that shows it | evidently intended | confidence | as-written member | corrected member |
|---|---|---|---|---|---|---|
| src/status.rs:11 | `100 - (total / available) as u8` subtracts a ratio of sizes from 100 | total 100, available 50 gives 98; total 1000, available 1 truncates to 232 and the subtraction underflows | the free space as a percentage of the total, `available * 100 / total` | high; not executed | Status.StorageIsNotAPercentage | Status.CheckStorageCorrected |
| src/handlers/status.rs:20 | the same formula as `status.rs` | the same inputs | the same percentage | high; not executed | Status.StorageIsNotAPercentage | Status.CheckStorageCorrected |
| src/handlers/status.rs:55 | `up_to_date` compares `check_updates()` with `[("", "")]`, which the parser can never produce | a known manager whose check command prints no update lines: `check_updates()` is empty, yet `up_to_date` is false | up to date when no updates are listed, `check_updates().is_empty()` | high; not executed | StatusHandler.UpToDateOnlyWhenIgnored | StatusHandler.IntendedUpToDate |
| src/server/request_handler.rs:38 | `vec![0,1024]` builds a two-element buffer (and 1024 is not a `u8`), and line 50 decodes the whole buffer, not the `size` bytes read | a client sending `alice:secret` delivers at most `al`, which has no `:`, so no login is attempted | a 1024-byte buffer, `vec![0; 1024]`, with only `buf[..size]` decoded | high; not executed | RequestHandler.SocketHandle | RequestHandler.SocketHandleFixed |
