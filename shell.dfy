/**
 * The privileged shell session of `start_shell`: under the process-wide
 * `USER_LOCK` the daemon records its effective uid, effective gid and
 * supplementary groups, switches the groups and then the effective uid to
 * the target account, spawns the account's shell, pumps client frames into
 * the shell's stdin, and finally puts the uid and then the groups back and
 * releases the lock.
 *
 * The process credentials are an object whose every libc call appends an
 * event to a log; `Replay` of that log is an independent account of what the
 * credentials must be. The libc calls report success or failure (their `ok`
 * argument stands for the kernel's answer) and the session ignores every
 * answer, exactly as the Rust code does.
 */
module Shell {
  import opened Wrappers

  /** The credentials the kernel keeps for the daemon process. */
  datatype Creds = Creds(euid: nat, egid: nat, groups: seq<nat>)

  /** One observable step of the session on the process credentials. */
  datatype Event =
    | LockAcquired
    | ReadEuid(uid: nat)
    | ReadEgid(gid: nat)
    | ReadGroups(groups: seq<nat>)
    | SetGroups(groups: seq<nat>, ok: bool)
    | SetEuid(uid: nat, ok: bool)
    | SpawnAttempt(ok: bool)
    | ChildReaped
    | LockReleased

  /** What one event does to the credentials: only a successful set changes them. */
  function Apply(c: Creds, e: Event): Creds {
    match e
    case SetGroups(gs, ok) => if ok then c.(groups := gs) else c
    case SetEuid(uid, ok) => if ok then c.(euid := uid) else c
    case _ => c
  }

  /** The credentials after `log` has happened to a process that started with `c`. */
  function Replay(c: Creds, log: seq<Event>): Creds
    decreases |log|
  {
    if log == [] then c else Apply(Replay(c, log[..|log| - 1]), log[|log| - 1])
  }

  lemma ReplayStep(c: Creds, log: seq<Event>, e: Event)
    ensures Replay(c, log + [e]) == Apply(Replay(c, log), e)
  {
    assert (log + [e])[..|log|] == log;
  }

  /** Replaying a log in two pieces is replaying it whole. */
  lemma {:induction false} ReplayAppend(c: Creds, a: seq<Event>, b: seq<Event>)
    ensures Replay(c, a + b) == Replay(Replay(c, a), b)
    decreases |b|
  {
    if b == [] {
      assert a + b == a;
    } else {
      var b' := b[..|b| - 1];
      ReplayAppend(c, a, b');
      assert a + b == (a + b') + [b[|b| - 1]];
      ReplayStep(c, a + b', b[|b| - 1]);
    }
  }

  /** The daemon's credentials, the `USER_LOCK` flag and the log of what was done to them. */
  class Process {
    var euid: nat
    var egid: nat
    var groups: seq<nat>
    var locked: bool
    var log: seq<Event>
    ghost var start: Creds

    /** The fields are what replaying the log from the starting credentials gives. */
    ghost predicate Valid()
      reads this
    {
      Replay(start, log) == Creds(euid, egid, groups)
    }

    function Current(): Creds
      reads this
    {
      Creds(euid, egid, groups)
    }

    constructor (euid: nat, egid: nat, groups: seq<nat>)
      ensures Valid() && !locked && log == []
      ensures Current() == Creds(euid, egid, groups)
    {
      this.euid, this.egid, this.groups := euid, egid, groups;
      locked := false;
      log := [];
      start := Creds(euid, egid, groups);
    }

    /** Appends `e` to the log and applies it to the credentials. */
    method Perform(e: Event)
      requires Valid()
      requires !e.LockAcquired? && !e.LockReleased?
      modifies this
      ensures Valid() && log == old(log) + [e]
      ensures Current() == Apply(old(Current()), e)
      ensures locked == old(locked) && start == old(start)
    {
      ReplayStep(start, log, e);
      var c := Apply(Current(), e);
      euid, egid, groups := c.euid, c.egid, c.groups;
      log := log + [e];
    }

    /** `USER_LOCK.lock().await`: returns once the lock is free, holding it. */
    method Lock()
      requires Valid() && !locked
      modifies this
      ensures Valid() && locked && log == old(log) + [LockAcquired]
      ensures Current() == old(Current()) && start == old(start)
    {
      ReplayStep(start, log, LockAcquired);
      locked := true;
      log := log + [LockAcquired];
    }

    /** `drop(lock)`. */
    method Unlock()
      requires Valid() && locked
      modifies this
      ensures Valid() && !locked && log == old(log) + [LockReleased]
      ensures Current() == old(Current()) && start == old(start)
    {
      ReplayStep(start, log, LockReleased);
      locked := false;
      log := log + [LockReleased];
    }

    /** `geteuid()`. */
    method GetEuid() returns (uid: nat)
      requires Valid()
      modifies this
      ensures Valid() && uid == euid && log == old(log) + [ReadEuid(uid)]
      ensures Current() == old(Current()) && locked == old(locked) && start == old(start)
    {
      uid := euid;
      Perform(ReadEuid(uid));
    }

    /** `getegid()`. */
    method GetEgid() returns (gid: nat)
      requires Valid()
      modifies this
      ensures Valid() && gid == egid && log == old(log) + [ReadEgid(gid)]
      ensures Current() == old(Current()) && locked == old(locked) && start == old(start)
    {
      gid := egid;
      Perform(ReadEgid(gid));
    }

    /** `getgroups(0, NULL)`: the number of supplementary groups. */
    function GroupCount(): (n: nat)
      reads this
    {
      |groups|
    }

    /** `getgroups(n, buf)`: fills a buffer of exactly the right size with the groups. */
    method GetGroupsInto(buf: array<nat>)
      requires Valid() && buf.Length == |groups|
      modifies this, buf
      ensures Valid() && buf[..] == groups && log == old(log) + [ReadGroups(buf[..])]
      ensures Current() == old(Current()) && locked == old(locked) && start == old(start)
    {
      forall i | 0 <= i < buf.Length {
        buf[i] := groups[i];
      }
      Perform(ReadGroups(buf[..]));
    }

    /** `setgroups(len, gs)`; the kernel's answer is `ok`, reported as 0 or -1. */
    method SetGroupsCall(gs: seq<nat>, ok: bool) returns (rc: int)
      requires Valid()
      modifies this
      ensures Valid() && log == old(log) + [SetGroups(gs, ok)]
      ensures groups == (if ok then gs else old(groups))
      ensures euid == old(euid) && egid == old(egid)
      ensures locked == old(locked) && start == old(start)
      ensures rc == (if ok then 0 else -1)
    {
      Perform(SetGroups(gs, ok));
      rc := if ok then 0 else -1;
    }

    /** `seteuid(uid)`; the kernel's answer is `ok`, reported as 0 or -1. */
    method SetEuidCall(uid: nat, ok: bool) returns (rc: int)
      requires Valid()
      modifies this
      ensures Valid() && log == old(log) + [SetEuid(uid, ok)]
      ensures euid == (if ok then uid else old(euid))
      ensures groups == old(groups) && egid == old(egid)
      ensures locked == old(locked) && start == old(start)
      ensures rc == (if ok then 0 else -1)
    {
      Perform(SetEuid(uid, ok));
      rc := if ok then 0 else -1;
    }
  }

  /** The target account as the `users` crate gives it; `groups` is `None` when the lookup fails. */
  datatype Account = Account(uid: nat, groups: Option<seq<nat>>, shell: string)

  /** The kernel's answers to the four credential changes of one session, in call order. */
  datatype Kernel = Kernel(switchGroupsOk: bool, switchUidOk: bool, restoreUidOk: bool, restoreGroupsOk: bool)

  /** What `Command::spawn` did: started the shell, or failed with a message. */
  datatype Spawn = Started | SpawnFailed(reason: string)

  /** The groups the session switches to: the account's, or none at all when they are unknown. */
  function TargetGroups(user: Account): (gs: seq<nat>)
    ensures user.groups.None? ==> gs == []
    ensures user.groups.Some? ==> gs == user.groups.value
  {
    match user.groups
    case Some(gs) => gs
    case None => []
  }

  /** The log one session leaves, given the credentials at entry. */
  function BracketLog(c: Creds, user: Account, k: Kernel, spawned: bool): seq<Event> {
    [LockAcquired, ReadEuid(c.euid), ReadEgid(c.egid), ReadGroups(c.groups),
     SetGroups(TargetGroups(user), k.switchGroupsOk), SetEuid(user.uid, k.switchUidOk),
     SpawnAttempt(spawned)]
    + (if spawned then [ChildReaped] else [])
    + [SetEuid(c.euid, k.restoreUidOk), SetGroups(c.groups, k.restoreGroupsOk), LockReleased]
  }

  /** The effective uid a session leaves behind. */
  function FinalEuid(c: Creds, user: Account, k: Kernel): nat {
    if k.restoreUidOk then c.euid else if k.switchUidOk then user.uid else c.euid
  }

  /** The supplementary groups a session leaves behind. */
  function FinalGroups(c: Creds, user: Account, k: Kernel): seq<nat> {
    if k.restoreGroupsOk then c.groups
    else if k.switchGroupsOk then TargetGroups(user)
    else c.groups
  }

  /**
   * Replaying a session's log: whether or not the shell started, the effective
   * gid is untouched, and the uid and groups are back at their entry values
   * whenever the two restoring calls succeed.
   */
  lemma BracketOutcome(c: Creds, user: Account, k: Kernel, spawned: bool)
    ensures Replay(c, BracketLog(c, user, k, spawned))
         == Creds(FinalEuid(c, user, k), c.egid, FinalGroups(c, user, k))
    ensures k.restoreUidOk && k.restoreGroupsOk ==> Replay(c, BracketLog(c, user, k, spawned)) == c
  {
    var capture := [LockAcquired, ReadEuid(c.euid), ReadEgid(c.egid), ReadGroups(c.groups)];
    var sw := [SetGroups(TargetGroups(user), k.switchGroupsOk), SetEuid(user.uid, k.switchUidOk)];
    var mid := [SpawnAttempt(spawned)] + (if spawned then [ChildReaped] else []);
    var restore := [SetEuid(c.euid, k.restoreUidOk), SetGroups(c.groups, k.restoreGroupsOk), LockReleased];
    assert BracketLog(c, user, k, spawned) == capture + sw + mid + restore;
    ReplayPassive(c, capture);
    ReplayAppend(c, capture, sw);
    ReplayTwo(c, sw[0], sw[1]);
    var s := Replay(c, capture + sw);
    ReplayAppend(c, capture + sw, mid);
    ReplayPassive(s, mid);
    ReplayAppend(c, capture + sw + mid, restore);
    assert restore == [restore[0], restore[1]] + [LockReleased];
    ReplayAppend(s, [restore[0], restore[1]], [LockReleased]);
    ReplayTwo(s, restore[0], restore[1]);
    ReplayPassive(Replay(s, [restore[0], restore[1]]), [LockReleased]);
  }

  /** An event that reads or brackets but does not change the credentials. */
  predicate Passive(e: Event) {
    !e.SetGroups? && !e.SetEuid?
  }

  lemma {:induction false} ReplayPassive(c: Creds, log: seq<Event>)
    requires forall i :: 0 <= i < |log| ==> Passive(log[i])
    ensures Replay(c, log) == c
    decreases |log|
  {
    if log != [] {
      ReplayPassive(c, log[..|log| - 1]);
    }
  }

  lemma ReplayTwo(c: Creds, e1: Event, e2: Event)
    ensures Replay(c, [e1, e2]) == Apply(Apply(c, e1), e2)
  {
    ReplayStep(c, [], e1);
    assert [] + [e1] == [e1];
    ReplayStep(c, [e1], e2);
    assert [e1] + [e2] == [e1, e2];
  }

  /** The lock is the first and last event, and credentials are touched only strictly between. */
  predicate LockBrackets(log: seq<Event>) {
    && |log| >= 2
    && log[0] == LockAcquired
    && log[|log| - 1] == LockReleased
    && forall i :: 0 < i < |log| - 1 ==> !log[i].LockAcquired? && !log[i].LockReleased?
  }

  /** Index of the first event of the log that satisfies `p`, if any. */
  function FirstIndex(log: seq<Event>, p: Event -> bool): (r: Option<nat>)
    ensures r.Some? ==> r.value < |log| && p(log[r.value])
    ensures r.Some? ==> forall i :: 0 <= i < r.value ==> !p(log[i])
    ensures r.None? ==> forall i :: 0 <= i < |log| ==> !p(log[i])
  {
    if log == [] then None
    else if p(log[0]) then Some(0)
    else match FirstIndex(log[1..], p)
      case None => None
      case Some(i) => Some(i + 1)
  }

  /**
   * The session takes the lock before it reads any credential and releases it
   * after the last change; it sets the groups before lowering the uid and
   * raises the uid again before restoring the groups; when the account's
   * groups are unknown it installs the empty list.
   */
  lemma BracketOrder(c: Creds, user: Account, k: Kernel, spawned: bool)
    ensures var log := BracketLog(c, user, k, spawned);
      && LockBrackets(log)
      && log[4] == SetGroups(TargetGroups(user), k.switchGroupsOk)
      && log[5] == SetEuid(user.uid, k.switchUidOk)
      && log[|log| - 3] == SetEuid(c.euid, k.restoreUidOk)
      && log[|log| - 2] == SetGroups(c.groups, k.restoreGroupsOk)
      && (user.groups.None? ==> log[4].groups == [])
      && FirstIndex(log, (e: Event) => e.SetEuid?) == Some(5)
      && FirstIndex(log, (e: Event) => e.SetGroups?) == Some(4)
  {
    var log := BracketLog(c, user, k, spawned);
    assert log[0] == LockAcquired;
  }

  /** `Path::file_name`: the last normal component of a `/`-separated path. */
  function FileName(path: string): (r: Option<string>)
    ensures r.Some? ==> '/' !in r.value && r.value != [] && r.value != "." && r.value != ".."
    decreases |path|
  {
    match LastSlash(path)
    case None =>
      if path == "" || path == "." || path == ".." then None else Some(path)
    case Some(i) =>
      var last := path[i + 1..];
      if last == "" || last == "." then FileName(path[..i])
      else if last == ".." then None
      else Some(last)
  }

  /** Index of the last `/` in `s`. */
  function LastSlash(s: string): (r: Option<nat>)
    ensures r.None? ==> '/' !in s
    ensures r.Some? ==> r.value < |s| && s[r.value] == '/' && '/' !in s[r.value + 1..]
  {
    if s == [] then None
    else if s[|s| - 1] == '/' then Some(|s| - 1)
    else LastSlash(s[..|s| - 1])
  }

  lemma {:induction false} LastSlashOf(dir: string, name: string)
    requires '/' !in name
    ensures LastSlash(dir + "/" + name) == Some(|dir|)
    decreases |name|
  {
    var s := dir + "/" + name;
    if name != [] {
      assert s[..|s| - 1] == dir + "/" + name[..|name| - 1];
      LastSlashOf(dir, name[..|name| - 1]);
    }
  }

  /** A shell in any directory is named by its last component. */
  lemma FileNameInDirectory(dir: string, name: string)
    requires name != [] && '/' !in name && name != "." && name != ".."
    ensures FileName(dir + "/" + name) == Some(name)
  {
    LastSlashOf(dir, name);
    assert (dir + "/" + name)[|dir| + 1..] == name;
  }

  /** Whether the shell gets `--login`: its file name is exactly `bash`. */
  predicate WantsLogin(shell: string) {
    FileName(shell) == Some("bash")
  }

  /** The program and arguments `start_shell` spawns. */
  function LaunchArgs(shell: string): (argv: seq<string>)
    ensures |argv| >= 1 && argv[0] == shell
    ensures |argv| == 2 <==> WantsLogin(shell)
    ensures |argv| == 2 ==> argv[1] == "--login"
  {
    [shell] + (if WantsLogin(shell) then ["--login"] else [])
  }

  /** `bash` anywhere gets `--login`; other shells, and names that only end in `bash`, do not. */
  lemma LoginOnlyForBash(dir: string, name: string)
    requires name != [] && '/' !in name && name != "." && name != ".."
    ensures WantsLogin(dir + "/" + name) <==> name == "bash"
  {
    FileNameInDirectory(dir, name);
  }

  /** A message from the client's WebSocket. */
  datatype Frame =
    | Binary(data: seq<byte>)
    | Text(text: string)
    | Ping(payload: seq<byte>)
    | Pong(payload: seq<byte>)
    | Close

  /** What the session loop does with one frame that reached it. */
  datatype Action = Forward(data: seq<byte>) | Stop

  /** Only binary frames go to the shell; any other frame ends the session. */
  function Dispatch(f: Frame): (a: Action)
    ensures a.Forward? <==> f.Binary?
    ensures a.Forward? ==> a.data == f.data
  {
    match f
    case Binary(data) => Forward(data)
    case _ => Stop
  }

  /**
   * How many frames the loop forwards: the index of the first frame that is
   * not binary or whose write to stdin failed.
   */
  function StopIndex(frames: seq<Frame>, writeOk: seq<bool>): (k: nat)
    requires |writeOk| == |frames|
    ensures k <= |frames|
    ensures forall i :: 0 <= i < k ==> frames[i].Binary? && writeOk[i]
    ensures k < |frames| ==> !(frames[k].Binary? && writeOk[k])
  {
    if frames == [] then 0
    else if Dispatch(frames[0]).Stop? || !writeOk[0] then 0
    else 1 + StopIndex(frames[1..], writeOk[1..])
  }

  /**
   * The session loop over the client's frames: each binary frame is written
   * verbatim to the shell's stdin, a failed write ends the loop, and Close,
   * Text, Ping and Pong end it too. `writeOk[i]` is the result of writing
   * frame `i`; the stdin flush result is ignored, as in the Rust code.
   */
  method PumpFrames(frames: seq<Frame>, writeOk: seq<bool>) returns (written: seq<seq<byte>>, consumed: nat)
    requires |writeOk| == |frames|
    ensures |written| == StopIndex(frames, writeOk)
    ensures forall i :: 0 <= i < |written| ==> frames[i] == Binary(written[i])
    ensures consumed == (if |written| < |frames| then |written| + 1 else |frames|)
  {
    written := [];
    consumed := 0;
    while consumed < |frames|
      invariant consumed == |written| <= |frames|
      invariant forall i :: 0 <= i < consumed ==> frames[i] == Binary(written[i]) && writeOk[i]
    {
      var frame := frames[consumed];
      consumed := consumed + 1;
      match Dispatch(frame)
      case Stop =>
        break;
      case Forward(data) =>
        if !writeOk[consumed - 1] {
          break;
        }
        written := written + [data];
    }
  }

  /** The text frame sent when the shell cannot be spawned. */
  const SpawnErrorPrefix: string := "ERROR: failed to start shell: "

  /** Taking the lock and recording the credentials (`shell.rs` lines 15-25). */
  method Capture(p: Process) returns (originalUid: nat, originalGroups: array<nat>)
    requires p.Valid() && !p.locked
    modifies p
    ensures p.Valid() && p.locked && p.start == old(p.start)
    ensures fresh(originalGroups)
    ensures originalUid == old(p.euid) && originalGroups[..] == old(p.groups)
    ensures p.log == old(p.log) + [LockAcquired, ReadEuid(old(p.euid)), ReadEgid(old(p.egid)), ReadGroups(old(p.groups))]
    ensures p.Current() == old(p.Current())
  {
    p.Lock();
    originalUid := p.GetEuid();
    var originalGid := p.GetEgid();
    originalGroups := new nat[p.GroupCount()];
    p.GetGroupsInto(originalGroups);
  }

  /** Switching to the target account: groups first, then the effective uid (`shell.rs` lines 27-40). */
  method SwitchTo(p: Process, user: Account, kernel: Kernel)
    requires p.Valid()
    modifies p
    ensures p.Valid() && p.locked == old(p.locked) && p.start == old(p.start)
    ensures p.log == old(p.log) + [SetGroups(TargetGroups(user), kernel.switchGroupsOk),
      SetEuid(user.uid, kernel.switchUidOk)]
    ensures p.euid == (if kernel.switchUidOk then user.uid else old(p.euid))
    ensures p.groups == (if kernel.switchGroupsOk then TargetGroups(user) else old(p.groups))
    ensures p.egid == old(p.egid)
  {
    ghost var log0 := p.log;
    var target := TargetGroups(user);
    var ignored := p.SetGroupsCall(target, kernel.switchGroupsOk);
    ghost var groupsSet := p.groups;
    ignored := p.SetEuidCall(user.uid, kernel.switchUidOk);
    assert p.groups == groupsSet;
    assert p.log == log0 + [SetGroups(target, kernel.switchGroupsOk)] + [SetEuid(user.uid, kernel.switchUidOk)];
  }

  /** Spawning the shell and running the session, or reporting the spawn failure (`shell.rs` lines 42-128). */
  method RunShell(p: Process, user: Account, spawn: Spawn, frames: seq<Frame>, writeOk: seq<bool>)
    returns (argv: seq<string>, sent: seq<Frame>, stdin: seq<seq<byte>>)
    requires p.Valid()
    requires |writeOk| == |frames|
    modifies p
    ensures p.Valid() && p.locked == old(p.locked) && p.start == old(p.start)
    ensures p.Current() == old(p.Current())
    ensures p.log == old(p.log) + [SpawnAttempt(spawn.Started?)] + (if spawn.Started? then [ChildReaped] else [])
    ensures argv == LaunchArgs(user.shell)
    ensures spawn.SpawnFailed? ==> sent == [Text(SpawnErrorPrefix + spawn.reason)] && stdin == []
    ensures spawn.Started? ==> sent == [] && |stdin| == StopIndex(frames, writeOk)
    ensures spawn.Started? ==> forall i :: 0 <= i < |stdin| ==> frames[i] == Binary(stdin[i])
  {
    argv := LaunchArgs(user.shell);
    stdin := [];
    match spawn {
      case Started =>
        p.Perform(SpawnAttempt(true));
        var consumed;
        stdin, consumed := PumpFrames(frames, writeOk);
        p.Perform(ChildReaped);
        sent := [];
      case SpawnFailed(reason) =>
        p.Perform(SpawnAttempt(false));
        sent := [Text(SpawnErrorPrefix + reason)];
    }
  }

  /** The restoring half: uid first, then groups, then the lock (`shell.rs` lines 130-136). */
  method RestoreAndRelease(p: Process, originalUid: nat, originalGroups: seq<nat>, kernel: Kernel)
    requires p.Valid() && p.locked
    modifies p
    ensures p.Valid() && !p.locked && p.start == old(p.start)
    ensures p.log == old(p.log) + [SetEuid(originalUid, kernel.restoreUidOk),
      SetGroups(originalGroups, kernel.restoreGroupsOk), LockReleased]
    ensures p.euid == (if kernel.restoreUidOk then originalUid else old(p.euid))
    ensures p.groups == (if kernel.restoreGroupsOk then originalGroups else old(p.groups))
    ensures p.egid == old(p.egid)
  {
    var ignored := p.SetEuidCall(originalUid, kernel.restoreUidOk);
    ignored := p.SetGroupsCall(originalGroups, kernel.restoreGroupsOk);
    p.Unlock();
  }

  /**
   * `start_shell`: the whole privilege bracket. Whatever the kernel answers
   * and whether or not the shell starts, the same calls happen in the same
   * order; the effective gid is read but never changed or restored.
   */
  method StartShell(p: Process, user: Account, kernel: Kernel, spawn: Spawn, frames: seq<Frame>, writeOk: seq<bool>)
    returns (argv: seq<string>, sent: seq<Frame>, stdin: seq<seq<byte>>)
    requires p.Valid() && !p.locked
    requires |writeOk| == |frames|
    modifies p
    ensures p.Valid() && !p.locked && p.start == old(p.start)
    ensures p.log == old(p.log) + BracketLog(old(p.Current()), user, kernel, spawn.Started?)
    ensures p.egid == old(p.egid)
    ensures p.euid == FinalEuid(old(p.Current()), user, kernel)
    ensures p.groups == FinalGroups(old(p.Current()), user, kernel)
    ensures argv == LaunchArgs(user.shell)
    ensures spawn.SpawnFailed? ==> sent == [Text(SpawnErrorPrefix + spawn.reason)] && stdin == []
    ensures spawn.Started? ==> sent == [] && |stdin| == StopIndex(frames, writeOk)
    ensures spawn.Started? ==> forall i :: 0 <= i < |stdin| ==> frames[i] == Binary(stdin[i])
  {
    ghost var entry := p.Current();
    ghost var log0 := p.log;
    ghost var capture := [LockAcquired, ReadEuid(entry.euid), ReadEgid(entry.egid), ReadGroups(entry.groups)];
    ghost var switch := [SetGroups(TargetGroups(user), kernel.switchGroupsOk), SetEuid(user.uid, kernel.switchUidOk)];
    ghost var session := [SpawnAttempt(spawn.Started?)] + (if spawn.Started? then [ChildReaped] else []);
    ghost var restore := [SetEuid(entry.euid, kernel.restoreUidOk), SetGroups(entry.groups, kernel.restoreGroupsOk), LockReleased];
    assert BracketLog(entry, user, kernel, spawn.Started?) == capture + switch + session + restore;

    var originalUid, originalGroups := Capture(p);
    SwitchTo(p, user, kernel);
    argv, sent, stdin := RunShell(p, user, spawn, frames, writeOk);
    RestoreAndRelease(p, originalUid, originalGroups[..], kernel);
    LogAssociates(log0, capture, switch, session, restore);
  }

  lemma LogAssociates(a: seq<Event>, b: seq<Event>, c: seq<Event>, d: seq<Event>, e: seq<Event>)
    ensures a + b + c + d + e == a + (b + c + d + e)
  {
  }
}
