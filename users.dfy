/**
 * The daemon's own user database (`users.rs`): one JSON record per user,
 * stored under a directory named after the user. The directory tree is the
 * map `disk` from directory name to what reading its `user.json` gives.
 * Argon2 is uninterpreted: `hasher` stands for hashing with a fresh salt
 * (`None` when hashing fails), `parses` for `PasswordHashString::from_str`
 * succeeding and `verifies` for `verify_password` accepting.
 */
module Users {
  import opened Wrappers
  import Text

  /** 1 GiB, the storage every new user is given. */
  const DefaultStorage: nat := 1073741824

  /** `User`, the record serialised into `user.json`. */
  datatype User = User(name: string, password: string, admin: bool, storage: nat)

  /** What reading a user's `user.json` gives. */
  datatype Entry = Record(user: User) | Unparsable(jsonMessage: string) | Unreadable(ioMessage: string)

  /** `UserError`; I/O and JSON errors are carried as their messages. */
  datatype UserError = IoError(message: string) | PasswordError | UserNotFound | Other(message: string)

  /** `Display for UserError`. */
  function Display(e: UserError): (r: string)
    ensures e.IoError? ==> r == "IO Error: " + e.message
    ensures e.PasswordError? ==> r == "Password Error"
    ensures e.UserNotFound? ==> r == "User Not Found"
    ensures e.Other? ==> r == e.message
  {
    match e
    case IoError(m) => "IO Error: " + m
    case PasswordError => "Password Error"
    case UserNotFound => "User Not Found"
    case Other(m) => m
  }

  /** `IntoResponse for UserError`: the HTTP status code and the body. */
  function Response(e: UserError): (r: (nat, string))
    ensures r.0 == 400 <==> e.PasswordError?
    ensures r.0 == 404 <==> e.UserNotFound?
    ensures r.0 == 500 <==> e.IoError? || e.Other?
    ensures !e.Other? ==> r.1 <= Display(e)
  {
    match e
    case IoError(_) => (500, "IO Error")
    case PasswordError => (400, "Password Error")
    case UserNotFound => (404, "User Not Found")
    case Other(m) => (500, m)
  }

  /** The hash `new` and `change_password` store: the empty string when hashing fails. */
  function HashOrEmpty(hashed: Option<string>): (r: string)
    ensures hashed.Some? ==> r == hashed.value
    ensures hashed.None? ==> r == ""
  {
    match hashed
    case Some(h) => h
    case None => ""
  }

  /** The accessors `name`, `admin`, `storage`. */
  function Name(u: User): string { u.name }
  function Admin(u: User): bool { u.admin }
  function Storage(u: User): nat { u.storage }

  /** Writing through `admin_mut`: only the flag changes. */
  function SetAdmin(u: User, admin: bool): (r: User)
    ensures Admin(r) == admin && Name(r) == Name(u) && Storage(r) == Storage(u) && r.password == u.password
  {
    u.(admin := admin)
  }

  /** Writing through `storage_mut`: only the quota changes. */
  function SetStorage(u: User, storage: nat): (r: User)
    ensures Storage(r) == storage && Name(r) == Name(u) && Admin(r) == Admin(u) && r.password == u.password
  {
    u.(storage := storage)
  }

  /** The record `User::new` builds: trimmed name, hash of the trimmed password, no admin, 1 GiB. */
  function NewUser(name: string, password: string, hasher: string -> Option<string>): (u: User)
    ensures Name(u) == Text.Trim(name) && Text.Trim(Name(u)) == Name(u)
    ensures !Admin(u) && Storage(u) == DefaultStorage
    ensures hasher(Text.Trim(password)).None? ==> u.password == ""
    ensures hasher(Text.Trim(password)).Some? ==> u.password == hasher(Text.Trim(password)).value
  {
    Text.TrimIdempotent(name);
    User(Text.Trim(name), HashOrEmpty(hasher(Text.Trim(password))), false, DefaultStorage)
  }

  /** The directory tree after `save` of `u` succeeded: the record under its trimmed name. */
  function Saved(disk: map<string, Entry>, u: User): (d: map<string, Entry>)
    ensures Text.Trim(u.name) in d && d[Text.Trim(u.name)] == Record(u)
    ensures forall k :: k != Text.Trim(u.name) ==> (k in d <==> k in disk) && (k in disk ==> d[k] == disk[k])
  {
    disk[Text.Trim(u.name) := Record(u)]
  }

  /** Reading the record stored under exactly `key`. */
  function Read(disk: map<string, Entry>, key: string): (r: Result<User, UserError>)
    ensures key !in disk ==> r == Err(UserNotFound)
    ensures r.Ok? <==> key in disk && disk[key].Record?
    ensures r.Ok? ==> r.value == disk[key].user
    ensures key in disk && disk[key].Unparsable? ==> r == Err(Other(disk[key].jsonMessage))
    ensures key in disk && disk[key].Unreadable? ==> r == Err(IoError(disk[key].ioMessage))
  {
    if key !in disk then Err(UserNotFound)
    else match disk[key]
      case Record(u) => Ok(u)
      case Unparsable(m) => Err(Other(m))
      case Unreadable(m) => Err(IoError(m))
  }

  /** `fetch_user`: the record under the trimmed name. */
  function FetchFrom(disk: map<string, Entry>, username: string): (r: Result<User, UserError>)
    ensures Text.Trim(username) !in disk ==> r == Err(UserNotFound)
    ensures r.Ok? <==> Text.Trim(username) in disk && disk[Text.Trim(username)].Record?
    ensures r.Ok? ==> r.value == disk[Text.Trim(username)].user
    ensures KeyedByName(disk) && r.Ok? ==> Text.Trim(r.value.name) == Text.Trim(username)
  {
    Read(disk, Text.Trim(username))
  }

  /** Whether Argon2 accepts `password` against the stored hash string. */
  predicate Accepts(password: string, hash: string, parses: string -> bool, verifies: (string, string) -> bool) {
    parses(hash) && verifies(password, hash)
  }

  /** `login`: the record under the name exactly as given, if the password checks out. */
  function LoginTo(disk: map<string, Entry>, username: string, password: string,
                   parses: string -> bool, verifies: (string, string) -> bool): (r: Result<User, UserError>)
    ensures username !in disk ==> r == Err(UserNotFound)
    ensures r == Err(UserNotFound) ==> username !in disk
    ensures r.Ok? ==> Read(disk, username) == r && Accepts(password, r.value.password, parses, verifies)
    ensures Read(disk, username).Ok? && !Accepts(password, Read(disk, username).value.password, parses, verifies)
            ==> r == Err(PasswordError)
    ensures Read(disk, username).Ok? && Accepts(password, Read(disk, username).value.password, parses, verifies)
            ==> r == Read(disk, username)
    ensures Read(disk, username).Err? ==> r == Read(disk, username)
  {
    match Read(disk, username)
    case Err(e) => Err(e)
    case Ok(u) => if Accepts(password, u.password, parses, verifies) then Ok(u) else Err(PasswordError)
  }

  /** Every directory is named by a trimmed name, and a record sits under its own trimmed name. */
  predicate KeyedByName(disk: map<string, Entry>) {
    forall k :: k in disk ==> Text.Trim(k) == k && (disk[k].Record? ==> Text.Trim(disk[k].user.name) == k)
  }

  lemma SavedKeyedByName(disk: map<string, Entry>, u: User)
    requires KeyedByName(disk)
    ensures KeyedByName(Saved(disk, u))
  {
    var d := Saved(disk, u);
    var key := Text.Trim(u.name);
    forall k | k in d
      ensures Text.Trim(k) == k && (d[k].Record? ==> Text.Trim(d[k].user.name) == k)
    {
      if k == key {
        Text.TrimIdempotent(u.name);
      } else {
        assert k in disk && d[k] == disk[k];
      }
    }
  }

  /** What `save` wrote, `fetch_user` reads back, whatever whitespace surrounds the name asked for. */
  lemma FetchAfterSave(disk: map<string, Entry>, u: User, query: string)
    requires Text.Trim(query) == Text.Trim(u.name)
    ensures FetchFrom(Saved(disk, u), query) == Ok(u)
  {
  }

  /** Saving one user leaves every other name's lookup as it was. */
  lemma FetchOtherAfterSave(disk: map<string, Entry>, u: User, query: string)
    requires Text.Trim(query) != Text.Trim(u.name)
    ensures FetchFrom(Saved(disk, u), query) == FetchFrom(disk, query)
  {
  }

  /**
   * `login` does not trim: in a store keyed by trimmed names, a name with
   * surrounding whitespace is not found even though `fetch_user` finds it.
   */
  lemma LoginDoesNotTrim(disk: map<string, Entry>, username: string, password: string,
                         parses: string -> bool, verifies: (string, string) -> bool)
    requires KeyedByName(disk)
    requires Text.Trim(username) != username
    ensures LoginTo(disk, username, password, parses, verifies) == Err(UserNotFound)
  {
  }

  /** A user created by `new` logs in with the trimmed password exactly when Argon2 accepts it. */
  lemma LoginAfterNew(disk: map<string, Entry>, name: string, password: string, hasher: string -> Option<string>,
                      parses: string -> bool, verifies: (string, string) -> bool)
    requires Text.Trim(name) == name
    ensures var u := NewUser(name, password, hasher);
      var r := LoginTo(Saved(disk, u), name, Text.Trim(password), parses, verifies);
      && (r.Ok? <==> Accepts(Text.Trim(password), u.password, parses, verifies))
      && (r.Ok? ==> r.value == u)
      && (!r.Ok? ==> r == Err(PasswordError))
  {
  }

  /** The on-disk user database. */
  class UserStore {
    var disk: map<string, Entry>

    ghost predicate Valid()
      reads this
    {
      KeyedByName(disk)
    }

    constructor(initial: map<string, Entry>)
      requires KeyedByName(initial)
      ensures Valid() && disk == initial
    {
      disk := initial;
    }

    /** `save`: write the record under its trimmed name; an I/O failure writes nothing. */
    method Save(u: User, ioError: Option<string>) returns (r: Result<(), UserError>)
      requires Valid()
      modifies this
      ensures Valid()
      ensures ioError.None? ==> r == Ok(()) && disk == Saved(old(disk), u)
      ensures ioError.Some? ==> r == Err(IoError(ioError.value)) && disk == old(disk)
    {
      if ioError.Some? {
        return Err(IoError(ioError.value));
      }
      SavedKeyedByName(disk, u);
      disk := disk[Text.Trim(u.name) := Record(u)];
      r := Ok(());
    }

    /** `User::new`: build the record and save it, so that `fetch_user` finds it. */
    method New(name: string, password: string, hasher: string -> Option<string>, ioError: Option<string>)
      returns (r: Result<User, UserError>)
      requires Valid()
      modifies this
      ensures Valid()
      ensures ioError.None? ==> r == Ok(NewUser(name, password, hasher)) && disk == Saved(old(disk), r.value)
      ensures ioError.Some? ==> r == Err(IoError(ioError.value)) && disk == old(disk)
      ensures r.Ok? ==> FetchFrom(disk, name) == r
    {
      var u := NewUser(name, password, hasher);
      FetchAfterSave(disk, u, name);
      var saved := Save(u, ioError);
      if saved.Err? {
        return Err(saved.error);
      }
      r := Ok(u);
    }

    /** `fetch_user` on this store: the record under the trimmed name, which is the record of that name. */
    function FetchUser(username: string): (r: Result<User, UserError>)
      reads this
      ensures r.Ok? <==> Text.Trim(username) in disk && disk[Text.Trim(username)].Record?
      ensures Valid() && r.Ok? ==> Text.Trim(r.value.name) == Text.Trim(username)
    {
      FetchFrom(disk, username)
    }

    /** `login` on this store: the record under the exact name, if Argon2 accepts the password. */
    function Login(username: string, password: string, parses: string -> bool, verifies: (string, string) -> bool): (r: Result<User, UserError>)
      reads this
      ensures r.Ok? ==> username in disk && disk[username] == Record(r.value) && Accepts(password, r.value.password, parses, verifies)
      ensures Valid() && Text.Trim(username) != username ==> r == Err(UserNotFound)
      ensures Read(disk, username).Ok? && !Accepts(password, Read(disk, username).value.password, parses, verifies)
              ==> r == Err(PasswordError)
      ensures Read(disk, username).Ok? && Accepts(password, Read(disk, username).value.password, parses, verifies)
              ==> r == Read(disk, username)
      ensures Read(disk, username).Err? ==> r == Read(disk, username)
    {
      LoginTo(disk, username, password, parses, verifies)
    }

    /**
     * `change_password`: hash the new password as given (untrimmed), replace
     * only the hash, save, and hand back the plaintext.
     */
    method ChangePassword(u: User, newPassword: string, hasher: string -> Option<string>, ioError: Option<string>)
      returns (r: Result<string, UserError>)
      requires Valid()
      modifies this
      ensures Valid()
      ensures var changed := u.(password := HashOrEmpty(hasher(newPassword)));
        && (ioError.None? ==> r == Ok(newPassword) && disk == Saved(old(disk), changed))
        && (ioError.Some? ==> r == Err(IoError(ioError.value)) && disk == old(disk))
    {
      var changed := u.(password := HashOrEmpty(hasher(newPassword)));
      var saved := Save(changed, ioError);
      if saved.Err? {
        return Err(saved.error);
      }
      r := Ok(newPassword);
    }

    /** The entry at `i` is the first of `names` that fails to fetch, and fails with `e`. */
    ghost predicate FirstFailure(names: seq<string>, i: int, e: UserError)
      reads this
    {
      && 0 <= i < |names|
      && FetchUser(names[i]) == Err(e)
      && forall j :: 0 <= j < i ==> FetchUser(names[j]).Ok?
    }

    /**
     * `get_users`: fetch the user of every directory entry, in listing
     * order; the first failure ends the scan.
     */
    method GetUsers(listing: Result<seq<string>, string>) returns (r: Result<seq<User>, UserError>)
      ensures listing.Err? ==> r == Err(IoError(listing.error))
      ensures listing.Ok? && r.Ok? ==>
        |r.value| == |listing.value| && forall i :: 0 <= i < |listing.value| ==> FetchUser(listing.value[i]) == Ok(r.value[i])
      ensures listing.Ok? && r.Err? ==> exists i :: FirstFailure(listing.value, i, r.error)
      ensures listing.Ok? && (forall i :: 0 <= i < |listing.value| ==> FetchUser(listing.value[i]).Ok?) ==> r.Ok?
    {
      if listing.Err? {
        return Err(IoError(listing.error));
      }
      var names := listing.value;
      var users: seq<User> := [];
      for i := 0 to |names|
        invariant |users| == i
        invariant forall j :: 0 <= j < i ==> FetchUser(names[j]) == Ok(users[j])
      {
        var fetched := FetchUser(names[i]);
        if fetched.Err? {
          assert FirstFailure(names, i, fetched.error);
          return Err(fetched.error);
        }
        users := users + [fetched.value];
      }
      r := Ok(users);
    }
  }
}
