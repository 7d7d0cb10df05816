/**
 * The authentication decisions of `auth.rs`: classifying PAM failures,
 * rendering them, deciding whether an account is an administrator and
 * whether it leads a group. PAM itself and the `users` crate lookups are
 * not part of this model; their answers arrive as values.
 */
module Auth {
  import opened Wrappers

  /** Linux-PAM's `PAM_AUTH_ERR`: the password did not match. */
  const AUTH_ERR: nat := 7
  /** Linux-PAM's `PAM_USER_UNKNOWN`: no such account. */
  const USER_UNKNOWN: nat := 10

  /** A PAM failure: its return code and the text its `Display` gives. */
  datatype PamFailure = PamFailure(code: nat, text: string)

  /** `AuthenticateError`; the spelling `Invaild` is the crate's own. */
  datatype AuthenticateError = Invaild | PamError(error: PamFailure)

  /** `From<PamError>`: an unknown user or a wrong password is "invalid", anything else is kept. */
  function FromPamError(e: PamFailure): (r: AuthenticateError)
    ensures r.Invaild? <==> e.code == USER_UNKNOWN || e.code == AUTH_ERR
    ensures r.PamError? ==> r.error == e
  {
    if e.code == USER_UNKNOWN then Invaild
    else if e.code == AUTH_ERR then Invaild
    else PamError(e)
  }

  /** `is_invaild`. */
  predicate IsInvaild(e: AuthenticateError)
    ensures IsInvaild(e) <==> Display(e) == InvalidMessage
  {
    DisplaySecondChar(e);
    e.Invaild?
  }

  /** A PAM failure counts as a bad login exactly for the two credential codes. */
  lemma InvalidExactlyForCredentialCodes(e: PamFailure)
    ensures IsInvaild(FromPamError(e)) <==> e.code in {USER_UNKNOWN, AUTH_ERR}
    ensures !IsInvaild(FromPamError(e)) ==> FromPamError(e) == PamError(e)
  {
  }

  /**
   * `auth_user`: PAM's verdict on the pair (`None` for success, covering both
   * the client setup and `authenticate`) decides; on success the account is
   * looked up, which `auth_user` unwraps because PAM has just vouched for it.
   */
  function AuthUser<U>(username: string, password: string,
                       pam: (string, string) -> Option<PamFailure>,
                       lookup: string -> Option<U>): (r: Result<U, AuthenticateError>)
    requires pam(username, password).None? ==> lookup(username).Some?
    ensures r.Ok? <==> pam(username, password).None?
    ensures r.Ok? ==> Some(r.value) == lookup(username)
    ensures r.Err? ==> r.error == FromPamError(pam(username, password).value)
  {
    match pam(username, password)
    case None => Ok(lookup(username).value)
    case Some(failure) => Err(FromPamError(failure))
  }

  const InvalidMessage: string := "Invaild username or password"
  const PamPrefix: string := "Authenticate error: "

  /** `Display for AuthenticateError`. */
  function Display(e: AuthenticateError): (r: string)
    ensures e.Invaild? ==> r == InvalidMessage
    ensures e.PamError? ==> r == PamPrefix + e.error.text
  {
    match e
    case Invaild => InvalidMessage
    case PamError(err) => PamPrefix + err.text
  }

  /** The rendering tells the two variants apart and keeps the PAM text recoverable. */
  lemma DisplayDistinguishes(a: AuthenticateError, b: AuthenticateError)
    requires Display(a) == Display(b)
    ensures a.Invaild? <==> b.Invaild?
    ensures a.PamError? ==> a.error.text == b.error.text
  {
    DisplaySecondChar(a);
    DisplaySecondChar(b);
    if a.PamError? && b.PamError? {
      assert a.error.text == Display(a)[|PamPrefix|..];
    }
  }

  /** "Invaild ..." and "Authenticate ..." already differ in their second character. */
  lemma DisplaySecondChar(e: AuthenticateError)
    ensures |Display(e)| > 1 && (Display(e)[1] == 'n' <==> e.Invaild?)
  {
    if e.PamError? {
      assert Display(e)[1] == PamPrefix[1];
    }
  }

  /** A system group as the `users` crate reports it. */
  datatype Group = Group(name: string, gid: nat)

  /** The group names that make an account an administrator. */
  predicate IsAdminGroupName(name: string) {
    name == "sudo" || name == "wheel"
  }

  /**
   * `is_sudo`: scans the account's groups and answers true at the first one
   * named `sudo` or `wheel`; an account whose groups cannot be listed is not
   * an administrator.
   */
  method IsSudo(groups: Option<seq<Group>>) returns (r: bool)
    ensures r <==> groups.Some? && exists i :: 0 <= i < |groups.value| && IsAdminGroupName(groups.value[i].name)
  {
    match groups {
      case None =>
        return false;
      case Some(gs) =>
        for i := 0 to |gs|
          invariant forall j :: 0 <= j < i ==> !IsAdminGroupName(gs[j].name)
        {
          if gs[i].name == "sudo" || gs[i].name == "wheel" {
            return true;
          }
        }
        return false;
    }
  }

  /** `leaders.contains(name)` over the leaders list read from the group's file. */
  function ListContains(leaders: seq<string>, name: string): (r: bool)
    ensures r <==> exists i :: 0 <= i < |leaders| && leaders[i] == name
  {
    if leaders == [] then false
    else leaders[0] == name || ListContains(leaders[1..], name)
  }

  /** `is_group_leader`, given the leaders list the group's file holds. */
  function IsGroupLeader(userName: string, leaders: seq<string>): (r: bool)
    ensures r <==> userName in leaders
  {
    ListContains(leaders, userName)
  }
}
