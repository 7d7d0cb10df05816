/** `HandleError` of `handlers.rs`: the error every request handler reports. */
module Handlers {

  datatype HandleError = HandlerFailed(message: string) | HandlerNotFound(message: string) | InvaildUser(message: string)

  /** `From<String>` and `From<&str>`: a plain message is a handler failure. */
  function FromString(s: string): (e: HandleError)
    ensures e.HandlerFailed? && e.message == s
  {
    HandlerFailed(s)
  }

  /** `From<Box<dyn Error>>`, given the error's `to_string`. */
  function FromError(rendered: string): (e: HandleError)
    ensures e == FromString(rendered)
  {
    HandlerFailed(rendered)
  }

  const FailedPrefix: string := "Handler failed: "
  const NotFoundPrefix: string := "Handler not found: "
  const InvalidUserPrefix: string := "Invalid user: "

  function Prefix(e: HandleError): string {
    match e
    case HandlerFailed(_) => FailedPrefix
    case HandlerNotFound(_) => NotFoundPrefix
    case InvaildUser(_) => InvalidUserPrefix
  }

  /** `Display for HandleError`: the variant's prefix, then the message. */
  function Display(e: HandleError): (r: string)
    ensures Prefix(e) <= r && r[|Prefix(e)|..] == e.message
  {
    Prefix(e) + e.message
  }

  /** The rendering determines the error: distinct errors never display alike. */
  lemma DisplayInjective(a: HandleError, b: HandleError)
    requires Display(a) == Display(b)
    ensures a == b
  {
    PrefixesDiffer(a);
    PrefixesDiffer(b);
    assert Display(a)[..9] == Display(b)[..9];
    assert Prefix(a) == Prefix(b);
    assert a.message == Display(a)[|Prefix(a)|..];
  }

  /** The ninth character of each prefix differs: `f`, `n` and `u`. */
  lemma PrefixesDiffer(e: HandleError)
    ensures |Prefix(e)| > 9
    ensures Display(e)[..9] == Prefix(e)[..9]
    ensures Prefix(e)[8] == (if e.HandlerFailed? then 'f' else if e.HandlerNotFound? then 'n' else 'u')
  {
  }
}
