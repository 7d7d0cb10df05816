/**
 * The plugin command registry of `lib.rs`: plugins register named commands
 * through the C entry point `create_command`, and `call_command` looks a
 * command up, marshals the message into a C string and calls it. A C
 * function pointer is an address; what the function at an address returns
 * is the parameter `invoke` (`None` for a null pointer).
 */
module Plugins {
  import opened Wrappers
  import Utf8

  /** `APICommand`: the callback's address and its two flags. */
  datatype ApiCommand = ApiCommand(callback: nat, needsRoot: bool, takesInput: bool)

  /** One call of a plugin callback: address, caller's uid, message bytes and the size passed. */
  datatype Invocation = Invocation(callback: nat, uid: nat, message: seq<byte>, size: nat)

  /** A loaded plugin and its command table. */
  class Plugin {
    const name: string
    var commands: map<string, ApiCommand>

    constructor(name: string)
      ensures this.name == name && commands == map[]
    {
      this.name := name;
      commands := map[];
    }

    /** The name the plugin reported when it was loaded. */
    function Name(): (r: string)
      ensures r == name
    {
      name
    }
  }

  /** The bytes of a C string: everything before the first NUL. */
  function UpToNul(bs: seq<byte>): (r: seq<byte>)
    ensures r <= bs && 0 !in r
    ensures |r| < |bs| ==> bs[|r|] == 0
  {
    if bs == [] || bs[0] == 0 then [] else [bs[0]] + UpToNul(bs[1..])
  }

  /**
   * `create_command`: a null plugin or name, or a name that is not UTF-8,
   * registers nothing; otherwise the command is stored under its name,
   * replacing any earlier one. `name` holds the bytes before the terminator.
   */
  method CreateCommand(plugin: Plugin?, name: Option<seq<byte>>, callback: nat, needsRoot: bool, takesInput: bool)
    requires name.Some? ==> 0 !in name.value
    modifies plugin
    ensures plugin != null && name.Some? && Utf8.Decode(name.value).Some? ==>
      plugin.commands == old(plugin.commands)[Utf8.Decode(name.value).value := ApiCommand(callback, needsRoot, takesInput)]
    ensures plugin != null && (name.None? || Utf8.Decode(name.value).None?) ==> plugin.commands == old(plugin.commands)
  {
    if plugin == null || name.None? {
      return;
    }
    var decoded := Utf8.Decode(name.value);
    if decoded.None? {
      return;
    }
    plugin.commands := plugin.commands[decoded.value := ApiCommand(callback, needsRoot, takesInput)];
  }

  /**
   * Two `create_command` calls under the same name keep only the second
   * command; every other name keeps what it had.
   */
  method RegisterReplaces(plugin: Plugin, name: seq<byte>, first: ApiCommand, second: ApiCommand)
    requires 0 !in name && Utf8.Decode(name).Some?
    modifies plugin
    ensures plugin.commands == old(plugin.commands)[Utf8.Decode(name).value := second]
    ensures forall other :: other != Utf8.Decode(name).value ==>
      (other in plugin.commands <==> other in old(plugin.commands))
      && (other in old(plugin.commands) ==> plugin.commands[other] == old(plugin.commands)[other])
  {
    CreateCommand(plugin, Some(name), first.callback, first.needsRoot, first.takesInput);
    CreateCommand(plugin, Some(name), second.callback, second.needsRoot, second.takesInput);
  }

  /** `filter(|&c| c != '\0')`: the message with every NUL removed, order kept. */
  function RemoveNul(s: string): (r: string)
    ensures '\0' !in r && |r| <= |s|
    ensures '\0' !in s ==> r == s
    ensures forall c :: c != '\0' ==> (c in r <==> c in s)
  {
    if s == [] then []
    else if s[0] == '\0' then RemoveNul(s[1..])
    else [s[0]] + RemoveNul(s[1..])
  }

  /**
   * The filter works character by character: cleaning a concatenation cleans
   * each part, and a single character survives exactly when it is not NUL,
   * so every other character keeps its place and its count.
   */
  lemma {:induction false} RemoveNulConcat(a: string, b: string, c: char)
    ensures RemoveNul(a + b) == RemoveNul(a) + RemoveNul(b)
    ensures RemoveNul([c]) == (if c == '\0' then [] else [c])
    decreases |a|
  {
    if a != [] {
      var ab := a + b;
      assert ab[0] == a[0] && ab[1..] == a[1..] + b;
      RemoveNulConcat(a[1..], b, c);
      if a[0] != '\0' {
        assert RemoveNul(ab) == [a[0]] + (RemoveNul(a[1..]) + RemoveNul(b));
      }
    } else {
      assert a + b == b;
    }
  }

  /** `CString::new`: refuses bytes holding a NUL. */
  function CString(bs: seq<byte>): (r: Option<seq<byte>>)
    ensures r.Some? <==> 0 !in bs
    ensures r.Some? ==> r.value == bs
  {
    if 0 in bs then None else Some(bs)
  }

  /**
   * The C message and the size `call_command` passes: the cleaned message
   * and its byte length, or the empty string with size 0 for an empty
   * message; `None` where the `?` on `CString::new` would return.
   */
  function Marshal(message: string): (r: Option<(seq<byte>, nat)>)
    ensures r.Some? ==> r.value.1 == |r.value.0| && 0 !in r.value.0
    ensures message == [] ==> r == Some(([], 0))
  {
    if message != [] then
      match CString(Utf8.Encode(RemoveNul(message)))
      case None => None
      case Some(bytes) => Some((bytes, |bytes|))
    else
      Some(([], 0))
  }

  /**
   * Marshalling never fails; the size is the byte length; the bytes decode
   * back to the message without its NULs; an empty message becomes the
   * empty string with size 0.
   */
  lemma MarshalSound(message: string)
    ensures Marshal(message).Some?
    ensures var (bytes, size) := Marshal(message).value;
      && size == |bytes|
      && 0 !in bytes
      && Utf8.Decode(bytes) == Some(RemoveNul(message))
      && (message == [] ==> bytes == [] && size == 0)
  {
    Utf8.EncodeWithoutNul(RemoveNul(message));
    Utf8.DecodeEncode(RemoveNul(message));
  }

  /** A message without NULs reaches the plugin byte for byte as its UTF-8 encoding. */
  lemma MarshalPlain(message: string)
    requires '\0' !in message
    ensures Marshal(message) == Some((Utf8.Encode(message), |Utf8.Encode(message)|))
  {
    Utf8.EncodeWithoutNul(message);
  }

  /**
   * `call_command`: an unknown name gives `None` and calls nothing; otherwise
   * the command's callback is called once with the marshalled message, a
   * null result gives `None`, and so does a result that is not UTF-8.
   */
  method CallCommand(plugin: Plugin, name: string, message: string, uid: nat,
                     invoke: Invocation -> Option<seq<byte>>)
    returns (out: Option<string>, called: Option<Invocation>)
    ensures name !in plugin.commands ==> out == None && called == None
    ensures name in plugin.commands ==>
      && Marshal(message).Some?
      && called == Some(Invocation(plugin.commands[name].callback, uid, Marshal(message).value.0, Marshal(message).value.1))
      && (invoke(called.value).None? ==> out == None)
      && (invoke(called.value).Some? ==> out == Utf8.Decode(UpToNul(invoke(called.value).value)))
  {
    if name !in plugin.commands {
      return None, None;
    }
    var command := plugin.commands[name];
    MarshalSound(message);
    var marshalled := Marshal(message);
    if marshalled.None? {
      return None, None;
    }
    var (bytes, size) := marshalled.value;
    var call := Invocation(command.callback, uid, bytes, size);
    called := Some(call);
    var result := invoke(call);
    if result.None? {
      return None, called;
    }
    out := Utf8.Decode(UpToNul(result.value));
  }
}
