/**
 * The first exchange on a raw client socket (`request_handler.rs`): read the
 * `user:password` string, decode it as UTF-8, split it at the first `:` and
 * authenticate. PAM is a parameter: `authenticate` stands for `auth_user`.
 */
module RequestHandler {
  import opened Wrappers
  import Text
  import Utf8
  import Auth

  /** `splitn(2, ":")` taken as a pair: the text before the first `:` and everything after it. */
  function SplitCredentials(s: string): (r: Option<(string, string)>)
    ensures r.None? <==> ':' !in s
    ensures r.Some? ==> ':' !in r.value.0 && s == r.value.0 + ":" + r.value.1
  {
    var i := Text.IndexOf(s, ':');
    if i == |s| then None else Some((s[..i], s[i + 1..]))
  }

  /** The split gives back any username without `:` and any password, `:`s included. */
  lemma SplitCredentialsOf(user: string, password: string)
    requires ':' !in user
    ensures SplitCredentials(user + ":" + password) == Some((user, password))
  {
    var s := user + ":" + password;
    Text.IndexOfAfter(user, ':', password);
    assert s[..|user|] == user && s[|user| + 1..] == password;
  }

  /** `first_handshake`: no `:` means no attempt; a failed authentication means `None`. */
  function FirstHandshake<U>(s: string, authenticate: (string, string) -> Result<U, Auth.AuthenticateError>): (r: Option<U>)
    ensures ':' !in s ==> r.None?
  {
    match SplitCredentials(s)
    case None => None
    case Some((user, password)) =>
      match authenticate(user, password)
      case Ok(account) => Some(account)
      case Err(_) => None
  }

  /** The handshake of `user:password` is exactly PAM's verdict on that pair. */
  lemma HandshakeOf<U>(user: string, password: string, authenticate: (string, string) -> Result<U, Auth.AuthenticateError>)
    requires ':' !in user
    ensures authenticate(user, password).Ok? ==> FirstHandshake(user + ":" + password, authenticate) == Some(authenticate(user, password).value)
    ensures authenticate(user, password).Err? ==> FirstHandshake(user + ":" + password, authenticate) == None
  {
    SplitCredentialsOf(user, password);
  }

  /** What one `socket.read` returned. */
  datatype ReadResult = ReadOk(data: seq<byte>) | ReadErr(message: string)

  /** Where `socket_handle` returned. */
  datatype Outcome<U> = NoData | NotUtf8 | HandshakeDone(user: Option<U>)

  /**
   * `socket_handle` as written: a two-byte buffer (`vec![0,1024]`, whose
   * initial bytes are `initial`), one read into it, a read error treated as
   * zero bytes, the WHOLE buffer decoded, and a return right after the
   * handshake whatever it gave, because the block passed to `unwrap_or`
   * runs its `return` eagerly.
   */
  method SocketHandle<U>(read: ReadResult, initial: seq<byte>, authenticate: (string, string) -> Result<U, Auth.AuthenticateError>)
    returns (outcome: Outcome<U>, handshakeInput: Option<string>)
    requires |initial| == 2
    requires read.ReadOk? ==> |read.data| <= |initial|
    ensures read.ReadErr? || read.data == [] ==> outcome == NoData && handshakeInput == None
    ensures read.ReadOk? && read.data != [] ==>
      var filled := read.data + initial[|read.data|..];
      && (Utf8.Decode(filled).None? ==> outcome == NotUtf8 && handshakeInput == None)
      && (Utf8.Decode(filled).Some? ==>
            handshakeInput == Utf8.Decode(filled) && outcome == HandshakeDone(FirstHandshake(handshakeInput.value, authenticate)))
    ensures handshakeInput.Some? ==> |handshakeInput.value| <= 2
  {
    var buf := new byte[2];
    buf[0], buf[1] := initial[0], initial[1];
    var size: nat;
    match read {
      case ReadOk(data) =>
        forall i | 0 <= i < |data| {
          buf[i] := data[i];
        }
        size := |data|;
      case ReadErr(_) =>
        size := 0;
    }
    if size == 0 {
      return NoData, None;
    }
    assert buf[..] == read.data + initial[|read.data|..];
    var text := Utf8.Decode(buf[..]);
    if text.None? {
      return NotUtf8, None;
    }
    Utf8.DecodeLength(buf[..]);
    handshakeInput := text;
    var user := FirstHandshake(text.value, authenticate);
    outcome := HandshakeDone(user);
  }

  /**
   * As written, the credentials the handshake sees are at most two
   * characters long: a login such as `alice:secret`, whose first two
   * characters are ASCII and not `:`, reaches the handshake as those two
   * characters only, and they hold no `:` to split at.
   */
  lemma TwoByteBufferTruncates<U>(a: char, b: char, rest: string, initial: seq<byte>,
                                  authenticate: (string, string) -> Result<U, Auth.AuthenticateError>)
    requires a as int < 0x80 && b as int < 0x80 && a != ':' && b != ':'
    requires |initial| == 2
    ensures var data := Utf8.Encode([a, b] + rest)[..2];
      && Utf8.Decode(data + initial[|data|..]) == Some([a, b])
      && FirstHandshake([a, b], authenticate) == None
  {
    AsciiPrefix(a, b, rest);
    var data := Utf8.Encode([a, b] + rest)[..2];
    assert data + initial[|data|..] == Utf8.Encode([a, b]);
    Utf8.DecodeEncode([a, b]);
  }

  /** Two ASCII characters encode to their own codes, ahead of whatever follows them. */
  lemma AsciiPrefix(a: char, b: char, tail: string)
    requires a as int < 0x80 && b as int < 0x80
    ensures Utf8.Encode([a, b] + tail)[..2] == Utf8.Encode([a, b]) == [a as int as byte, b as int as byte]
  {
    assert [a, b] + tail == [a] + ([b] + tail);
    Utf8.EncodeCons(a, [b] + tail);
    Utf8.EncodeCons(b, tail);
    assert [a, b] == [a] + ([b] + []);
    Utf8.EncodeCons(a, [b] + []);
    Utf8.EncodeCons(b, []);
  }

  /**
   * The read that delivers the first two bytes of such a login ends the
   * connection with no login, whatever PAM would say about the pair.
   */
  method TruncatedLogin<U>(a: char, b: char, rest: string, initial: seq<byte>,
                           authenticate: (string, string) -> Result<U, Auth.AuthenticateError>)
    returns (outcome: Outcome<U>)
    requires a as int < 0x80 && b as int < 0x80 && a != ':' && b != ':'
    requires |initial| == 2
    ensures outcome == HandshakeDone(None)
  {
    TwoByteBufferTruncates(a, b, rest, initial, authenticate);
    var read := ReadOk(Utf8.Encode([a, b] + rest)[..2]);
    var input;
    outcome, input := SocketHandle(read, initial, authenticate);
  }

  /** The size of the buffer the handshake evidently needs (`vec![0; 1024]`). */
  const BufferSize: nat := 1024

  /**
   * `socket_handle` corrected: a 1024-byte buffer, and only the `size` bytes
   * the read delivered are decoded.
   */
  method SocketHandleFixed<U>(read: ReadResult, authenticate: (string, string) -> Result<U, Auth.AuthenticateError>)
    returns (outcome: Outcome<U>, handshakeInput: Option<string>)
    requires read.ReadOk? ==> |read.data| <= BufferSize
    ensures read.ReadErr? || read.data == [] ==> outcome == NoData && handshakeInput == None
    ensures read.ReadOk? && read.data != [] ==>
      && (Utf8.Decode(read.data).None? ==> outcome == NotUtf8 && handshakeInput == None)
      && (Utf8.Decode(read.data).Some? ==>
            handshakeInput == Utf8.Decode(read.data) && outcome == HandshakeDone(FirstHandshake(handshakeInput.value, authenticate)))
  {
    var buf := new byte[BufferSize];
    var size: nat;
    match read {
      case ReadOk(data) =>
        forall i | 0 <= i < |data| {
          buf[i] := data[i];
        }
        size := |data|;
      case ReadErr(_) =>
        size := 0;
    }
    if size == 0 {
      return NoData, None;
    }
    assert buf[..size] == read.data;
    var text := Utf8.Decode(buf[..size]);
    if text.None? {
      return NotUtf8, None;
    }
    handshakeInput := text;
    outcome := HandshakeDone(FirstHandshake(text.value, authenticate));
  }

  /**
   * With the corrected buffer, a client that sends `user:password` in one
   * read gets exactly PAM's verdict on that pair.
   */
  lemma FixedHandshakeSeesCredentials<U>(user: string, password: string, authenticate: (string, string) -> Result<U, Auth.AuthenticateError>)
    requires ':' !in user
    ensures var data := Utf8.Encode(user + ":" + password);
      && data != []
      && Utf8.Decode(data) == Some(user + ":" + password)
      && FirstHandshake(user + ":" + password, authenticate)
         == (if authenticate(user, password).Ok? then Some(authenticate(user, password).value) else None)
  {
    Utf8.DecodeEncode(user + ":" + password);
    HandshakeOf(user, password, authenticate);
  }
}
