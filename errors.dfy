/** The library's error vocabulary (src/error.rs). */
module Errors {
  import opened Wrappers

  /** `std::io::Error`, foreign: only its display text is modelled. */
  datatype IoError = IoError(message: string)

  /** `serde_json::Error`, foreign: only its display text is modelled. */
  datatype JsonError = JsonError(message: string)

  datatype Error =
    | Io(io: IoError)
    | Json(json: JsonError)
    | NotFound(key: string)
    | AlreadyExists(key: string)
    | InvalidFormat(msg: string)
    | InvalidKey(msg: string)

  /** `impl Display for Error`. */
  function Display(e: Error): string
  {
    match e
    case Io(err) => "I/O error: " + err.message
    case Json(err) => "JSON error: " + err.message
    case NotFound(key) => "record not found: " + key
    case AlreadyExists(key) => "record already exists: " + key
    case InvalidFormat(msg) => "invalid format: " + msg
    case InvalidKey(msg) => "invalid key: " + msg
  }

  /** What `source()` hands back: the wrapped foreign error. */
  datatype Cause = IoCause(io: IoError) | JsonCause(json: JsonError)

  /** `impl std::error::Error for Error`: only the wrapping variants have an underlying cause. */
  function Source(e: Error): (c: Option<Cause>)
    ensures c.None? <==> e.NotFound? || e.AlreadyExists? || e.InvalidFormat? || e.InvalidKey?
    ensures e.Io? ==> c == Some(IoCause(e.io))
    ensures e.Json? ==> c == Some(JsonCause(e.json))
  {
    match e
    case Io(err) => Some(IoCause(err))
    case Json(err) => Some(JsonCause(err))
    case NotFound(_) => None
    case AlreadyExists(_) => None
    case InvalidFormat(_) => None
    case InvalidKey(_) => None
  }

  /** `impl From<std::io::Error> for Error`: `source()` gives the converted error back. */
  function FromIo(err: IoError): (e: Error)
    ensures e.Io?
    ensures Source(e) == Some(IoCause(err))
  {
    Io(err)
  }

  /** `impl From<serde_json::Error> for Error`: `source()` gives the converted error back. */
  function FromJson(err: JsonError): (e: Error)
    ensures e.Json?
    ensures Source(e) == Some(JsonCause(err))
  {
    Json(err)
  }

  /** The message of each error kind the library itself raises. */
  lemma DisplayMessages(key: string, msg: string)
    ensures Display(NotFound(key)) == "record not found: " + key
    ensures Display(AlreadyExists(key)) == "record already exists: " + key
    ensures Display(InvalidFormat(msg)) == "invalid format: " + msg
    ensures Display(InvalidKey(msg)) == "invalid key: " + msg
  {
  }

  /** The fixed text that each kind's message starts with. */
  function Prefix(e: Error): string
  {
    match e
    case Io(_) => "I/O error: "
    case Json(_) => "JSON error: "
    case NotFound(_) => "record not found: "
    case AlreadyExists(_) => "record already exists: "
    case InvalidFormat(_) => "invalid format: "
    case InvalidKey(_) => "invalid key: "
  }

  /** The part of the message that comes from the error's own data. */
  function Detail(e: Error): string
  {
    match e
    case Io(err) => err.message
    case Json(err) => err.message
    case NotFound(key) => key
    case AlreadyExists(key) => key
    case InvalidFormat(msg) => msg
    case InvalidKey(msg) => msg
  }

  lemma DisplaySplits(e: Error)
    ensures Display(e) == Prefix(e) + Detail(e)
    ensures |Prefix(e)| >= 11
  {
  }

  /** Reads the kind of an error back from its message (the prefixes differ at index 0, 7 or 8). */
  function KindOfMessage(s: string): nat
    requires |s| >= 11
  {
    if s[0] == 'I' then 0
    else if s[0] == 'J' then 1
    else if s[0] == 'r' then (if s[7] == 'n' then 2 else 3)
    else if s[8] == 'f' then 4
    else 5
  }

  function Kind(e: Error): nat
  {
    match e
    case Io(_) => 0
    case Json(_) => 1
    case NotFound(_) => 2
    case AlreadyExists(_) => 3
    case InvalidFormat(_) => 4
    case InvalidKey(_) => 5
  }

  lemma KindOfDisplay(e: Error)
    ensures |Display(e)| >= 11 && KindOfMessage(Display(e)) == Kind(e)
  {
    DisplaySplits(e);
    var p, s := Prefix(e), Display(e);
    assert s[0] == p[0] && s[7] == p[7] && s[8] == p[8];
  }

  /**
   * Distinct errors display differently: the message determines the kind of error and the key or
   * text it carries (given that the foreign errors' own messages tell them apart).
   */
  lemma DisplayInjective(e1: Error, e2: Error)
    requires Display(e1) == Display(e2)
    ensures e1 == e2
  {
    KindOfDisplay(e1);
    KindOfDisplay(e2);
    DisplaySplits(e1);
    DisplaySplits(e2);
    assert Prefix(e1) == Prefix(e2);
    var n := |Prefix(e1)|;
    assert Detail(e1) == Display(e1)[n..] == Detail(e2);
  }
}
