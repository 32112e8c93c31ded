/** Error values of the tool (src/utils/error.cpp): a closed set of codes, a message and
    optional details, and the text an error prints as. */
module Errors {
  import opened Wrappers

  datatype ErrorCode =
    | FileNotFound
    | FileAlreadyExists
    | PermissionDenied
    | DirectoryNotFound
    | CannotCreateDirectory
    | CannotCreateFile
    | InvalidMarkdownFormat
    | InvalidJSONFormat
    | InvalidTemplateStructure
    | ParsingFailed
    | TemplateNotFound
    | TemplateLoadFailed
    | TemplateInvalid
    | InvalidInput
    | UnknownError

  datatype Error = Error(code: ErrorCode, message: string, details: Option<string>)

  /** `Result<T>`: a value or an error. */
  datatype Result<+T> = Ok(value: T) | Err(error: Error)

  /** `Result<void>`: success or an error. */
  datatype Outcome = Pass | Fail(error: Error)

  /** Shorthand for an error without details. */
  function Failure(code: ErrorCode, message: string): (e: Error)
    ensures e.code == code && e.message == message && e.details == None
  {
    Error(code, message, None)
  }

  /** `Error::code_to_string`: the identifier of each code. */
  function CodeToString(code: ErrorCode): (s: string)
    ensures |s| > 0 && ']' !in s
  {
    match code
    case FileNotFound => "FileNotFound"
    case FileAlreadyExists => "FileAlreadyExists"
    case PermissionDenied => "PermissionDenied"
    case DirectoryNotFound => "DirectoryNotFound"
    case CannotCreateDirectory => "CannotCreateDirectory"
    case CannotCreateFile => "CannotCreateFile"
    case InvalidMarkdownFormat => "InvalidMarkdownFormat"
    case InvalidJSONFormat => "InvalidJSONFormat"
    case InvalidTemplateStructure => "InvalidTemplateStructure"
    case ParsingFailed => "ParsingFailed"
    case TemplateNotFound => "TemplateNotFound"
    case TemplateLoadFailed => "TemplateLoadFailed"
    case TemplateInvalid => "TemplateInvalid"
    case InvalidInput => "InvalidInput"
    case UnknownError => "UnknownError"
  }

  /** Reads a code back from its identifier, comparing only with the identifiers of the
      same length. */
  function CodeFromString(s: string): Option<ErrorCode> {
    if |s| == 12 then
      if s == "FileNotFound" then Some(FileNotFound)
      else if s == "InvalidInput" then Some(InvalidInput)
      else if s == "UnknownError" then Some(UnknownError)
      else None
    else if |s| == 13 then
      if s == "ParsingFailed" then Some(ParsingFailed) else None
    else if |s| == 15 then
      if s == "TemplateInvalid" then Some(TemplateInvalid) else None
    else if |s| == 16 then
      if s == "PermissionDenied" then Some(PermissionDenied)
      else if s == "CannotCreateFile" then Some(CannotCreateFile)
      else if s == "TemplateNotFound" then Some(TemplateNotFound)
      else None
    else if |s| == 17 then
      if s == "FileAlreadyExists" then Some(FileAlreadyExists)
      else if s == "DirectoryNotFound" then Some(DirectoryNotFound)
      else if s == "InvalidJSONFormat" then Some(InvalidJSONFormat)
      else None
    else if |s| == 18 then
      if s == "TemplateLoadFailed" then Some(TemplateLoadFailed) else None
    else if |s| == 21 then
      if s == "CannotCreateDirectory" then Some(CannotCreateDirectory)
      else if s == "InvalidMarkdownFormat" then Some(InvalidMarkdownFormat)
      else None
    else if |s| == 24 then
      if s == "InvalidTemplateStructure" then Some(InvalidTemplateStructure) else None
    else None
  }

  /** Every code's identifier reads back as that code. */
  lemma CodeStringRoundTrip(code: ErrorCode)
    ensures CodeFromString(CodeToString(code)) == Some(code)
  {
    match code
    case FileNotFound => assert CodeFromString("FileNotFound") == Some(FileNotFound);
    case FileAlreadyExists => assert CodeFromString("FileAlreadyExists") == Some(FileAlreadyExists);
    case PermissionDenied => assert CodeFromString("PermissionDenied") == Some(PermissionDenied);
    case DirectoryNotFound => assert CodeFromString("DirectoryNotFound") == Some(DirectoryNotFound);
    case CannotCreateDirectory => assert CodeFromString("CannotCreateDirectory") == Some(CannotCreateDirectory);
    case CannotCreateFile => assert CodeFromString("CannotCreateFile") == Some(CannotCreateFile);
    case InvalidMarkdownFormat => assert CodeFromString("InvalidMarkdownFormat") == Some(InvalidMarkdownFormat);
    case InvalidJSONFormat => assert CodeFromString("InvalidJSONFormat") == Some(InvalidJSONFormat);
    case InvalidTemplateStructure => assert CodeFromString("InvalidTemplateStructure") == Some(InvalidTemplateStructure);
    case ParsingFailed => assert CodeFromString("ParsingFailed") == Some(ParsingFailed);
    case TemplateNotFound => assert CodeFromString("TemplateNotFound") == Some(TemplateNotFound);
    case TemplateLoadFailed => assert CodeFromString("TemplateLoadFailed") == Some(TemplateLoadFailed);
    case TemplateInvalid => assert CodeFromString("TemplateInvalid") == Some(TemplateInvalid);
    case InvalidInput => assert CodeFromString("InvalidInput") == Some(InvalidInput);
    case UnknownError => assert CodeFromString("UnknownError") == Some(UnknownError);
  }

  /** Distinct codes print as distinct identifiers. */
  lemma CodeToStringInjective(a: ErrorCode, b: ErrorCode)
    ensures CodeToString(a) == CodeToString(b) ==> a == b
  {
    CodeStringRoundTrip(a);
    CodeStringRoundTrip(b);
  }

  predicate HasDetails(e: Error) {
    e.details.Some? && e.details.value != ""
  }

  /** `Error::to_string`: "[code] message", followed by the details line when there are
      non-empty details. */
  function ToString(e: Error): (s: string)
    ensures |s| >= |CodeToString(e.code)| + 3 + |e.message|
    ensures s[..|CodeToString(e.code)| + 3] == "[" + CodeToString(e.code) + "] "
    ensures HasDetails(e) <==> |s| > |CodeToString(e.code)| + 3 + |e.message|
    ensures !HasDetails(e) ==> s == "[" + CodeToString(e.code) + "] " + e.message
    ensures HasDetails(e) ==>
      s == "[" + CodeToString(e.code) + "] " + e.message + "\n  Details: " + e.details.value
  {
    var head := "[" + CodeToString(e.code) + "] " + e.message;
    if HasDetails(e) then head + "\n  Details: " + e.details.value else head
  }

  /** The code can be read back from the printed text: the first ']' closes it. */
  lemma ToStringDeterminesCode(e1: Error, e2: Error)
    requires ToString(e1) == ToString(e2)
    ensures e1.code == e2.code
  {
    var a, b := CodeToString(e1.code), CodeToString(e2.code);
    var s := ToString(e1);
    assert s[..|a| + 3] == "[" + a + "] ";
    assert s[..|b| + 3] == "[" + b + "] ";
    // the ']' closing the shorter identifier would otherwise lie inside the longer one
    var m := if |a| < |b| then |a| else |b|;
    assert s[m + 1] == ']';
    assert forall i :: 0 <= i < |a| ==> a[i] == s[i + 1];
    assert forall i :: 0 <= i < |b| ==> b[i] == s[i + 1];
    assert a == s[1..|a| + 1] == b;
    CodeToStringInjective(e1.code, e2.code);
  }
}
