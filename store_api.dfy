/**
  The value types the remote store client exchanges with the engine, and the
  validation chain every HTTP response goes through before its body is decoded.
 */
module StoreAPI {
  import opened Wrappers
  import opened SwiftText

  newtype byte = b: int | 0 <= b < 256

  /** An error carrying a human-readable description. */
  datatype StoreAPIError = StoreAPIError(errorDescription: string) {
    function LocalizedDescription(): string {
      errorDescription
    }
  }

  /** The description an error reports is the one it was built with. */
  lemma LocalizedDescriptionIsGiven(description: string)
    ensures StoreAPIError(description).LocalizedDescription() == description
  {
  }

  /** `kUTTypeFolder`. */
  const FolderUti: string := "public.folder"

  /**
    What the operating system's MIME-to-UTI conversion (with its fallback to
    `public.data` for unknown and dynamic types) answers for a MIME type.
   */
  type UtiConverter = string -> string

  /** One item as the remote store describes it; dates are seconds since 1970. */
  datatype FileItemInfo = FileItemInfo(
    id: int,
    name: string,
    ctype: string,
    size: int,
    mdate: int,
    cdate: int)
  {
    /** The local identifier of a remote item: the decimal rendering of its numeric id. */
    function Identifier(): string {
      IntToDecimal(id)
    }

    /**
      The type of a remote item: "folder" in any letter case is the folder
      type, any other content type goes through the MIME conversion.
    */
    function Uti(convert: UtiConverter): (u: string)
      ensures SpellsInAnyCase(ctype, "folder") ==> u == FolderUti
      ensures !SpellsInAnyCase(ctype, "folder") ==> u == convert(ctype)
    {
      LowercasedIsFolderIff(ctype);
      if Lowercased(ctype) == "folder" then FolderUti else convert(ctype)
    }

    /**
      `isDirectory`: "folder" in any letter case is a directory; any other
      content type is one only when the MIME conversion answers the folder type.
    */
    predicate IsDirectory(convert: UtiConverter)
      ensures SpellsInAnyCase(ctype, "folder") ==> IsDirectory(convert)
      ensures !SpellsInAnyCase(ctype, "folder") ==> (IsDirectory(convert) <==> convert(ctype) == FolderUti)
    {
      Uti(convert) == FolderUti
    }
  }

  /** Two remote items have the same local identifier exactly when they have the same id. */
  lemma IdentifierIsInjective(a: FileItemInfo, b: FileItemInfo)
    ensures a.Identifier() == b.Identifier() <==> a.id == b.id
  {
    IntToDecimalInjective(a.id, b.id);
  }

  /**
    A content type of "folder", in any letter case, makes an item a directory;
    when the MIME conversion never answers the folder type, nothing else does.
   */
  lemma DirectoryIffFolderContentType(info: FileItemInfo, convert: UtiConverter)
    ensures SpellsInAnyCase(info.ctype, "folder") ==> info.IsDirectory(convert)
    ensures convert(info.ctype) != FolderUti ==>
      (info.IsDirectory(convert) <==> SpellsInAnyCase(info.ctype, "folder"))
  {
    LowercasedIsFolderIff(info.ctype);
  }

  /** One batch of the remote change feed of a directory. */
  datatype DirectoryChanges = DirectoryChanges(
    newItems: seq<FileItemInfo>,
    erase: seq<int>,
    anchor: int,
    remain: int,
    size: int)

  datatype HttpResponse = HttpResponse(statusCode: int, headerFields: map<string, string>)

  /** The JSON decoder for a response body (the codec is not part of this model). */
  type JsonDecoder<T> = seq<byte> -> Option<T>

  function ContentType(response: HttpResponse): Option<string> {
    if "Content-Type" in response.headerFields then Some(response.headerFields["Content-Type"]) else None
  }

  predicate IsSuccessStatus(statusCode: int) {
    200 <= statusCode < 300
  }

  /** A response that passes every check before the decoder. */
  predicate IsAcceptedJson(data: Option<seq<byte>>, response: HttpResponse) {
    IsSuccessStatus(response.statusCode) && data.Some? && ContentType(response) == Some("application/json")
  }

  function StatusCodeError(statusCode: int): StoreAPIError {
    StoreAPIError("Received '" + IntToDecimal(statusCode) + "' error code")
  }

  /**
    `decodeJsonResponse`: the two values handed to its completion, which runs
    once, on every path. The checks come in a fixed order: status code, then
    presence of a body, then the exact content type, then the decoder.
   */
  method DecodeJsonResponse<T>(data: Option<seq<byte>>, httpResponse: HttpResponse, decode: JsonDecoder<T>)
    returns (result: Option<T>, resultError: Option<StoreAPIError>)
    ensures result.Some? != resultError.Some?
    ensures !IsSuccessStatus(httpResponse.statusCode) ==>
      resultError == Some(StatusCodeError(httpResponse.statusCode))
    ensures IsSuccessStatus(httpResponse.statusCode) && data.None? ==>
      resultError == Some(StoreAPIError("Received empty data"))
    ensures (IsSuccessStatus(httpResponse.statusCode) && data.Some? &&
             ContentType(httpResponse) != Some("application/json")) ==>
      resultError == Some(StoreAPIError("Unsupported content-type"))
    ensures result.Some? <==> IsAcceptedJson(data, httpResponse) && decode(data.value).Some?
    ensures result.Some? ==> result == decode(data.value)
    ensures (IsAcceptedJson(data, httpResponse) && decode(data.value).None?) ==>
      resultError == Some(StoreAPIError("JSON decode fail"))
  {
    result := None;
    resultError := None;
    if !IsSuccessStatus(httpResponse.statusCode) {
      resultError := Some(StatusCodeError(httpResponse.statusCode));
      return;
    }
    if data.None? {
      resultError := Some(StoreAPIError("Received empty data"));
      return;
    }
    var contentType := ContentType(httpResponse);
    if contentType != Some("application/json") {
      resultError := Some(StoreAPIError("Unsupported content-type"));
      return;
    }
    var decoded := decode(data.value);
    if decoded.Some? {
      result := decoded;
    } else {
      resultError := Some(StoreAPIError("JSON decode fail"));
    }
  }

  /** The status-code error names the code it rejects, so distinct codes give distinct errors. */
  lemma StatusCodeErrorNamesCode(a: int, b: int)
    ensures StatusCodeError(a) == StatusCodeError(b) <==> a == b
  {
    var p, q := "Received '", "' error code";
    if StatusCodeError(a) == StatusCodeError(b) {
      var sa, sb := p + IntToDecimal(a) + q, p + IntToDecimal(b) + q;
      assert sa == sb;
      assert |IntToDecimal(a)| == |IntToDecimal(b)|;
      assert IntToDecimal(a) == sa[|p|..|sa| - |q|];
      assert IntToDecimal(b) == sb[|p|..|sb| - |q|];
    }
    IntToDecimalInjective(a, b);
  }
}
