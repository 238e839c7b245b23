/**
 * The constants and enumerations of the connection class, and the fixed
 * texts of its responses.
 */
module HttpDefs {
  import opened Bytes

  const ReadBufSize: nat := 2048
  const WriteBufSize: nat := 1024
  /** Capacity of the resolved target path, terminator included. */
  const FileNameLen: nat := 200

  /** Request methods; only GET is served. */
  datatype Method = Get | Post | Head | Put | Delete | Trace | Options | Connect

  /** State of the main parser state machine. */
  datatype CheckState = CheckRequestLine | CheckHeader | CheckContent

  /** Outcome of parsing and resolving a request. */
  datatype HttpCode =
    | NoRequest | GetRequest | BadRequest | NoResource
    | ForbiddenRequest | FileRequest | InternalError | ClosedConnection

  /** Outcome of the line tokenizer. */
  datatype LineStatus = LineOk | LineBad | LineOpen

  const OkTitle200: seq<byte> := Lit("OK")
  const ErrorTitle400: seq<byte> := Lit("Bad Request")
  const ErrorInfo400: seq<byte> := Lit("Your request has bad syntax or is inherently impossible to satisfy.\n")
  const ErrorTitle403: seq<byte> := Lit("Forbidden")
  const ErrorInfo403: seq<byte> := Lit("You do not have permission to get file from this server.\n")
  const ErrorTitle404: seq<byte> := Lit("Not Found")
  const ErrorInfo404: seq<byte> := Lit("The requested file was not found on this server.\n")
  const ErrorTitle500: seq<byte> := Lit("Internal Error")
  const ErrorInfo500: seq<byte> := Lit("There was an unusual problem serving the requested file.\n")

  /** The document root every target is resolved under. */
  const ResourceRoot: seq<byte> := Lit("/home/leland/projects/MyTinyWebserver/resource")
}
