/** The NanoRPC message model: the request and response records carried
    inside an envelope, their enumerations, and the status names that
    protobuf-go's generated `String()` method returns. */
module Messages {
  import opened Wrappers
  import opened Numeric
  import Decimal

  /** NanoRPCRequest.Type. */
  datatype RequestType = TypeUnspecified | TypePing | TypeRequest | TypeSubscribe

  /** NanoRPCResponse.Type. */
  datatype ResponseType = TypeUnspecifiedResponse | TypePong | TypeResponse | TypeUpdate

  /** The `path_oneof` of a request: a path string or a 32-bit hash of one. */
  datatype PathOneof = Path(path: string) | PathHash(hash: uint32)

  /** NanoRPCRequest; `data` holds zero or one serialised argument. */
  datatype Request = Request(
    requestId: int32,
    requestType: RequestType,
    pathOneof: Option<PathOneof>,
    data: seq<seq<byte>>)

  /** NanoRPCResponse.Status is an open protobuf enum: any `int32` may arrive
      on the wire, five of them have names. */
  type Status = int32

  const StatusUnspecified: Status := 0
  const StatusOk: Status := 1
  const StatusNotFound: Status := 2
  const StatusNotAuthorized: Status := 3
  const StatusInternalError: Status := 4

  /** NanoRPCResponse; `data` holds zero or one serialised payload. */
  datatype Response = Response(
    requestId: int32,
    responseType: ResponseType,
    responseStatus: Status,
    responseMessage: string,
    data: seq<seq<byte>>)

  predicate IsKnownStatus(s: Status) {
    StatusUnspecified <= s <= StatusInternalError
  }

  predicate HasPrefix(s: string, p: string) {
    |p| <= |s| && s[..|p|] == p
  }

  /** The generated `String()` of a status: the declared name for the five
      known values, the decimal number for any other value. */
  function StatusName(s: Status): (r: string)
    ensures IsKnownStatus(s) <==> HasPrefix(r, "STATUS_")
    ensures !IsKnownStatus(s) ==> r == Decimal.Itoa(s)
  {
    if s == StatusUnspecified then "STATUS_UNSPECIFIED"
    else if s == StatusOk then "STATUS_OK"
    else if s == StatusNotFound then "STATUS_NOT_FOUND"
    else if s == StatusNotAuthorized then "STATUS_NOT_AUTHORIZED"
    else if s == StatusInternalError then "STATUS_INTERNAL_ERROR"
    else
      Decimal.ItoaShape(s);
      Decimal.Itoa(s)
  }

  /** Distinct statuses have distinct names, so the name identifies the value. */
  lemma StatusNameInjective(s: Status, t: Status)
    requires StatusName(s) == StatusName(t)
    ensures s == t
  {
    if !IsKnownStatus(s) && !IsKnownStatus(t) {
      Decimal.ItoaShape(s);
      Decimal.ItoaShape(t);
    }
  }
}
