/** Errors of NanoRPC (pkg/nanorpc/errors.go): the sentinel values, the
    `ResponseError` wrapper that turns a response status into an error, its
    rendering, and the predicates that recognise sentinels through
    `Unwrap` chains. Go compares sentinels by identity; here every sentinel
    is its own constructor, so identity is datatype equality. */
module Errors {
  import opened Wrappers
  import opened Messages
  import Decimal

  /** What a `core.Wrap` annotation says about the error it wraps. */
  datatype Detail = UnexpectedTag(num: int, typ: int) | SizeOutOfRange(size: nat)

  datatype Error =
    // sentinels declared by NanoRPC
    | NoResponse
    | InternalServerError
    | SessionClosed
    | HashCollision
    // sentinels of io/fs, darvaza core, os, io and protowire
    | NotExist
    | Permission
    | Invalid
    | Unknown
    | OsInvalid
    | UnexpectedEOF
    | VarintOverflow
    // `core.Wrap(cause, ...)`: an annotated error that unwraps to `cause`
    | Wrapped(cause: Error, detail: Detail)
    // a `*ResponseError`
    | StatusError(re: ResponseError)
    // an error returned by the message serialiser, opaque to NanoRPC
    | Foreign(code: nat)

  /** ResponseError: a response status as an error. `err` is the sentinel the
      status stands for (nil only when a caller builds one by hand). */
  datatype ResponseError = ResponseError(err: Option<Error>, msg: string, status: Status)

  // ---------------------------------------------------------------------
  // Unwrapping and matching
  // ---------------------------------------------------------------------

  /** One step of `Unwrap()`; `None` for errors that wrap nothing. */
  function Unwrap(e: Error): (r: Option<Error>)
    ensures r.Some? <==> e.Wrapped? || (e.StatusError? && e.re.err.Some?)
    ensures e.StatusError? ==> r == e.re.err
  {
    match e
    case Wrapped(cause, _) => Some(cause)
    case StatusError(re) => re.err
    case _ => None
  }

  /** `errors.Is`: `e` is `target` or unwraps, step by step, to it. */
  predicate Is(e: Error, target: Error)
    decreases e
  {
    e == target ||
    match e
    case Wrapped(cause, _) => Is(cause, target)
    case StatusError(re) => re.err.Some? && Is(re.err.value, target)
    case _ => false
  }

  /** `Is` is exactly "equal, or `Is` after one `Unwrap`". */
  lemma IsUnwrap(e: Error, target: Error)
    ensures Is(e, target) <==> e == target || (Unwrap(e).Some? && Is(Unwrap(e).value, target))
  {
  }

  /** An error that wraps nothing matches only itself. */
  lemma IsLeaf(e: Error, target: Error)
    requires Unwrap(e).None?
    ensures Is(e, target) <==> e == target
  {
  }

  /** `core.IsError(err, target)`: a nil error matches nothing. */
  predicate IsError(err: Option<Error>, target: Error) {
    err.Some? && Is(err.value, target)
  }

  /** IsNotFound: the error is, or wraps, fs.ErrNotExist. */
  predicate IsNotFound(err: Option<Error>) {
    IsError(err, NotExist)
  }

  /** IsNotAuthorized: the error is, or wraps, fs.ErrPermission. */
  predicate IsNotAuthorized(err: Option<Error>) {
    IsError(err, Permission)
  }

  /** IsNoResponse: the error is, or wraps, ErrNoResponse. */
  predicate IsNoResponse(err: Option<Error>) {
    IsError(err, NoResponse)
  }

  // ---------------------------------------------------------------------
  // Status to error
  // ---------------------------------------------------------------------

  /** The sentinel a non-OK status stands for. */
  function StatusSentinel(s: Status): Error {
    if s == StatusNotFound then NotExist
    else if s == StatusNotAuthorized then Permission
    else if s == StatusInternalError then InternalServerError
    else if s == StatusUnspecified then Invalid
    else Unknown
  }

  /** ResponseAsError: no response is ErrNoResponse, an OK status is no error,
      and every other status becomes a ResponseError that keeps the status and
      message and wraps the status's sentinel. */
  function ResponseAsError(res: Option<Response>): (r: Option<Error>)
    ensures res.None? ==> r == Some(NoResponse)
    ensures r.None? <==> res.Some? && res.value.responseStatus == StatusOk
    ensures res.Some? && r.Some? ==>
              && r.value.StatusError?
              && r.value.re.status == res.value.responseStatus
              && r.value.re.msg == res.value.responseMessage
              && r.value.re.err.Some?
  {
    match res
    case None => Some(NoResponse)
    case Some(response) =>
      if response.responseStatus == StatusOk then None
      else
        var re := ResponseError(Some(StatusSentinel(response.responseStatus)),
                                response.responseMessage, response.responseStatus);
        Some(StatusError(re))
  }

  /** The predicates recognise exactly the outcomes they are named after:
      IsNotFound holds of the error of a response iff its status is
      NOT_FOUND, IsNotAuthorized iff it is NOT_AUTHORIZED, and IsNoResponse
      iff there was no response at all. */
  lemma ResponseAsErrorMatches(res: Option<Response>)
    ensures IsNoResponse(ResponseAsError(res)) <==> res.None?
    ensures IsNotFound(ResponseAsError(res)) <==>
              res.Some? && res.value.responseStatus == StatusNotFound
    ensures IsNotAuthorized(ResponseAsError(res)) <==>
              res.Some? && res.value.responseStatus == StatusNotAuthorized
  {
    if res.Some? && res.value.responseStatus != StatusOk {
      var sentinel := StatusSentinel(res.value.responseStatus);
      IsLeaf(sentinel, NoResponse);
      IsLeaf(sentinel, NotExist);
      IsLeaf(sentinel, Permission);
    }
  }

  /** The status table: what the error of each non-OK status unwraps to. */
  lemma ResponseAsErrorUnwraps(res: Response)
    requires res.responseStatus != StatusOk
    ensures var r := ResponseAsError(Some(res));
      && r.Some?
      && (res.responseStatus == StatusNotFound ==> Unwrap(r.value) == Some(NotExist))
      && (res.responseStatus == StatusNotAuthorized ==> Unwrap(r.value) == Some(Permission))
      && (res.responseStatus == StatusInternalError ==> Unwrap(r.value) == Some(InternalServerError))
      && (res.responseStatus == StatusUnspecified ==> Unwrap(r.value) == Some(Invalid))
      && (!IsKnownStatus(res.responseStatus) ==> Unwrap(r.value) == Some(Unknown))
  {
  }

  // ---------------------------------------------------------------------
  // Rendering
  // ---------------------------------------------------------------------

  predicate HasSuffix(s: string, p: string) {
    |p| <= |s| && s[|s| - |p|..] == p
  }

  /** strings.CutPrefix. */
  function CutPrefix(s: string, prefix: string): (r: (string, bool))
    ensures r.1 <==> HasPrefix(s, prefix)
    ensures r.1 ==> prefix + r.0 == s
    ensures !r.1 ==> r.0 == s
  {
    if HasPrefix(s, prefix) then (s[|prefix|..], true) else (s, false)
  }

  /** The status part of a rendered ResponseError. */
  function StatusText(e: ResponseError): string {
    var (name, ok) := CutPrefix(StatusName(e.status), "STATUS_");
    if !ok || e.err == Some(Unknown) then "unknown status " + Decimal.Itoa(e.status)
    else if e.status == StatusUnspecified then name + ": invalid status"
    else name
  }

  /** The three cases of the status text, stated through the status's name:
      unknown values and the Unknown sentinel print the number, UNSPECIFIED is
      flagged as invalid, and any other name loses exactly its "STATUS_". */
  lemma StatusTextCases(e: ResponseError)
    ensures e.err == Some(Unknown) || !IsKnownStatus(e.status) ==>
              StatusText(e) == "unknown status " + Decimal.Itoa(e.status)
    ensures e.err != Some(Unknown) && e.status == StatusUnspecified ==>
              StatusText(e) == "UNSPECIFIED: invalid status"
    ensures e.err != Some(Unknown) && IsKnownStatus(e.status) && e.status != StatusUnspecified ==>
              "STATUS_" + StatusText(e) == StatusName(e.status)
    ensures |StatusText(e)| >= 1 && StatusText(e)[|StatusText(e)| - 1] != ' '
  {
    if e.err == Some(Unknown) || !IsKnownStatus(e.status) {
      StatusTextUnknown(e);
    } else if e.status == StatusUnspecified {
      StatusTextUnspecified(e);
    } else {
      StatusTextKnown(e);
    }
  }

  /** Unknown values and the Unknown sentinel print the number. */
  lemma StatusTextUnknown(e: ResponseError)
    requires e.err == Some(Unknown) || !IsKnownStatus(e.status)
    ensures StatusText(e) == "unknown status " + Decimal.Itoa(e.status)
    ensures StatusText(e)[|StatusText(e)| - 1] != ' '
  {
    var n := Decimal.Itoa(e.status);
    Decimal.ItoaShape(e.status);
    var t := "unknown status " + n;
    assert t[|t| - 1] == n[|n| - 1];
  }

  /** UNSPECIFIED is flagged as invalid. */
  lemma StatusTextUnspecified(e: ResponseError)
    requires e.err != Some(Unknown) && e.status == StatusUnspecified
    ensures StatusText(e) == "UNSPECIFIED: invalid status"
  {
    assert StatusName(e.status) == "STATUS_UNSPECIFIED";
    assert CutPrefix("STATUS_UNSPECIFIED", "STATUS_") == ("UNSPECIFIED", true);
  }

  /** Any other declared status prints its name without "STATUS_". */
  lemma StatusTextKnown(e: ResponseError)
    requires e.err != Some(Unknown) && IsKnownStatus(e.status) && e.status != StatusUnspecified
    ensures "STATUS_" + StatusText(e) == StatusName(e.status)
    ensures |StatusText(e)| >= 1 && StatusText(e)[|StatusText(e)| - 1] != ' '
  {
    var full := StatusName(e.status);
    KnownNameEnd(e.status);
    var name := CutPrefix(full, "STATUS_").0;
    assert StatusText(e) == name;
    assert name == full[7..];
    assert name[|name| - 1] == full[|full| - 1];
  }

  /** A declared status name is longer than its "STATUS_" prefix and ends in
      a letter. */
  lemma KnownNameEnd(s: Status)
    requires IsKnownStatus(s)
    ensures |StatusName(s)| > 7
    ensures StatusName(s)[|StatusName(s)| - 1] != ' '
  {
  }

  /** ResponseError.String: "nanorpc: " and the status text, then ": " and
      the message when there is one. */
  function Render(e: ResponseError): string {
    "nanorpc: " + StatusText(e) + (if e.msg != "" then ": " + e.msg else "")
  }

  /** The rendering always starts with "nanorpc: ", ends with ": " and the
      message exactly when the message is non-empty, and is the bare status
      line otherwise. */
  lemma RenderShape(e: ResponseError)
    ensures HasPrefix(Render(e), "nanorpc: ")
    ensures e.msg != "" <==> HasSuffix(Render(e), ": " + e.msg)
    ensures e.msg == "" ==> Render(e) == "nanorpc: " + StatusText(e)
  {
    StatusTextCases(e);
    var r := Render(e);
    var head := "nanorpc: " + StatusText(e);
    assert r[..9] == "nanorpc: ";
    if e.msg != "" {
      assert r == head + (": " + e.msg);
      assert r[|r| - |": " + e.msg|..] == ": " + e.msg;
    } else {
      assert r == head;
      assert r[|r| - 1] == StatusText(e)[|StatusText(e)| - 1];
    }
  }

  /** ResponseError.Error: the same text as String. */
  function ErrorText(e: ResponseError): (r: string)
    ensures r == Render(e)
  {
    Render(e)
  }

  /** A NOT_FOUND response with a message renders its name and message. */
  lemma RenderNotFoundExample()
    ensures Render(ResponseError(Some(NotExist), "unknown sensor", StatusNotFound))
            == "nanorpc: " + "NOT_FOUND" + ": " + "unknown sensor"
  {
    assert StatusName(StatusNotFound) == "STATUS_NOT_FOUND";
    assert CutPrefix("STATUS_NOT_FOUND", "STATUS_") == ("NOT_FOUND", true);
  }

  /** UNSPECIFIED is flagged as an invalid status. */
  lemma RenderUnspecifiedExample()
    ensures Render(ResponseError(Some(Invalid), "", StatusUnspecified))
            == "nanorpc: " + "UNSPECIFIED" + ": invalid status"
  {
    assert StatusName(StatusUnspecified) == "STATUS_UNSPECIFIED";
    assert CutPrefix("STATUS_UNSPECIFIED", "STATUS_") == ("UNSPECIFIED", true);
  }

  /** A value outside the enumeration renders as its number. */
  lemma RenderUnknownValueExample()
    ensures Render(ResponseError(Some(Unknown), "", 7)) == "nanorpc: " + "unknown status " + "7"
  {
    assert Decimal.Itoa(7) == "7" by {
      assert Decimal.DigitChar(7) == '7';
    }
    assert !HasPrefix(StatusName(7), "STATUS_");
  }

  /** A known status whose sentinel is the Unknown one renders as its number. */
  lemma RenderUnknownSentinelExample()
    ensures Render(ResponseError(Some(Unknown), "", StatusNotFound))
            == "nanorpc: " + "unknown status " + "2"
  {
    assert Decimal.Itoa(2) == "2" by {
      assert Decimal.DigitChar(2) == '2';
    }
  }

  /** A NOT_FOUND response with a message becomes an error that IsNotFound
      recognises and that renders its status name and the message. */
  lemma NotFoundResponseExample()
    ensures var r := ResponseAsError(Some(Response(42, TypeResponse, StatusNotFound, "unknown sensor", [])));
      && r.Some? && r.value.StatusError?
      && Render(r.value.re) == "nanorpc: " + "NOT_FOUND" + ": " + "unknown sensor"
      && IsNotFound(r) && !IsNotAuthorized(r) && !IsNoResponse(r)
  {
    var res := Response(42, TypeResponse, StatusNotFound, "unknown sensor", []);
    ResponseAsErrorMatches(Some(res));
    RenderNotFoundExample();
  }
}
