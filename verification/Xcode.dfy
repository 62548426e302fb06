/**
 Business error codes on their way through gRPC: encoded into a status with a detail and a decimal
 text on the server side, decoded and wrapped on the client side, over any number of hops.
 */
module Xcode {
  import opened Decimal

  const MIN_INT32: int := -0x8000_0000
  const MAX_INT32: int := 0x7fff_ffff

  predicate IsInt32(n: int) {
    MIN_INT32 <= n <= MAX_INT32
  }

  /** int32(n): the value modulo 2^32 that fits. */
  function ToInt32(n: int): (r: int)
    ensures IsInt32(r)
    ensures r == n <==> IsInt32(n)
  {
    (n - MIN_INT32) % 0x1_0000_0000 + MIN_INT32
  }

  /** The protobuf message types.Status; its own details are not looked at here. */
  datatype Proto = Proto(code: int, message: string)

  /** The two implementations of XCode: the value Code and the pointer Status. */
  datatype XCode = Code(code: int, msg: string) | Status(sts: Proto)

  /** A detail of a gRPC status, as Details() yields it. */
  datatype Detail = StatusDetail(sts: Proto) | OtherProto(text: string) | NotProto

  datatype GrpcCode =
    | GrpcOK | GrpcCanceled | GrpcUnknown | InvalidArgument | GrpcDeadlineExceeded | GrpcNotFound | AlreadyExists
    | PermissionDenied | ResourceExhausted | FailedPrecondition | Aborted | OutOfRange | Unimplemented | Internal
    | Unavailable | DataLoss | Unauthenticated

  datatype GrpcStatus = GrpcStatus(code: GrpcCode, message: string, details: seq<Detail>)

  /** A Go error: an XCode, one wrapped with a message, a context error, a gRPC error or any other. */
  datatype Err =
    | Plain(x: XCode)
    | Wrapped(cause: Err, text: string)
    | ContextCanceled
    | ContextDeadline
    | Grpc(status: GrpcStatus)
    | Other(text: string)

  const OK := Code(0, "OK")
  const REQUEST_ERR := Code(400, "INVALID_ARGUMENT")
  const UNAUTHORIZED := Code(401, "UNAUTHENTICATED")
  const ACCESS_DENIED := Code(403, "PERMISSION_DENIED")
  const NOT_FOUND := Code(404, "NOT_FOUND")
  const METHOD_NOT_ALLOWED := Code(405, "METHOD_NOT_ALLOWED")
  const CANCELED := Code(498, "CANCELED")
  const SERVER_ERR := Code(500, "INTERNAL_ERROR")
  const SERVICE_UNAVAILABLE := Code(503, "UNAVAILABLE")
  const DEADLINE := Code(504, "DEADLINE_EXCEEDED")
  const LIMIT_EXCEED := Code(509, "RESOURCE_EXHAUSTED")

  function CodeOf(x: XCode): int {
    match x
    case Code(code, _) => code
    case Status(sts) => sts.code
  }

  /** Message(): an empty message reads as the decimal code. */
  function MessageOf(x: XCode): string {
    match x
    case Code(code, msg) => if msg != [] then msg else FormatInt(code)
    case Status(sts) => if sts.message == [] then FormatInt(sts.code) else sts.message
  }

  /** String: the code a decimal text stands for. */
  function FromText(s: string): XCode {
    if s == [] then OK
    else
      var parsed := ParseInt(s);
      if parsed.ok then Code(parsed.value, "") else SERVER_ERR
  }

  function FromCode(x: XCode): XCode
    requires x.Code?
  {
    Status(Proto(ToInt32(x.code), MessageOf(x)))
  }

  function FromProto(d: Detail): XCode
    requires !d.NotProto?
  {
    match d
    case StatusDetail(sts) =>
      if sts.message == [] || sts.message == FormatInt(sts.code) then Code(sts.code, "") else Status(sts)
    case OtherProto(text) =>
      Status(Proto(ToInt32(SERVER_ERR.code), "invalid proto message get " + text))
  }

  function ToXCode(s: GrpcStatus): XCode {
    match s.code
    case GrpcOK => OK
    case InvalidArgument => REQUEST_ERR
    case GrpcNotFound => NOT_FOUND
    case PermissionDenied => ACCESS_DENIED
    case Unauthenticated => UNAUTHORIZED
    case ResourceExhausted => LIMIT_EXCEED
    case Unimplemented => METHOD_NOT_ALLOWED
    case GrpcDeadlineExceeded => DEADLINE
    case Unavailable => SERVICE_UNAVAILABLE
    case GrpcUnknown => FromText(s.message)
    case _ => SERVER_ERR
  }

  function GrpcStatusFromXCode(x: XCode): GrpcStatus {
    var sts := if x.Status? then x.sts else FromCode(x).sts;
    GrpcStatus(GrpcUnknown, FormatInt(sts.code), [StatusDetail(sts)])
  }

  /** errors.Cause. */
  function Cause(e: Err): Err {
    if e.Wrapped? then Cause(e.cause) else e
  }

  /** FromError, as the server interceptor applies it to what a handler returns. */
  function FromError(e: Err): GrpcStatus {
    match Cause(e)
    case Plain(x) => GrpcStatusFromXCode(x)
    case ContextCanceled => GrpcStatusFromXCode(CANCELED)
    case ContextDeadline => GrpcStatusFromXCode(DEADLINE)
    case Grpc(status) => status
    case Other(text) => GrpcStatus(GrpcUnknown, text, [])
    case Wrapped(_, text) => GrpcStatus(GrpcUnknown, text, [])
  }

  function CodeFromError(e: Err): XCode {
    match Cause(e)
    case Plain(x) => x
    case ContextCanceled => CANCELED
    case ContextDeadline => DEADLINE
    case _ => SERVER_ERR
  }

  /** The last detail that is a protobuf message decides; without one the status itself does. */
  function Decoded(s: GrpcStatus, n: nat): XCode
    requires n <= |s.details|
  {
    if n == 0 then ToXCode(s)
    else if !s.details[n - 1].NotProto? then FromProto(s.details[n - 1])
    else Decoded(s, n - 1)
  }

  /** Details that are no protobuf messages are skipped; of the others only the last one counts. */
  lemma {:induction false} LastProtoDecides(s: GrpcStatus, i: nat, n: nat)
    requires i < n <= |s.details| && !s.details[i].NotProto?
    requires forall j :: i < j < n ==> s.details[j].NotProto?
    ensures Decoded(s, n) == FromProto(s.details[i])
  {
    hide FromProto, ToXCode;
    if i < n - 1 {
      LastProtoDecides(s, i, n - 1);
    }
  }

  /** With no such detail the status itself decides. */
  lemma {:induction false} NoProtoLeavesStatus(s: GrpcStatus, n: nat)
    requires n <= |s.details| && forall j :: 0 <= j < n ==> s.details[j].NotProto?
    ensures Decoded(s, n) == ToXCode(s)
  {
    hide FromProto, ToXCode;
    if n > 0 {
      NoProtoLeavesStatus(s, n - 1);
    }
  }

  /** No detail of the status is a protobuf message. */
  ghost predicate Bare(s: GrpcStatus) {
    forall i :: 0 <= i < |s.details| ==> s.details[i].NotProto?
  }

  /** What a status without such a detail says, by its gRPC code. */
  lemma BareStatusMeans(s: GrpcStatus)
    requires Bare(s)
    ensures Decoded(s, |s.details|) ==
      match s.code
      case GrpcOK => Code(0, "OK")
      case InvalidArgument => Code(400, "INVALID_ARGUMENT")
      case Unauthenticated => Code(401, "UNAUTHENTICATED")
      case PermissionDenied => Code(403, "PERMISSION_DENIED")
      case GrpcNotFound => Code(404, "NOT_FOUND")
      case Unimplemented => Code(405, "METHOD_NOT_ALLOWED")
      case Unavailable => Code(503, "UNAVAILABLE")
      case GrpcDeadlineExceeded => Code(504, "DEADLINE_EXCEEDED")
      case ResourceExhausted => Code(509, "RESOURCE_EXHAUSTED")
      case GrpcUnknown =>
        if s.message == [] then Code(0, "OK")
        else if ParseInt(s.message).ok then Code(ParseInt(s.message).value, "")
        else Code(500, "INTERNAL_ERROR")
      case _ => Code(500, "INTERNAL_ERROR")
  {
    NoProtoLeavesStatus(s, |s.details|);
  }

  /** The last protobuf detail of the status is at i. */
  ghost predicate LastProto(s: GrpcStatus, i: nat) {
    i < |s.details| && !s.details[i].NotProto? && forall j :: i < j < |s.details| ==> s.details[j].NotProto?
  }

  /** What a status says by its last protobuf detail. */
  lemma DetailMeans(s: GrpcStatus, i: nat)
    requires LastProto(s, i)
    ensures var x := Decoded(s, |s.details|);
      match s.details[i]
      case StatusDetail(sts) =>
        CodeOf(x) == sts.code && MessageOf(x) == if sts.message == [] then FormatInt(sts.code) else sts.message
      case OtherProto(text) => CodeOf(x) == 500 && MessageOf(x) == "invalid proto message get " + text
      case NotProto => true
  {
    hide FormatInt;
    LastProtoDecides(s, i, |s.details|);
  }

  /**
   GrpcStatusToXCode. The last protobuf detail decides; a status without one, such as the client makes
   itself when a service is down, is read by its gRPC code.
   */
  method GrpcStatusToXCode(s: GrpcStatus) returns (x: XCode)
    ensures x == Decoded(s, |s.details|)
    ensures Bare(s) ==>
      match s.code
      case GrpcOK => CodeOf(x) == 0
      case InvalidArgument => CodeOf(x) == 400
      case Unauthenticated => CodeOf(x) == 401
      case PermissionDenied => CodeOf(x) == 403
      case GrpcNotFound => CodeOf(x) == 404
      case Unimplemented => CodeOf(x) == 405
      case Unavailable => CodeOf(x) == 503
      case GrpcDeadlineExceeded => CodeOf(x) == 504
      case ResourceExhausted => CodeOf(x) == 509
      case GrpcUnknown =>
        CodeOf(x) == if s.message == [] then 0 else if ParseInt(s.message).ok then ParseInt(s.message).value else 500
      case _ => CodeOf(x) == 500
    ensures forall i: nat :: LastProto(s, i) ==>
      CodeOf(x) == if s.details[i].StatusDetail? then s.details[i].sts.code else 500
  {
    hide ParseInt, FromProto, FromText;
    if Bare(s) {
      BareStatusMeans(s);
    }
    forall i: nat | LastProto(s, i)
      ensures CodeOf(Decoded(s, |s.details|)) == if s.details[i].StatusDetail? then s.details[i].sts.code else 500
    {
      DetailMeans(s, i);
    }
    var i := |s.details| - 1;
    while i >= 0
      invariant -1 <= i < |s.details|
      invariant Decoded(s, |s.details|) == Decoded(s, i + 1)
    {
      if !s.details[i].NotProto? {
        x := FromProto(s.details[i]);
        return;
      }
      i := i - 1;
    }
    x := ToXCode(s);
  }

  /** One call: the handler's error becomes a status, and the client wraps what it decodes. */
  function Hop(e: Err): Err {
    var s := FromError(e);
    Wrapped(Plain(Decoded(s, |s.details|)), s.message)
  }

  /** Wraps around an error, the innermost text first. */
  function WrapAll(e: Err, texts: seq<string>): Err {
    if texts == [] then e else Wrapped(WrapAll(e, texts[..|texts| - 1]), texts[|texts| - 1])
  }

  /** A way through several services: each hop, then the wraps of the code on that side. */
  function Travel(e: Err, wraps: seq<seq<string>>): Err {
    if wraps == [] then e
    else WrapAll(Hop(Travel(e, wraps[..|wraps| - 1])), wraps[|wraps| - 1])
  }

  lemma {:induction false} WrapsKeepCause(e: Err, texts: seq<string>)
    ensures Cause(WrapAll(e, texts)) == Cause(e)
  {
    if texts != [] {
      WrapsKeepCause(e, texts[..|texts| - 1]);
    }
  }

  /** One encoding and decoding keeps the message and takes the code modulo 2^32. */
  lemma EncodeDecode(x: XCode)
    requires x.Status? ==> IsInt32(x.sts.code)
    ensures var s := GrpcStatusFromXCode(x);
      var y := Decoded(s, |s.details|);
      && CodeOf(y) == ToInt32(CodeOf(x))
      && MessageOf(y) == MessageOf(x)
      && (y.Status? ==> IsInt32(y.sts.code))
  {
    var s := GrpcStatusFromXCode(x);
    FormatNatIsDigits(if CodeOf(x) < 0 then -CodeOf(x) else CodeOf(x));
    assert Decoded(s, 1) == FromProto(s.details[0]);
  }

  /** A code that a handler may return: Status holds an int32 by its type. */
  predicate WellTyped(x: XCode) {
    x.Status? ==> IsInt32(x.sts.code)
  }

  lemma {:induction false} TravelKeeps(x: XCode, wraps: seq<seq<string>>)
    requires WellTyped(x) && wraps != []
    ensures var y := CodeFromError(Travel(Plain(x), wraps));
      && Cause(Travel(Plain(x), wraps)) == Plain(y)
      && WellTyped(y) && CodeOf(y) == ToInt32(CodeOf(x)) && MessageOf(y) == MessageOf(x)
  {
    var front, last := wraps[..|wraps| - 1], wraps[|wraps| - 1];
    var e := Travel(Plain(x), front);
    WrapsKeepCause(Hop(e), last);
    if front == [] {
      EncodeDecode(x);
    } else {
      TravelKeeps(x, front);
      EncodeDecode(CodeFromError(e));
    }
  }

  /**
   Over one or more hops, with any wrapping in between, the message always arrives and the code
   arrives exactly when it is an int32.
   */
  lemma CodeSurvivesIff(x: XCode, wraps: seq<seq<string>>)
    requires WellTyped(x) && wraps != []
    ensures MessageOf(CodeFromError(Travel(Plain(x), wraps))) == MessageOf(x)
    ensures CodeOf(CodeFromError(Travel(Plain(x), wraps))) == CodeOf(x) <==> IsInt32(CodeOf(x))
  {
    TravelKeeps(x, wraps);
  }

  /** With every detail lost, the number is still read from the status text. */
  lemma CodeSurvivesWithoutDetails(x: XCode)
    requires WellTyped(x)
    ensures var bare := GrpcStatusFromXCode(x).(details := []);
      Decoded(bare, 0) == Code(ToInt32(CodeOf(x)), "")
  {
    var n := ToInt32(CodeOf(x));
    FormatNatIsDigits(if n < 0 then -n else n);
    ParseFormat(n);
  }

  /** Cancelled and timed-out contexts arrive as their own codes. */
  lemma ContextErrorsArrive(texts: seq<string>, wraps: seq<seq<string>>)
    requires wraps != []
    ensures CodeOf(CodeFromError(Travel(WrapAll(ContextCanceled, texts), wraps))) == 498
    ensures CodeOf(CodeFromError(Travel(WrapAll(ContextDeadline, texts), wraps))) == 504
  {
    WrapsKeepCause(ContextCanceled, texts);
    WrapsKeepCause(ContextDeadline, texts);
    SameStatusSameWay(WrapAll(ContextCanceled, texts), Plain(CANCELED), wraps);
    SameStatusSameWay(WrapAll(ContextDeadline, texts), Plain(DEADLINE), wraps);
    TravelKeeps(CANCELED, wraps);
    TravelKeeps(DEADLINE, wraps);
  }

  lemma {:induction false} SameStatusSameWay(e: Err, f: Err, wraps: seq<seq<string>>)
    requires FromError(e) == FromError(f) && wraps != []
    ensures Travel(e, wraps) == Travel(f, wraps)
  {
    var front := wraps[..|wraps| - 1];
    if front != [] {
      SameStatusSameWay(e, f, front);
    }
  }

  /**
   An error that is no code, no context error and no gRPC error goes by its text: the empty text is
   code 0, a number is that number, and everything else is 500. Later hops keep it modulo 2^32.
   */
  lemma OtherErrorsArrive(text: string, texts: seq<string>, wraps: seq<seq<string>>)
    requires wraps != []
    ensures var code := if text == [] then 0 else if ParseInt(text).ok then ParseInt(text).value else 500;
      CodeOf(CodeFromError(Travel(WrapAll(Other(text), texts), wraps))) ==
        if |wraps| == 1 then code else ToInt32(code)
  {
    hide ParseInt, Hop, Travel, WrapAll, ToInt32;
    var e := WrapAll(Other(text), texts);
    var x := OtherHop(text, texts, wraps[0]);
    FirstHop(e, wraps);
    if |wraps| > 1 {
      SameCauseSameWay(WrapAll(Hop(e), wraps[0]), Plain(x), wraps[1..]);
      TravelKeeps(x, wraps[1..]);
    } else {
      NoMoreHops(WrapAll(Hop(e), wraps[0]), wraps[1..]);
    }
  }

  lemma NoMoreHops(e: Err, wraps: seq<seq<string>>)
    requires wraps == []
    ensures Travel(e, wraps) == e
  {
  }

  lemma OtherHop(text: string, texts: seq<string>, more: seq<string>) returns (x: XCode)
    ensures Cause(WrapAll(Hop(WrapAll(Other(text), texts)), more)) == Plain(x) && WellTyped(x)
    ensures CodeOf(x) == if text == [] then 0 else if ParseInt(text).ok then ParseInt(text).value else 500
  {
    hide ParseInt;
    var status := GrpcStatus(GrpcUnknown, text, []);
    BareStatusMeans(status);
    x := Decoded(status, 0);
    WrapsKeepCause(Other(text), texts);
    WrapsKeepCause(Hop(WrapAll(Other(text), texts)), more);
  }

  /** So over one hop it arrives as 500 exactly when its text is neither empty nor another number. */
  lemma OtherIsServerErrorIff(text: string, texts: seq<string>, more: seq<string>)
    ensures CodeOf(CodeFromError(Travel(WrapAll(Other(text), texts), [more]))) == 500 <==>
      text != [] && (ParseInt(text).ok ==> ParseInt(text).value == 500)
  {
    OtherErrorsArrive(text, texts, [more]);
  }

  /** A way of several hops is the first hop and the rest. */
  lemma {:induction false} FirstHop(e: Err, wraps: seq<seq<string>>)
    requires wraps != []
    ensures Travel(e, wraps) == Travel(WrapAll(Hop(e), wraps[0]), wraps[1..])
  {
    hide Hop, WrapAll;
    var front := wraps[..|wraps| - 1];
    if front == [] {
      assert wraps[1..] == [] && Travel(e, front) == e;
    } else {
      FirstHop(e, front);
      assert wraps[1..][..|wraps| - 2] == front[1..];
    }
  }

  lemma SameCauseSameWay(e: Err, f: Err, wraps: seq<seq<string>>)
    requires Cause(e) == Cause(f) && wraps != []
    ensures Travel(e, wraps) == Travel(f, wraps)
  {
    SameStatusSameWay(e, f, wraps);
  }

  /** On this side, too, errors that carry no code read as 498, 504 or 500. */
  lemma LocalErrorsRead(e: Err, texts: seq<string>)
    ensures CodeOf(CodeFromError(WrapAll(ContextCanceled, texts))) == 498
    ensures CodeOf(CodeFromError(WrapAll(ContextDeadline, texts))) == 504
    ensures e.Grpc? || e.Other? ==> CodeOf(CodeFromError(WrapAll(e, texts))) == 500
    ensures e.Plain? ==> CodeFromError(WrapAll(e, texts)) == e.x
  {
    WrapsKeepCause(ContextCanceled, texts);
    WrapsKeepCause(ContextDeadline, texts);
    WrapsKeepCause(e, texts);
  }

  /** A gRPC error that a handler passes on arrives as what its status says, whatever wraps it. */
  lemma GrpcErrorsArrive(status: GrpcStatus, texts: seq<string>, more: seq<string>)
    ensures CodeFromError(Travel(WrapAll(Grpc(status), texts), [more])) == Decoded(status, |status.details|)
    ensures Bare(status) && status.code == Unavailable ==>
      CodeOf(CodeFromError(Travel(WrapAll(Grpc(status), texts), [more]))) == 503
  {
    hide Decoded;
    var e := WrapAll(Grpc(status), texts);
    WrapsKeepCause(Grpc(status), texts);
    FirstHop(e, [more]);
    NoMoreHops(WrapAll(Hop(e), more), [more][1..]);
    WrapsKeepCause(Hop(e), more);
    if Bare(status) {
      BareStatusMeans(status);
    }
  }

  /** After a hop the client has the code wrapped in the decimal text of its number. */
  lemma HopWraps(x: XCode)
    requires WellTyped(x)
    ensures var e := Hop(Plain(x));
      && e.Wrapped? && e.text == FormatInt(ToInt32(CodeOf(x)))
      && e.cause.Plain? && CodeOf(e.cause.x) == ToInt32(CodeOf(x)) && MessageOf(e.cause.x) == MessageOf(x)
  {
    hide FormatInt, ToInt32;
    EncodeDecode(x);
    StatusText(x);
  }

  lemma StatusText(x: XCode)
    requires WellTyped(x)
    ensures GrpcStatusFromXCode(x).message == FormatInt(ToInt32(CodeOf(x)))
  {
    hide FormatInt;
  }
}
