/** Encoding and decoding of whole NanoRPC messages
    (pkg/nanorpc/nanorpc.go): marshal and unmarshal put a serialised message
    into, and take it out of, one envelope frame; EncodeRequest and
    EncodeResponse first attach an optional inner payload to the message.
    The protobuf serialiser itself is foreign: it is a parameter, a pair of
    total functions that may fail. */
module Codec {
  import opened Wrappers
  import opened Numeric
  import opened Messages
  import opened Errors
  import opened Envelope
  import Varint

  /** proto.Marshal and proto.Unmarshal for one message type. */
  datatype Serializer<!M> = Serializer(
    marshal: M -> Result<seq<byte>, Error>,
    unmarshal: seq<byte> -> Result<M, Error>)

  /** The serialiser reads back every message it writes. */
  ghost predicate RoundTrips<M(!new)>(c: Serializer<M>) {
    forall m :: c.marshal(m).Success? ==> c.unmarshal(c.marshal(m).value) == Success(m)
  }

  /** The serialiser writes `m` in at most MaxInt32 bytes, the most a frame
      may declare. */
  predicate FitsFrame<M>(c: Serializer<M>, m: M) {
    c.marshal(m).Success? && |c.marshal(m).value| <= MaxInt32
  }

  // ---------------------------------------------------------------------
  // marshal / unmarshal
  // ---------------------------------------------------------------------

  /** marshal: serialise `m` and wrap it in a frame; fails only when the
      serialiser fails. */
  function Marshal<M>(c: Serializer<M>, m: M): (r: Result<seq<byte>, Error>)
    ensures r.Failure? <==> c.marshal(m).Failure?
    ensures r.Failure? ==> r.error == c.marshal(m).error
    ensures r.Success? ==> r.value == Frame(c.marshal(m).value)
  {
    match c.marshal(m)
    case Failure(e) => Failure(e)
    case Success(payload) => Success(Frame(payload))
  }

  /** The results of unmarshal: the bytes it consumed and the decoded
      message or the error. */
  datatype Unmarshalled<M> = Unmarshalled(size: nat, result: Result<M, Error>)

  /** unmarshal: on a DecodeSplit error nothing is consumed; otherwise the
      whole frame is consumed and its payload, exactly, is deserialised (the
      size is reported even when deserialising fails). */
  function Unmarshal<M>(c: Serializer<M>, data: seq<byte>): (r: Unmarshalled<M>)
    ensures DecodeSplit(data).err.Some? ==>
              r.size == 0 && r.result == Failure(DecodeSplit(data).err.value)
    ensures DecodeSplit(data).err.None? ==>
              && r.size == DecodeSplit(data).prefixLen + DecodeSplit(data).payloadLen
              && r.size <= |data|
              && r.result == c.unmarshal(data[DecodeSplit(data).prefixLen..r.size])
  {
    var info := DecodeSplit(data);
    if info.err.Some? then
      Unmarshalled(0, Failure(info.err.value))
    else
      var begin := info.prefixLen;
      var end := info.prefixLen + info.payloadLen;
      Unmarshalled(end, c.unmarshal(data[begin..end]))
  }

  /** Round trip: unmarshal of a marshalled message gives the message back and
      consumes exactly its frame, whatever follows the frame. */
  lemma UnmarshalMarshal<M(!new)>(c: Serializer<M>, m: M, rest: seq<byte>)
    requires RoundTrips(c) && FitsFrame(c, m)
    ensures Marshal(c, m).Success?
    ensures Unmarshal(c, Marshal(c, m).value + rest)
            == Unmarshalled(|Marshal(c, m).value|, Success(m))
  {
    var payload := c.marshal(m).value;
    var frame := Frame(payload);
    DecodeSplitFrame(payload, rest);
    var h := HeaderSize(|payload|);
    assert (frame + rest)[h..h + |payload|] == payload;
  }

  /** marshal frames a payload of any length, but DecodeSplit refuses a
      declared size above MaxInt32: such a frame is malformed, whatever
      follows it, and unmarshal fails on it. */
  lemma MarshalOversizeRejected<M>(c: Serializer<M>, m: M, rest: seq<byte>)
    requires c.marshal(m).Success?
    requires MaxInt32 < |c.marshal(m).value| < 0x1_0000_0000_0000_0000
    ensures Marshal(c, m).Success?
    ensures Malformed(DecodeSplit(Marshal(c, m).value + rest))
    ensures Unmarshal(c, Marshal(c, m).value + rest) ==
              Unmarshalled(0, Failure(DecodeSplit(Marshal(c, m).value + rest).err.value))
  {
    var p := c.marshal(m).value;
    DecodeSplitOversize(|p|, p + rest);
    assert Frame(p) + rest == Varint.Encode(FrameTag) + Varint.Encode(|p|) + (p + rest);
  }

  // ---------------------------------------------------------------------
  // Decoding
  // ---------------------------------------------------------------------

  /** DecodeResponse: the response and the bytes consumed, or the error; a
      failure never reports a size. */
  function DecodeResponse(c: Serializer<Response>, data: seq<byte>): (r: Result<(Response, nat), Error>)
    ensures r.Success? ==>
              && DecodeSplit(data).err.None?
              && r.value.1 == DecodeSplit(data).prefixLen + DecodeSplit(data).payloadLen
              && r.value.1 <= |data|
    ensures r.Failure? <==> Unmarshal(c, data).result.Failure?
    ensures r.Success? ==> Unmarshal(c, data).result == Success(r.value.0)
    ensures r.Failure? ==> r.error == Unmarshal(c, data).result.error
    ensures DecodeSplit(data).err.Some? ==> r == Failure(DecodeSplit(data).err.value)
  {
    var u := Unmarshal(c, data);
    match u.result
    case Failure(e) => Failure(e)
    case Success(res) => Success((res, u.size))
  }

  /** DecodeRequest as written: the prefix is checked, but the deserialiser is
      given everything after the header, to the end of the buffer, rather than
      the declared payload. */
  function DecodeRequest(c: Serializer<Request>, data: seq<byte>): (r: Result<Request, Error>)
    ensures DecodeSplit(data).err.Some? ==> r == Failure(DecodeSplit(data).err.value)
    ensures DecodeSplit(data).err.None? ==> r == c.unmarshal(data[DecodeSplit(data).prefixLen..])
  {
    var info := DecodeSplit(data);
    if info.err.Some? then Failure(info.err.value)
    else c.unmarshal(data[info.prefixLen..])
  }

  /** DecodeRequest bounded by the declared payload size, as unmarshal is. */
  function DecodeRequestBounded(c: Serializer<Request>, data: seq<byte>): (r: Result<Request, Error>)
    ensures r == Unmarshal(c, data).result
    ensures r.Success? ==> DecodeSplit(data).err.None?
  {
    Unmarshal(c, data).result
  }

  /** What DecodeRequest hands to the deserialiser when a frame is followed by
      more bytes: the payload and every byte after it. */
  lemma DecodeRequestSeesTrailingBytes(c: Serializer<Request>, payload: seq<byte>, rest: seq<byte>)
    requires |payload| <= MaxInt32
    ensures DecodeRequest(c, Frame(payload) + rest) == c.unmarshal(payload + rest)
    ensures DecodeRequestBounded(c, Frame(payload) + rest) == c.unmarshal(payload)
  {
    DecodeSplitFrame(payload, rest);
    var h := HeaderSize(|payload|);
    assert (Frame(payload) + rest)[h..] == payload + rest;
    assert (Frame(payload) + rest)[h..h + |payload|] == payload;
  }

  /** Protobuf refuses field number 0: a valid message followed by a byte
      that starts a field-0 tag does not deserialise. */
  ghost predicate RejectsFieldZero<M>(c: Serializer<M>) {
    forall s: seq<byte>, t: seq<byte> {:trigger c.unmarshal(s + t)} ::
      c.unmarshal(s).Success? && |t| > 0 && t[0] == FrameTag ==> c.unmarshal(s + t).Failure?
  }

  /** The discrepancy: on a buffer holding two request frames back to back,
      DecodeRequest fails while the bounded decoder returns the first
      request. */
  lemma DecodeRequestTwoFrames(c: Serializer<Request>, m1: Request, m2: Request)
    requires RoundTrips(c) && RejectsFieldZero(c)
    requires FitsFrame(c, m1) && FitsFrame(c, m2)
    ensures Marshal(c, m1).Success? && Marshal(c, m2).Success?
    ensures DecodeRequest(c, Marshal(c, m1).value + Marshal(c, m2).value).Failure?
    ensures DecodeRequestBounded(c, Marshal(c, m1).value + Marshal(c, m2).value) == Success(m1)
  {
    var p1 := c.marshal(m1).value;
    var f2 := Frame(c.marshal(m2).value);
    DecodeRequestSeesTrailingBytes(c, p1, f2);
    FrameTagByte();
    assert f2[0] == FrameTag;
    assert c.unmarshal(p1 + f2).Failure?;
  }

  // ---------------------------------------------------------------------
  // Encoding
  // ---------------------------------------------------------------------

  /** The `Data` field after EncodeRequest/EncodeResponse: a nil inner message
      leaves it alone, an inner message that serialises to nothing clears it,
      any other becomes its single element. */
  function AttachData<I>(data: seq<seq<byte>>, inner: Option<I>,
                         marshalInner: I -> Result<seq<byte>, Error>): (r: Result<seq<seq<byte>>, Error>)
    ensures inner.None? ==> r == Success(data)
    ensures inner.Some? ==> (r.Failure? <==> marshalInner(inner.value).Failure?)
    ensures inner.Some? && r.Failure? ==> r.error == marshalInner(inner.value).error
    ensures inner.Some? && r.Success? ==>
              var b := marshalInner(inner.value).value;
              && |r.value| <= 1
              && (|r.value| == 0 <==> |b| == 0)
              && (|r.value| == 1 ==> r.value[0] == b)
  {
    match inner
    case None => Success(data)
    case Some(msg) =>
      match marshalInner(msg)
      case Failure(e) => Failure(e)
      case Success(b) => if |b| == 0 then Success([]) else Success([b])
  }

  /** What an Encode call leaves behind: the message as the caller now sees it
      (its `Data` may have been replaced) and the frame or the error. */
  datatype Encoded<M> = Encoded(updated: M, out: Result<seq<byte>, Error>)

  /** EncodeRequest: attach the inner payload, then marshal the request. */
  function EncodeRequest<I>(c: Serializer<Request>, req: Request, inner: Option<I>,
                            marshalInner: I -> Result<seq<byte>, Error>): (r: Encoded<Request>)
    ensures r.updated.(data := req.data) == req
    ensures AttachData(req.data, inner, marshalInner).Failure? ==>
              r == Encoded(req, Failure(AttachData(req.data, inner, marshalInner).error))
    ensures AttachData(req.data, inner, marshalInner).Success? ==>
              && r.updated.data == AttachData(req.data, inner, marshalInner).value
              && r.out == Marshal(c, r.updated)
  {
    match AttachData(req.data, inner, marshalInner)
    case Failure(e) => Encoded(req, Failure(e))
    case Success(d) =>
      var updated := req.(data := d);
      Encoded(updated, Marshal(c, updated))
  }

  /** EncodeResponse: attach the inner payload, then marshal the response. */
  function EncodeResponse<I>(c: Serializer<Response>, res: Response, inner: Option<I>,
                             marshalInner: I -> Result<seq<byte>, Error>): (r: Encoded<Response>)
    ensures r.updated.(data := res.data) == res
    ensures AttachData(res.data, inner, marshalInner).Failure? ==>
              r == Encoded(res, Failure(AttachData(res.data, inner, marshalInner).error))
    ensures AttachData(res.data, inner, marshalInner).Success? ==>
              && r.updated.data == AttachData(res.data, inner, marshalInner).value
              && r.out == Marshal(c, r.updated)
  {
    match AttachData(res.data, inner, marshalInner)
    case Failure(e) => Encoded(res, Failure(e))
    case Success(d) =>
      var updated := res.(data := d);
      Encoded(updated, Marshal(c, updated))
  }

  /** Round trip of a response: decoding the bytes EncodeResponse wrote gives
      back the response as it was sent, and the size of its frame, even when
      more bytes follow. */
  lemma DecodeEncodeResponse<I>(c: Serializer<Response>, res: Response, inner: Option<I>,
                                marshalInner: I -> Result<seq<byte>, Error>, rest: seq<byte>)
    requires RoundTrips(c)
    requires EncodeResponse(c, res, inner, marshalInner).out.Success?
    requires FitsFrame(c, EncodeResponse(c, res, inner, marshalInner).updated)
    ensures var e := EncodeResponse(c, res, inner, marshalInner);
      DecodeResponse(c, e.out.value + rest) == Success((e.updated, |e.out.value|))
  {
    var e := EncodeResponse(c, res, inner, marshalInner);
    UnmarshalMarshal(c, e.updated, rest);
  }

  /** Round trip of a request: the bounded decoder gives back the request as
      it was sent whatever follows its frame, and DecodeRequest does too when
      the buffer holds that frame alone. */
  lemma DecodeEncodeRequest<I>(c: Serializer<Request>, req: Request, inner: Option<I>,
                               marshalInner: I -> Result<seq<byte>, Error>, rest: seq<byte>)
    requires RoundTrips(c)
    requires EncodeRequest(c, req, inner, marshalInner).out.Success?
    requires FitsFrame(c, EncodeRequest(c, req, inner, marshalInner).updated)
    ensures var e := EncodeRequest(c, req, inner, marshalInner);
      && DecodeRequestBounded(c, e.out.value + rest) == Success(e.updated)
      && DecodeRequest(c, e.out.value) == Success(e.updated)
  {
    var e := EncodeRequest(c, req, inner, marshalInner);
    var payload := c.marshal(e.updated).value;
    UnmarshalMarshal(c, e.updated, rest);
    DecodeRequestSeesTrailingBytes(c, payload, []);
    assert Frame(payload) + [] == Frame(payload);
    assert payload + [] == payload;
  }

  /** An inner payload that serialises to nothing is indistinguishable from
      sending the message with no data at all. */
  lemma EmptyInnerIsAbsent<I>(c: Serializer<Response>, res: Response, x: I,
                              marshalInner: I -> Result<seq<byte>, Error>)
    requires marshalInner(x) == Success([])
    ensures EncodeResponse(c, res, Some(x), marshalInner)
            == EncodeResponse(c, res.(data := []), None, marshalInner)
  {
  }
}
