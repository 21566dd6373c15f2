/** The NanoRPC envelope (pkg/nanorpc/nanorpc.go): every message on the
    stream is one frame `varint(tag) ++ varint(len) ++ payload`, where the tag
    is field 0 with the length-delimited wire type. DecodeSplit classifies a
    buffer as a whole frame, as an incomplete one (more input may complete
    it) or as malformed; Split is the stream tokenizer built on it. */
module Envelope {
  import opened Wrappers
  import opened Numeric
  import opened Varint
  import opened Errors

  /** protowire.EncodeTag(0, BytesType), the tag in front of every frame. */
  const FrameTag: nat := EncodeTag(0, BytesType)

  /** The bytes marshal writes around a serialised message: the tag varint,
      then protowire.AppendBytes (length varint and the payload). */
  function Frame(payload: seq<byte>): (r: seq<byte>)
    ensures |payload| < |r|
    ensures r[|r| - |payload|..] == payload
  {
    Encode(FrameTag) + Encode(|payload|) + payload
  }

  /** The header marshal precomputes: SizeVarint(tag) + SizeVarint(len). */
  function HeaderSize(payloadLen: nat): nat {
    SizeVarint(FrameTag) + SizeVarint(payloadLen)
  }

  /** The frame has exactly the capacity marshal reserves for it, and its
      header takes two bytes for any payload shorter than 128 bytes. */
  lemma FrameSize(payload: seq<byte>)
    requires |payload| < 0x1_0000_0000_0000_0000
    ensures |Frame(payload)| == HeaderSize(|payload|) + |payload|
    ensures SizeVarint(FrameTag) == 1
    ensures |payload| < 128 ==> HeaderSize(|payload|) == 2
  {
    ConsumeEncode(FrameTag, []);
    ConsumeEncode(|payload|, []);
  }

  // ---------------------------------------------------------------------
  // DecodeSplit
  // ---------------------------------------------------------------------

  /** The three results of DecodeSplit: header size, declared payload size and
      the error (`None` when the whole frame is buffered). */
  datatype SplitInfo = SplitInfo(prefixLen: nat, payloadLen: nat, err: Option<Error>)

  /** The buffer ends before the frame does: more input is needed. */
  predicate Incomplete(r: SplitInfo) {
    r.err == Some(UnexpectedEOF)
  }

  /** The buffer cannot start a frame, whatever follows. */
  predicate Malformed(r: SplitInfo) {
    r.err.Some? && r.err != Some(UnexpectedEOF)
  }

  /** protowire.ParseError for a failed ConsumeVarint. */
  function ParseError(p: Parsed): Error
    requires !p.Ok?
  {
    if p.Truncated? then UnexpectedEOF else VarintOverflow
  }

  /** The second half of DecodeSplit, once a `<0, LEN>` tag of `tagLen` bytes
      is read: read the size varint, refuse a size above MaxInt32, and report
      whether the whole frame is already in the buffer. */
  function SplitAfterTag(data: seq<byte>, tagLen: nat): (r: SplitInfo)
    requires 1 <= tagLen <= 10 && tagLen <= |data|
    ensures tagLen <= r.prefixLen <= |data|
    ensures r.err.None? ==> r.prefixLen + r.payloadLen <= |data|
    ensures r.prefixLen <= tagLen + 10
    ensures r.err.None? ==> tagLen < r.prefixLen
    ensures r.payloadLen <= MaxInt32
    ensures Malformed(r) ==>
              r.payloadLen == 0 && (r.err == Some(VarintOverflow) || Is(r.err.value, OsInvalid))
  {
    var size := Consume(data[tagLen..]);
    if !size.Ok? then
      SplitInfo(tagLen, 0, Some(ParseError(size)))
    else
      var prefixLen := tagLen + size.len;
      if size.value > MaxInt32 then
        SplitInfo(prefixLen, 0, Some(Wrapped(OsInvalid, SizeOutOfRange(size.value))))
      else
        var payloadLen := size.value;
        SplitInfo(prefixLen, payloadLen,
                  if |data| < prefixLen + payloadLen then Some(UnexpectedEOF) else None)
  }

  /** DecodeSplit: read the tag varint, check it is <0, LEN>, then read the
      size (SplitAfterTag). */
  function DecodeSplit(data: seq<byte>): (r: SplitInfo)
    ensures r.prefixLen <= |data|
    ensures r.err.None? ==> r.prefixLen + r.payloadLen <= |data|
    ensures r.prefixLen <= 20
    ensures r.err.None? ==> 2 <= r.prefixLen
    ensures r.payloadLen <= MaxInt32
    ensures Malformed(r) ==>
              r.payloadLen == 0 && (r.err == Some(VarintOverflow) || Is(r.err.value, OsInvalid))
  {
    var tag := Consume(data);
    if !tag.Ok? then
      SplitInfo(0, 0, Some(ParseError(tag)))
    else
      var (num, typ) := DecodeTag(tag.value);
      if num != 0 || typ != BytesType then
        SplitInfo(tag.len, 0, Some(Wrapped(OsInvalid, UnexpectedTag(num, typ))))
      else
        SplitAfterTag(data, tag.len)
  }

  /** After a complete tag varint, DecodeSplit goes on to the size exactly
      when the tag is the frame tag, and is malformed otherwise. */
  lemma DecodeSplitTag(data: seq<byte>)
    requires Consume(data).Ok?
    ensures var tag := Consume(data);
      var (num, typ) := DecodeTag(tag.value);
      DecodeSplit(data) ==
        if tag.value == FrameTag then SplitAfterTag(data, tag.len)
        else SplitInfo(tag.len, 0, Some(Wrapped(OsInvalid, UnexpectedTag(num, typ))))
  {
    EnvelopeTagUnique(Consume(data).value);
  }

  /** Once the tag byte and a size varint are read, DecodeSplit only compares
      the buffer's length with the frame's. */
  lemma DecodeSplitHeader(data: seq<byte>, size: nat, sizeLen: nat)
    requires Consume(data) == Ok(FrameTag, 1)
    requires Consume(data[1..]) == Ok(size, sizeLen)
    requires size <= MaxInt32
    ensures DecodeSplit(data) == SplitInfo(1 + sizeLen, size,
              if |data| < 1 + sizeLen + size then Some(UnexpectedEOF) else None)
  {
    DecodeSplitTag(data);
  }

  /** Round trip: a frame whose payload fits MaxInt32 is recognised whole,
      with its header and payload sizes, whatever bytes follow it. */
  lemma DecodeSplitFrame(payload: seq<byte>, rest: seq<byte>)
    requires |payload| <= MaxInt32
    ensures DecodeSplit(Frame(payload) + rest)
            == SplitInfo(HeaderSize(|payload|), |payload|, None)
    ensures |Frame(payload)| == HeaderSize(|payload|) + |payload|
  {
    var tagBytes := Encode(FrameTag);
    var sizeBytes := Encode(|payload|);
    var data := Frame(payload) + rest;
    FrameTagByte();
    assert data == tagBytes + (sizeBytes + payload + rest);
    ConsumeEncode(FrameTag, sizeBytes + payload + rest);
    assert data[1..] == sizeBytes + (payload + rest);
    ConsumeEncode(|payload|, payload + rest);
    FrameSize(payload);
    DecodeSplitHeader(data, |payload|, |sizeBytes|);
  }

  /** The tag of every frame is the single byte 2. */
  lemma FrameTagByte()
    ensures Encode(FrameTag) == [2]
  {
  }

  /** An empty buffer is the start of a frame that has not arrived yet. */
  lemma DecodeSplitEmpty()
    ensures DecodeSplit([]) == SplitInfo(0, 0, Some(UnexpectedEOF))
  {
    assert Consume([]) == Truncated;
  }

  /** A frame tag followed by a cut-off size varint is incomplete. */
  lemma DecodeSplitTruncatedSize(data: seq<byte>)
    requires Consume(data) == Ok(FrameTag, 1)
    requires Consume(data[1..]).Truncated?
    ensures DecodeSplit(data) == SplitInfo(1, 0, Some(UnexpectedEOF))
  {
    DecodeSplitTag(data);
  }

  /** A frame cut inside its header is the tag byte and part of the size
      varint. */
  lemma FrameHeaderCut(payload: seq<byte>, n: nat)
    requires 0 < n < 1 + |Encode(|payload|)|
    ensures Frame(payload)[..n][0] == 2
    ensures Frame(payload)[..n][1..] == Encode(|payload|)[..n - 1]
  {
    FrameTagByte();
    var f := Frame(payload);
    var size := Encode(|payload|);
    assert f == [2] + (size + payload);
    var cut := f[..n][1..];
    assert |cut| == n - 1;
    assert forall i | 0 <= i < n - 1 :: cut[i] == f[i + 1] == size[i];
  }

  /** A buffer cut inside the header of a frame is incomplete. */
  lemma DecodeSplitHeaderPrefix(payload: seq<byte>, n: nat)
    requires |payload| <= MaxInt32
    requires n < 1 + |Encode(|payload|)|
    ensures Incomplete(DecodeSplit(Frame(payload)[..n]))
  {
    var data := Frame(payload)[..n];
    if n == 0 {
      assert data == [];
      DecodeSplitEmpty();
    } else {
      FrameHeaderCut(payload, n);
      ConsumeOneByte(data);
      EncodePrefixTruncated(|payload|, n - 1);
      DecodeSplitTruncatedSize(data);
    }
  }

  /** A buffer cut inside the payload of a frame is incomplete, and both
      sizes are already reported. */
  lemma DecodeSplitPayloadPrefix(payload: seq<byte>, n: nat)
    requires |payload| <= MaxInt32
    requires 1 + |Encode(|payload|)| <= n < |Frame(payload)|
    ensures DecodeSplit(Frame(payload)[..n])
            == SplitInfo(HeaderSize(|payload|), |payload|, Some(UnexpectedEOF))
  {
    FrameTagByte();
    FrameSize(payload);
    var sizeBytes := Encode(|payload|);
    var h := 1 + |sizeBytes|;
    var body := payload[..n - h];
    var data := [2] + (sizeBytes + body);
    assert Frame(payload)[..n] == data by {
      assert Frame(payload) == [2] + (sizeBytes + payload);
    }
    ConsumeEncode(FrameTag, sizeBytes + body);
    assert data[1..] == sizeBytes + body;
    ConsumeEncode(|payload|, body);
    DecodeSplitHeader(data, |payload|, |sizeBytes|);
  }

  /** A buffer that holds only part of a frame is incomplete, never malformed;
      once the header is in, both sizes are already reported. */
  lemma DecodeSplitFramePrefix(payload: seq<byte>, n: nat)
    requires |payload| <= MaxInt32
    requires n < |Frame(payload)|
    ensures Incomplete(DecodeSplit(Frame(payload)[..n]))
    ensures n >= HeaderSize(|payload|) ==>
              DecodeSplit(Frame(payload)[..n]).prefixLen == HeaderSize(|payload|) &&
              DecodeSplit(Frame(payload)[..n]).payloadLen == |payload|
  {
    FrameTagByte();
    FrameSize(payload);
    if n < 1 + |Encode(|payload|)| {
      DecodeSplitHeaderPrefix(payload, n);
    } else {
      DecodeSplitPayloadPrefix(payload, n);
    }
  }

  /** Only an incomplete verdict can change when more input arrives: a whole
      frame stays the same frame and malformed data stays malformed. */
  lemma DecodeSplitExtend(data: seq<byte>, more: seq<byte>)
    requires !Incomplete(DecodeSplit(data))
    ensures DecodeSplit(data + more) == DecodeSplit(data)
  {
    var tag := Consume(data);
    if !tag.Truncated? {
      ConsumeExtend(data, more);
    }
    if tag.Ok? {
      DecodeSplitTag(data);
      DecodeSplitTag(data + more);
      if tag.value == FrameTag {
        SplitAfterTagExtend(data, tag.len, more);
      }
    }
  }

  /** The size stage, like the tag stage, only waits for more input: any
      other verdict is final. */
  lemma SplitAfterTagExtend(data: seq<byte>, tagLen: nat, more: seq<byte>)
    requires 1 <= tagLen <= 10 && tagLen <= |data|
    requires !Incomplete(SplitAfterTag(data, tagLen))
    ensures SplitAfterTag(data + more, tagLen) == SplitAfterTag(data, tagLen)
  {
    var rest := data[tagLen..];
    assert (data + more)[tagLen..] == rest + more;
    var size := Consume(rest);
    ConsumeExtend(rest, more);
    if size.Ok? && size.value <= MaxInt32 {
      assert tagLen + size.len + size.value <= |data|;
    }
  }

  /** A complete leading varint other than <0, LEN> is malformed data: the
      header is the tag alone, the payload size 0, the error os.ErrInvalid. */
  lemma DecodeSplitWrongTag(data: seq<byte>)
    requires Consume(data).Ok? && Consume(data).value != FrameTag
    ensures var r := DecodeSplit(data);
      && Malformed(r)
      && r.prefixLen == Consume(data).len
      && r.payloadLen == 0
      && Is(r.err.value, OsInvalid)
  {
    DecodeSplitTag(data);
  }

  /** A declared size above MaxInt32 is malformed data, never "need more
      input", and the header with both varints is still reported. In
      particular marshal's frame of a payload above MaxInt32 bytes is
      rejected by DecodeSplit. */
  lemma DecodeSplitOversize(size: uint64, rest: seq<byte>)
    requires size > MaxInt32
    ensures var r := DecodeSplit(Encode(FrameTag) + Encode(size) + rest);
      && Malformed(r)
      && r.prefixLen == HeaderSize(size)
      && r.payloadLen == 0
      && Is(r.err.value, OsInvalid)
  {
    var tagBytes := Encode(FrameTag);
    var data := tagBytes + Encode(size) + rest;
    assert data == tagBytes + (Encode(size) + rest);
    FrameTagByte();
    ConsumeEncode(FrameTag, Encode(size) + rest);
    assert data[1..] == Encode(size) + rest;
    ConsumeEncode(size, rest);
    DecodeSplitTag(data);
  }

  // ---------------------------------------------------------------------
  // Split
  // ---------------------------------------------------------------------

  /** The results of a bufio.SplitFunc: bytes to advance, the token (nil when
      absent) and the error. */
  datatype Token = Token(advance: nat, msg: Option<seq<byte>>, err: Option<Error>)

  /** Split: ask for more input on an incomplete buffer unless the stream has
      ended, fail on any other DecodeSplit error, and otherwise cut one whole
      frame off the front. */
  function Split(data: seq<byte>, atEOF: bool): (r: Token)
    ensures r.msg.None? ==> r.advance == 0
    ensures r.err.None? && r.msg.None? <==> Incomplete(DecodeSplit(data)) && !atEOF
    ensures r.err.Some? <==> Malformed(DecodeSplit(data)) || (Incomplete(DecodeSplit(data)) && atEOF)
    ensures r.err.Some? ==> r.err == DecodeSplit(data).err && r.msg.None?
    ensures r.msg.Some? <==> DecodeSplit(data).err.None?
    ensures r.msg.Some? ==>
              && r.err.None?
              && r.advance == DecodeSplit(data).prefixLen + DecodeSplit(data).payloadLen
              && 0 < r.advance <= |data|
              && r.msg.value == data[..r.advance]
  {
    var info := DecodeSplit(data);
    if info.err == Some(UnexpectedEOF) && !atEOF then
      Token(0, None, None)
    else if info.err.Some? then
      Token(0, None, info.err)
    else
      var n := info.prefixLen + info.payloadLen;
      Token(n, Some(data[..n]), None)
  }

  /** A buffer that starts with a whole frame yields exactly that frame, at
      the end of the stream or not. */
  lemma SplitFrame(payload: seq<byte>, rest: seq<byte>, atEOF: bool)
    requires |payload| <= MaxInt32
    ensures Split(Frame(payload) + rest, atEOF)
            == Token(|Frame(payload)|, Some(Frame(payload)), None)
  {
    DecodeSplitFrame(payload, rest);
    assert (Frame(payload) + rest)[..|Frame(payload)|] == Frame(payload);
  }

  /** Part of a frame asks for more input while the stream is open, and is an
      unexpected end of input once it has ended. */
  lemma SplitFramePrefix(payload: seq<byte>, n: nat)
    requires |payload| <= MaxInt32
    requires n < |Frame(payload)|
    ensures Split(Frame(payload)[..n], false) == Token(0, None, None)
    ensures Split(Frame(payload)[..n], true) == Token(0, None, Some(UnexpectedEOF))
  {
    DecodeSplitFramePrefix(payload, n);
  }

  /** After Split cuts a frame off a stream of two frames, the remainder
      starts with the second frame. */
  lemma SplitTwoFrames(p1: seq<byte>, p2: seq<byte>, rest: seq<byte>)
    requires |p1| <= MaxInt32 && |p2| <= MaxInt32
    ensures var data := Frame(p1) + Frame(p2) + rest;
      var t := Split(data, false);
      && t.msg == Some(Frame(p1))
      && Split(data[t.advance..], false) == Token(|Frame(p2)|, Some(Frame(p2)), None)
  {
    var data := Frame(p1) + Frame(p2) + rest;
    assert data == Frame(p1) + (Frame(p2) + rest);
    SplitFrame(p1, Frame(p2) + rest, false);
    assert data[|Frame(p1)|..] == Frame(p2) + rest;
    SplitFrame(p2, rest, false);
  }
}
