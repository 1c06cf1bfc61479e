/**
  Request side of the broker: reading one length-prefixed frame from a byte
  stream, decoding its fixed 8-byte header, choosing the body variant from
  the api key, and checking the requested version against the range
  registered for that key.

  The stream is a finite byte sequence; reading a frame returns the request
  and whatever follows it on the stream.
 */
module Requests {
  import opened Wire
  import opened Model

  datatype RequestHeader = RequestHeader(requestApiKey: ApiKey, requestApiVersion: i16, correlationId: i32)

  /** A requested topic, identified by its 128-bit id. */
  datatype Topic = Topic(id: u128)

  /** What the Fetch body decoder keeps of a Fetch request body. */
  datatype FetchFields = FetchFields(sessionId: i32, topics: seq<Topic>)

  /** The closed set of requests; each variant carries its header. */
  datatype Request =
    | ApiVersions(header: RequestHeader)
    | Fetch(header: RequestHeader, sessionId: i32, topics: seq<Topic>)

  datatype ParseError =
    | IncompleteFrame        // the stream ended before the frame did
    | UnknownApiKey(raw: i16) // the header names a key outside the closed set
    | MalformedBody          // the Fetch body decoder rejected the body

  datatype Result<+T> = Ok(value: T) | Err(error: ParseError)

  /**
    The Fetch body decoder works on the payload bytes after the header. Its
    byte layout is not part of this model, so it is a parameter.
   */
  type FetchDecoder = seq<byte> -> Option<FetchFields>

  const LengthSize: nat := 4
  const HeaderSize: nat := 8

  /** The signed big-endian length at the front of a frame. */
  function FrameLength(stream: seq<byte>): (r: i32)
    requires |stream| >= LengthSize
  {
    BytesToI32(stream[..LengthSize])
  }

  /**
    The payloads whose header reads do not panic. The api key is read and
    resolved first, so a payload of at least 2 bytes whose key is unknown is
    rejected before the version and correlation id are read; any other
    payload must hold all 8 header bytes.
   */
  predicate HeaderReadable(payload: seq<byte>)
  {
    || |payload| >= HeaderSize
    || (|payload| >= 2 && ParseApiKey(BytesToI16(payload[0..2])).None?)
  }

  /**
    The inputs on which reading a request does not panic: a negative
    length cannot be turned into a buffer size, and a complete frame's
    payload must be readable as a header.
   */
  predicate NoPanic(stream: seq<byte>)
  {
    |stream| >= LengthSize ==>
      && 0 <= FrameLength(stream)
      && (FrameLength(stream) <= |stream| - LengthSize ==>
            HeaderReadable(stream[LengthSize..LengthSize + FrameLength(stream)]))
  }

  /**
    Reads exactly 4 length bytes and then exactly that many payload bytes;
    yields the payload and the rest of the stream.
   */
  function ReadFrame(stream: seq<byte>): (r: Result<(seq<byte>, seq<byte>)>)
    requires NoPanic(stream)
    ensures r.Ok? <==> |stream| >= LengthSize && FrameLength(stream) <= |stream| - LengthSize
    ensures r.Ok? ==> |r.value.0| == FrameLength(stream) && HeaderReadable(r.value.0)
    ensures r.Ok? ==> stream == stream[..LengthSize] + r.value.0 + r.value.1
    ensures r.Err? ==> r.error == IncompleteFrame
  {
    if |stream| < LengthSize then Err(IncompleteFrame)
    else
      var len := FrameLength(stream);
      if |stream| - LengthSize < len then Err(IncompleteFrame)
      else
        var payload := stream[LengthSize..LengthSize + len];
        var rest := stream[LengthSize + len..];
        assert stream == stream[..LengthSize] + payload + rest;
        Ok((payload, rest))
  }

  /**
    Consumes the 8 header bytes in order: api key, api version, correlation
    id, all big-endian. An unknown api key fails the decode as soon as it is
    read, before the remaining header bytes are needed.
   */
  function DecodeHeader(payload: seq<byte>): (r: Result<RequestHeader>)
    requires HeaderReadable(payload)
    ensures r.Err? <==> ParseApiKey(BytesToI16(payload[0..2])).None?
    ensures r.Err? ==> r.error == UnknownApiKey(BytesToI16(payload[0..2]))
    ensures r.Ok? ==>
      && |payload| >= HeaderSize
      && ApiKeyCode(r.value.requestApiKey) == BytesToI16(payload[0..2])
      && r.value.requestApiVersion == BytesToI16(payload[2..4])
      && r.value.correlationId == BytesToI32(payload[4..8])
  {
    var raw := BytesToI16(payload[0..2]);
    match ParseApiKey(raw)
    case None => Err(UnknownApiKey(raw))
    case Some(key) => Ok(RequestHeader(key, BytesToI16(payload[2..4]), BytesToI32(payload[4..8])))
  }

  /** The body variant is chosen by the api key alone. */
  function SelectBody(decodeFetch: FetchDecoder, header: RequestHeader, body: seq<byte>): (r: Result<Request>)
    ensures r.Ok? ==> r.value.header == header
    ensures r.Ok? ==> (r.value.ApiVersions? <==> header.requestApiKey == Versions)
    ensures header.requestApiKey == Versions ==> r.Ok?
    ensures header.requestApiKey == ApiKey.Fetch ==> (r.Ok? <==> decodeFetch(body).Some?)
    ensures r.Ok? && r.value.Fetch? ==>
      && r.value.sessionId == decodeFetch(body).value.sessionId
      && r.value.topics == decodeFetch(body).value.topics
    ensures r.Err? ==> r.error == MalformedBody
  {
    match header.requestApiKey
    case Versions => Ok(ApiVersions(header))
    case Fetch =>
      match decodeFetch(body)
      case None => Err(MalformedBody)
      case Some(f) => Ok(Request.Fetch(header, f.sessionId, f.topics))
  }

  /** Reads one request frame from the front of the stream. */
  function ParseRequest(decodeFetch: FetchDecoder, stream: seq<byte>): (r: Result<(Request, seq<byte>)>)
    requires NoPanic(stream)
    ensures |stream| < LengthSize ==> r == Err(IncompleteFrame)
    ensures |stream| >= LengthSize && FrameLength(stream) > |stream| - LengthSize ==> r == Err(IncompleteFrame)
    ensures r.Ok? ==>
      && LengthSize + FrameLength(stream) <= |stream|
      && r.value.1 == stream[LengthSize + FrameLength(stream)..]
    ensures r.Ok? ==> (r.value.0.ApiVersions? <==> r.value.0.header.requestApiKey == Versions)
  {
    match ReadFrame(stream)
    case Err(e) => Err(e)
    case Ok((payload, rest)) =>
      match DecodeHeader(payload)
      case Err(e) => Err(e)
      case Ok(header) =>
        match SelectBody(decodeFetch, header, payload[HeaderSize..])
        case Err(e) => Err(e)
        case Ok(request) => Ok((request, rest))
  }

  /** Frame bytes a client sends: length 8 + |body|, raw key, version, correlation id, body. */
  function EncodeRawFrame(rawKey: i16, version: i16, correlationId: i32, body: seq<byte>): (r: seq<byte>)
    requires HeaderSize + |body| < 0x8000_0000
    ensures |r| == LengthSize + HeaderSize + |body|
  {
    I32ToBytes(HeaderSize + |body|) + I16ToBytes(rawKey) + I16ToBytes(version) + I32ToBytes(correlationId) + body
  }

  function EncodeFrame(header: RequestHeader, body: seq<byte>): (r: seq<byte>)
    requires HeaderSize + |body| < 0x8000_0000
    ensures |r| == LengthSize + HeaderSize + |body|
  {
    EncodeRawFrame(ApiKeyCode(header.requestApiKey), header.requestApiVersion, header.correlationId, body)
  }

  /** The pieces of an encoded frame, followed by anything else on the stream. */
  lemma EncodeRawFrameParts(rawKey: i16, version: i16, correlationId: i32, body: seq<byte>, rest: seq<byte>)
    requires HeaderSize + |body| < 0x8000_0000
    ensures var s := EncodeRawFrame(rawKey, version, correlationId, body) + rest;
      && NoPanic(s)
      && FrameLength(s) == HeaderSize + |body|
      && s[4..6] == I16ToBytes(rawKey)
      && s[6..8] == I16ToBytes(version)
      && s[8..12] == I32ToBytes(correlationId)
      && s[12..12 + |body|] == body
      && s[12 + |body|..] == rest
  {
    var s := EncodeRawFrame(rawKey, version, correlationId, body) + rest;
    assert s[..4] == I32ToBytes(HeaderSize + |body|);
    I32RoundTrip(HeaderSize + |body|);
  }

  /**
    Reading a frame built from a header and a body gives back exactly that
    header, the body variant its key selects, and the rest of the stream.
   */
  lemma ParseEncodedFrame(decodeFetch: FetchDecoder, header: RequestHeader, body: seq<byte>, rest: seq<byte>)
    requires HeaderSize + |body| < 0x8000_0000
    ensures NoPanic(EncodeFrame(header, body) + rest)
    ensures ParseRequest(decodeFetch, EncodeFrame(header, body) + rest)
         == match SelectBody(decodeFetch, header, body)
            case Ok(request) => Ok((request, rest))
            case Err(e) => Err(e)
  {
    var code := ApiKeyCode(header.requestApiKey);
    var s := EncodeFrame(header, body) + rest;
    EncodeRawFrameParts(code, header.requestApiVersion, header.correlationId, body, rest);
    var payload := s[4..12 + |body|];
    assert ReadFrame(s) == Ok((payload, rest));
    assert payload[0..2] == I16ToBytes(code);
    assert payload[2..4] == I16ToBytes(header.requestApiVersion);
    assert payload[4..8] == I32ToBytes(header.correlationId);
    assert payload[HeaderSize..] == body;
    I16RoundTrip(code);
    I16RoundTrip(header.requestApiVersion);
    I32RoundTrip(header.correlationId);
    ParseApiKeyCode(header.requestApiKey);
    assert DecodeHeader(payload) == Ok(header);
  }

  /** A frame whose key is outside the closed set yields no request. */
  lemma UnknownApiKeyRejected(decodeFetch: FetchDecoder, rawKey: i16, version: i16, correlationId: i32,
                              body: seq<byte>, rest: seq<byte>)
    requires HeaderSize + |body| < 0x8000_0000
    requires forall k: ApiKey :: ApiKeyCode(k) != rawKey
    ensures NoPanic(EncodeRawFrame(rawKey, version, correlationId, body) + rest)
    ensures ParseRequest(decodeFetch, EncodeRawFrame(rawKey, version, correlationId, body) + rest)
         == Err(UnknownApiKey(rawKey))
  {
    var s := EncodeRawFrame(rawKey, version, correlationId, body) + rest;
    EncodeRawFrameParts(rawKey, version, correlationId, body, rest);
    var payload := s[4..12 + |body|];
    assert ReadFrame(s) == Ok((payload, rest));
    assert payload[0..2] == I16ToBytes(rawKey);
    I16RoundTrip(rawKey);
  }

  /**
    A complete frame too short for a whole header is still answered without
    a panic when its key is unknown: the key is rejected before the version
    and the correlation id are read.
   */
  lemma ShortUnknownKeyFrameRejected(decodeFetch: FetchDecoder, rawKey: i16, tail: seq<byte>, rest: seq<byte>)
    requires forall k: ApiKey :: ApiKeyCode(k) != rawKey
    requires |tail| < HeaderSize - 2
    ensures var s := I32ToBytes(2 + |tail|) + I16ToBytes(rawKey) + tail + rest;
      && NoPanic(s)
      && ParseRequest(decodeFetch, s) == Err(UnknownApiKey(rawKey))
  {
    var s := I32ToBytes(2 + |tail|) + I16ToBytes(rawKey) + tail + rest;
    var payload := I16ToBytes(rawKey) + tail;
    assert s == I32ToBytes(2 + |tail|) + (payload + rest);
    assert s[..LengthSize] == I32ToBytes(2 + |tail|);
    I32RoundTrip(2 + |tail|);
    assert s[LengthSize..LengthSize + |payload|] == payload;
    assert s[LengthSize + |payload|..] == rest;
    assert payload[0..2] == I16ToBytes(rawKey);
    I16RoundTrip(rawKey);
    assert ReadFrame(s) == Ok((payload, rest));
  }

  /** The smallest such frame: a 2-byte payload holding the unknown key 99. */
  lemma ShortUnknownKeyExample(decodeFetch: FetchDecoder, stream: seq<byte>)
    requires stream == [0, 0, 0, 2, 0, 99]
    ensures NoPanic(stream)
    ensures ParseRequest(decodeFetch, stream) == Err(UnknownApiKey(99))
  {
    var none: seq<byte> := [];
    SmallI32Bytes(2);
    SmallI16Bytes(99);
    assert stream == I32ToBytes(2 + |none|) + I16ToBytes(99) + none + none;
    ShortUnknownKeyFrameRejected(decodeFetch, 99, none, none);
  }

  /** Any strict prefix of a complete frame is an incomplete frame, never a partial request. */
  lemma TruncatedFrameRejected(decodeFetch: FetchDecoder, stream: seq<byte>, k: nat)
    requires NoPanic(stream)
    requires |stream| >= LengthSize && LengthSize + FrameLength(stream) <= |stream|
    requires k < LengthSize + FrameLength(stream)
    ensures NoPanic(stream[..k])
    ensures ParseRequest(decodeFetch, stream[..k]) == Err(IncompleteFrame)
  {
    if k >= LengthSize {
      assert stream[..k][..LengthSize] == stream[..LengthSize];
    }
  }

  /** Bytes after the frame are never read: appending to the stream only extends the rest. */
  lemma ParseIgnoresTrailingBytes(decodeFetch: FetchDecoder, stream: seq<byte>, extra: seq<byte>)
    requires NoPanic(stream)
    requires ParseRequest(decodeFetch, stream).Ok?
    ensures NoPanic(stream + extra)
    ensures var r := ParseRequest(decodeFetch, stream);
      ParseRequest(decodeFetch, stream + extra) == Ok((r.value.0, r.value.1 + extra))
  {
    var len := FrameLength(stream);
    assert LengthSize + len <= |stream|;
    var s := stream + extra;
    assert s[..LengthSize] == stream[..LengthSize];
    assert FrameLength(s) == len;
    var payload := stream[LengthSize..LengthSize + len];
    assert ReadFrame(stream) == Ok((payload, stream[LengthSize + len..]));
    SlicesBeforeExtra(stream, extra, LengthSize, LengthSize + len);
    assert ReadFrame(s) == Ok((payload, stream[LengthSize + len..] + extra));
  }

  /** Slices that end inside the stream do not see what is appended to it. */
  lemma SlicesBeforeExtra(stream: seq<byte>, extra: seq<byte>, a: nat, b: nat)
    requires a <= b <= |stream|
    ensures (stream + extra)[a..b] == stream[a..b]
    ensures (stream + extra)[b..] == stream[b..] + extra
  {
  }

  /** The unit test's frame: length 8, key 18, version 2, correlation id 42. */
  lemma ParseApiVersionsTestFrame(decodeFetch: FetchDecoder)
    ensures NoPanic([0, 0, 0, 8, 0, 18, 0, 2, 0, 0, 0, 42])
    ensures ParseRequest(decodeFetch, [0, 0, 0, 8, 0, 18, 0, 2, 0, 0, 0, 42])
         == Ok((ApiVersions(RequestHeader(Versions, 2, 42)), []))
  {
    var header := RequestHeader(Versions, 2, 42);
    SmallI32Bytes(8);
    SmallI16Bytes(18);
    SmallI16Bytes(2);
    SmallI32Bytes(42);
    assert EncodeFrame(header, []) + [] == [0, 0, 0, 8, 0, 18, 0, 2, 0, 0, 0, 42];
    ParseEncodedFrame(decodeFetch, header, [], []);
  }

  /** Validity of a version for a request: the range registered for the request's own key. */
  function IsRequestApiVersionValid(table: VersionTable, request: Request, version: int): (r: bool)
    ensures r <==> RangeOf(table, request.header.requestApiKey).Contains(version)
  {
    match request.header.requestApiKey
    case Versions => table.versions.Contains(version)
    case Fetch => table.fetch.Contains(version)
  }

  /** The gate the server applies: the header's own version against its key's range. */
  function IsHeaderVersionValid(table: VersionTable, request: Request): (r: bool)
    ensures r <==> RangeOf(table, request.header.requestApiKey).Contains(request.header.requestApiVersion)
  {
    IsRequestApiVersionValid(table, request, request.header.requestApiVersion)
  }

  /** For every key with range [min, max]: min-1 and max+1 are rejected, min and max accepted. */
  lemma VersionBoundaries(table: VersionTable, request: Request)
    requires RangeOf(table, request.header.requestApiKey).minVersion <= RangeOf(table, request.header.requestApiKey).maxVersion
    ensures var range := RangeOf(table, request.header.requestApiKey);
      && !IsRequestApiVersionValid(table, request, range.minVersion - 1)
      && IsRequestApiVersionValid(table, request, range.minVersion)
      && IsRequestApiVersionValid(table, request, range.maxVersion)
      && !IsRequestApiVersionValid(table, request, range.maxVersion + 1)
  {
  }

  /**
    When the key's registered range is 0..4, the per-key check agrees with
    the fixed check on the raw header.
   */
  lemma FixedCheckIsTableInstance(table: VersionTable, request: Request)
    requires RangeOf(table, request.header.requestApiKey) == FixedRange
    ensures IsHeaderVersionValid(table, request)
         == IsRawVersionValid(RawHeader(ApiKeyCode(request.header.requestApiKey),
                                        request.header.requestApiVersion,
                                        request.header.correlationId))
  {
  }
}
