/**
  Turning one decoded request into the bytes written back: the version
  gate, the short error frame, and the success frame around the encoded
  response body.
 */
module Server {
  import opened Wire
  import opened Model
  import Requests
  import Responses
  import RequestHandler

  datatype ErrorCode = Ok | UnsupportedVersion

  /** The 16-bit value of each error code on the wire. */
  function ErrorCodeValue(e: ErrorCode): (r: i16)
    ensures e == Ok <==> r == 0
    ensures e == UnsupportedVersion <==> r == 35
  {
    match e
    case Ok => 0
    case UnsupportedVersion => 35
  }

  /**
    Server configuration: the layout of the ApiVersions body (whose version
    table is also the one the gate checks against) and the Fetch response
    encoder, whose byte layout is not part of this model.
   */
  datatype ServerConfig = ServerConfig(layout: Responses.Layout, encodeFetch: Responses.Response -> seq<byte>)

  /**
    Serialises a response body by its variant. An ApiVersions body reads
    back as the advertised ranges and the throttle time.
   */
  function ToWireFormat(config: ServerConfig, response: Responses.Response): (r: seq<byte>)
    ensures response.ApiVersions? ==>
      Responses.DecodeApiVersionsBody(config.layout.errorCodePrefix, r)
        == Some((Responses.AdvertisedAll(config.layout.table, response.apiKeyVersions), response.throttleTimeInMs))
    ensures response.Fetch? ==> r == config.encodeFetch(response)
  {
    match response
    case ApiVersions(_, _) =>
      Responses.ApiVersionsRoundTrip(config.layout, response);
      Responses.EncodeApiVersionsBody(config.layout, response)
    case Fetch(_, _, _) => config.encodeFetch(response)
  }

  /** Ok exactly when the header's version lies in the range registered for its key. */
  function ErrorCodeFor(table: VersionTable, request: Requests.Request): (r: ErrorCode)
    ensures r == Ok <==> RangeOf(table, request.header.requestApiKey).Contains(request.header.requestApiVersion)
  {
    if !Requests.IsHeaderVersionValid(table, request) then UnsupportedVersion else Ok
  }

  /** The frame length field holds 6: the correlation id and the error code. */
  const ErrorFrameLength: i32 := 4 + 2

  /**
    The response frame for one request. An unsupported version gets a
    10-byte frame with only the correlation id and the error code; otherwise
    the frame holds the correlation id and the encoded response of the
    dispatcher. The length field counts everything after itself.
   */
  function HandleRequest(config: ServerConfig, request: Requests.Request): (r: seq<byte>)
    ensures |r| >= 8
    ensures r[4..8] == I32ToBytes(request.header.correlationId)
    ensures BytesToI32(r[..4]) == I32Wrap(|r| - 4)
    ensures ErrorCodeFor(config.layout.table, request) != Ok ==>
      && |r| == 10
      && BytesToI32(r[..4]) == 6
      && BytesToI16(r[8..10]) == ErrorCodeValue(UnsupportedVersion)
    ensures ErrorCodeFor(config.layout.table, request) == Ok ==>
      && |r| == 8 + |ToWireFormat(config, RequestHandler.ProcessRequest(request))|
      && r[8..] == ToWireFormat(config, RequestHandler.ProcessRequest(request))
  {
    var correlationId := request.header.correlationId;
    var code := ErrorCodeFor(config.layout.table, request);
    if code != Ok then
      I32RoundTrip(ErrorFrameLength);
      I16RoundTrip(ErrorCodeValue(code));
      var r := I32ToBytes(ErrorFrameLength) + I32ToBytes(correlationId) + I16ToBytes(ErrorCodeValue(code));
      assert r[..4] == I32ToBytes(ErrorFrameLength) && r[8..10] == I16ToBytes(ErrorCodeValue(code));
      r
    else
      var data := ToWireFormat(config, RequestHandler.ProcessRequest(request));
      var length := I32Wrap(4 + |data|);
      I32RoundTrip(length);
      var r := I32ToBytes(length) + I32ToBytes(correlationId) + data;
      assert r[..4] == I32ToBytes(length);
      r
  }

  /**
    A client's reader of one response frame: the length field (at least 4),
    the correlation id, the remaining payload, and what follows the frame.
   */
  function DecodeResponseFrame(s: seq<byte>): (r: Option<(i32, seq<byte>, seq<byte>)>)
    ensures r.Some? ==> |s| >= 8 && 4 + |r.value.1| + |r.value.2| == |s| - 4
  {
    if |s| < 8 then None
    else
      var len := BytesToI32(s[..4]);
      if len < 4 || |s| - 4 < len then None
      else Some((BytesToI32(s[4..8]), s[8..4 + len], s[4 + len..]))
  }

  /**
    Reading the frame back gives the request's correlation id, then either
    the error code 35 alone or exactly the encoded dispatcher response, and
    nothing of what follows on the stream.
   */
  lemma HandleRequestFrameRoundTrip(config: ServerConfig, request: Requests.Request, rest: seq<byte>)
    requires |HandleRequest(config, request)| - 4 < 0x8000_0000
    ensures var payload := if ErrorCodeFor(config.layout.table, request) == Ok
                           then ToWireFormat(config, RequestHandler.ProcessRequest(request))
                           else I16ToBytes(ErrorCodeValue(UnsupportedVersion));
      DecodeResponseFrame(HandleRequest(config, request) + rest)
        == Some((request.header.correlationId, payload, rest))
  {
    var frame := HandleRequest(config, request);
    var s := frame + rest;
    assert s[..4] == frame[..4];
    assert s[4..8] == frame[4..8];
    I32RoundTrip(request.header.correlationId);
    assert s[8..|frame|] == frame[8..];
    assert s[|frame|..] == rest;
    if ErrorCodeFor(config.layout.table, request) != Ok {
      BytesI16RoundTrip(frame[8..10]);
    }
  }

  /**
    For an ApiVersions request the short error frame is written exactly
    when the error code is not Ok: a success frame is always longer.
   */
  lemma ErrorFrameIffNotOk(config: ServerConfig, request: Requests.Request)
    requires request.ApiVersions?
    ensures ErrorCodeFor(config.layout.table, request) != Ok <==> |HandleRequest(config, request)| == 10
  {
    if ErrorCodeFor(config.layout.table, request) == Ok {
      var response := RequestHandler.ProcessRequest(request);
      assert |ToWireFormat(config, response)| == |Responses.EncodeApiVersionsBody(config.layout, response)| >= 6;
    }
  }

  /**
    The unit test for a supported ApiVersions request: version 4, correlation
    id 311908132, Fetch advertised as 0..16 and ApiVersions as 1..4, with the
    error-code prefix.
   */
  lemma HandleVersionsRequestTestVector(config: ServerConfig, request: Requests.Request)
    requires config.layout == Responses.Layout(VersionTable(VersionRange(0, 16), VersionRange(1, 4)), true)
    requires request == Requests.ApiVersions(Requests.RequestHeader(ApiKey.Versions, 4, 311908132))
    ensures HandleRequest(config, request)
         == [0, 0, 0, 26, 18, 151, 87, 36, 0, 0, 3, 0, 1, 0, 0, 0, 16, 0, 0, 18, 0, 1, 0, 4, 0,
             0, 0, 0, 0, 0]
  {
    var response := Responses.ApiVersions([ApiKey.Fetch, ApiKey.Versions], 0);
    assert ErrorCodeFor(config.layout.table, request) == Ok;
    assert RequestHandler.ProcessRequest(request) == response;
    var data := ToWireFormat(config, response);
    assert data == Responses.EncodeApiVersionsBody(config.layout, response);
    Responses.ServerTestBody(config.layout, response);
    OkFrame(config, request);
    assert I32Wrap(4 + |data|) == 26;
    SmallI32Bytes(26);
    TestCorrelationIdBytes();
    VersionsTestFrameLayout();
  }

  lemma VersionsTestFrameLayout()
    ensures [0, 0, 0, 26] + [18, 151, 87, 36]
            + [0, 0, 3, 0, 1, 0, 0, 0, 16, 0, 0, 18, 0, 1, 0, 4, 0, 0, 0, 0, 0, 0]
         == [0, 0, 0, 26, 18, 151, 87, 36, 0, 0, 3, 0, 1, 0, 0, 0, 16, 0, 0, 18, 0, 1, 0, 4, 0,
             0, 0, 0, 0, 0]
  {
  }

  /** The tests' correlation id 311908132 in big-endian. */
  lemma TestCorrelationIdBytes()
    ensures I32ToBytes(311908132) == [18, 151, 87, 36]
  {
  }

  /** On the success path the frame is the wrapped length, the correlation id and the body. */
  lemma OkFrame(config: ServerConfig, request: Requests.Request)
    requires ErrorCodeFor(config.layout.table, request) == Ok
    ensures var data := ToWireFormat(config, RequestHandler.ProcessRequest(request));
      HandleRequest(config, request) == I32ToBytes(I32Wrap(4 + |data|)) + I32ToBytes(request.header.correlationId) + data
  {
  }

  /** On the error path the frame is the length 6, the correlation id and the error code 35. */
  lemma ErrorFrame(config: ServerConfig, request: Requests.Request)
    requires ErrorCodeFor(config.layout.table, request) != Ok
    ensures HandleRequest(config, request)
         == I32ToBytes(6) + I32ToBytes(request.header.correlationId) + I16ToBytes(35)
  {
  }

  /** The unit test for an unsupported version: -1, outside the ApiVersions range. */
  lemma HandleUnsupportedVersionTestVector(config: ServerConfig, request: Requests.Request)
    requires !config.layout.table.versions.Contains(-1)
    requires request == Requests.ApiVersions(Requests.RequestHeader(ApiKey.Versions, -1, 311908132))
    ensures HandleRequest(config, request) == [0, 0, 0, 6, 18, 151, 87, 36, 0, 35]
  {
    ErrorFrame(config, request);
    SmallI32Bytes(6);
    SmallI16Bytes(35);
    TestCorrelationIdBytes();
  }

  /**
    End to end: the correlation id bytes of the request frame come back
    unchanged at bytes 4..8 of the response frame.
   */
  lemma CorrelationIdBytesEchoed(decodeFetch: Requests.FetchDecoder, config: ServerConfig, stream: seq<byte>)
    requires Requests.NoPanic(stream)
    requires Requests.ParseRequest(decodeFetch, stream).Ok?
    ensures |stream| >= 12
    ensures HandleRequest(config, Requests.ParseRequest(decodeFetch, stream).value.0)[4..8] == stream[8..12]
  {
    var request := Requests.ParseRequest(decodeFetch, stream).value.0;
    var payload := Requests.ReadFrame(stream).value.0;
    assert payload[4..8] == stream[8..12];
    BytesI32RoundTrip(stream[8..12]);
  }
}
