# Kafka-style broker codec in Dafny

A model of the request/response codec of a small Kafka-style broker that
serves two API keys: ApiVersions (18) and Fetch (1). Everything is a pure
function over byte sequences:

- `Requests` reads one request frame from a byte stream. The frame is a
  4-byte big-endian length and then that many payload bytes. The payload
  starts with an 8-byte header: api key, api version and correlation id.
  The key is resolved to a closed set, and the body variant is chosen by
  the key alone. This module also holds the per-key version check.
- `Model` holds the key codes and the per-key version table. It also holds
  the older raw header, whose version check is a fixed range 0..4.
- `RequestHandler` is the dispatcher. It maps each request variant to the
  response variant of the same kind.
- `Responses` serialises the ApiVersions body. It also carries a reader of
  that body, so the serialiser has a round trip to be proved against.
- `Server` is `handle_request`. It applies the version gate, writes the
  10-byte error frame, or writes the success frame around the encoded body.
- `Wire` holds the big-endian integer codecs, the 32-bit wrap of a length,
  and the unsigned varint of the compact-array count.

Three things are parameters, because the program refers to them without
defining them in the files modelled here:

- the table of supported version ranges (`Model.VersionTable`);
- whether an error-code prefix precedes the ApiVersions array
  (`Responses.Layout`);
- the Fetch request body decoder and the Fetch response encoder
  (`Requests.FetchDecoder`, `Server.ServerConfig`).

Each unit test is then one instance of these parameters. The files'
expected bytes disagree on two points:

- the test in `src/server/responses.rs` expects no error code before the
  array and ApiVersions advertised as 1..18;
- the test in `src/server.rs` expects a zero error code before the array
  and ApiVersions advertised as 1..4.

Both are proved as separate instances.

`src/server/requests.rs` builds an empty body for both keys, while
`src/request_handler.rs` reads a session id and topics from a Fetch
request. The model therefore passes the bytes after the header to the
Fetch decoder. The empty-body version is the instance where that decoder
always succeeds.

## Model

| member | source | states |
|---|---|---|
| Requests.ReadFrame | src/server/requests.rs:33-38 | A frame is read only when the 4 length bytes and all `len` payload bytes are present. Otherwise the result is IncompleteFrame. The stream is exactly length bytes, payload and rest. |
| Requests.DecodeHeader | src/server/requests.rs:42-46 | The header is key, version and correlation id, read big-endian from bytes 0..2, 2..4 and 4..8. It fails with UnknownApiKey(raw) exactly when the key is outside the closed set, and then only the 2 key bytes need be present. |
| Requests.SelectBody | src/server/requests.rs:48-51 | The variant is ApiVersions exactly when the key is Versions. The header is carried over unchanged. A Fetch body fails exactly when the decoder rejects it, and otherwise carries the decoder's session id and topics. |
| Requests.ParseRequest | src/server/requests.rs:29-57 | A stream shorter than 4 bytes, or than 4 + len, gives IncompleteFrame. On success, the rest of the stream starts right after the frame, and the variant matches the key. |
| Requests.EncodeRawFrameParts | src/server/requests.rs:86-90 | A frame built the way the test builds it has length 8 + \|body\|. Key, version, correlation id, body and the following bytes sit at their offsets. |
| Requests.ParseEncodedFrame | src/server/requests.rs:29-57 | Round trip: reading back an encoded frame gives the same header, the variant its key selects, and the untouched rest of the stream. |
| Requests.UnknownApiKeyRejected | src/server/requests.rs:43 | A frame whose raw key is neither 1 nor 18 produces no request, only UnknownApiKey with that raw value. |
| Requests.ShortUnknownKeyFrameRejected | src/server/requests.rs:42-46 | A complete frame of 2 to 7 payload bytes whose key is unknown does not panic. It gives UnknownApiKey, because the key is resolved before the version and correlation id are read. |
| Requests.ShortUnknownKeyExample | src/server/requests.rs:43 | The 6-byte stream 0,0,0,2,0,99 does not panic and gives UnknownApiKey(99). |
| Requests.TruncatedFrameRejected | src/server/requests.rs:33-38 | Every strict prefix of a complete frame gives IncompleteFrame, never a partial request. |
| Requests.ParseIgnoresTrailingBytes | src/server/requests.rs:33-38 | Bytes after the frame are not consumed. Appending to the stream changes only the rest. |
| Requests.ParseApiVersionsTestFrame | src/server/requests.rs:78-102 | The test frame 0,0,0,8,0,18,0,2,0,0,0,42 decodes to an ApiVersions request with header (Versions, 2, 42), with nothing left over. |
| Requests.IsRequestApiVersionValid | src/server/requests.rs:20-27 | A version is valid exactly when it lies in the range registered for the request's own key. |
| Requests.IsHeaderVersionValid | src/server.rs:46 | The gate accepts a request exactly when its header's version lies in the range registered for its own key. |
| Requests.VersionBoundaries | src/server/requests.rs:20-27 | For a key with range [min, max], min and max are accepted and min-1 and max+1 are rejected. |
| Requests.FixedCheckIsTableInstance | src/server/model.rs:9-11 | Where a key's range is 0..4, the per-key check agrees with the raw header's fixed check. |
| Model.ParseApiKey | src/server/requests.rs:43 | A resolved key has the raw code. An unresolved code is the code of no key. |
| Model.ParseApiKeyCode | src/server/requests.rs:43 | Resolving a key's own code gives the key back. |
| Model.RangeOf | src/server/requests.rs:21-26 | Each key's range is looked up in the table: Fetch gives the Fetch entry and Versions the Versions entry. |
| Model.IsRawVersionValid | src/server/model.rs:9-11 | The raw header's version is valid exactly when 0 <= version <= 4. |
| Model.RawVersionBoundaries | src/server/model.rs:10 | 0 and 4 are accepted, and -1 and 5 are rejected, whatever the key and the correlation id. |
| Model.RawVersionOnlyDependsOnVersion | src/server/model.rs:2-11 | Two raw headers with the same version get the same verdict. |
| RequestHandler.ProcessApiVersionsRequest | src/request_handler.rs:18-23 | The response advertises [Fetch, Versions] in that order with throttle 0. |
| RequestHandler.MapTopics | src/request_handler.rs:29-33 | There is one topic response per requested topic, of the same length, with topic_id[i] == topics[i].id. |
| RequestHandler.ProcessFetchRequest | src/request_handler.rs:25-35 | The response is a Fetch response with throttle 0, the request's session id, and the topics mapped 1:1 in order. |
| RequestHandler.ProcessRequest | src/request_handler.rs:7-16 | The variant is kept in both directions, and each variant is filled in as above. |
| RequestHandler.ProcessRequestIgnoresHeader | src/request_handler.rs:18-35 | Two requests of the same variant with the same body get the same response, whatever their headers are. |
| RequestHandler.ProcessRequestTestVectors | src/request_handler.rs:45-82 | The two unit tests give the expected responses. The Fetch test uses a Versions-keyed header and still gets session 85 and topic 37 back. |
| Responses.NewApiVersionV4Response | src/server/responses.rs:11-16 | `new` keeps the given list unchanged and sets the throttle time to 0. |
| Responses.EncodeVersionEntry | src/server/responses.rs:26 | Each advertised entry is exactly 7 bytes: key, min and max as big-endian i16, then a zero tag byte, the layout the test bytes at src/server/responses.rs:45 show. `Responses.VersionEntryRoundTrip` reads it back. |
| Responses.EncodeEntries | src/server/responses.rs:25-27 | The loop writes 7·\|keys\| bytes, one 7-byte slot per key, in list order, as `Responses.EncodeEntriesInOrder` states per slot. |
| Responses.EncodeEntriesInOrder | src/server/responses.rs:25-27 | Slot i of the encoded entries, bytes 7i..7i+7, is the encoding of entry i. |
| Responses.VersionEntryRoundTrip | src/server/responses.rs:25-27 | An encoded entry reads back as the key code, min and max of that key's range. |
| Responses.EntriesRoundTrip | src/server/responses.rs:25-27 | n encoded entries, followed by anything, read back as the n advertised ranges in order. |
| Responses.CompactCount | src/server/responses.rs:22-23 | For every length, a varint reader reads the count back as `len + 1` and consumes exactly its bytes. Below 127 entries it is the single byte `len + 1`. |
| Responses.ApiVersionsToWireFormat | src/server/responses.rs:21-30 | The serialiser only appends: the buffer's old contents are a preserved prefix. What follows is the program's one-byte-count body, \|prefix\| + 1 + 7·n + 5 bytes long, which is the varint-count body below 127 entries. |
| Responses.EncodeApiVersionsBody | src/server/responses.rs:21-30 | The body the server sends, with the varint count, is \|prefix\| + \|count\| + 7·n + 5 bytes long. Its round trip is `Responses.ApiVersionsRoundTrip`. |
| Responses.CompactBodyRoundTrip | src/server/responses.rs:21-30 | Reading a body with the varint count gives back every advertised range in order, and the throttle time. |
| Responses.ApiVersionsRoundTrip | src/server/responses.rs:21-30 | With or without the error-code prefix, a serialised ApiVersions body reads back as its advertised ranges and its throttle time. |
| Responses.EncodeCompactBodyAsWritten | src/server/responses.rs:22-29 | Without the error-code prefix, the program's body is 1 + 7·n + 4 + 1 bytes long: count byte, n entries, throttle time, tag byte. |
| Responses.EncodeApiVersionsAsWritten | src/server/responses.rs:21-30 | The program's body is \|prefix\| + 1 + 7·n + 4 + 1 bytes long. |
| Responses.AsWrittenSlot | src/server/responses.rs:25-27 | Entry i of the program's body is bytes 1 + 7i .. 8 + 7i, after the count byte. |
| Responses.AsWrittenTrailer | src/server/responses.rs:28-29 | The program's body ends with the big-endian throttle time and a single 0 byte. |
| Responses.AsWrittenLayout | src/server/responses.rs:22-29 | The first byte is the count, which is `len + 1` below 127 entries. Next come the entries in 7-byte slots in list order, then the big-endian throttle time, then a final 0. |
| Responses.CountByteAsWritten | src/server/responses.rs:22-23 | The count byte is `len + 1` modulo 256, which is what the cast to i8 keeps. |
| Responses.AsWrittenAgreesBelow127 | src/server/responses.rs:22-23 | Below 127 entries the program's one-byte count and the varint count give identical bodies. |
| Responses.AsWrittenCountMisread | src/server/responses.rs:22-23 | With 127 or 255 entries, a varint reader reads the program's count as 0, a null array. |
| Responses.AsWrittenUnreadable | src/server/responses.rs:22-23 | With 127 or 255 entries, the program's body cannot be read back as an ApiVersions body. |
| Responses.ApiVersionsTestVector | src/server/responses.rs:37-47 | [Fetch, Versions] with Fetch 0..16, Versions 1..18 and no prefix gives the test's 20 bytes. |
| Responses.ServerTestBody | src/server.rs:96-101 | With the error-code prefix, Fetch 0..16 and Versions 1..4, the body is the 22 bytes after the correlation id in the server's test. |
| Responses.ApiVersionsAsWrittenTestVector | src/server/responses.rs:37-47 | The program's one-byte count gives the same 20 bytes on that input. |
| Server.ErrorCodeValue | src/server.rs:69-74 | Ok is 0 and UnsupportedVersion is 35, in both directions. |
| Server.ErrorCodeFor | src/server.rs:46-50 | The code is Ok exactly when the header's version is in its key's registered range. |
| Server.HandleRequest | src/server.rs:43-67 | Every frame is at least 8 bytes. Bytes 4..8 echo the correlation id. The length field is the frame length minus 4, wrapped to i32. A rejected version gives 10 bytes with length 6 and code 35. An accepted one is followed by exactly the serialised dispatcher response. |
| Server.ToWireFormat | src/server.rs:59-60 | An ApiVersions response is serialised so that it reads back as its advertised ranges and throttle time. A Fetch response is written by the Fetch encoder. |
| Server.HandleRequestFrameRoundTrip | src/server.rs:52-66 | A client reading the frame gets the correlation id back, then either the error code 35 alone or exactly the serialised response, and nothing of the bytes after it. |
| Server.ErrorFrameIffNotOk | src/server.rs:46-57 | For an ApiVersions request, the 10-byte error frame is written exactly when the code is not Ok. |
| Server.OkFrame | src/server.rs:59-66 | On the accepted path the frame is the wrapped 4 + \|data\|, the correlation id, then the data. |
| Server.ErrorFrame | src/server.rs:52-56 | On the rejected path the frame is 6, the correlation id, then 35. |
| Server.HandleVersionsRequestTestVector | src/server.rs:86-103 | Version 4 with correlation id 311908132 and Versions at 1..4 gives the test's 30 bytes. |
| Server.HandleUnsupportedVersionTestVector | src/server.rs:105-130 | Version -1 with correlation id 311908132 gives 0,0,0,6,18,151,87,36,0,35. |
| Server.CorrelationIdBytesEchoed | src/server.rs:54-64 | End to end, the 4 correlation-id bytes of the request frame are bytes 4..8 of the response frame. |
| Wire.I16RoundTrip | src/server/requests.rs:43-44 | Writing an i16 big-endian and reading it back gives the same value. |
| Wire.BytesI16RoundTrip | src/server/requests.rs:43-44 | Any 2 bytes read as an i16 and written again are the same bytes. |
| Wire.I32RoundTrip | src/server/requests.rs:45 | Writing an i32 big-endian and reading it back gives the same value. |
| Wire.BytesI32RoundTrip | src/server/requests.rs:35 | Any 4 bytes read as an i32 and written again are the same bytes. |
| Wire.I32Wrap | src/server.rs:62-63 | `length as i32` is congruent to the length modulo 2^32, and equal to it below 2^31. |
| Wire.UVarintRoundTrip | src/server/responses.rs:22 | An unsigned varint followed by anything reads back as its value and its own length. |

## Left out

- The TCP listener, the per-connection task and loop, `process`, and the socket writes (src/server.rs:19-41) are I/O and concurrency. Reading from a stream is modelled as a function over the bytes received, which returns the bytes after the frame. `src/main.rs` is not part of this model.
- Logging (`println!`, `eprintln!`) is left out.
- The boxed request body and trait-object dispatch are replaced by the closed datatypes `Requests.Request` and `Responses.Response`.
- The Fetch request body decoder and the Fetch response byte layout are defined outside the modelled files. They are the parameters `Requests.FetchDecoder` and `ServerConfig.encodeFetch`. No property about Fetch bytes is claimed.
- The `ApiKeyVariant` range table is a parameter (`Model.VersionTable`). Its per-entry layout (key, min, max as i16, then a zero tag byte) is taken from the test bytes. The key codes 1 and 18 are also taken from the test bytes.
- Requests.ParseRequest: a negative length becomes a huge `usize` under `i32 as usize`, and `vec![0; len]` at src/server/requests.rs:37 then panics with a capacity overflow. It also panics when a header read runs past the payload: a payload under 2 bytes, or under 8 bytes with a known key. `Requests.NoPanic` excludes exactly those inputs instead of modelling the panic. A 2 to 7 byte payload with an unknown key is kept and gives UnknownApiKey.
- Requests.DecodeHeader: requires `Requests.HeaderReadable`, the same panic-free condition on the payload.
- Responses.CompactCount: this is the corrected varint count, not the one byte that `src/server/responses.rs:23` writes. The two differ from 127 entries on; see "## Findings".
- Responses.EncodeApiVersionsBody: this is the corrected serialiser with the varint count. `Server.ToWireFormat` and the server frame use it. The program's own serialiser is `Responses.ApiVersionsToWireFormat`, and the two agree below 127 entries.
- The version check is a pure function, so "never mutates the header" holds by construction and is not stated separately.
- The test in `src/server.rs` expects a zero error code before the ApiVersions array, and the serialiser in `src/server/responses.rs` writes none. The prefix is therefore a switch in `Responses.Layout` rather than a fixed choice.

## Findings

| source | as written | input that shows it | evidently intended | confidence | as-written member | corrected member |
|---|---|---|---|---|---|---|
| src/server/responses.rs:22-23 | The compact-array count `len + 1` is written as one byte (`as i8`), which keeps only its low 8 bits. | A response with 127 entries writes 0x80, which a varint reader joins with the next byte. A response with 255 entries writes 0, a null array. Either way the body does not read back. | The count is an unsigned varint of `len + 1`, as the protocol's compact arrays require. | not executed | Responses.AsWrittenUnreadable | Responses.ApiVersionsRoundTrip |

`Responses.EncodeApiVersionsBody` uses the varint count, and the server frame
is built from it. `Responses.AsWrittenAgreesBelow127` shows that the two
encodings agree for fewer than 127 entries. The dispatcher only ever
advertises 2 entries.
