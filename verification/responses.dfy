/**
  Response side: the closed set of responses and the serialiser of the
  ApiVersions body, following the ApiVersions message of the Apache Kafka
  protocol guide (a compact array of supported key ranges, the throttle
  time, a tag buffer).

  The serialiser writes the compact-array count as an unsigned varint of
  `len + 1`. The program writes that count as one truncated byte instead;
  `EncodeApiVersionsAsWritten` models that, and the two agree for fewer
  than 127 entries.
 */
module Responses {
  import opened Wire
  import opened Model

  datatype FetchTopicResponse = FetchTopicResponse(topicId: u128)

  /** The closed set of responses, one per request variant. */
  datatype Response =
    | ApiVersions(apiKeyVersions: seq<ApiKey>, throttleTimeInMs: i32)
    | Fetch(throttleTimeInMs: i32, sessionId: i32, topics: seq<FetchTopicResponse>)

  /** The ApiVersions (v4) response constructor: the given keys, no throttling. */
  function NewApiVersionV4Response(apiKeyVersions: seq<ApiKey>): (r: Response)
    ensures r.ApiVersions?
    ensures r.apiKeyVersions == apiKeyVersions
    ensures r.throttleTimeInMs == 0
  {
    ApiVersions(apiKeyVersions, 0)
  }

  /**
    How the ApiVersions body is laid out: which range each key advertises,
    and whether a 16-bit error code (always 0 here) precedes the array.
   */
  datatype Layout = Layout(table: VersionTable, errorCodePrefix: bool)

  /** One advertised entry as a reader of the wire sees it. */
  datatype VersionEntry = VersionEntry(apiKey: i16, minVersion: i16, maxVersion: i16)

  function Advertised(table: VersionTable, k: ApiKey): (r: VersionEntry)
  {
    VersionEntry(ApiKeyCode(k), RangeOf(table, k).minVersion, RangeOf(table, k).maxVersion)
  }

  function AdvertisedAll(table: VersionTable, keys: seq<ApiKey>): (r: seq<VersionEntry>)
    ensures |r| == |keys|
    ensures forall i :: 0 <= i < |keys| ==> r[i] == Advertised(table, keys[i])
  {
    seq(|keys|, i requires 0 <= i < |keys| => Advertised(table, keys[i]))
  }

  const EntrySize: nat := 7

  /** One entry on the wire: key, min version, max version (each i16), then an empty tag buffer. */
  function EncodeVersionEntry(table: VersionTable, k: ApiKey): (r: seq<byte>)
    ensures |r| == EntrySize
  {
    I16ToBytes(ApiKeyCode(k)) + I16ToBytes(RangeOf(table, k).minVersion)
      + I16ToBytes(RangeOf(table, k).maxVersion) + [0]
  }

  function DecodeVersionEntry(s: seq<byte>): (r: Option<VersionEntry>)
    requires |s| == EntrySize
    ensures r.Some? <==> s[6] == 0
  {
    if s[6] != 0 then None
    else Some(VersionEntry(BytesToI16(s[0..2]), BytesToI16(s[2..4]), BytesToI16(s[4..6])))
  }

  lemma VersionEntryRoundTrip(table: VersionTable, k: ApiKey)
    ensures DecodeVersionEntry(EncodeVersionEntry(table, k)) == Some(Advertised(table, k))
  {
    var s := EncodeVersionEntry(table, k);
    assert s[0..2] == I16ToBytes(ApiKeyCode(k));
    assert s[2..4] == I16ToBytes(RangeOf(table, k).minVersion);
    assert s[4..6] == I16ToBytes(RangeOf(table, k).maxVersion);
    I16RoundTrip(ApiKeyCode(k));
    I16RoundTrip(RangeOf(table, k).minVersion);
    I16RoundTrip(RangeOf(table, k).maxVersion);
  }

  /** The entries, one 7-byte slot each, in list order. */
  function EncodeEntries(table: VersionTable, keys: seq<ApiKey>): (r: seq<byte>)
    ensures |r| == EntrySize * |keys|
  {
    if keys == [] then []
    else EncodeVersionEntry(table, keys[0]) + EncodeEntries(table, keys[1..])
  }

  /** Slot i of the encoded entries is the encoding of entry i. */
  lemma {:induction false} EncodeEntriesInOrder(table: VersionTable, keys: seq<ApiKey>, i: nat)
    requires i < |keys|
    ensures EncodeEntries(table, keys)[EntrySize * i..EntrySize * i + EntrySize] == EncodeVersionEntry(table, keys[i])
  {
    var head := EncodeVersionEntry(table, keys[0]);
    var tail := EncodeEntries(table, keys[1..]);
    EncodeEntriesCons(table, keys);
    if i == 0 {
      assert (head + tail)[0..EntrySize] == head;
    } else {
      assert keys[1..][i - 1] == keys[i];
      EncodeEntriesInOrder(table, keys[1..], i - 1);
      SlotOfTail(head, tail, i);
    }
  }

  lemma EncodeEntriesCons(table: VersionTable, keys: seq<ApiKey>)
    requires keys != []
    ensures EncodeEntries(table, keys) == EncodeVersionEntry(table, keys[0]) + EncodeEntries(table, keys[1..])
  {
  }

  /** Slot i of an entry followed by more entries is slot i - 1 of the rest. */
  lemma SlotOfTail(head: seq<byte>, tail: seq<byte>, i: nat)
    requires |head| == EntrySize && 0 < i && EntrySize * i <= |tail|
    ensures (head + tail)[EntrySize * i..EntrySize * i + EntrySize]
         == tail[EntrySize * (i - 1)..EntrySize * (i - 1) + EntrySize]
  {
    SliceAfterPrefix(head, tail, EntrySize * (i - 1), EntrySize * (i - 1) + EntrySize);
  }

  /** A slice lying wholly after the prefix x is a slice of y. */
  lemma SliceAfterPrefix<T>(x: seq<T>, y: seq<T>, a: nat, b: nat)
    requires a <= b <= |y|
    ensures (x + y)[|x| + a..|x| + b] == y[a..b]
  {
  }

  /** Reads n consecutive entries from the front of s. */
  function DecodeEntries(s: seq<byte>, n: nat): (r: Option<seq<VersionEntry>>)
    ensures r.Some? ==> |s| >= EntrySize * n && |r.value| == n
  {
    if n == 0 then Some([])
    else if |s| < EntrySize then None
    else
      match DecodeVersionEntry(s[..EntrySize])
      case None => None
      case Some(e) =>
        match DecodeEntries(s[EntrySize..], n - 1)
        case None => None
        case Some(es) => Some([e] + es)
  }

  lemma {:induction false} EntriesRoundTrip(table: VersionTable, keys: seq<ApiKey>, rest: seq<byte>)
    ensures DecodeEntries(EncodeEntries(table, keys) + rest, |keys|) == Some(AdvertisedAll(table, keys))
  {
    if keys != [] {
      var s := EncodeEntries(table, keys) + rest;
      assert s[..EntrySize] == EncodeVersionEntry(table, keys[0]);
      assert s[EntrySize..] == EncodeEntries(table, keys[1..]) + rest;
      VersionEntryRoundTrip(table, keys[0]);
      EntriesRoundTrip(table, keys[1..], rest);
      assert AdvertisedAll(table, keys) == [Advertised(table, keys[0])] + AdvertisedAll(table, keys[1..]);
    }
  }

  /** The optional error code in front of the array: 0, since only successes get a body. */
  function ErrorCodePrefix(layout: Layout): (r: seq<byte>)
    ensures |r| == if layout.errorCodePrefix then 2 else 0
  {
    if layout.errorCodePrefix then I16ToBytes(0) else []
  }

  /** Compact-array count: the number of entries plus one, as an unsigned varint. */
  function CompactCount(n: nat): (r: seq<byte>)
    ensures 1 <= |r|
    ensures DecodeUVarint(r) == Some((n + 1, |r|))
    ensures n + 1 < 0x80 ==> r == [n + 1]
  {
    UVarintRoundTrip(n + 1, []);
    assert UVarint(n + 1) + [] == UVarint(n + 1);
    UVarint(n + 1)
  }

  /**
    The ApiVersions body: [error code,] count, entries in list order, the
    throttle time, and a final empty tag buffer.
   */
  function EncodeApiVersionsBody(layout: Layout, response: Response): (r: seq<byte>)
    requires response.ApiVersions?
    ensures |r| == |ErrorCodePrefix(layout)| + |CompactCount(|response.apiKeyVersions|)|
                   + EntrySize * |response.apiKeyVersions| + 4 + 1
  {
    ErrorCodePrefix(layout) + EncodeCompactBody(layout.table, response.apiKeyVersions, response.throttleTimeInMs)
  }

  /** Everything after the optional error code. */
  function EncodeCompactBody(table: VersionTable, keys: seq<ApiKey>, throttle: i32): (r: seq<byte>)
    ensures |r| == |CompactCount(|keys|)| + EntrySize * |keys| + 4 + 1
  {
    CompactCount(|keys|) + EncodeEntries(table, keys) + I32ToBytes(throttle) + [0]
  }

  /**
    `to_wire_format` as the program writes it: appends the body with the
    one-byte count to whatever the buffer already holds. Below 127 entries
    what it appends is the varint-count body.
   */
  function ApiVersionsToWireFormat(layout: Layout, response: Response, buffer: seq<byte>): (r: seq<byte>)
    requires response.ApiVersions?
    ensures |r| == |buffer| + |ErrorCodePrefix(layout)| + 1 + EntrySize * |response.apiKeyVersions| + 4 + 1
    ensures r[..|buffer|] == buffer
    ensures r[|buffer|..] == EncodeApiVersionsAsWritten(layout, response)
    ensures |response.apiKeyVersions| + 1 < 0x80 ==> r[|buffer|..] == EncodeApiVersionsBody(layout, response)
  {
    var body := EncodeApiVersionsAsWritten(layout, response);
    assert |response.apiKeyVersions| + 1 < 0x80 ==> body == EncodeApiVersionsBody(layout, response) by {
      if |response.apiKeyVersions| + 1 < 0x80 {
        AsWrittenAgreesBelow127(layout, response);
      }
    }
    buffer + body
  }

  /**
    A reader of an ApiVersions body: the advertised entries and the
    throttle time, or None if the bytes are not such a body.
   */
  function DecodeApiVersionsBody(errorCodePrefix: bool, s: seq<byte>): (r: Option<(seq<VersionEntry>, i32)>)
  {
    if !errorCodePrefix then DecodeCompactBody(s)
    else if |s| < 2 || BytesToI16(s[..2]) != 0 then None
    else DecodeCompactBody(s[2..])
  }

  /** The part after the optional error code: count, entries, throttle time, tag buffer. */
  function DecodeCompactBody(s: seq<byte>): (r: Option<(seq<VersionEntry>, i32)>)
  {
    match DecodeUVarint(s)
    case None => None
    case Some((count, k)) =>
      if count == 0 then None
      else
        var body := s[k..];
        match DecodeEntries(body, count - 1)
        case None => None
        case Some(entries) =>
          var tail := body[EntrySize * (count - 1)..];
          if |tail| != 5 || tail[4] != 0 then None
          else Some((entries, BytesToI32(tail[..4])))
  }

  lemma CompactBodyRoundTrip(table: VersionTable, keys: seq<ApiKey>, throttle: i32)
    ensures DecodeCompactBody(EncodeCompactBody(table, keys, throttle)) == Some((AdvertisedAll(table, keys), throttle))
  {
    var count := CompactCount(|keys|);
    var entries := EncodeEntries(table, keys);
    var trailer := I32ToBytes(throttle) + [0];
    var s := EncodeCompactBody(table, keys, throttle);
    assert s == count + (entries + trailer);
    UVarintRoundTrip(|keys| + 1, entries + trailer);
    var body := s[|count|..];
    assert body == entries + trailer;
    EntriesRoundTrip(table, keys, trailer);
    assert body[EntrySize * |keys|..] == trailer;
    TrailerRoundTrip(throttle);
  }

  lemma TrailerRoundTrip(throttle: i32)
    ensures var trailer := I32ToBytes(throttle) + [0];
      |trailer| == 5 && trailer[4] == 0 && BytesToI32(trailer[..4]) == throttle
  {
    var trailer := I32ToBytes(throttle) + [0];
    assert trailer[..4] == I32ToBytes(throttle);
    I32RoundTrip(throttle);
  }

  /** Reading a serialised body gives back every advertised range, in order, and the throttle time. */
  lemma ApiVersionsRoundTrip(layout: Layout, response: Response)
    requires response.ApiVersions?
    ensures DecodeApiVersionsBody(layout.errorCodePrefix, EncodeApiVersionsBody(layout, response))
         == Some((AdvertisedAll(layout.table, response.apiKeyVersions), response.throttleTimeInMs))
  {
    var compact := EncodeCompactBody(layout.table, response.apiKeyVersions, response.throttleTimeInMs);
    CompactBodyRoundTrip(layout.table, response.apiKeyVersions, response.throttleTimeInMs);
    PrefixedBody(layout, compact);
  }

  /** With one-byte bounds an entry reads 0, key, 0, min, 0, max, then the tag byte. */
  lemma SmallVersionEntry(table: VersionTable, k: ApiKey)
    requires 0 <= RangeOf(table, k).minVersion < 0x100 && 0 <= RangeOf(table, k).maxVersion < 0x100
    ensures EncodeVersionEntry(table, k)
         == [0, ApiKeyCode(k), 0, RangeOf(table, k).minVersion, 0, RangeOf(table, k).maxVersion, 0]
  {
    SmallI16Bytes(ApiKeyCode(k));
    SmallI16Bytes(RangeOf(table, k).minVersion);
    SmallI16Bytes(RangeOf(table, k).maxVersion);
  }

  /** The body advertising [Fetch, Versions], piece by piece. */
  lemma AdvertisedBodyPieces(layout: Layout, throttle: i32)
    ensures EncodeApiVersionsBody(layout, ApiVersions([ApiKey.Fetch, ApiKey.Versions], throttle))
         == ErrorCodePrefix(layout)
            + (CompactCount(2)
               + (EncodeVersionEntry(layout.table, ApiKey.Fetch) + EncodeVersionEntry(layout.table, ApiKey.Versions))
               + I32ToBytes(throttle) + [0])
  {
    var keys := [ApiKey.Fetch, ApiKey.Versions];
    assert keys[1..] == [ApiKey.Versions];
    assert [ApiKey.Versions][1..] == [];
    assert EncodeEntries(layout.table, [ApiKey.Versions]) == EncodeVersionEntry(layout.table, ApiKey.Versions);
  }

  /** The unit test: [Fetch, Versions] with Fetch 0..16, Versions 1..18 and no error-code prefix. */
  lemma ApiVersionsTestVector(layout: Layout, response: Response)
    requires layout == Layout(VersionTable(VersionRange(0, 16), VersionRange(1, 18)), false)
    requires response == NewApiVersionV4Response([ApiKey.Fetch, ApiKey.Versions])
    ensures EncodeApiVersionsBody(layout, response)
         == [3, 0, 1, 0, 0, 0, 16, 0, 0, 18, 0, 1, 0, 18, 0, 0, 0, 0, 0, 0]
  {
    AdvertisedBodyPieces(layout, 0);
    SmallVersionEntry(layout.table, ApiKey.Fetch);
    SmallVersionEntry(layout.table, ApiKey.Versions);
    SmallI32Bytes(0);
    TestVectorLayout();
  }

  lemma TestVectorLayout()
    ensures [] + ([3] + ([0, 1, 0, 0, 0, 16, 0] + [0, 18, 0, 1, 0, 18, 0]) + [0, 0, 0, 0] + [0])
         == [3, 0, 1, 0, 0, 0, 16, 0, 0, 18, 0, 1, 0, 18, 0, 0, 0, 0, 0, 0]
  {
  }

  /** The body the server's unit test expects: error-code prefix, Fetch 0..16 and Versions 1..4. */
  lemma ServerTestBody(layout: Layout, response: Response)
    requires layout == Layout(VersionTable(VersionRange(0, 16), VersionRange(1, 4)), true)
    requires response == ApiVersions([ApiKey.Fetch, ApiKey.Versions], 0)
    ensures EncodeApiVersionsBody(layout, response)
         == [0, 0, 3, 0, 1, 0, 0, 0, 16, 0, 0, 18, 0, 1, 0, 4, 0, 0, 0, 0, 0, 0]
  {
    AdvertisedBodyPieces(layout, 0);
    SmallVersionEntry(layout.table, ApiKey.Fetch);
    SmallVersionEntry(layout.table, ApiKey.Versions);
    SmallI16Bytes(0);
    SmallI32Bytes(0);
    ServerTestBodyLayout();
  }

  lemma ServerTestBodyLayout()
    ensures [0, 0] + ([3] + ([0, 1, 0, 0, 0, 16, 0] + [0, 18, 0, 1, 0, 4, 0]) + [0, 0, 0, 0] + [0])
         == [0, 0, 3, 0, 1, 0, 0, 0, 16, 0, 0, 18, 0, 1, 0, 4, 0, 0, 0, 0, 0, 0]
  {
  }

  /** The program's own one-byte count produces the same 20 bytes on the unit test's input. */
  lemma ApiVersionsAsWrittenTestVector(layout: Layout, response: Response)
    requires layout == Layout(VersionTable(VersionRange(0, 16), VersionRange(1, 18)), false)
    requires response == NewApiVersionV4Response([ApiKey.Fetch, ApiKey.Versions])
    ensures EncodeApiVersionsAsWritten(layout, response)
         == [3, 0, 1, 0, 0, 0, 16, 0, 0, 18, 0, 1, 0, 18, 0, 0, 0, 0, 0, 0]
  {
    AsWrittenAgreesBelow127(layout, response);
    ApiVersionsTestVector(layout, response);
  }

  /** The count as the program writes it: `len + 1` cast to i8, i.e. its low 8 bits. */
  function CountByteAsWritten(n: nat): (r: byte)
    ensures (r - (n + 1)) % 0x100 == 0
  {
    (n + 1) % 0x100
  }

  /** The body with the program's one-byte count. */
  function EncodeApiVersionsAsWritten(layout: Layout, response: Response): (r: seq<byte>)
    requires response.ApiVersions?
    ensures |r| == |ErrorCodePrefix(layout)| + 1 + EntrySize * |response.apiKeyVersions| + 4 + 1
  {
    ErrorCodePrefix(layout)
      + EncodeCompactBodyAsWritten(layout.table, response.apiKeyVersions, response.throttleTimeInMs)
  }

  function EncodeCompactBodyAsWritten(table: VersionTable, keys: seq<ApiKey>, throttle: i32): (r: seq<byte>)
    ensures |r| == 1 + EntrySize * |keys| + 4 + 1
  {
    [CountByteAsWritten(|keys|)] + EncodeEntries(table, keys) + I32ToBytes(throttle) + [0]
  }

  /**
    The program's body field by field: the count byte first, then each
    entry in its 7-byte slot in list order, the big-endian throttle time,
    and a closing zero byte.
   */
  lemma AsWrittenLayout(table: VersionTable, keys: seq<ApiKey>, throttle: i32)
    ensures var r := EncodeCompactBodyAsWritten(table, keys, throttle);
      && r[0] == CountByteAsWritten(|keys|)
      && (|keys| + 1 < 0x80 ==> r[0] == |keys| + 1)
      && (forall i :: 0 <= i < |keys| ==>
            r[1 + EntrySize * i..1 + EntrySize * i + EntrySize] == EncodeVersionEntry(table, keys[i]))
      && BytesToI32(r[|r| - 5..|r| - 1]) == throttle
      && r[|r| - 1] == 0
  {
    forall i | 0 <= i < |keys|
      ensures EncodeCompactBodyAsWritten(table, keys, throttle)[1 + EntrySize * i..1 + EntrySize * i + EntrySize]
           == EncodeVersionEntry(table, keys[i])
    {
      AsWrittenSlot(table, keys, throttle, i);
    }
    AsWrittenTrailer(table, keys, throttle);
  }

  /** Entry i of the program's body sits in the 7 bytes after the count byte and the i entries before it. */
  lemma AsWrittenSlot(table: VersionTable, keys: seq<ApiKey>, throttle: i32, i: nat)
    requires i < |keys|
    ensures EncodeCompactBodyAsWritten(table, keys, throttle)[1 + EntrySize * i..1 + EntrySize * i + EntrySize]
         == EncodeVersionEntry(table, keys[i])
  {
    var head: seq<byte> := [CountByteAsWritten(|keys|)];
    var tail := EncodeEntries(table, keys) + (I32ToBytes(throttle) + [0]);
    assert EncodeCompactBodyAsWritten(table, keys, throttle) == head + tail;
    EncodeEntriesInOrder(table, keys, i);
    SliceAfterPrefix(head, tail, EntrySize * i, EntrySize * i + EntrySize);
  }

  /** The program's body ends with the big-endian throttle time and a zero byte. */
  lemma AsWrittenTrailer(table: VersionTable, keys: seq<ApiKey>, throttle: i32)
    ensures var r := EncodeCompactBodyAsWritten(table, keys, throttle);
      BytesToI32(r[|r| - 5..|r| - 1]) == throttle && r[|r| - 1] == 0
  {
    var r := EncodeCompactBodyAsWritten(table, keys, throttle);
    var front := [CountByteAsWritten(|keys|)] + EncodeEntries(table, keys);
    assert r == front + (I32ToBytes(throttle) + [0]);
    assert r[|r| - 5..|r| - 1] == I32ToBytes(throttle);
    I32RoundTrip(throttle);
  }

  /** Below 127 entries the one-byte count is the varint count, so both bodies agree. */
  lemma AsWrittenAgreesBelow127(layout: Layout, response: Response)
    requires response.ApiVersions?
    requires |response.apiKeyVersions| + 1 < 0x80
    ensures EncodeApiVersionsAsWritten(layout, response) == EncodeApiVersionsBody(layout, response)
  {
  }

  /**
    With 127 entries the byte written is 0x80, which a varint reader takes
    as unfinished and joins with the next byte (the zero high byte of the
    first key); with 255 entries it wraps to 0. Either way the count read
    back is 0, a null array, and the body cannot be read back.
   */
  lemma AsWrittenCountMisread(table: VersionTable, keys: seq<ApiKey>, throttle: i32)
    requires |keys| == 127 || |keys| == 255
    ensures DecodeUVarint(EncodeCompactBodyAsWritten(table, keys, throttle)).Some?
    ensures DecodeUVarint(EncodeCompactBodyAsWritten(table, keys, throttle)).value.0 == 0
  {
    var compact := EncodeCompactBodyAsWritten(table, keys, throttle);
    if |keys| == 127 {
      var entries := EncodeEntries(table, keys);
      EncodeEntriesInOrder(table, keys, 0);
      SmallI16Bytes(ApiKeyCode(keys[0]));
      assert entries[0] == EncodeVersionEntry(table, keys[0])[0] == 0;
      assert compact[0] == 0x80;
      assert compact[1..][0] == 0;
      assert DecodeUVarint(compact[1..]) == Some((0, 1));
    }
  }

  lemma AsWrittenUnreadable(layout: Layout, response: Response)
    requires response.ApiVersions?
    requires |response.apiKeyVersions| == 127 || |response.apiKeyVersions| == 255
    ensures DecodeApiVersionsBody(layout.errorCodePrefix, EncodeApiVersionsAsWritten(layout, response)).None?
  {
    var compact := EncodeCompactBodyAsWritten(layout.table, response.apiKeyVersions, response.throttleTimeInMs);
    AsWrittenCountMisread(layout.table, response.apiKeyVersions, response.throttleTimeInMs);
    NullCountUnreadable(compact);
    PrefixedBody(layout, compact);
  }

  /** A count of zero marks a null array, which is never an ApiVersions body. */
  lemma NullCountUnreadable(s: seq<byte>)
    requires DecodeUVarint(s).Some? && DecodeUVarint(s).value.0 == 0
    ensures DecodeCompactBody(s).None?
  {
  }

  /** Behind its zero error code, a body reads exactly as the part after it. */
  lemma PrefixedBody(layout: Layout, compact: seq<byte>)
    ensures DecodeApiVersionsBody(layout.errorCodePrefix, ErrorCodePrefix(layout) + compact) == DecodeCompactBody(compact)
  {
    if layout.errorCodePrefix {
      var s := ErrorCodePrefix(layout) + compact;
      SmallI16Bytes(0);
      assert s[..2] == [0, 0] && s[2..] == compact;
    } else {
      assert ErrorCodePrefix(layout) + compact == compact;
    }
  }
}
