/**
  Shared protocol vocabulary: the closed set of API keys the broker knows,
  their numeric codes on the wire, the per-key supported version ranges, and
  the older header record whose version check is a fixed range.
 */
module Model {
  import opened Wire

  /** The two API keys the broker serves. */
  datatype ApiKey = Fetch | Versions

  /** The numeric API key written on the wire: 1 for Fetch, 18 for ApiVersions. */
  function ApiKeyCode(k: ApiKey): (r: i16)
  {
    match k
    case Fetch => 1
    case Versions => 18
  }

  /** Resolves a raw key to the closed set; any other value is unknown. */
  function ParseApiKey(raw: i16): (r: Option<ApiKey>)
    ensures r.Some? ==> ApiKeyCode(r.value) == raw
    ensures r.None? ==> forall k: ApiKey :: ApiKeyCode(k) != raw
  {
    if raw == 1 then Some(Fetch)
    else if raw == 18 then Some(Versions)
    else None
  }

  /** Resolving the code of a known key gives that key back. */
  lemma ParseApiKeyCode(k: ApiKey)
    ensures ParseApiKey(ApiKeyCode(k)) == Some(k)
  {
  }

  /** An inclusive range of supported versions. */
  datatype VersionRange = VersionRange(minVersion: i16, maxVersion: i16)
  {
    predicate Contains(v: int)
    {
      minVersion <= v <= maxVersion
    }
  }

  /**
    The version range registered for each key. The unit test of
    src/server/responses.rs expects ApiVersions to be advertised as 1..18,
    the one of src/server.rs as 1..4, so the table is a parameter of the
    model.
   */
  datatype VersionTable = VersionTable(fetch: VersionRange, versions: VersionRange)

  function RangeOf(table: VersionTable, k: ApiKey): (r: VersionRange)
    ensures k == Fetch ==> r == table.fetch
    ensures k == Versions ==> r == table.versions
  {
    match k
    case Fetch => table.fetch
    case Versions => table.versions
  }

  /** The range that the header's own version check hard-codes. */
  const FixedRange: VersionRange := VersionRange(0, 4)

  /** A request header whose api key is still the raw 16-bit value. */
  datatype RawHeader = RawHeader(requestApiKey: i16, requestApiVersion: i16, correlationId: i32)

  /** Version check of the raw header: a fixed range, whatever the key. */
  function IsRawVersionValid(h: RawHeader): (r: bool)
    ensures r <==> FixedRange.Contains(h.requestApiVersion)
  {
    h.requestApiVersion >= 0 && h.requestApiVersion <= 4
  }

  /** The boundaries 0 and 4 are accepted, their neighbours -1 and 5 are not. */
  lemma RawVersionBoundaries(key: i16, corr: i32)
    ensures IsRawVersionValid(RawHeader(key, 0, corr))
    ensures IsRawVersionValid(RawHeader(key, 4, corr))
    ensures !IsRawVersionValid(RawHeader(key, -1, corr))
    ensures !IsRawVersionValid(RawHeader(key, 5, corr))
  {
  }

  /** Only the version matters: the api key and the correlation id do not. */
  lemma RawVersionOnlyDependsOnVersion(h1: RawHeader, h2: RawHeader)
    requires h1.requestApiVersion == h2.requestApiVersion
    ensures IsRawVersionValid(h1) == IsRawVersionValid(h2)
  {
  }
}
