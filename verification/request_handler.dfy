/**
  The dispatcher: a pure map from each request variant to the response
  variant of the same kind. ApiVersions always advertises Fetch and
  ApiVersions; Fetch echoes the session id and answers each requested topic
  in order.
 */
module RequestHandler {
  import opened Wire
  import opened Model
  import Requests
  import Responses

  /** The keys every ApiVersions response advertises, in this order. */
  const AdvertisedKeys: seq<ApiKey> := [ApiKey.Fetch, ApiKey.Versions]

  /** The header of the request plays no part in the answer. */
  function ProcessApiVersionsRequest(request: Requests.Request): (r: Responses.Response)
    requires request.ApiVersions?
    ensures r.ApiVersions?
    ensures r.apiKeyVersions == [ApiKey.Fetch, ApiKey.Versions]
    ensures r.throttleTimeInMs == 0
  {
    Responses.ApiVersions(AdvertisedKeys, 0)
  }

  /** One topic response per requested topic, same order, same id. */
  function MapTopics(topics: seq<Requests.Topic>): (r: seq<Responses.FetchTopicResponse>)
    ensures |r| == |topics|
    ensures forall i :: 0 <= i < |topics| ==> r[i].topicId == topics[i].id
  {
    if topics == [] then []
    else [Responses.FetchTopicResponse(topics[0].id)] + MapTopics(topics[1..])
  }

  function ProcessFetchRequest(request: Requests.Request): (r: Responses.Response)
    requires request.Fetch?
    ensures r.Fetch?
    ensures r.throttleTimeInMs == 0
    ensures r.sessionId == request.sessionId
    ensures |r.topics| == |request.topics|
    ensures forall i :: 0 <= i < |request.topics| ==> r.topics[i].topicId == request.topics[i].id
  {
    Responses.Fetch(0, request.sessionId, MapTopics(request.topics))
  }

  /** The dispatcher keeps the variant and fills in the response as above. */
  function ProcessRequest(request: Requests.Request): (r: Responses.Response)
    ensures request.ApiVersions? <==> r.ApiVersions?
    ensures request.Fetch? <==> r.Fetch?
    ensures r.ApiVersions? ==> r.apiKeyVersions == [ApiKey.Fetch, ApiKey.Versions] && r.throttleTimeInMs == 0
    ensures request.Fetch? ==>
      && r.throttleTimeInMs == 0
      && r.sessionId == request.sessionId
      && |r.topics| == |request.topics|
      && forall i :: 0 <= i < |request.topics| ==> r.topics[i].topicId == request.topics[i].id
  {
    match request
    case ApiVersions(_) => ProcessApiVersionsRequest(request)
    case Fetch(_, _, _) => ProcessFetchRequest(request)
  }

  /**
    Two requests of the same variant with the same body get the same
    response, whatever their headers say.
   */
  lemma ProcessRequestIgnoresHeader(a: Requests.Request, b: Requests.Request)
    requires a.ApiVersions? <==> b.ApiVersions?
    requires a.Fetch? ==> b.Fetch? && a.sessionId == b.sessionId && a.topics == b.topics
    ensures ProcessRequest(a) == ProcessRequest(b)
  {
  }

  /** The unit tests: an ApiVersions request, and a Fetch request carrying an ApiVersions-keyed header. */
  lemma ProcessRequestTestVectors()
    ensures ProcessRequest(Requests.ApiVersions(Requests.RequestHeader(ApiKey.Versions, 4, 311908132)))
         == Responses.ApiVersions([ApiKey.Fetch, ApiKey.Versions], 0)
    ensures ProcessRequest(Requests.Request.Fetch(Requests.RequestHeader(ApiKey.Versions, 4, 311908132),
                                                  85, [Requests.Topic(37)]))
         == Responses.Response.Fetch(0, 85, [Responses.FetchTopicResponse(37)])
  {
    var topics := [Requests.Topic(37)];
    assert MapTopics(topics) == [Responses.FetchTopicResponse(37)] + MapTopics([]);
  }
}
