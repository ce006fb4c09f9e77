/** The fluent request builder: a handler bound to one transport and a
    default base URL, whose setters overwrite one pending field each and
    whose GET request sends the pending URL and headers and checks the
    status before decoding. */
module RequestHandling {
  import opened Wrappers
  import opened JsValues
  import opened FormUrlencoded
  import ApiTestConfig

  /** One call the transport received: a GET with its URL, its headers and
      the data option it carried (None: no body). */
  datatype Call = GetCall(url: string, headers: map<string, string>, data: Option<Json>)

  /** A completed exchange: the status code and the body decoded as JSON
      (None: the body was not valid JSON). */
  datatype Response = Response(status: int, json: Option<Json>)

  datatype RequestError =
    | TransportFailed
    | StatusMismatch(expected: int, actual: int)
    | UndecodableBody

  /** Stands for the request context the handler is given: it records every
      call it receives and answers them, in order, with scripted responses;
      a call that finds no response left fails before completing. */
  class Transport {
    var sent: seq<Call>
    var replies: seq<Response>

    constructor (replies: seq<Response>)
      ensures sent == [] && this.replies == replies
    {
      sent := [];
      this.replies := replies;
    }

    method Get(url: string, headers: map<string, string>, data: Option<Json>) returns (reply: Option<Response>)
      modifies this
      ensures sent == old(sent) + [GetCall(url, headers, data)]
      ensures reply == NextReply(old(replies))
      ensures replies == if old(replies) == [] then [] else old(replies)[1..]
    {
      sent := sent + [GetCall(url, headers, data)];
      if replies == [] {
        reply := None;
      } else {
        reply := Some(replies[0]);
        replies := replies[1..];
      }
    }
  }

  function NextReply(replies: seq<Response>): (r: Option<Response>)
    ensures r.None? <==> replies == []
    ensures r.Some? ==> r.value == replies[0]
  {
    if replies == [] then None else Some(replies[0])
  }

  /** The handler's six pieces of pending state, as one value. */
  datatype Pending = Pending(
    baseUrl: Option<string>,
    defaultBaseUrl: string,
    path: string,
    params: seq<(string, Json)>,
    headers: map<string, string>,
    body: Json)

  /** The base the URL starts with: the override whenever `url` was called
      (even with ""), the default otherwise. */
  function ResolvedBase(p: Pending): (base: string)
    ensures p.baseUrl.Some? ==> base == p.baseUrl.value
    ensures p.baseUrl.None? ==> base == p.defaultBaseUrl
  {
    p.baseUrl.GetOr(p.defaultBaseUrl)
  }

  /** The name-value list `URLSearchParams.append` builds: each key with its
      value converted to a string, in entry order. */
  function SearchTuples(params: seq<(string, Json)>): (tuples: seq<(string, string)>)
    ensures |tuples| == |params|
    ensures forall i :: 0 <= i < |params| ==> tuples[i] == (params[i].0, ToText(params[i].1))
  {
    seq(|params|, i requires 0 <= i < |params| => (params[i].0, ToText(params[i].1)))
  }

  /** The i-th piece of the query is entry i's key and text, encoded. */
  lemma PieceAt(params: seq<(string, Json)>, i: nat)
    requires i < |params|
    ensures EncodedPairs(SearchTuples(params))[i] == SerializePair(params[i].0, ToText(params[i].1))
  {
    EncodedPairsAt(SearchTuples(params), i);
  }

  /** The URL a request goes to: base, path, and a query only when there
      are parameters. */
  function BuildUrl(p: Pending): string
  {
    ResolvedBase(p) + p.path + Query(p.params)
  }

  /** The query part of the URL: empty without parameters, otherwise "?"
      and the serialized search list. */
  function Query(params: seq<(string, Json)>): (q: string)
    ensures q == "" <==> params == []
    ensures q != "" ==> |q| > 1 && q[0] == '?'
  {
    if params == [] then "" else "?" + Serialize(SearchTuples(params))
  }

  /** What a GET request ends in, given the expected status and what the
      transport answered: the status is compared before the body is
      decoded, and the decoded body is returned only on a match. */
  function GetOutcome(expected: int, reply: Option<Response>): (r: Result<Json, RequestError>)
    ensures r.Success? <==> reply.Some? && reply.value.status == expected && reply.value.json.Some?
    ensures r.Success? ==> r.value == reply.value.json.value
    ensures reply.None? ==> r == Failure(TransportFailed)
    ensures reply.Some? && reply.value.status != expected ==>
              r == Failure(StatusMismatch(expected, reply.value.status))
    ensures reply.Some? && reply.value.status == expected && reply.value.json.None? ==>
              r == Failure(UndecodableBody)
  {
    match reply
    case None => Failure(TransportFailed)
    case Some(response) =>
      if response.status != expected then Failure(StatusMismatch(expected, response.status))
      else if response.json.None? then Failure(UndecodableBody)
      else Success(response.json.value)
  }

  class RequestHandler {
    const request: Transport
    var baseUrl: Option<string>
    const defaultBaseUrl: string
    var apiPath: string
    var queryParams: seq<(string, Json)>
    var apiHeaders: map<string, string>
    var apiBody: Json

    function State(): Pending
      reads this
    {
      Pending(baseUrl, defaultBaseUrl, apiPath, queryParams, apiHeaders, apiBody)
    }

    /** A fresh handler has no override, an empty path, no parameters, no
        headers and the empty object as body. */
    constructor (request: Transport, apiBaseUrl: string)
      ensures this.request == request
      ensures State() == Pending(None, apiBaseUrl, "", [], map[], Object([]))
    {
      this.request := request;
      defaultBaseUrl := apiBaseUrl;
      baseUrl := None;
      apiPath := "";
      queryParams := [];
      apiHeaders := map[];
      apiBody := Object([]);
    }

    method Url(url: string) returns (self: RequestHandler)
      modifies this
      ensures self == this
      ensures State() == old(State()).(baseUrl := Some(url))
    {
      baseUrl := Some(url);
      self := this;
    }

    method Path(path: string) returns (self: RequestHandler)
      modifies this
      ensures self == this
      ensures State() == old(State()).(path := path)
    {
      apiPath := path;
      self := this;
    }

    /** Replaces the parameters wholesale; nothing is merged. */
    method Params(params: seq<(string, Json)>) returns (self: RequestHandler)
      modifies this
      ensures self == this
      ensures State() == old(State()).(params := params)
    {
      queryParams := params;
      self := this;
    }

    method Headers(headers: map<string, string>) returns (self: RequestHandler)
      modifies this
      ensures self == this
      ensures State() == old(State()).(headers := headers)
    {
      apiHeaders := headers;
      self := this;
    }

    method Body(body: Json) returns (self: RequestHandler)
      modifies this
      ensures self == this
      ensures State() == old(State()).(body := body)
    {
      apiBody := body;
      self := this;
    }

    /** Appends the parameters one by one to the search list of the URL
        built from base and path; after each append the query is the
        serialization of the list so far. */
    method GetUrl() returns (url: string)
      ensures url == BuildUrl(State())
    {
      var target := (if baseUrl.Some? then baseUrl.value else defaultBaseUrl) + apiPath;
      ghost var tuples := SearchTuples(queryParams);
      ghost var pieces := EncodedPairs(tuples);
      var search := "";
      var i := 0;
      while i < |queryParams|
        invariant 0 <= i <= |queryParams|
        invariant search == JoinPieces(pieces[..i])
      {
        var (key, value) := queryParams[i];
        var piece := SerializePair(key, ToText(value));
        PieceAt(queryParams, i);
        JoinPrefixStep(pieces, i);
        search := (if search == "" then "" else search + "&") + piece;
        i := i + 1;
      }
      assert search == Serialize(tuples) by {
        assert pieces[..i] == pieces;
      }
      url := target + (if search == "" then "" else "?" + search);
    }

    /** Sends exactly one GET, with the pending headers and never the body,
        and leaves every pending field as it was. */
    method GetRequest(status: int) returns (r: Result<Json, RequestError>)
      modifies request
      ensures State() == old(State())
      ensures request.sent == old(request.sent) + [GetCall(BuildUrl(State()), apiHeaders, None)]
      ensures request.replies == if old(request.replies) == [] then [] else old(request.replies)[1..]
      ensures r == GetOutcome(status, NextReply(old(request.replies)))
    {
      var url := GetUrl();
      var reply := request.Get(url, apiHeaders, None);
      if reply.None? {
        r := Failure(TransportFailed);
      } else if reply.value.status != status {
        r := Failure(StatusMismatch(status, reply.value.status));
      } else if reply.value.json.None? {
        r := Failure(UndecodableBody);
      } else {
        r := Success(reply.value.json.value);
      }
    }
  }

  /** `??` falls back only when no override was set: an empty override
      still replaces the default base. */
  lemma EmptyOverrideWins(p: Pending)
    requires p.baseUrl == Some("")
    ensures BuildUrl(p) == p.path + Query(p.params)
  {
  }

  /** From the URL one reads back the base and path (up to the first "?"),
      and the parameters, in entry order, as the bytes of each key and of
      its value's text. */
  lemma UrlRecoversParams(p: Pending)
    requires '?' !in ResolvedBase(p) + p.path
    ensures p.params == [] ==> BuildUrl(p) == ResolvedBase(p) + p.path
    ensures p.params != [] ==>
              var url := BuildUrl(p);
              '?' in url &&
              url[..IndexOf(url, '?')] == ResolvedBase(p) + p.path &&
              Parse(url[IndexOf(url, '?') + 1..]) == Utf8Tuples(SearchTuples(p.params))
  {
    var target, tuples := ResolvedBase(p) + p.path, SearchTuples(p.params);
    assert BuildUrl(p) == target + Query(p.params);
    if p.params != [] {
      var url := BuildUrl(p);
      assert url == target + ['?'] + Serialize(tuples);
      IndexOfAfter(target, '?', Serialize(tuples));
      assert url[..|target|] == target;
      assert url[|target| + 1..] == Serialize(tuples);
      ParseSerialize(tuples);
    }
  }

  /** The base URL the fixtures hand to every handler. */
  const ConduitApiUrl := ApiTestConfig.ApiUrl

  /** The query of the articles listing, limit 2 and offset 0. */
  lemma ArticlesQuery(params: seq<(string, Json)>)
    requires params == [("limit", Number(2)), ("offset", Number(0))]
    ensures Query(params) == "?" + "limit=2&offset=0"
  {
    ArticlesSearchList(params);
    var tuples := SearchTuples(params);
    assert tuples == [tuples[0], tuples[1]];
    ArticlesSerialized(tuples[0], tuples[1]);
    assert Query(params) == "?" + Serialize(tuples);
  }

  /** `append` turns the numbers 2 and 0 into the strings "2" and "0". */
  lemma ArticlesSearchList(params: seq<(string, Json)>)
    requires params == [("limit", Number(2)), ("offset", Number(0))]
    ensures SearchTuples(params) == [("limit", "2"), ("offset", "0")]
  {
    assert ToText(Number(2)) == "2" && ToText(Number(0)) == "0";
  }

  lemma ArticlesSerialized(a: (string, string), b: (string, string))
    requires a == ("limit", "2") && b == ("offset", "0")
    ensures Serialize([a, b]) == "limit=2&offset=0"
  {
    ArticlesLiteral(a, b);
    SerializeTwoLiteral(a, b);
    ArticlesPlain(a, b);
  }

  lemma ArticlesLiteral(a: (string, string), b: (string, string))
    requires a == ("limit", "2") && b == ("offset", "0")
    ensures LiteralText(a.0) && LiteralText(a.1) && LiteralText(b.0) && LiteralText(b.1)
  {
  }

  lemma ArticlesPlain(a: (string, string), b: (string, string))
    requires a == ("limit", "2") && b == ("offset", "0")
    ensures a.0 + "=" + a.1 + "&" + b.0 + "=" + b.1 == "limit=2&offset=0"
  {
  }

  /** A listing on the default Conduit base, limit 2 and offset 0: the
      base, then the path, then the query. */
  lemma ListingUrl(p: Pending)
    requires p.baseUrl == None && p.defaultBaseUrl == ConduitApiUrl
    requires p.params == [("limit", Number(2)), ("offset", Number(0))]
    ensures BuildUrl(p) == ConduitApiUrl + p.path + "?" + "limit=2&offset=0"
  {
    ArticlesQuery(p.params);
  }

  /** The smoke test's listing request, built on a fresh handler. */
  method ArticlesListing() returns (url: string)
    ensures url == ConduitApiUrl + "/articles" + "?" + "limit=2&offset=0"
  {
    var transport := new Transport([]);
    var api := new RequestHandler(transport, ConduitApiUrl);
    var _ := api.Path("/articles");
    var _ := api.Params([("limit", Number(2)), ("offset", Number(0))]);
    url := api.GetUrl();
    ListingUrl(api.State());
  }

  /** Two GETs on one handler: the headers and parameters set for the first
      are sent again with the second, which only changed the path. This
      illustrates that the handler keeps its state between requests; it
      does not replay a particular test, whose calls set the headers again
      and pass through requests this model leaves out. */
  method ReusedHandler(transport: Transport, token: string) returns (first: Result<Json, RequestError>, second: Result<Json, RequestError>)
    modifies transport
    ensures |transport.sent| == |old(transport.sent)| + 2
    ensures var calls := transport.sent[|old(transport.sent)|..];
            calls[0].headers == calls[1].headers == map["Authorization" := token] &&
            calls[0].data == calls[1].data == None &&
            calls[1].url == ConduitApiUrl + "/tags" + "?" + "limit=2&offset=0"
  {
    var api := new RequestHandler(transport, ConduitApiUrl);
    var _ := api.Path("/articles");
    var _ := api.Headers(map["Authorization" := token]);
    var _ := api.Params([("limit", Number(2)), ("offset", Number(0))]);
    var _ := api.Body(Object([("article", Object([]))]));
    first := api.GetRequest(200);
    var _ := api.Path("/tags");
    ListingUrl(api.State());
    second := api.GetRequest(200);
  }
}
