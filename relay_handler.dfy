/** The `/api/proxy` route of server/routes.ts: validate the `url` query parameter, fetch the
    target with the caller's user agent, and answer with the upstream status, three fixed
    framing headers and a body that is rewritten for HTML and CSS and passed through otherwise.
    The network is the parameter `fetch`; Express's response object is `ServerResponse`. */
module ProxyRoute {
  import opened Wrappers
  import opened JsText
  import opened Relay

  /** `req.query.url` as Express's query parser delivers it: absent, one string, an array (the
      parameter repeated) or an object (bracketed keys). */
  datatype UrlParam = Missing | Given(value: string) | Repeated | Nested

  /** What the route writes as a body. */
  datatype Body = NoBody | Json(message: string, field: Option<string>) | Text(text: string) | Binary(data: seq<bv8>)

  /** An upstream reply: its status, its Content-Type header if any, and its body both as text
      (`response.text()`) and as bytes (`response.arrayBuffer()`). */
  datatype Upstream = Upstream(status: int, contentType: Option<string>, text: string, bytes: seq<bv8>)

  datatype FetchOutcome = FetchFailed | Fetched(response: Upstream)

  /** `fetch(url, {redirect: "follow", headers: {"User-Agent": agent}})`; FetchFailed where the
      promise rejects. */
  type Fetcher = (string, string) -> FetchOutcome

  const DefaultUserAgent: string := "Code-Linker Proxy"
  const DefaultContentType: string := "application/octet-stream"
  const FrameOptions: string := "ALLOWALL"
  const ContentSecurityPolicy: string := "default-src * 'unsafe-inline' 'unsafe-eval' data: blob:;"

  /** `fetch` parses its URL with the same URL parser, so a URL it fetched is one `new URL`
      accepts. */
  ghost predicate FetchParses(parse: UrlParser, fetch: Fetcher) {
    forall target, agent :: fetch(target, agent).Fetched? ==> parse(target, None).Some?
  }

  /** The message of zod's first issue for `{url: z.string().min(1, "URL is required")}`, or None
      when the query is valid. */
  function ValidationError(query: UrlParam): (r: Option<string>)
    ensures r.None? <==> query.Given? && query.value != ""
  {
    match query
    case Missing => Some("Required")
    case Given(value) => if value == "" then Some("URL is required") else None
    case Repeated => Some("Expected string, received array")
    case Nested => Some("Expected string, received object")
  }

  /** Where the route fetches from: the query value with `https://` added when it has no scheme. */
  function FetchTarget(query: UrlParam): (r: Option<string>)
    ensures r.Some? <==> ValidationError(query).None?
    ensures r.Some? ==> HasHttpScheme(r.value)
    ensures r.Some? && HasHttpScheme(query.value) ==> r.value == query.value
  {
    if ValidationError(query).Some? then None else Some(NormalizeTargetUrl(query.value))
  }

  /** The headers set on every reply that comes from upstream. */
  function FramingHeaders(contentType: string): map<string, string> {
    map["Content-Type" := contentType, "X-Frame-Options" := FrameOptions,
        "Content-Security-Policy" := ContentSecurityPolicy]
  }

  /** What the route answers: its status, the headers it sets and its body. */
  datatype Reply = Reply(status: int, headers: map<string, string>, body: Body)

  /** The route's answer. A bad query gets 400 with zod's message and the field `url`; a failed
      fetch gets 502; otherwise the upstream status is mirrored, the framing headers are set, and
      the body is rewritten as HTML, or else as CSS, by the content type, or passed through. */
  function ProxyReply(parse: UrlParser, fetch: Fetcher, query: UrlParam, userAgent: Option<string>): (r: Reply)
    requires FetchParses(parse, fetch)
    ensures ValidationError(query).Some? ==> r == Reply(400, map[], Json(ValidationError(query).value, Some("url")))
    ensures r.body.Json? <==> FetchTarget(query).None? || fetch(FetchTarget(query).value, userAgent.GetOr(DefaultUserAgent)).FetchFailed?
    ensures r.body.Json? ==> r.headers == map[] && r.status in {400, 502}
    ensures ValidationError(query).None? && fetch(FetchTarget(query).value, userAgent.GetOr(DefaultUserAgent)).FetchFailed?
      ==> r == Reply(502, map[], Json("Proxy fetch failed", None))
    ensures !r.body.Json? ==>
      var upstream := fetch(FetchTarget(query).value, userAgent.GetOr(DefaultUserAgent)).response;
      && r.status == upstream.status
      && r.headers == FramingHeaders(upstream.contentType.GetOr(DefaultContentType))
  {
    match ValidationError(query)
    case Some(message) => Reply(400, map[], Json(message, Some("url")))
    case None =>
      var target := NormalizeTargetUrl(query.value);
      match fetch(target, userAgent.GetOr(DefaultUserAgent))
      case FetchFailed => Reply(502, map[], Json("Proxy fetch failed", None))
      case Fetched(upstream) =>
        var contentType := upstream.contentType.GetOr(DefaultContentType);
        Reply(upstream.status, FramingHeaders(contentType), ReplyBody(parse, upstream, contentType, target))
  }

  /** The body of a reply that came from upstream: `text/html` is checked first. */
  function ReplyBody(parse: UrlParser, upstream: Upstream, contentType: string, target: string): (b: Body)
    requires parse(target, None).Some?
    ensures !b.Json?
    ensures b.Binary? <==> !Contains(contentType, "text/html") && !Contains(contentType, "text/css")
    ensures b.Binary? ==> b.data == upstream.bytes
  {
    if Contains(contentType, "text/html") then Text(RewrittenHtml(parse, upstream.text, target))
    else if Contains(contentType, "text/css") then Text(RewriteCss(parse, upstream.text, target))
    else Binary(upstream.bytes)
  }

  /** Upstream bodies are rewritten only when their type names HTML or CSS, HTML winning when it
      names both; every other body, including one without a Content-Type, is passed through byte
      for byte. */
  lemma ReplyBodyDispatch(parse: UrlParser, fetch: Fetcher, query: UrlParam, userAgent: Option<string>)
    requires FetchParses(parse, fetch)
    requires FetchTarget(query).Some?
    requires fetch(FetchTarget(query).value, userAgent.GetOr(DefaultUserAgent)).Fetched?
    ensures var target := FetchTarget(query).value;
      var upstream := fetch(target, userAgent.GetOr(DefaultUserAgent)).response;
      var contentType := upstream.contentType.GetOr(DefaultContentType);
      var body := ProxyReply(parse, fetch, query, userAgent).body;
      && (Contains(contentType, "text/html") ==> body == Text(RewrittenHtml(parse, upstream.text, target)))
      && (!Contains(contentType, "text/html") && Contains(contentType, "text/css") ==>
            body == Text(RewriteCss(parse, upstream.text, target)))
      && (body.Binary? <==> !Contains(contentType, "text/html") && !Contains(contentType, "text/css"))
      && (body.Binary? ==> body.data == upstream.bytes)
      && (upstream.contentType.None? ==> body == Binary(upstream.bytes))
  {
    var target := FetchTarget(query).value;
    var upstream := fetch(target, userAgent.GetOr(DefaultUserAgent)).response;
    if upstream.contentType.None? {
      DefaultTypeIsOpaque();
    }
  }

  /** `application/octet-stream` names neither HTML nor CSS: it has no `x`. */
  lemma DefaultTypeIsOpaque()
    ensures !Contains(DefaultContentType, "text/html") && !Contains(DefaultContentType, "text/css")
  {
    assert 'x' !in DefaultContentType;
    NoTextTypeWithoutX(DefaultContentType);
  }

  lemma NoTextTypeWithoutX(s: string)
    requires 'x' !in s
    ensures !Contains(s, "text/html") && !Contains(s, "text/css")
  {
    forall j | 0 <= j <= |s|
      ensures !StartsAt(s, j, "text/html") && !StartsAt(s, j, "text/css")
    {
      if j + 2 < |s| {
        assert s[j + 2] in s;
        assert "text/html"[2] == 'x' && "text/css"[2] == 'x';
      }
    }
  }

  /** Express's response object, reduced to what the route uses. */
  class ServerResponse {
    var statusCode: int
    var headers: map<string, string>
    var body: Body

    constructor ()
      ensures statusCode == 200 && headers == map[] && body == NoBody
    {
      statusCode := 200;
      headers := map[];
      body := NoBody;
    }

    /** `res.setHeader(name, value)` */
    method SetHeader(name: string, value: string)
      modifies this
      ensures headers == old(headers)[name := value]
      ensures statusCode == old(statusCode) && body == old(body)
    {
      headers := headers[name := value];
    }

    /** `res.status(code)` */
    method Status(code: int)
      modifies this
      ensures statusCode == code
      ensures headers == old(headers) && body == old(body)
    {
      statusCode := code;
    }

    /** `res.send(b)` and `res.json(b)` */
    method Send(b: Body)
      modifies this
      ensures body == b
      ensures statusCode == old(statusCode) && headers == old(headers)
    {
      body := b;
    }
  }

  /** The part of the handler after a successful fetch: the framing headers, then the status and
      the body. */
  method ForwardUpstream(parse: UrlParser, response: Upstream, targetUrl: string, res: ServerResponse)
    requires parse(targetUrl, None).Some?
    modifies res
    ensures var contentType := response.contentType.GetOr(DefaultContentType);
      && res.statusCode == response.status
      && res.headers == old(res.headers) + FramingHeaders(contentType)
      && res.body == ReplyBody(parse, response, contentType, targetUrl)
  {
    var contentType := response.contentType.GetOr(DefaultContentType);
    res.SetHeader("Content-Type", contentType);
    res.SetHeader("X-Frame-Options", FrameOptions);
    res.SetHeader("Content-Security-Policy", ContentSecurityPolicy);
    assert res.headers == old(res.headers) + FramingHeaders(contentType);
    if Contains(contentType, "text/html") {
      var html := RewriteHtml(parse, response.text, targetUrl);
      res.Status(response.status);
      res.Send(Text(html));
      return;
    }
    if Contains(contentType, "text/css") {
      var css := RewriteCss(parse, response.text, targetUrl);
      res.Status(response.status);
      res.Send(Text(css));
      return;
    }
    res.Status(response.status);
    res.Send(Binary(response.bytes));
  }

  /** The route handler, step by step on `res`; what it leaves in `res` is `ProxyReply`. */
  method HandleProxy(parse: UrlParser, fetch: Fetcher, query: UrlParam, userAgent: Option<string>, res: ServerResponse)
    requires FetchParses(parse, fetch)
    modifies res
    ensures var reply := ProxyReply(parse, fetch, query, userAgent);
      && res.statusCode == reply.status
      && res.headers == old(res.headers) + reply.headers
      && res.body == reply.body
  {
    var invalid := ValidationError(query);
    if invalid.Some? {
      res.Status(400);
      res.Send(Json(invalid.value, Some("url")));
      return;
    }
    var targetUrl := NormalizeTargetUrl(query.value);
    var outcome := fetch(targetUrl, userAgent.GetOr(DefaultUserAgent));
    if outcome.FetchFailed? {
      res.Status(502);
      res.Send(Json("Proxy fetch failed", None));
      return;
    }
    ForwardUpstream(parse, outcome.response, targetUrl, res);
  }
}
