/** The two proxy endpoints: `/proxy?url=` turns a typed-in address into
    a proxy path, and `/proxy/<target>` fetches the target and decides,
    from the upstream status and content type, what to send back. */
module Relay {
  import opened Text
  import opened Urls
  import opened Css
  import opened Document

  newtype byte = x: int | 0 <= x < 256

  const NoUrlMessage := "Error: No URL provided in the 'url' parameter."
  const FetchFailedPrefix := "Error: Could not fetch the URL. "
  const HtmlType := "text/html"
  const CssType := "text/css"

  const StatusOk := 200
  const StatusBadRequest := 400
  const StatusServerError := 500

  /** What the upstream server answered. `contentType` and `location` are
      the `Content-Type` and `Location` headers as the HTTP library looks
      them up; `text` is the body decoded with the response's encoding and
      `content` the same body as bytes. */
  datatype Upstream = Upstream(
    status: int,
    contentType: Option<string>,
    location: Option<string>,
    cookies: seq<(string, string)>,
    text: string,
    content: seq<byte>)

  /** The outcome of the outbound request: the library's error message, or
      the response. */
  datatype Fetch = Failed(reason: string) | Received(resp: Upstream)

  /** What an endpoint sends back to the browser. */
  datatype Reply =
    | Message(status: int, message: string)
    | Redirect(location: string)
    | Page(nodes: seq<Node>, status: int, cookies: seq<(string, string)>)
    | Stylesheet(css: string, contentType: string, status: int)
    | Passthrough(content: seq<byte>, contentType: string, status: int, cookies: seq<(string, string)>)

  datatype Kind = HtmlKind | CssKind | OtherKind

  /** The entry point: a missing or empty `url` is refused with 400;
      anything else is sent, with `https://` in front when it names no
      scheme, to its proxy path. */
  method ProxyRedirect(ops: UrlOps, url: Option<string>) returns (reply: Reply)
    ensures reply.Message? <==> url.None? || url.value == ""
    ensures reply.Message? ==> reply == Message(StatusBadRequest, NoUrlMessage)
    ensures !reply.Message? ==> reply.Redirect? && reply.location == ops.toProxyPath(DefaultScheme(url.value))
  {
    if url.None? || url.value == "" {
      return Message(StatusBadRequest, NoUrlMessage);
    }
    var target := url.value;
    if !(StartsWith(target, HttpPrefix) || StartsWith(target, HttpsPrefix)) {
      target := HttpsPrefix + target;
    }
    reply := Redirect(ops.toProxyPath(target));
  }

  /** Which branch a lower-cased content type takes: HTML is tested first,
      then CSS, by substring. */
  function ContentKind(contentType: string): (k: Kind)
    ensures k == HtmlKind <==> Contains(contentType, HtmlType)
    ensures k == CssKind <==> !Contains(contentType, HtmlType) && Contains(contentType, CssType)
  {
    if Contains(contentType, HtmlType) then HtmlKind
    else if Contains(contentType, CssType) then CssKind
    else OtherKind
  }

  /** The content type the handler dispatches on: the header lower-cased,
      or empty when absent. */
  function LoweredType(resp: Upstream): string
  {
    match resp.contentType
    case None => ""
    case Some(t) => Lower(t)
  }

  /** An upstream redirect the proxy takes over. */
  predicate Intercepted(resp: Upstream)
  {
    300 <= resp.status < 400 && resp.location.Some?
  }

  /** The reply of `/proxy/<target>?<query>` given the outcome of the
      fetch, with `parse` standing for the HTML parser. */
  function ProxyPathReply(ops: UrlOps, parse: seq<byte> -> seq<Node>, target: string, query: string, fetch: Fetch): Reply
  {
    var full := FullTargetUrl(target, query);
    match fetch
    case Failed(reason) => Message(StatusServerError, FetchFailedPrefix + reason)
    case Received(resp) =>
      var contentType := LoweredType(resp);
      if Intercepted(resp) then Redirect(Proxied(ops, full, resp.location.value))
      else match ContentKind(contentType)
        case HtmlKind => Page(RewrittenPage(ops, full, parse(resp.content)), StatusOk, resp.cookies)
        case CssKind => Stylesheet(RewriteCssUrls(ops, full, resp.text), contentType, resp.status)
        case OtherKind => Passthrough(resp.content, contentType, resp.status, resp.cookies)
  }

  /** The relay endpoint, step by step: build the target URL, fetch,
      intercept redirects, then rewrite HTML in place, rewrite CSS, or
      pass the bytes through. */
  method HandleProxyPath(ops: UrlOps, parse: seq<byte> -> seq<Node>, target: string, query: string, fetch: Fetch)
    returns (reply: Reply)
    ensures reply == ProxyPathReply(ops, parse, target, query, fetch)
  {
    var full := target;
    if query != "" {
      full := target + "?" + query;
    }
    if fetch.Failed? {
      return Message(StatusServerError, FetchFailedPrefix + fetch.reason);
    }
    var resp := fetch.resp;
    var contentType := "";
    if resp.contentType.Some? {
      contentType := Lower(resp.contentType.value);
    }
    if 300 <= resp.status < 400 && resp.location.Some? {
      var location := ops.resolve(full, resp.location.value);
      return Redirect(ops.toProxyPath(location));
    }
    if Contains(contentType, HtmlType) {
      var soup := new Soup(parse(resp.content));
      soup.Rewrite(ops, full);
      reply := Page(soup.nodes, StatusOk, resp.cookies);
    } else if Contains(contentType, CssType) {
      reply := Stylesheet(RewriteCssUrls(ops, full, resp.text), contentType, resp.status);
    } else {
      reply := Passthrough(resp.content, contentType, resp.status, resp.cookies);
    }
  }

  /** A redirect comes back exactly when the fetch succeeded with a status
      in [300, 400) and a `Location` header, and it points to the proxy
      path of that location resolved against the full target URL. */
  lemma RedirectExactlyWhenIntercepted(ops: UrlOps, parse: seq<byte> -> seq<Node>, target: string, query: string, fetch: Fetch)
    ensures var reply := ProxyPathReply(ops, parse, target, query, fetch);
            (reply.Redirect? <==> fetch.Received? && 300 <= fetch.resp.status < 400 && fetch.resp.location.Some?) &&
            (reply.Redirect? ==> reply.location == Proxied(ops, FullTargetUrl(target, query), fetch.resp.location.value))
  {
  }

  /** A 3xx answer without `Location` is handled like any other answer:
      by its content type, keeping the upstream status unless it becomes
      a page. */
  lemma RedirectWithoutLocationFallsThrough(ops: UrlOps, parse: seq<byte> -> seq<Node>, target: string, query: string, resp: Upstream)
    requires 300 <= resp.status < 400 && resp.location.None?
    ensures var reply := ProxyPathReply(ops, parse, target, query, Received(resp));
            (reply.Page? || reply.Stylesheet? || reply.Passthrough?) &&
            (reply.Stylesheet? || reply.Passthrough? ==> reply.status == resp.status)
  {
  }

  /** Only a failed fetch produces an error message: status 500, the fixed
      prefix followed by the library's reason. */
  lemma MessageOnlyOnFailure(ops: UrlOps, parse: seq<byte> -> seq<Node>, target: string, query: string, fetch: Fetch)
    ensures var reply := ProxyPathReply(ops, parse, target, query, fetch);
            (reply.Message? <==> fetch.Failed?) &&
            (reply.Message? ==> reply.status == StatusServerError &&
                                StartsWith(reply.message, FetchFailedPrefix) &&
                                reply.message[|FetchFailedPrefix|..] == fetch.reason)
  {
  }

  /** A content type that mentions `text/html` gives a rewritten page, with
      status 200 and the upstream cookies, even when it also mentions
      `text/css`. */
  lemma HtmlTakesPrecedence(ops: UrlOps, parse: seq<byte> -> seq<Node>, target: string, query: string, resp: Upstream)
    requires !Intercepted(resp) && Contains(LoweredType(resp), HtmlType)
    ensures ProxyPathReply(ops, parse, target, query, Received(resp))
              == Page(RewrittenPage(ops, FullTargetUrl(target, query), parse(resp.content)), StatusOk, resp.cookies)
  {
  }

  /** A stylesheet reply carries the rewritten text, the lower-cased type
      and the upstream status. */
  lemma CssRewritten(ops: UrlOps, parse: seq<byte> -> seq<Node>, target: string, query: string, resp: Upstream)
    requires !Intercepted(resp) && !Contains(LoweredType(resp), HtmlType) && Contains(LoweredType(resp), CssType)
    ensures ProxyPathReply(ops, parse, target, query, Received(resp))
              == Stylesheet(RewriteCssUrls(ops, FullTargetUrl(target, query), resp.text), LoweredType(resp), resp.status)
  {
  }

  /** Everything that is neither a redirect, HTML nor CSS is passed
      through: the same bytes, the same status, the same cookies, and the
      upstream content type lower-cased (empty when absent), which by
      `Lower`'s contract holds no ASCII capital. */
  lemma PassthroughForwards(ops: UrlOps, parse: seq<byte> -> seq<Node>, target: string, query: string, resp: Upstream)
    ensures var reply := ProxyPathReply(ops, parse, target, query, Received(resp));
            (reply.Passthrough? <==>
               !Intercepted(resp) && !Contains(LoweredType(resp), HtmlType) && !Contains(LoweredType(resp), CssType)) &&
            (reply.Passthrough? ==>
               reply.content == resp.content && reply.status == resp.status && reply.cookies == resp.cookies &&
               reply.contentType == LoweredType(resp))
  {
  }

  /** An answer without `Content-Type` that is not intercepted is passed
      through with an empty type. */
  lemma MissingTypePassedThrough(ops: UrlOps, parse: seq<byte> -> seq<Node>, target: string, query: string, resp: Upstream)
    requires !Intercepted(resp) && resp.contentType.None?
    ensures ProxyPathReply(ops, parse, target, query, Received(resp))
              == Passthrough(resp.content, "", resp.status, resp.cookies)
  {
    assert !Contains("", HtmlType) by { assert !OccursAt("", HtmlType, 0); }
    assert !Contains("", CssType) by { assert !OccursAt("", CssType, 0); }
  }

  /** Two answers whose content types differ only in ASCII letter case get
      the same reply. */
  lemma DispatchIgnoresCase(ops: UrlOps, parse: seq<byte> -> seq<Node>, target: string, query: string, resp: Upstream, t: string)
    requires resp.contentType.Some? && Lower(t) == Lower(resp.contentType.value)
    ensures ProxyPathReply(ops, parse, target, query, Received(resp.(contentType := Some(t))))
              == ProxyPathReply(ops, parse, target, query, Received(resp))
  {
  }

  /** `text/html` written in any letter case, anywhere in the header, sends
      the answer down the HTML branch. */
  lemma MixedCaseHtmlDispatched(prefix: string, variant: string, suffix: string)
    requires Lower(variant) == HtmlType
    ensures ContentKind(Lower(prefix + variant + suffix)) == HtmlKind
  {
    var s := prefix + variant + suffix;
    var l := Lower(s);
    assert l[|prefix|..|prefix| + |HtmlType|] == HtmlType by {
      forall i | 0 <= i < |HtmlType|
        ensures l[|prefix| + i] == HtmlType[i]
      {
        assert s[|prefix| + i] == variant[i];
      }
    }
    assert OccursAt(l, HtmlType, |prefix|);
  }
}
