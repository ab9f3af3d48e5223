/** URL handling of the proxy: the two library calls it builds on, the
    scheme default of the `/proxy?url=` entry point and the target URL of
    the `/proxy/<target>` relay endpoint. */
module Urls {
  import opened Text

  /** The two library calls, kept opaque: `resolve(base, ref)` is
      `urllib.parse.urljoin` (reference resolution, section 5.2 of
      RFC 3986) and `toProxyPath(u)` is Flask's
      `url_for('proxy_path', target_url=u)`. Every property below holds
      whichever functions these are. */
  datatype UrlOps = UrlOps(resolve: (string, string) -> string, toProxyPath: string -> string)

  /** The proxy-local path of `ref` read in a document fetched from `base`. */
  function Proxied(ops: UrlOps, base: string, ref: string): string
  {
    ops.toProxyPath(ops.resolve(base, ref))
  }

  const HttpPrefix := "http://"
  const HttpsPrefix := "https://"

  predicate HasScheme(u: string)
  {
    StartsWith(u, HttpPrefix) || StartsWith(u, HttpsPrefix)
  }

  /** The entry point's scheme default: a URL that does not start with
      `http://` or `https://` (compared case-sensitively) gets `https://`
      in front. The result always carries a scheme and ends with the
      input. */
  function DefaultScheme(u: string): (r: string)
    ensures HasScheme(r)
    ensures |u| <= |r| && r[|r| - |u|..] == u
    ensures HasScheme(u) <==> r == u
  {
    if HasScheme(u) then u else HttpsPrefix + u
  }

  /** A URL that already has a scheme is left alone, and defaulting twice
      is defaulting once. */
  lemma DefaultSchemeIdempotent(u: string)
    ensures DefaultScheme(DefaultScheme(u)) == DefaultScheme(u)
    ensures StartsWith(DefaultScheme(u), HttpsPrefix) || DefaultScheme(u) == u
  {
  }

  /** The URL actually fetched: the path-embedded target, with the
      inbound query string appended after `?` only when it is not empty. */
  function FullTargetUrl(target: string, query: string): (r: string)
    ensures |target| <= |r| && r[..|target|] == target
    ensures query == "" <==> r == target
    ensures query != "" ==> r[|target|] == '?' && r[|target| + 1..] == query
  {
    if query != "" then target + "?" + query else target
  }
}
