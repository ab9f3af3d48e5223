# Reverse web proxy: a verified model of its rewriting and relay logic

The proxy has two endpoints. `/proxy?url=<address>` checks the typed-in
address, adds `https://` unless the address starts with `http://` or
`https://` (compared case-sensitively, so `ftp://x` becomes
`https://ftp://x`), and redirects to the relay path. `/proxy/<target>` fetches the target on the client's behalf and
then does one of four things:

- it takes over upstream redirects;
- it rewrites HTML pages so that every reference points back through the
  proxy (links, scripts, images, `srcset` lists, forms, frames, `meta`
  refreshes, `<style>` sheets and `style=` attributes), and injects a
  notice banner;
- it rewrites the `url(...)` references of style sheets;
- it passes every other body through unchanged.

The model has one module per concern:

- `Text` holds the Python string operations the proxy relies on: `split`,
  `join`, `strip`, `lower` and `in`. `Find` is the first-occurrence search
  behind them: the scan of `split(sep)` and the cut at the first space in
  `split(' ', 1)` (app.py:129).
- `Urls` holds the scheme default, the target URL, and the two library
  calls. `urljoin` and `url_for('proxy_path', ...)` are a parameter
  `UrlOps`, so every property holds whatever those functions are.
- `Css` models `rewrite_css_urls`. It is the left-to-right scan of
  `re.sub(r'url\((.*?)\)', ...)` (`Tokenize`) followed by the replacement
  (`Render`).
- `Attributes` holds the rule for one attribute value: a `meta` refresh, a
  `srcset` list, or a plain reference. The `srcset` loop is a method proved
  against a function.
- `Document` models the parsed page. It is a class `Soup` whose node
  sequence, in document order, is updated in place by four passes:
  - the reference rules;
  - `<style>` text;
  - `style=` attributes;
  - the banner.

  Each pass is a method with loops, proved against a function on the node
  sequence.
- `Relay` holds the two endpoints. Each decision they make is a function
  of the fetch outcome, and there are lemmas for:
  - redirect interception;
  - content-type dispatch;
  - the error reply;
  - passthrough.

Behaviours of the code (`app.py`) worth knowing:

- A `meta` `content` without `url=` is not skipped. It is replaced whole by
  a proxied URL (app.py:117, 122-136; `Attributes.MetaWithoutRefreshReplaced`).
- A `meta` refresh keeps the text before the first `url=` and proxies the
  text after the last `url=`. Anything between two `url=` markers is dropped.
- The HTML reply has status 200, whatever the upstream status was
  (app.py:153).
- The stylesheet reply does not forward upstream cookies (app.py:163), although
  the comment at app.py:171 speaks of forwarding cookies for non-HTML replies.
- The scheme default is `https://` (app.py:49-50), although the handler's
  docstring shows an `http://` address (app.py:42).

## Model

| member | source | states |
|---|---|---|
| Text.Split | app.py:119 | `str.split(sep)` always yields at least one part |
| Text.SplitPartsLackSeparator | app.py:119 | no part of a split contains the separator |
| Text.SplitJoin | app.py:127 | joining the parts of a split with the separator gives the text back |
| Text.SplitCharCount | app.py:127 | splitting on `,` gives one more part than the text has commas |
| Text.SplitJoinInverse | app.py:133 | splitting a `sep`-join of parts that lack `sep`'s first character gives those parts back |
| Text.Join | app.py:133 | `sep.join(parts)`: the parts in order with `sep` between neighbours; `SplitJoin` and `SplitJoinInverse` relate it to `Split` |
| Text.FirstPart | app.py:121 | `split(sep)[0]`; `FirstPartIsBeforeFirst` states what it is |
| Text.LastPart | app.py:119 | `split(sep)[-1]`; `LastPartIsAfterLast` states what it is |
| Text.FirstPartIsBeforeFirst | app.py:121 | `split('url=')[0]` is a prefix of the text, ends where the first `url=` starts, and is the whole text when there is no `url=` |
| Text.LastPartIsAfterLast | app.py:119 | `split('url=')[-1]` is a suffix that holds no `url=` and directly follows the last `url=`; it is the whole text when there is none |
| Text.Find | app.py:129 | an index that is found leaves room for the whole pattern after it |
| Text.FindFirst | app.py:129 | an index is found exactly when the pattern occurs; it is an occurrence, and no earlier index is one |
| Text.TrimStartRemovesLeading | app.py:128 | `lstrip` removes only characters of the set, and all of them up to the first other character |
| Text.TrimEndRemovesTrailing | app.py:128 | `rstrip` removes only characters of the set, and all of them back to the last other character |
| Text.StripRemovesEnds | app.py:128 | after `strip`, neither end is in the set, and every character comes from the input |
| Text.StripIsSlice | app.py:128 | `strip` keeps one contiguous slice `s[a..b]` of its input, and everything before `a` and from `b` on is in the set |
| Text.Strip | app.py:128 | `strip(chars)` as `rstrip` after `lstrip` (also used for the quotes at app.py:25); `StripRemovesEnds` and `StripIsSlice` state what it keeps |
| Text.Lower | app.py:96 | same length, each character lower-cased, no ASCII capital left |
| Urls.DefaultScheme | app.py:49-50 | the result starts with `http://` or `https://` and ends with the input; it equals the input exactly when the input already has either prefix |
| Urls.DefaultSchemeIdempotent | app.py:49-50 | applying the default twice is applying it once; otherwise only `https://` is added |
| Urls.FullTargetUrl | app.py:61-65 | the target comes first; the query follows after `?` exactly when it is non-empty, and otherwise the result is the target |
| Urls.Proxied | app.py:135-136 | `url_for('proxy_path', target_url=urljoin(base, ref))`, the call every rewrite shares (also app.py:26-27, 99-100, 120-121, 130-131) |
| Css.GroupEnd | app.py:31 | the lazy group `(.*?)\)` ends at the first `)`, and only when no newline comes before it |
| Css.Replacement | app.py:24-28 | `replacer`: `url('` + the proxy path of the quote-stripped group resolved against the base + `')`; `RewriteAtMatch` and `StripQuotesAround` state its effect |
| Css.Render | app.py:31 | `re.sub`'s output: each match replaced, every other character copied, in order; `RewriteAtMatch` and `RewriteAtLiteral` state its steps |
| Css.RewriteCssUrls | app.py:19-31 | `rewrite_css_urls`: the scan followed by the replacement; `NoUrlUnchanged` and `RewriteAroundMatch` state its effect |
| Css.Tokenize | app.py:31 | the scan's pieces give back the input; each match ends at its first `)` and holds no newline; text is copied only where no match starts |
| Css.NoUrlUnchanged | app.py:19-31 | CSS without `url(` comes back unchanged |
| Css.RewriteAroundMatch | app.py:24-31 | text before the first `url(...)` is kept verbatim; the match becomes `url('<proxied>')`; the rest is rewritten in turn |
| Css.RewriteAfterPlainText | app.py:31 | text free of `url(` before a match is copied through unchanged |
| Css.RewriteAtMatch | app.py:24-31 | a match at the start becomes `url('` + proxy path of the resolved, quote-stripped group + `')`, and scanning resumes after its `)` |
| Css.RewriteAtLiteral | app.py:31 | where no match starts, one character is copied and scanning goes on at the next |
| Css.StripQuotesAround | app.py:25 | quotes of either kind around a reference are removed and the reference is kept whole |
| Attributes.SrcsetCandidates | app.py:127-132 | one rewritten candidate per `,`-separated part, in order |
| Attributes.SrcsetCandidate | app.py:128-132 | one candidate: `strip()` then the stripped-candidate rule; `RewriteCandidate` is proved equal to it |
| Attributes.StrippedCandidate | app.py:129-132 | the text up to the first space proxied, one space, then the descriptor; `SrcsetCandidateWithDescriptor` and `SrcsetCandidateWithoutDescriptor` state both cases |
| Attributes.SrcsetRewritten | app.py:125-133 | the candidates joined with `", "`; `RewriteSrcset` is proved equal to it and `SrcsetEntries` splits it back |
| Attributes.MetaRefresh | app.py:118-121 | the refresh rule; `MetaRefreshShape` states what it keeps and what it proxies |
| Attributes.AttributeRewritten | app.py:117-136 | the rule for one attribute value; `RewriteAttribute` is proved equal to it |
| Attributes.RewriteCandidate | app.py:128-132 | the loop body turns one part into exactly its rewritten candidate |
| Attributes.RewriteSrcset | app.py:125-133 | the loop builds exactly the candidates joined with `", "` |
| Attributes.RewriteAttribute | app.py:117-136 | the branch body: meta refresh when the tag is `meta` and the value holds `url=`, else `srcset`, else whole-value replacement |
| Attributes.SrcsetCandidateCount | app.py:127 | there are exactly as many candidates as commas in the value, plus one |
| Attributes.SrcsetEntries | app.py:127-133 | when proxy paths hold no comma, splitting the result on `", "` gives the candidates back: one entry per input part |
| Attributes.SrcsetCandidateWithDescriptor | app.py:128-132 | `<url> <descriptor>` becomes the proxied URL, one space, and the descriptor unchanged |
| Attributes.SrcsetCandidateWithoutDescriptor | app.py:128-132 | a candidate without a space becomes the proxied URL followed by a trailing space |
| Attributes.MetaRefreshShape | app.py:117-121 | the text before the first `url=` is kept; the target is the text after the last `url=`; the result is that prefix, `url=`, and the proxied target |
| Attributes.MetaWithoutRefreshReplaced | app.py:117-136 | a `meta` `content` without `url=` is replaced whole by its proxied form |
| Attributes.PlainReferenceReplaced | app.py:134-136 | outside `meta` and `srcset`, the value is replaced by its proxied form |
| Document.ReferencesRewritten | app.py:108-115 | one node per input node, each with the rules applied in order |
| Document.RuleOn | app.py:115-136 | one rule on one node; `ApplyRule` is proved equal to it |
| Document.RulesOn | app.py:112-136 | the rules applied to one node in table order; `RulesOnElement` states its effect |
| Document.StyleElementOn | app.py:139-140 | one `<style>` element with its text rewritten as CSS; `RestyleElement` is proved equal to it |
| Document.StyleAttributeOn | app.py:143-144 | one element's `style=` rewritten as CSS; `RestyleAttribute` is proved equal to it |
| Document.BannerInjected | app.py:147-150 | the banner right after the first `body`, or the page unchanged; `BannerPlacement` states its effect |
| Document.RewrittenPage | app.py:108-150 | the four passes in the handler's order; `RewrittenPageShape` states its effect and `Soup.Rewrite` is proved equal to it |
| Document.StyleElementsRewritten | app.py:139-140 | each node is rewritten by the style-element rule, in place |
| Document.StyleAttributesRewritten | app.py:143-144 | each node is rewritten by the style-attribute rule, in place |
| Document.FirstBody | app.py:147 | the position of the first `body` element, or none when the page has none |
| Document.Soup.RewriteReferences | app.py:108-136 | the nested loops over the rules and over the matching elements leave exactly `ReferencesRewritten` of the old nodes |
| Document.Soup.RewriteStyleElements | app.py:139-140 | every `<style>` text is rewritten as CSS, nothing else changes |
| Document.Soup.RewriteStyleAttributes | app.py:143-144 | every `style=` value is rewritten as CSS, nothing else changes |
| Document.Soup.InjectBanner | app.py:147-150 | the search for `body` and the insertion leave exactly `BannerInjected` of the old nodes |
| Document.Soup.Rewrite | app.py:108-150 | the four passes, in the handler's order |
| Document.RulesDistinct | app.py:108-111 | no (tag, attribute) pair appears twice in the rewrite table |
| Document.RulesOnElement | app.py:112-115 | for rules naming distinct pairs: no attribute is added or removed, and a value is rewritten exactly when its (tag, attribute) pair is a rule |
| Document.ReferenceRewriteNode | app.py:108-136 | only the listed (tag, attribute) pairs are rewritten, only on elements that carry the attribute, each through the attribute rule; the banner node is untouched |
| Document.PlainStyleUnchanged | app.py:138-144 | an element whose style text and `style=` hold no `url(` comes out of both style passes unchanged |
| Document.BannerPlacement | app.py:147-150 | without a body nothing changes; otherwise exactly one banner sits right after the first `body`, and removing it restores the page |
| Document.ApplyRule | app.py:115-136 | rewriting one element found for a rule gives exactly that rule applied to it |
| Document.RestyleElement | app.py:139-140 | one `<style>` element gets its text rewritten as CSS; any other node is kept |
| Document.RestyleAttribute | app.py:143-144 | one element with `style=` gets that value rewritten as CSS; any other node is kept |
| Document.NodeShapeKept | app.py:108-144 | the three rewrite passes keep a node's kind, tag name and attribute names |
| Document.BannerKeepsShape | app.py:147-150 | inserting the banner shifts the nodes after the first `body` by one and keeps every other node's shape in place |
| Document.RewrittenPageShape | app.py:103-150 | the rewritten page keeps every element's tag name and attribute names in the original order; the only node added is the banner |
| Relay.ProxyRedirect | app.py:44-52 | 400 with the fixed message exactly when `url` is missing or empty; otherwise a redirect to the proxy path of the scheme-defaulted URL |
| Relay.ContentKind | app.py:103-165 | HTML exactly when the type mentions `text/html`; CSS exactly when it mentions `text/css` but not `text/html` |
| Relay.LoweredType | app.py:96 | the `Content-Type` header lower-cased, or empty when absent |
| Relay.Intercepted | app.py:98 | a status in [300, 400) with a `Location` header |
| Relay.ProxyPathReply | app.py:56-177 | the reply of `/proxy/<target>` for a fetch outcome; the relay lemmas below state its promises and `HandleProxyPath` is proved equal to it |
| Relay.HandleProxyPath | app.py:56-177 | the handler's steps produce exactly `ProxyPathReply` |
| Relay.RedirectExactlyWhenIntercepted | app.py:98-100 | a redirect exactly when the status is in [300, 400) and `Location` is present; it targets the proxy path of `Location` resolved against the full target URL |
| Relay.RedirectWithoutLocationFallsThrough | app.py:98-103 | a 3xx without `Location` is handled by content type; a stylesheet or passthrough reply keeps the upstream status |
| Relay.MessageOnlyOnFailure | app.py:176-177 | an error message exactly when the fetch failed: status 500, the fixed prefix, then the reason |
| Relay.HtmlTakesPrecedence | app.py:103 | a type mentioning `text/html` gives the rewritten page with status 200 and the upstream cookies, even when it also mentions `text/css` |
| Relay.CssRewritten | app.py:160-163 | a CSS reply has the rewritten text, the lower-cased type and the upstream status |
| Relay.PassthroughForwards | app.py:165-174 | passthrough exactly when the response is neither intercepted, HTML nor CSS; it forwards the same bytes, status and cookies, and its type is the upstream `Content-Type` lower-cased as at app.py:96 (empty when absent) |
| Relay.MissingTypePassedThrough | app.py:96 | a response without `Content-Type` is passed through with an empty type |
| Relay.DispatchIgnoresCase | app.py:96 | content types that agree after lower-casing give the same reply |
| Relay.MixedCaseHtmlDispatched | app.py:96-103 | `text/html` in any letter case, anywhere in the header, selects the HTML branch |

## Left out

- The network. `requests.get` and `requests.post` are not modelled, and
  neither are the forwarded headers, form data, files and cookies
  (app.py:67-94). The fetch outcome is a parameter `Fetch`. The forwarded
  `Host` is `urlparse(target_url).netloc`, and `User-Agent` defaults to
  `Mozilla/5.0`.
- GET and POST are not told apart. Both reach the same decision logic
  once the fetch has happened.
- Errors raised while reading the body after the response has arrived are
  not modelled. The 500 reply covers only a failed `Fetch`.
- Flask is not modelled: routing, `render_template` for `/`, and how
  `redirect`, `Response` and `set_cookie` are built. A `Reply` records
  what is sent.
- Cookies are forwarded as (name, value) pairs. Their attributes are not
  modelled.
- Serialising the page (`str(soup)`) is not modelled, nor is the HTML
  reply's default content type. A page reply carries its node sequence.
- HTML parsing is a parameter `parse`. The page is the sequence of its
  nodes in the order `find_all` visits them. An element's `text` stands
  for its text content (`get_text()` and `.string`). The banner is one
  `Notice` node standing for the parsed banner markup. "First child of `body`" is the
  position right after the first `body` element in that order.
- Attribute names are exact keys. The parser already lower-cases tag and
  attribute names before the rules run.
- Header lookup is not modelled. `Content-Type` and `Location` are the
  values the HTTP library's case-insensitive lookup returns.
- The query-string decode at app.py:61 (`query_string.decode('utf-8')`) and
  its error are not modelled. It runs before the `try` (app.py:67), so
  bytes that are not valid UTF-8 raise `UnicodeDecodeError` and end in the
  framework's generic 500 reply, which no `Reply` represents. `query` is
  the decoded text.
- `resp.text` (the decoded body) and `resp.content` (its bytes) are given
  separately. Decoding is not modelled.
- Streaming is not modelled. The `generate()` chunking (app.py:166-168)
  appears as the whole byte sequence.
- The internals of `urljoin` and `url_for` are not modelled. They are the
  parameter `UrlOps`.
- Errors raised by `urljoin` and `urlparse` are not modelled. A malformed
  bracketed host (`//[x`, `http://[::1`) makes them raise `ValueError`
  (app.py:72), which escapes the handler's `except` for request errors
  (app.py:176) and ends in the framework's generic 500 reply.
  `UrlOps.resolve` is treated as total.
- Text.Lower: lower-cases ASCII letters only, whereas Python's
  `str.lower()` also lower-cases other letters. Only ASCII matters for
  matching `text/html` and `text/css`. The lowered type is also sent back
  in the stylesheet and passthrough replies (app.py:163, 170;
  `Relay.CssRewritten`, `Relay.PassthroughForwards`). There a non-ASCII
  capital such as `Ä` stays as it is in the model, while Python's `lower()`
  folds it.
- Attributes.SrcsetEntries: assumes proxy paths contain no comma. With a
  comma in a proxy path, the `", "` entries of the result no longer match
  the input parts one to one.
- Idempotence and a round trip through the proxy path are not claimed.
  The code does not guarantee either, because an already proxied value is
  resolved and wrapped again.
