/** The rewrite rule applied to one attribute value of an HTML element:
    a `meta` refresh `content`, a `srcset` list, or a plain reference. */
module Attributes {
  import opened Text
  import opened Urls

  /** The marker the `meta` rule looks for (case-sensitive). */
  const RefreshMarker := "url="

  const CandidateSeparator := ","
  const CandidateJoiner := ", "

  /** A `meta` `content` holding `url=`: the text before the first `url=`
      is kept, then `url=` and the proxied URL taken from after the last
      `url=`. Text between the first and the last marker is dropped. */
  function MetaRefresh(ops: UrlOps, base: string, content: string): string
  {
    FirstPart(content, RefreshMarker) + RefreshMarker
      + Proxied(ops, base, LastPart(content, RefreshMarker))
  }

  /** One candidate of a `srcset` list: surrounding whitespace removed,
      then rewritten as a stripped candidate. */
  function SrcsetCandidate(ops: UrlOps, base: string, part: string): string
  {
    StrippedCandidate(ops, base, Strip(part, Whitespace))
  }

  /** A stripped candidate: the text up to the first space proxied, then
      one space and the rest (the descriptor) unchanged. A candidate
      without a descriptor ends in a space. */
  function StrippedCandidate(ops: UrlOps, base: string, p: string): string
  {
    match Find(p, " ")
    case None => Proxied(ops, base, p) + " "
    case Some(i) => Proxied(ops, base, p[..i]) + " " + p[i + 1..]
  }

  /** The rewritten candidates of a `srcset` value, one per `,`-separated
      part, in order. */
  function SrcsetCandidates(ops: UrlOps, base: string, value: string): (r: seq<string>)
    ensures |r| == |Split(value, CandidateSeparator)|
    ensures forall k :: 0 <= k < |r| ==> r[k] == SrcsetCandidate(ops, base, Split(value, CandidateSeparator)[k])
  {
    var parts := Split(value, CandidateSeparator);
    seq(|parts|, k requires 0 <= k < |parts| => SrcsetCandidate(ops, base, parts[k]))
  }

  /** A rewritten `srcset` value: the candidates joined with `", "`. */
  function SrcsetRewritten(ops: UrlOps, base: string, value: string): string
  {
    Join(SrcsetCandidates(ops, base, value), CandidateJoiner)
  }

  /** The new value of attribute `attr` of a `tag` element whose value was
      `value`, in a page fetched from `base`. */
  function AttributeRewritten(ops: UrlOps, base: string, tag: string, attr: string, value: string): string
  {
    if tag == "meta" && Contains(value, RefreshMarker) then MetaRefresh(ops, base, value)
    else if attr == "srcset" then SrcsetRewritten(ops, base, value)
    else Proxied(ops, base, value)
  }

  /** The loop body of the `srcset` rule for one candidate. */
  method RewriteCandidate(ops: UrlOps, base: string, candidate: string) returns (r: string)
    ensures r == SrcsetCandidate(ops, base, candidate)
  {
    var part := Strip(candidate, Whitespace);
    var found := Find(part, " ");
    var urlPart, descriptor := part, "";
    if found.Some? {
      urlPart, descriptor := part[..found.value], part[found.value + 1..];
    }
    var absolute := ops.resolve(base, urlPart);
    r := ops.toProxyPath(absolute) + " " + descriptor;
  }

  /** Builds the rewritten `srcset` list candidate by candidate. */
  method RewriteSrcset(ops: UrlOps, base: string, value: string) returns (r: string)
    ensures r == SrcsetRewritten(ops, base, value)
  {
    var parts := Split(value, CandidateSeparator);
    var rewritten: seq<string> := [];
    for k := 0 to |parts|
      invariant |rewritten| == k
      invariant forall j :: 0 <= j < k ==> rewritten[j] == SrcsetCandidate(ops, base, parts[j])
    {
      var candidate := RewriteCandidate(ops, base, parts[k]);
      rewritten := rewritten + [candidate];
    }
    assert rewritten == SrcsetCandidates(ops, base, value);
    r := Join(rewritten, CandidateJoiner);
  }

  /** The body of the rewrite loop for one attribute: the `meta` refresh
      rule, the `srcset` rule, or whole-value replacement. */
  method RewriteAttribute(ops: UrlOps, base: string, tag: string, attr: string, value: string) returns (r: string)
    ensures r == AttributeRewritten(ops, base, tag, attr, value)
  {
    if tag == "meta" && Contains(value, RefreshMarker) {
      var target := LastPart(value, RefreshMarker);
      var absolute := ops.resolve(base, target);
      r := FirstPart(value, RefreshMarker) + RefreshMarker + ops.toProxyPath(absolute);
    } else if attr == "srcset" {
      r := RewriteSrcset(ops, base, value);
    } else {
      var absolute := ops.resolve(base, value);
      r := ops.toProxyPath(absolute);
    }
  }

  /** A `srcset` list has exactly as many rewritten candidates as the value
      has `,`-separated parts: one more than its commas. */
  lemma SrcsetCandidateCount(ops: UrlOps, base: string, value: string)
    ensures |SrcsetCandidates(ops, base, value)| == multiset(value)[','] + 1
  {
    SplitCharCount(value, ',');
  }

  /** When proxy paths hold no comma, splitting the rewritten list on
      `", "` gives back exactly the rewritten candidates: one entry per
      `,`-separated part of the original value. */
  lemma SrcsetEntries(ops: UrlOps, base: string, value: string)
    requires forall u :: ',' !in ops.toProxyPath(u)
    ensures Split(SrcsetRewritten(ops, base, value), CandidateJoiner) == SrcsetCandidates(ops, base, value)
    ensures |Split(SrcsetRewritten(ops, base, value), CandidateJoiner)| == multiset(value)[','] + 1
  {
    var parts := Split(value, CandidateSeparator);
    var candidates := SrcsetCandidates(ops, base, value);
    SplitPartsLackSeparator(value, CandidateSeparator);
    forall k | 0 <= k < |candidates|
      ensures CandidateJoiner[0] !in candidates[k]
    {
      ContainsChar(parts[k], ',');
      CandidateCommaFree(ops, base, parts[k]);
    }
    SplitJoinInverse(candidates, CandidateJoiner);
    SrcsetCandidateCount(ops, base, value);
  }

  /** A comma-free part becomes a comma-free candidate when proxy paths
      hold no comma. */
  lemma CandidateCommaFree(ops: UrlOps, base: string, part: string)
    requires forall u :: ',' !in ops.toProxyPath(u)
    requires ',' !in part
    ensures ',' !in SrcsetCandidate(ops, base, part)
  {
    StripKeepsChars(part, Whitespace);
    StrippedCandidateCommaFree(ops, base, Strip(part, Whitespace));
  }

  lemma StrippedCandidateCommaFree(ops: UrlOps, base: string, p: string)
    requires forall u :: ',' !in ops.toProxyPath(u)
    requires ',' !in p
    ensures ',' !in StrippedCandidate(ops, base, p)
  {
    var found := Find(p, " ");
    if found.Some? {
      var d := p[found.value + 1..];
      assert forall c :: c in d ==> c in p;
    }
  }

  /** A candidate `<url> <descriptor>` (after stripping whitespace) becomes
      the proxied URL, one space and the descriptor as it was. */
  lemma SrcsetCandidateWithDescriptor(ops: UrlOps, base: string, part: string, url: string, descriptor: string)
    requires Strip(part, Whitespace) == url + " " + descriptor
    requires ' ' !in url
    ensures SrcsetCandidate(ops, base, part) == Proxied(ops, base, url) + " " + descriptor
  {
    var p := url + " " + descriptor;
    FirstSpace(url, descriptor);
    assert p[..|url|] == url && p[|url| + 1..] == descriptor;
  }

  /** The first space of `<url> <descriptor>` is the one after `url`. */
  lemma FirstSpace(url: string, descriptor: string)
    requires ' ' !in url
    ensures Find(url + " " + descriptor, " ") == Some(|url|)
  {
    var p := url + " " + descriptor;
    FindFirst(p, " ");
    assert OccursAt(p, " ", |url|) by { assert p[|url|..|url| + 1] == " "; }
    forall j | 0 <= j < |url| ensures !OccursAt(p, " ", j) {
      assert p[j..j + 1] == [url[j]];
    }
  }

  /** A candidate without a descriptor becomes the proxied URL followed by
      a trailing space. */
  lemma SrcsetCandidateWithoutDescriptor(ops: UrlOps, base: string, part: string)
    requires ' ' !in Strip(part, Whitespace)
    ensures SrcsetCandidate(ops, base, part) == Proxied(ops, base, Strip(part, Whitespace)) + " "
  {
    ContainsChar(Strip(part, Whitespace), ' ');
    FindFirst(Strip(part, Whitespace), " ");
  }

  /** A `meta` `content` with `url=` keeps its text up to the first `url=`
      (the refresh delay) and points to the proxied form of the text after
      the last `url=`, which holds no `url=`. */
  lemma MetaRefreshShape(ops: UrlOps, base: string, content: string)
    requires Contains(content, RefreshMarker)
    ensures var delay := FirstPart(content, RefreshMarker);
            var target := LastPart(content, RefreshMarker);
            OccursAt(content, RefreshMarker, |delay|) &&
            (forall j :: 0 <= j < |delay| ==> !OccursAt(content, RefreshMarker, j)) &&
            content[..|delay|] == delay &&
            FollowsSeparator(content, RefreshMarker, |target|) &&
            content[|content| - |target|..] == target &&
            !Contains(target, RefreshMarker) &&
            AttributeRewritten(ops, base, "meta", "content", content)
              == delay + RefreshMarker + Proxied(ops, base, target)
  {
    FirstPartIsBeforeFirst(content, RefreshMarker);
    LastPartIsAfterLast(content, RefreshMarker);
  }

  /** A `meta` `content` without `url=` (a description, a viewport, a
      charset) is replaced whole by a proxied URL, like any plain
      reference. */
  lemma MetaWithoutRefreshReplaced(ops: UrlOps, base: string, content: string)
    requires !Contains(content, RefreshMarker)
    ensures AttributeRewritten(ops, base, "meta", "content", content) == Proxied(ops, base, content)
  {
  }

  /** Outside `meta` and `srcset`, the whole value is replaced by its
      proxied form. */
  lemma PlainReferenceReplaced(ops: UrlOps, base: string, tag: string, attr: string, value: string)
    requires tag != "meta" && attr != "srcset"
    ensures AttributeRewritten(ops, base, tag, attr, value) == Proxied(ops, base, value)
  {
  }
}
