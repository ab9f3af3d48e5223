/** The rewriting of a fetched HTML page. The parsed document is the
    sequence of its nodes in document order, which is the order in which
    `find_all` and `find` visit them; each pass walks that sequence and
    updates nodes in place. */
module Document {
  import opened Text
  import opened Urls
  import opened Css
  import opened Attributes

  /** A node of the parsed document: an element with its tag name, its
      attributes and its text content, or the notice banner the proxy
      inserts (the parsed `NOTICE_BANNER_HTML` fragment, whose markup is
      not modelled). */
  datatype Node =
    | Element(name: string, attrs: map<string, string>, text: string)
    | Notice

  /** The (tag, attribute) pairs whose values are references, in the order
      the rewrite loop visits them (`img` carries two). */
  const Rules: seq<(string, string)> := [
    ("a", "href"), ("link", "href"), ("script", "src"), ("img", "src"),
    ("img", "srcset"), ("form", "action"), ("iframe", "src"), ("meta", "content")
  ]

  const StyleTag := "style"
  const StyleAttribute := "style"
  const BodyTag := "body"

  predicate Distinct<T(==)>(xs: seq<T>)
  {
    forall i, j :: 0 <= i < j < |xs| ==> xs[i] != xs[j]
  }

  /** One rule applied to one node: an element with the rule's tag name
      that carries the rule's attribute gets that attribute's value
      rewritten; every other node is left as it is. */
  function RuleOn(ops: UrlOps, base: string, n: Node, rule: (string, string)): Node
  {
    match n
    case Notice => n
    case Element(name, attrs, text) =>
      if name == rule.0 && rule.1 in attrs
      then Element(name, attrs[rule.1 := AttributeRewritten(ops, base, name, rule.1, attrs[rule.1])], text)
      else n
  }

  /** The rules `rs` applied to one node, one after the other. */
  function RulesOn(ops: UrlOps, base: string, n: Node, rs: seq<(string, string)>): Node
    decreases |rs|
  {
    if rs == [] then n else RuleOn(ops, base, RulesOn(ops, base, n, rs[..|rs| - 1]), rs[|rs| - 1])
  }

  /** The document after the reference rewrite loop. */
  function ReferencesRewritten(ops: UrlOps, base: string, ns: seq<Node>): (r: seq<Node>)
    ensures |r| == |ns|
    ensures forall j :: 0 <= j < |ns| ==> r[j] == RulesOn(ops, base, ns[j], Rules)
  {
    seq(|ns|, j requires 0 <= j < |ns| => RulesOn(ops, base, ns[j], Rules))
  }

  /** A `style` element's text rewritten as a stylesheet. */
  function StyleElementOn(ops: UrlOps, base: string, n: Node): Node
  {
    if n.Element? && n.name == StyleTag then n.(text := RewriteCssUrls(ops, base, n.text)) else n
  }

  function StyleElementsRewritten(ops: UrlOps, base: string, ns: seq<Node>): (r: seq<Node>)
    ensures |r| == |ns|
    ensures forall j :: 0 <= j < |ns| ==> r[j] == StyleElementOn(ops, base, ns[j])
  {
    seq(|ns|, j requires 0 <= j < |ns| => StyleElementOn(ops, base, ns[j]))
  }

  /** An inline `style` attribute rewritten as a stylesheet. */
  function StyleAttributeOn(ops: UrlOps, base: string, n: Node): Node
  {
    if n.Element? && StyleAttribute in n.attrs
    then n.(attrs := n.attrs[StyleAttribute := RewriteCssUrls(ops, base, n.attrs[StyleAttribute])])
    else n
  }

  function StyleAttributesRewritten(ops: UrlOps, base: string, ns: seq<Node>): (r: seq<Node>)
    ensures |r| == |ns|
    ensures forall j :: 0 <= j < |ns| ==> r[j] == StyleAttributeOn(ops, base, ns[j])
  {
    seq(|ns|, j requires 0 <= j < |ns| => StyleAttributeOn(ops, base, ns[j]))
  }

  predicate IsBody(n: Node)
  {
    n.Element? && n.name == BodyTag
  }

  /** The first `body` element at or after position `k`. */
  function FirstBodyFrom(ns: seq<Node>, k: nat): (r: Option<nat>)
    requires k <= |ns|
    ensures r.Some? ==> k <= r.value < |ns| && IsBody(ns[r.value])
    ensures r.Some? ==> forall j :: k <= j < r.value ==> !IsBody(ns[j])
    ensures r.None? ==> forall j :: k <= j < |ns| ==> !IsBody(ns[j])
    decreases |ns| - k
  {
    if k == |ns| then None
    else if IsBody(ns[k]) then Some(k)
    else FirstBodyFrom(ns, k + 1)
  }

  /** The position of the first `body` element, if the page has one. */
  function FirstBody(ns: seq<Node>): (r: Option<nat>)
    ensures r.Some? ==> r.value < |ns| && IsBody(ns[r.value])
    ensures r.Some? ==> forall j :: 0 <= j < r.value ==> !IsBody(ns[j])
    ensures r.None? ==> forall j :: 0 <= j < |ns| ==> !IsBody(ns[j])
  {
    FirstBodyFrom(ns, 0)
  }

  /** The banner inserted as the first child of the first `body`, which in
      document order is the position right after that element. */
  function BannerInjected(ns: seq<Node>): seq<Node>
  {
    match FirstBody(ns)
    case None => ns
    case Some(b) => ns[..b + 1] + [Notice] + ns[b + 1..]
  }

  /** The whole rewrite of an HTML page, pass by pass. */
  function RewrittenPage(ops: UrlOps, base: string, ns: seq<Node>): seq<Node>
  {
    BannerInjected(StyleAttributesRewritten(ops, base, StyleElementsRewritten(ops, base, ReferencesRewritten(ops, base, ns))))
  }

  /** The body of the reference loop for one element found by
      `find_all(tag, attr=True)`: its attribute gets the rule's new value. */
  method ApplyRule(ops: UrlOps, base: string, n: Node, rule: (string, string)) returns (m: Node)
    ensures m == RuleOn(ops, base, n, rule)
  {
    m := n;
    if n.Element? && n.name == rule.0 && rule.1 in n.attrs {
      var value := RewriteAttribute(ops, base, n.name, rule.1, n.attrs[rule.1]);
      m := n.(attrs := n.attrs[rule.1 := value]);
    }
  }

  /** The body of the `<style>` loop for one node. */
  method RestyleElement(ops: UrlOps, base: string, n: Node) returns (m: Node)
    ensures m == StyleElementOn(ops, base, n)
  {
    m := n;
    if n.Element? && n.name == StyleTag {
      m := n.(text := RewriteCssUrls(ops, base, n.text));
    }
  }

  /** The body of the `style=` loop for one node. */
  method RestyleAttribute(ops: UrlOps, base: string, n: Node) returns (m: Node)
    ensures m == StyleAttributeOn(ops, base, n)
  {
    m := n;
    if n.Element? && StyleAttribute in n.attrs {
      var css := RewriteCssUrls(ops, base, n.attrs[StyleAttribute]);
      m := n.(attrs := n.attrs[StyleAttribute := css]);
    }
  }

  /** The parsed page, updated in place by the rewrite passes. */
  class Soup {
    var nodes: seq<Node>

    constructor(parsed: seq<Node>)
      ensures nodes == parsed
    {
      nodes := parsed;
    }

    /** For every rule in turn, every element with the rule's tag that
        carries the rule's attribute gets the attribute rewritten. */
    method RewriteReferences(ops: UrlOps, base: string)
      modifies this
      ensures nodes == ReferencesRewritten(ops, base, old(nodes))
    {
      for r := 0 to |Rules|
        invariant |nodes| == |old(nodes)|
        invariant forall j :: 0 <= j < |nodes| ==> nodes[j] == RulesOn(ops, base, old(nodes)[j], Rules[..r])
      {
        var rule := Rules[r];
        var i := 0;
        while i < |nodes|
          invariant i <= |nodes| == |old(nodes)|
          invariant forall j :: 0 <= j < i ==> nodes[j] == RulesOn(ops, base, old(nodes)[j], Rules[..r + 1])
          invariant forall j :: i <= j < |nodes| ==> nodes[j] == RulesOn(ops, base, old(nodes)[j], Rules[..r])
        {
          RulesOnStep(ops, base, old(nodes)[i], Rules, r);
          var rewritten := ApplyRule(ops, base, nodes[i], rule);
          nodes := nodes[i := rewritten];
          i := i + 1;
        }
      }
      assert Rules[..|Rules|] == Rules;
    }

    /** Every `style` element's text is rewritten as a stylesheet. */
    method RewriteStyleElements(ops: UrlOps, base: string)
      modifies this
      ensures nodes == StyleElementsRewritten(ops, base, old(nodes))
    {
      for i := 0 to |nodes|
        invariant |nodes| == |old(nodes)|
        invariant forall j :: 0 <= j < i ==> nodes[j] == StyleElementOn(ops, base, old(nodes)[j])
        invariant forall j :: i <= j < |nodes| ==> nodes[j] == old(nodes)[j]
      {
        var restyled := RestyleElement(ops, base, nodes[i]);
        nodes := nodes[i := restyled];
      }
    }

    /** Every inline `style` attribute is rewritten as a stylesheet. */
    method RewriteStyleAttributes(ops: UrlOps, base: string)
      modifies this
      ensures nodes == StyleAttributesRewritten(ops, base, old(nodes))
    {
      for i := 0 to |nodes|
        invariant |nodes| == |old(nodes)|
        invariant forall j :: 0 <= j < i ==> nodes[j] == StyleAttributeOn(ops, base, old(nodes)[j])
        invariant forall j :: i <= j < |nodes| ==> nodes[j] == old(nodes)[j]
      {
        var restyled := RestyleAttribute(ops, base, nodes[i]);
        nodes := nodes[i := restyled];
      }
    }

    /** Looks for the first `body` element and, when there is one, puts
        the notice banner in as its first child. */
    method InjectBanner()
      modifies this
      ensures nodes == BannerInjected(old(nodes))
    {
      var i := 0;
      while i < |nodes| && !IsBody(nodes[i])
        invariant i <= |nodes|
        invariant forall j :: 0 <= j < i ==> !IsBody(nodes[j])
      {
        i := i + 1;
      }
      if i < |nodes| {
        assert FirstBody(nodes) == Some(i);
        nodes := nodes[..i + 1] + [Notice] + nodes[i + 1..];
      }
    }

    /** All passes of the HTML branch, in the order the handler runs them. */
    method Rewrite(ops: UrlOps, base: string)
      modifies this
      ensures nodes == RewrittenPage(ops, base, old(nodes))
    {
      RewriteReferences(ops, base);
      RewriteStyleElements(ops, base);
      RewriteStyleAttributes(ops, base);
      InjectBanner();
    }
  }

  /** Applying the first `k + 1` rules is applying the first `k`, then
      rule `k`. */
  lemma RulesOnStep(ops: UrlOps, base: string, n: Node, rs: seq<(string, string)>, k: nat)
    requires k < |rs|
    ensures RulesOn(ops, base, n, rs[..k + 1]) == RuleOn(ops, base, RulesOn(ops, base, n, rs[..k]), rs[k])
  {
    assert rs[..k + 1][..k] == rs[..k];
  }

  /** No rule appears twice, so each (tag, attribute) pair is rewritten at
      most once. */
  lemma RulesDistinct()
    ensures Distinct(Rules)
  {
  }

  /** Nodes of the same kind; for elements, the same tag name and the same
      attribute names. */
  predicate SameShape(m: Node, n: Node)
  {
    match m
    case Notice => n == m
    case Element(name, attrs, _) => n.Element? && n.name == name && n.attrs.Keys == attrs.Keys
  }

  /** Rules that name distinct (tag, attribute) pairs, applied to an
      element: no attribute is added or removed, the name and text stay,
      and an attribute's value is rewritten exactly when its (tag,
      attribute) pair is among the rules. */
  lemma {:induction false} RulesOnElement(ops: UrlOps, base: string, n: Node, rs: seq<(string, string)>, a: string)
    requires n.Element? && Distinct(rs)
    ensures var m := RulesOn(ops, base, n, rs);
            SameShape(n, m) && m.text == n.text &&
            (a in n.attrs ==> m.attrs[a] == if (n.name, a) in rs then AttributeRewritten(ops, base, n.name, a, n.attrs[a]) else n.attrs[a])
    decreases |rs|
  {
    if rs != [] {
      var front, last := rs[..|rs| - 1], rs[|rs| - 1];
      assert Distinct(front);
      RulesOnElement(ops, base, n, front, a);
      assert rs == front + [last];
      if last == (n.name, a) {
        assert (n.name, a) !in front;
      }
    }
  }

  /** The reference loop rewrites `href` of `a` and `link`, `src` of
      `script`, `img` and `iframe`, `srcset` of `img`, `action` of `form`
      and `content` of `meta`, each through the attribute rule, on the
      elements that carry it; every other attribute, every other element
      and the banner are left unchanged. */
  lemma ReferenceRewriteNode(ops: UrlOps, base: string, n: Node, a: string)
    ensures var m := RulesOn(ops, base, n, Rules);
            SameShape(n, m) &&
            (n.Notice? ==> m == n) &&
            (n.Element? ==> m.text == n.text) &&
            (n.Element? && a in n.attrs ==>
               m.attrs[a] == if (n.name, a) in Rules then AttributeRewritten(ops, base, n.name, a, n.attrs[a]) else n.attrs[a])
  {
    if n.Element? {
      RulesDistinct();
      RulesOnElement(ops, base, n, Rules, a);
    } else {
      NoticeUntouched(ops, base, n, Rules);
    }
  }

  lemma {:induction false} NoticeUntouched(ops: UrlOps, base: string, n: Node, rs: seq<(string, string)>)
    requires n.Notice?
    ensures RulesOn(ops, base, n, rs) == n
    decreases |rs|
  {
    if rs != [] {
      NoticeUntouched(ops, base, n, rs[..|rs| - 1]);
    }
  }

  /** Markup whose style sheet and inline style hold no `url(` comes out
      of both style passes as it went in. */
  lemma PlainStyleUnchanged(ops: UrlOps, base: string, n: Node)
    requires n.Element? && (n.name == StyleTag ==> !Contains(n.text, Opening))
    requires StyleAttribute in n.attrs ==> !Contains(n.attrs[StyleAttribute], Opening)
    ensures StyleAttributeOn(ops, base, StyleElementOn(ops, base, n)) == n
  {
    if n.name == StyleTag {
      NoUrlUnchanged(ops, base, n.text);
    }
    assert StyleElementOn(ops, base, n) == n;
    if StyleAttribute in n.attrs {
      var value := n.attrs[StyleAttribute];
      NoUrlUnchanged(ops, base, value);
      assert n.attrs[StyleAttribute := value] == n.attrs;
    }
  }

  /** A page without a `body` gets no banner; otherwise exactly one banner
      node appears, directly after the first `body` element, and
      taking it out gives back the page in its original order. */
  lemma BannerPlacement(ns: seq<Node>)
    ensures FirstBody(ns).None? ==> BannerInjected(ns) == ns
    ensures FirstBody(ns).Some? ==>
              var b := FirstBody(ns).value;
              var r := BannerInjected(ns);
              |r| == |ns| + 1 && IsBody(r[b]) && r[b + 1] == Notice &&
              r[..b + 1] + r[b + 2..] == ns &&
              multiset(r) == multiset(ns) + multiset{Notice}
  {
    if FirstBody(ns).Some? {
      var b := FirstBody(ns).value;
      var r := BannerInjected(ns);
      assert r[..b + 1] == ns[..b + 1];
      assert r[b + 2..] == ns[b + 1..];
      assert ns == ns[..b + 1] + ns[b + 1..];
    }
  }

  /** The rewrite passes keep every element with its tag name and its
      attribute names (no attribute is added or dropped) and keep the
      page's order; the only node added is the banner, right after the
      first `body`. */
  lemma RewrittenPageShape(ops: UrlOps, base: string, ns: seq<Node>)
    ensures var r := RewrittenPage(ops, base, ns);
            (FirstBody(ns).None? ==>
               |r| == |ns| && forall j :: 0 <= j < |ns| ==> SameShape(ns[j], r[j])) &&
            (FirstBody(ns).Some? ==>
               var b := FirstBody(ns).value;
               |r| == |ns| + 1 && r[b + 1] == Notice &&
               (forall j :: 0 <= j <= b ==> SameShape(ns[j], r[j])) &&
               (forall j :: b < j < |ns| ==> SameShape(ns[j], r[j + 1])))
  {
    var styled := StyleAttributesRewritten(ops, base, StyleElementsRewritten(ops, base, ReferencesRewritten(ops, base, ns)));
    forall j | 0 <= j < |ns|
      ensures SameShape(ns[j], styled[j])
    {
      NodeShapeKept(ops, base, ns[j]);
    }
    BannerKeepsShape(ns, styled);
  }

  /** Banner injection into a page whose nodes have the shapes of `ns`:
      the banner lands right after the first `body` of `ns`, and every
      other node keeps its shape and its order. */
  lemma BannerKeepsShape(ns: seq<Node>, styled: seq<Node>)
    requires |styled| == |ns| && forall j :: 0 <= j < |ns| ==> SameShape(ns[j], styled[j])
    ensures var r := BannerInjected(styled);
            (FirstBody(ns).None? ==>
               |r| == |ns| && forall j :: 0 <= j < |ns| ==> SameShape(ns[j], r[j])) &&
            (FirstBody(ns).Some? ==>
               var b := FirstBody(ns).value;
               |r| == |ns| + 1 && r[b + 1] == Notice &&
               (forall j :: 0 <= j <= b ==> SameShape(ns[j], r[j])) &&
               (forall j :: b < j < |ns| ==> SameShape(ns[j], r[j + 1])))
  {
    forall j | 0 <= j < |ns|
      ensures IsBody(ns[j]) <==> IsBody(styled[j])
    {
      assert SameShape(ns[j], styled[j]);
    }
    FirstBodyOfSameShape(ns, styled);
    var r := BannerInjected(styled);
    match FirstBody(ns)
    case None =>
      assert r == styled;
    case Some(b) =>
      assert r == styled[..b + 1] + [Notice] + styled[b + 1..];
      assert forall j :: 0 <= j <= b ==> r[j] == styled[j];
      assert forall j :: b < j < |ns| ==> r[j + 1] == styled[j];
  }

  /** The three passes together keep the shape of every node. */
  lemma NodeShapeKept(ops: UrlOps, base: string, n: Node)
    ensures var m := StyleAttributeOn(ops, base, StyleElementOn(ops, base, RulesOn(ops, base, n, Rules)));
            SameShape(n, m) && (IsBody(n) <==> IsBody(m))
  {
    ReferenceRewriteNode(ops, base, n, "");
  }

  lemma FirstBodyOfSameShape(ns: seq<Node>, ms: seq<Node>)
    requires |ns| == |ms|
    requires forall j :: 0 <= j < |ns| ==> (IsBody(ns[j]) <==> IsBody(ms[j]))
    ensures FirstBody(ms) == FirstBody(ns)
  {
    match FirstBody(ns)
    case None =>
    case Some(b) =>
  }
}
