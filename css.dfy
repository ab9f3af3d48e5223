/** `rewrite_css_urls`: every `url(...)` reference in a style sheet or a
    `style` attribute is replaced by `url('<proxy-local path>')`.

    The source does this with `re.sub(r'url\((.*?)\)', replacer, content)`.
    The regular expression is case-sensitive, its group is lazy (it ends at
    the first `)`) and `.` does not match a newline. `re.sub` scans left to
    right: where a match starts it replaces it and resumes after it;
    elsewhere it copies one character and tries again at the next one.
    `Tokenize` is that scan, `Render` applies `replacer` to its result. */
module Css {
  import opened Text
  import opened Urls

  /** The characters `replacer` strips from both ends of the captured text. */
  const Quotes: set<char> := {'\'', '"'}

  const Opening := "url("

  /** A piece of the scanned text: a character copied as it is, or a match
      `url(<inner>)`. */
  datatype Piece = Lit(c: char) | Url(inner: string)

  /** The end of the lazy group `(.*?)\)` on the text `t` that follows
      `url(`: the index of the first `)` of `t`, provided no newline comes
      before it. */
  function GroupEnd(t: string): (r: Option<nat>)
    ensures r.Some? ==> r.value < |t| && t[r.value] == ')'
    ensures r.Some? ==> forall k :: 0 <= k < r.value ==> t[k] != ')' && t[k] != '\n'
    ensures r.None? ==> forall k :: 0 <= k < |t| && t[k] == ')' ==> NewlineBefore(t, k)
  {
    if |t| == 0 then None
    else if t[0] == ')' then Some(0)
    else if t[0] == '\n' then None
    else
      match GroupEnd(t[1..])
      case None =>
        assert forall k :: 1 <= k < |t| && NewlineBefore(t[1..], k - 1) ==> NewlineBefore(t, k) by {
          forall k | 1 <= k < |t| && NewlineBefore(t[1..], k - 1) ensures NewlineBefore(t, k) {
            var i :| 0 <= i < k - 1 && t[1..][i] == '\n';
            assert t[i + 1] == '\n';
          }
        }
        None
      case Some(j) => Some(j + 1)
  }

  /** A newline comes before index `k` of `t`. */
  ghost predicate NewlineBefore(t: string, k: int)
  {
    exists i :: 0 <= i < k && i < |t| && t[i] == '\n'
  }

  /** The regular expression matches at the start of `s`. */
  predicate MatchesAt(s: string)
  {
    StartsWith(s, Opening) && GroupEnd(s[4..]).Some?
  }

  /** The text a piece stands for in the input. */
  function Source(p: Piece): string
  {
    match p
    case Lit(c) => [c]
    case Url(inner) => Opening + inner + ")"
  }

  /** The input text a sequence of pieces was scanned from. */
  function Unparse(ps: seq<Piece>): string
  {
    if ps == [] then "" else Source(ps[0]) + Unparse(ps[1..])
  }

  /** Every match stops at the first `)` and holds no newline. */
  ghost predicate Lazy(ps: seq<Piece>)
  {
    forall k :: 0 <= k < |ps| && ps[k].Url? ==> ')' !in ps[k].inner && '\n' !in ps[k].inner
  }

  /** A character is copied literally only where no match starts. */
  ghost predicate Leftmost(ps: seq<Piece>)
  {
    forall k :: 0 <= k < |ps| && ps[k].Lit? ==> !MatchesAt(Unparse(ps[k..]))
  }

  /** Putting one more well-scanned piece in front of well-scanned pieces. */
  lemma Cons(p: Piece, rest: seq<Piece>)
    requires Lazy(rest) && Leftmost(rest)
    requires p.Url? ==> ')' !in p.inner && '\n' !in p.inner
    requires p.Lit? ==> !MatchesAt(Source(p) + Unparse(rest))
    ensures Unparse([p] + rest) == Source(p) + Unparse(rest)
    ensures Lazy([p] + rest) && Leftmost([p] + rest)
  {
    var r := [p] + rest;
    assert r[1..] == rest;
    assert r[0..] == r;
    forall k | 0 < k < |r| ensures r[k] == rest[k - 1] && r[k..] == rest[k - 1..] {
    }
  }

  /** A text starting with `url(` and holding a `)` at index `j` after it
      is the opening, the group, the `)` and the rest. */
  lemma SplitAtMatch(s: string, t: string, j: nat)
    requires StartsWith(s, Opening) && t == s[4..] && j < |t| && t[j] == ')'
    ensures s == Opening + t[..j] + ")" + t[j + 1..]
  {
    assert s == s[..4] + t;
    assert t == t[..j] + [t[j]] + t[j + 1..];
  }

  /** The left-to-right scan of `re.sub`. The pieces give back the input
      exactly (`Unparse`); each match stops at the first `)` and holds no
      newline (`Lazy`); and a character is copied literally only where no
      match starts (`Leftmost`). */
  function Tokenize(s: string): (r: seq<Piece>)
    decreases |s|
    ensures Unparse(r) == s
    ensures Lazy(r) && Leftmost(r)
  {
    if |s| == 0 then []
    else if MatchesAt(s) then
      var t := s[4..];
      var j := GroupEnd(t).value;
      var p := Url(t[..j]);
      var rest := Tokenize(t[j + 1..]);
      SplitAtMatch(s, t, j);
      Cons(p, rest);
      [p] + rest
    else
      var rest := Tokenize(s[1..]);
      assert s == [s[0]] + s[1..];
      Cons(Lit(s[0]), rest);
      [Lit(s[0])] + rest
  }

  /** `replacer`: the captured text, stripped of quotes, resolved against
      the base and wrapped again as `url('...')`. */
  function Replacement(ops: UrlOps, base: string, inner: string): string
  {
    "url('" + Proxied(ops, base, Strip(inner, Quotes)) + "')"
  }

  /** What `re.sub` emits for one piece. */
  function Emit(ops: UrlOps, base: string, p: Piece): string
  {
    match p
    case Lit(c) => [c]
    case Url(inner) => Replacement(ops, base, inner)
  }

  /** The output of `re.sub`: literal pieces as they were, matches replaced. */
  function Render(ops: UrlOps, base: string, ps: seq<Piece>): string
  {
    if ps == [] then "" else Emit(ops, base, ps[0]) + Render(ops, base, ps[1..])
  }

  function RewriteCssUrls(ops: UrlOps, base: string, content: string): string
  {
    Render(ops, base, Tokenize(content))
  }

  /** Rendering a piece in front of others emits that piece first. */
  lemma RenderCons(ops: UrlOps, base: string, p: Piece, rest: seq<Piece>)
    ensures Render(ops, base, [p] + rest) == Emit(ops, base, p) + Render(ops, base, rest)
  {
    assert ([p] + rest)[0] == p && ([p] + rest)[1..] == rest;
  }

  /** Literal pieces render as the text they were scanned from. */
  lemma {:induction false} RenderLiterals(ops: UrlOps, base: string, ps: seq<Piece>)
    requires forall k :: 0 <= k < |ps| ==> ps[k].Lit?
    ensures Render(ops, base, ps) == Unparse(ps)
  {
    if ps != [] {
      RenderLiterals(ops, base, ps[1..]);
    }
  }

  /** A sequence of pieces holding a match unparses to a text containing
      `url(`. */
  lemma {:induction false} UrlPieceShows(ps: seq<Piece>, k: nat)
    requires k < |ps| && ps[k].Url?
    ensures Contains(Unparse(ps), Opening)
  {
    if k == 0 {
      var src := Source(ps[0]);
      assert src == Opening + (ps[0].inner + ")");
      assert OccursAt(src, Opening, 0);
      ContainsInConcat(src, Unparse(ps[1..]), Opening);
    } else {
      UrlPieceShows(ps[1..], k - 1);
      ContainsInConcat(Source(ps[0]), Unparse(ps[1..]), Opening);
    }
  }

  /** A text without `url(` comes back unchanged. */
  lemma NoUrlUnchanged(ops: UrlOps, base: string, content: string)
    requires !Contains(content, Opening)
    ensures RewriteCssUrls(ops, base, content) == content
  {
    var ps := Tokenize(content);
    forall k | 0 <= k < |ps| ensures ps[k].Lit? {
      if ps[k].Url? {
        UrlPieceShows(ps, k);
      }
    }
    RenderLiterals(ops, base, ps);
  }

  /** Where a match starts, the scan takes it whole. */
  lemma TokenizeAtMatch(inner: string, after: string)
    requires ')' !in inner && '\n' !in inner
    ensures Tokenize(Opening + inner + ")" + after) == [Url(inner)] + Tokenize(after)
  {
    var s := Opening + inner + ")" + after;
    var t := inner + ")" + after;
    assert s == Opening + t;
    assert s[..4] == Opening && s[4..] == t;
    GroupEndAtClose(inner, after);
    assert t[..|inner|] == inner && t[|inner| + 1..] == after;
    assert MatchesAt(s);
  }

  /** Where no match starts, the scan copies one character. */
  lemma TokenizeAtLiteral(s: string)
    requires |s| > 0 && !MatchesAt(s)
    ensures Tokenize(s) == [Lit(s[0])] + Tokenize(s[1..])
  {
  }

  /** Dropping the first character of a text without `url(` leaves a text
      without `url(`. */
  lemma NoOpeningInTail(s: string)
    requires |s| > 0 && !Contains(s, Opening)
    ensures !Contains(s[1..], Opening)
  {
    if Contains(s[1..], Opening) {
      var i :| 0 <= i <= |s[1..]| - 4 && OccursAt(s[1..], Opening, i);
      assert s[1 + i..1 + i + 4] == s[1..][i..i + 4];
      assert OccursAt(s, Opening, 1 + i);
    }
  }

  /** Text holding no `url(`, put in front of a text that starts with
      `url(`, cannot start a match: `url(` does not overlap itself. */
  lemma NoMatchBeforeOpening(before: string, rest: string)
    requires |before| > 0 && !Contains(before, Opening)
    requires StartsWith(rest, Opening)
    ensures !StartsWith(before + rest, Opening)
  {
    var s := before + rest;
    if |before| >= 4 {
      assert !OccursAt(before, Opening, 0);
      assert before[..4] == s[..4];
    } else {
      assert s[|before|] == rest[0] == 'u';
      assert Opening[|before|] != 'u';
    }
  }

  /** Text without `url(` in front of a match is copied through, and the
      scan goes on where it ends. */
  lemma {:induction false} RewriteAfterPlainText(ops: UrlOps, base: string, before: string, rest: string)
    requires !Contains(before, Opening)
    requires StartsWith(rest, Opening)
    ensures RewriteCssUrls(ops, base, before + rest) == before + RewriteCssUrls(ops, base, rest)
    decreases |before|
  {
    if before == [] {
      assert before + rest == rest;
    } else {
      var s := before + rest;
      NoMatchBeforeOpening(before, rest);
      NoOpeningInTail(before);
      assert s[0] == before[0] && s[1..] == before[1..] + rest;
      RewriteAtLiteral(ops, base, s);
      RewriteAfterPlainText(ops, base, before[1..], rest);
      assert [before[0]] + (before[1..] + RewriteCssUrls(ops, base, rest)) == ([before[0]] + before[1..]) + RewriteCssUrls(ops, base, rest);
      assert [before[0]] + before[1..] == before;
    }
  }

  /** A declaration `<before>url(<inner>)<after>` with no `url(` in
      `before` and no `)` or newline in `inner` becomes
      `<before>url('<proxied>')` followed by the rewritten `after`: only
      the reference changes. */
  lemma RewriteAroundMatch(ops: UrlOps, base: string, before: string, inner: string, after: string)
    requires !Contains(before, Opening)
    requires ')' !in inner && '\n' !in inner
    ensures RewriteCssUrls(ops, base, before + (Opening + inner + ")" + after))
         == before + (Replacement(ops, base, inner) + RewriteCssUrls(ops, base, after))
  {
    RewriteAfterPlainText(ops, base, before, Opening + inner + ")" + after);
    RewriteAtMatch(ops, base, inner, after);
  }

  /** A match at the start is replaced, and the scan resumes after it. */
  lemma RewriteAtMatch(ops: UrlOps, base: string, inner: string, after: string)
    requires ')' !in inner && '\n' !in inner
    ensures RewriteCssUrls(ops, base, Opening + inner + ")" + after)
         == Replacement(ops, base, inner) + RewriteCssUrls(ops, base, after)
  {
    TokenizeAtMatch(inner, after);
    RenderCons(ops, base, Url(inner), Tokenize(after));
  }

  /** Where no match starts, one character is copied. */
  lemma RewriteAtLiteral(ops: UrlOps, base: string, s: string)
    requires |s| > 0 && !MatchesAt(s)
    ensures RewriteCssUrls(ops, base, s) == [s[0]] + RewriteCssUrls(ops, base, s[1..])
  {
    TokenizeAtLiteral(s);
    RenderCons(ops, base, Lit(s[0]), Tokenize(s[1..]));
  }

  /** The group ends at the first `)` when none and no newline precedes it. */
  lemma GroupEndAtClose(inner: string, after: string)
    requires ')' !in inner && '\n' !in inner
    ensures GroupEnd(inner + ")" + after) == Some(|inner|)
  {
    var t := inner + ")" + after;
    assert t[|inner|] == ')';
    assert forall k :: 0 <= k < |inner| ==> t[k] == inner[k];
  }

  /** The quotes around a reference are dropped, whichever kind they are;
      the reference itself is kept whole. */
  lemma StripQuotesAround(q: char, ref: string, q': char)
    requires q in Quotes && q' in Quotes
    requires ref == [] || (ref[0] !in Quotes && ref[|ref| - 1] !in Quotes)
    ensures Strip([q] + ref + [q'], Quotes) == ref
  {
    var t := ref + [q'];
    assert [q] + ref + [q'] == [q] + t;
    TrimStartStep(q, t, Quotes);
    if ref == [] {
      TrimStartStep(q', [], Quotes);
      assert t == [q'] + [];
    } else {
      assert t[0] == ref[0];
      TrimStartStops(t, Quotes);
      TrimEndStep(ref, q', Quotes);
      TrimEndStops(ref, Quotes);
    }
  }
}
