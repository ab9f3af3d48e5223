/** The Python `str` operations the proxy relies on, over `seq<char>`:
    `in`, `startswith`, `find`, `split(sep)`, `sep.join`, `strip(chars)`
    and `lower()`. */
module Text {

  datatype Option<T> = None | Some(value: T)

  /** Python's `c.isspace()`: the ASCII controls tab to carriage return
      and the file, group, record and unit separators, the space, and the
      Unicode space and line or paragraph separator characters. */
  predicate IsSpace(c: char)
  {
    c == ' ' || '\t' <= c <= '\r' || '\U{001C}' <= c <= '\U{001F}' ||
    c == '\U{0085}' || c == '\U{00A0}' || c == '\U{1680}' || '\U{2000}' <= c <= '\U{200A}' ||
    c == '\U{2028}' || c == '\U{2029}' || c == '\U{202F}' || c == '\U{205F}' || c == '\U{3000}'
  }

  /** The characters `str.strip()` removes when called without arguments. */
  const Whitespace: set<char> := set c: char | '\t' <= c <= '\U{3000}' && IsSpace(c)

  predicate StartsWith(s: string, prefix: string)
  {
    |prefix| <= |s| && s[..|prefix|] == prefix
  }

  /** `pat` occurs in `s` starting at index `i`. */
  predicate OccursAt(s: string, pat: string, i: int)
  {
    0 <= i && i + |pat| <= |s| && s[i..i + |pat|] == pat
  }

  /** Python's `pat in s`. */
  predicate Contains(s: string, pat: string)
  {
    exists i | 0 <= i <= |s| - |pat| :: OccursAt(s, pat, i)
  }

  /** The first occurrence of `pat` at or after index `k`. */
  function FindFrom(s: string, pat: string, k: nat): (r: Option<nat>)
    decreases |s| - k
    ensures r.Some? ==> k <= r.value && r.value + |pat| <= |s|
  {
    if k + |pat| > |s| then None
    else if OccursAt(s, pat, k) then Some(k)
    else FindFrom(s, pat, k + 1)
  }

  /** `FindFrom` finds an occurrence, and none is skipped. */
  lemma {:induction false} FindFromFirst(s: string, pat: string, k: nat)
    decreases |s| - k
    ensures var r := FindFrom(s, pat, k);
            (r.Some? ==> OccursAt(s, pat, r.value) && forall j :: k <= j < r.value ==> !OccursAt(s, pat, j)) &&
            (r.None? ==> forall j :: k <= j ==> !OccursAt(s, pat, j))
  {
    if k + |pat| <= |s| && !OccursAt(s, pat, k) {
      FindFromFirst(s, pat, k + 1);
    }
  }

  /** Python's `s.find(pat)`, with `None` for -1. */
  function Find(s: string, pat: string): (r: Option<nat>)
    ensures r.Some? ==> r.value + |pat| <= |s|
  {
    FindFrom(s, pat, 0)
  }

  /** `Find` succeeds exactly when `pat` occurs, and then gives its first
      occurrence. */
  lemma FindFirst(s: string, pat: string)
    ensures Find(s, pat).Some? <==> Contains(s, pat)
    ensures Find(s, pat).Some? ==> OccursAt(s, pat, Find(s, pat).value)
    ensures Find(s, pat).Some? ==> forall j :: 0 <= j < Find(s, pat).value ==> !OccursAt(s, pat, j)
  {
    FindFromFirst(s, pat, 0);
  }

  /** `Find` succeeds exactly when `pat` occurs. */
  lemma FindIffContains(s: string, pat: string)
    ensures Find(s, pat).Some? <==> Contains(s, pat)
  {
    FindFirst(s, pat);
  }

  /** Python's `sep.join(parts)`. */
  function Join(parts: seq<string>, sep: string): string
  {
    if |parts| == 0 then ""
    else if |parts| == 1 then parts[0]
    else parts[0] + sep + Join(parts[1..], sep)
  }

  /** An occurrence inside a prefix of `s` is an occurrence in `s`. */
  lemma OccursInPrefix(s: string, pat: string, n: nat, j: int)
    requires n <= |s|
    requires OccursAt(s[..n], pat, j)
    ensures OccursAt(s, pat, j)
  {
    assert s[..n][j..j + |pat|] == s[j..j + |pat|];
  }

  /** Python's `s.split(sep)`: scanning left to right, the text is cut at
      each occurrence of `sep` that does not overlap an earlier cut. */
  function Split(s: string, sep: string): (parts: seq<string>)
    requires |sep| > 0
    decreases |s|
    ensures |parts| >= 1
  {
    match Find(s, sep)
    case None => [s]
    case Some(i) => [s[..i]] + Split(s[i + |sep|..], sep)
  }

  /** No part of a split holds the separator. */
  lemma {:induction false} SplitPartsLackSeparator(s: string, sep: string)
    requires |sep| > 0
    decreases |s|
    ensures forall k :: 0 <= k < |Split(s, sep)| ==> !Contains(Split(s, sep)[k], sep)
  {
    FindIffContains(s, sep);
    match Find(s, sep)
    case None =>
    case Some(i) =>
      var rest := s[i + |sep|..];
      SplitAtFirst(s, sep, i);
      SplitPartsLackSeparator(rest, sep);
      NoSeparatorBeforeFirst(s, sep, i);
      var parts := Split(s, sep);
      forall k | 0 < k < |parts| ensures parts[k] == Split(rest, sep)[k - 1] {
      }
  }

  /** The text before the first separator holds none. */
  lemma NoSeparatorBeforeFirst(s: string, sep: string, i: nat)
    requires |sep| > 0 && Find(s, sep) == Some(i)
    ensures i <= |s| && !Contains(s[..i], sep)
  {
    FindFirst(s, sep);
    forall j | OccursAt(s[..i], sep, j) ensures false {
      OccursInPrefix(s, sep, i, j);
    }
  }

  /** Joining the parts with the separator gives back the text: splitting
      loses nothing. */
  lemma {:induction false} SplitJoin(s: string, sep: string)
    requires |sep| > 0
    decreases |s|
    ensures Join(Split(s, sep), sep) == s
  {
    FindFirst(s, sep);
    match Find(s, sep)
    case None =>
    case Some(i) =>
      var rest := s[i + |sep|..];
      SplitAtFirst(s, sep, i);
      SplitJoin(rest, sep);
      var parts := Split(s, sep);
      assert parts[0] == s[..i] && parts[1..] == Split(rest, sep);
      assert s == s[..i] + sep + rest;
  }

  /** One step of `Split`: the part before the first separator, then the
      split of the rest. */
  lemma SplitAtFirst(s: string, sep: string, i: nat)
    requires |sep| > 0 && Find(s, sep) == Some(i)
    ensures i + |sep| <= |s|
    ensures Split(s, sep) == [s[..i]] + Split(s[i + |sep|..], sep)
  {
  }

  /** Python's `s.split(sep)[0]`. */
  function FirstPart(s: string, sep: string): string
    requires |sep| > 0
  {
    Split(s, sep)[0]
  }

  /** Python's `s.split(sep)[-1]`. */
  function LastPart(s: string, sep: string): string
    requires |sep| > 0
  {
    var parts := Split(s, sep);
    parts[|parts| - 1]
  }

  /** The first part is the text before the first separator, or all of `s`
      when there is none. */
  lemma FirstPartIsBeforeFirst(s: string, sep: string)
    requires |sep| > 0
    ensures StartsWith(s, FirstPart(s, sep))
    ensures Contains(s, sep) ==> OccursAt(s, sep, |FirstPart(s, sep)|)
    ensures forall j :: 0 <= j < |FirstPart(s, sep)| ==> !OccursAt(s, sep, j)
    ensures !Contains(s, sep) ==> FirstPart(s, sep) == s
  {
    FindFirst(s, sep);
    match Find(s, sep)
    case None =>
    case Some(i) =>
      SplitAtFirst(s, sep, i);
  }

  /** The last `n` characters of `s` directly follow an occurrence of `sep`. */
  predicate FollowsSeparator(s: string, sep: string, n: nat)
  {
    n + |sep| <= |s| && s[|s| - n - |sep|..|s| - n] == sep
  }

  /** The last part is the text after the last separator, or all of `s`
      when there is none: it holds no separator and, when there is one,
      directly follows it. */
  lemma {:induction false} LastPartIsAfterLast(s: string, sep: string)
    requires |sep| > 0
    decreases |s|
    ensures LastPartFacts(s, sep, LastPart(s, sep))
  {
    FindIffContains(s, sep);
    match Find(s, sep)
    case None =>
      assert Split(s, sep) == [s];
      assert s[|s| - |s|..] == s;
    case Some(i) =>
      var rest := s[i + |sep|..];
      LastPartStep(s, sep, i);
      LastPartIsAfterLast(rest, sep);
      LastPartAfterFirst(s, sep, i, LastPart(rest, sep));
  }

  /** What is known of the last part `r` of `s`: it holds no separator, it
      ends `s`, and it directly follows a separator when `s` holds one
      (otherwise it is `s` itself). */
  ghost predicate LastPartFacts(s: string, sep: string, r: string)
  {
    !Contains(r, sep) &&
    |r| <= |s| && r == s[|s| - |r|..] &&
    (Contains(s, sep) ==> FollowsSeparator(s, sep, |r|)) &&
    (!Contains(s, sep) ==> r == s)
  }

  /** The induction step: the last part of the text after the first
      separator is the last part of the whole. */
  lemma LastPartAfterFirst(s: string, sep: string, i: nat, r: string)
    requires |sep| > 0 && OccursAt(s, sep, i) && Contains(s, sep)
    requires LastPartFacts(s[i + |sep|..], sep, r)
    ensures LastPartFacts(s, sep, r)
  {
    var rest := s[i + |sep|..];
    if Contains(rest, sep) {
      assert FollowsSeparator(rest, sep, |r|);
    } else {
      assert |r| == |rest|;
    }
    SuffixAfterSeparator(s, sep, i, r);
  }

  /** The last part of a text with a separator is the last part of what
      follows its first separator. */
  lemma LastPartStep(s: string, sep: string, i: nat)
    requires |sep| > 0 && Find(s, sep) == Some(i)
    ensures OccursAt(s, sep, i)
    ensures LastPart(s, sep) == LastPart(s[i + |sep|..], sep)
  {
    FindFirst(s, sep);
    SplitAtFirst(s, sep, i);
  }

  /** A suffix of the text after a separator, that either is all of it
      or follows another separator, follows a separator in the whole. */
  lemma SuffixAfterSeparator(s: string, sep: string, i: nat, r: string)
    requires i + |sep| <= |s| && s[i..i + |sep|] == sep
    requires var rest := s[i + |sep|..];
      |r| <= |rest| && r == rest[|rest| - |r|..] &&
      (|r| == |rest| || FollowsSeparator(rest, sep, |r|))
    ensures |r| <= |s| && r == s[|s| - |r|..]
    ensures FollowsSeparator(s, sep, |r|)
  {
    var rest := s[i + |sep|..];
    assert forall k :: i + |sep| <= k < |s| ==> s[k] == rest[k - i - |sep|];
    assert s[|s| - |r|..] == rest[|rest| - |r|..];
    if |r| < |rest| {
      assert s[|s| - |r| - |sep|..|s| - |r|] == rest[|rest| - |r| - |sep|..|rest| - |r|];
    }
  }

  /** Searching for a one-character string is membership of that character. */
  lemma ContainsChar(s: string, c: char)
    ensures Contains(s, [c]) <==> c in s
  {
    if c in s {
      var i :| 0 <= i < |s| && s[i] == c;
      assert s[i..i + 1] == [c];
      assert OccursAt(s, [c], i);
    }
    if Contains(s, [c]) {
      var i :| 0 <= i <= |s| - 1 && OccursAt(s, [c], i);
      assert s[i..i + 1] == [s[i]];
    }
  }

  /** The text before the first occurrence of a character holds none. */
  lemma NoCharBeforeFirst(s: string, c: char, i: nat)
    requires Find(s, [c]) == Some(i)
    ensures i < |s| && s[i] == c && c !in s[..i]
  {
    FindFirst(s, [c]);
    assert s[i..i + 1] == [c];
    ContainsChar(s[..i], c);
    if Contains(s[..i], [c]) {
      var j :| 0 <= j <= i - 1 && OccursAt(s[..i], [c], j);
      OccursInPrefix(s, [c], i, j);
      assert false;
    }
  }

  /** Splitting on one character yields one more part than there are
      occurrences of that character. */
  lemma {:induction false} SplitCharCount(s: string, c: char)
    decreases |s|
    ensures |Split(s, [c])| == multiset(s)[c] + 1
  {
    FindIffContains(s, [c]);
    match Find(s, [c])
    case None =>
      ContainsChar(s, c);
    case Some(i) =>
      var rest := s[i + 1..];
      SplitAtFirst(s, [c], i);
      SplitCharCount(rest, c);
      NoCharBeforeFirst(s, c, i);
      CountAfterFirst(s, c, i);
  }

  /** When `s[i]` is the first `c`, the `c`s of `s` are that one and those
      after it. */
  lemma CountAfterFirst(s: string, c: char, i: nat)
    requires i < |s| && s[i] == c && c !in s[..i]
    ensures multiset(s)[c] == multiset(s[i + 1..])[c] + 1
  {
    assert s == s[..i] + [c] + s[i + 1..];
    assert multiset(s) == multiset(s[..i]) + multiset([c]) + multiset(s[i + 1..]);
  }

  /** Splitting is the inverse of joining whenever no part holds the
      separator's first character. */
  lemma {:induction false} SplitJoinInverse(parts: seq<string>, sep: string)
    requires |parts| >= 1 && |sep| > 0
    requires forall k :: 0 <= k < |parts| ==> sep[0] !in parts[k]
    ensures Split(Join(parts, sep), sep) == parts
  {
    var p := parts[0];
    if |parts| == 1 {
      NoLeadNoMatch(p, sep, "");
      FindIffContains(p, sep);
      assert Join(parts, sep) == p;
    } else {
      var rest := Join(parts[1..], sep);
      var s := p + sep + rest;
      assert Join(parts, sep) == s;
      FirstMatchAfterLeadFree(p, sep, rest);
      SplitAtFirst(s, sep, |p|);
      assert s[..|p|] == p;
      assert s[|p| + |sep|..] == rest;
      SplitJoinInverse(parts[1..], sep);
      assert parts == [p] + parts[1..];
    }
  }

  /** No occurrence of `sep` starts inside a text free of its first
      character. */
  lemma NoLeadNoMatch(p: string, sep: string, rest: string)
    requires |sep| > 0 && sep[0] !in p
    ensures forall j :: 0 <= j < |p| ==> !OccursAt(p + rest, sep, j)
    ensures rest == "" ==> !Contains(p, sep)
  {
    var s := p + rest;
    forall j | 0 <= j < |p| ensures !OccursAt(s, sep, j) {
      assert s[j] == p[j] != sep[0];
      if j + |sep| <= |s| {
        assert s[j..j + |sep|][0] == s[j];
      }
    }
    if rest == "" {
      assert s == p;
    }
  }

  /** In `p + sep + rest`, with `p` free of the separator's first
      character, the first separator is the one after `p`. */
  lemma FirstMatchAfterLeadFree(p: string, sep: string, rest: string)
    requires |sep| > 0 && sep[0] !in p
    ensures Find(p + sep + rest, sep) == Some(|p|)
  {
    var s := p + sep + rest;
    FindFirst(s, sep);
    assert s == p + (sep + rest);
    NoLeadNoMatch(p, sep, sep + rest);
    assert s[|p|..|p| + |sep|] == sep;
    assert OccursAt(s, sep, |p|);
  }

  /** Python's `s.lstrip(chars)`: a suffix of `s`. */
  function TrimStart(s: string, chars: set<char>): (r: string)
    ensures |r| <= |s| && r == s[|s| - |r|..]
  {
    if |s| > 0 && s[0] in chars then TrimStart(s[1..], chars) else s
  }

  /** Python's `s.rstrip(chars)`: a prefix of `s`. */
  function TrimEnd(s: string, chars: set<char>): (r: string)
    ensures |r| <= |s| && r == s[..|r|]
  {
    if |s| > 0 && s[|s| - 1] in chars then TrimEnd(s[..|s| - 1], chars) else s
  }

  /** `lstrip` removes only characters of `chars`, and all of them up to
      the first other character. */
  lemma {:induction false} TrimStartRemovesLeading(s: string, chars: set<char>)
    decreases |s|
    ensures var r := TrimStart(s, chars);
            (forall k :: 0 <= k < |s| - |r| ==> s[k] in chars) && (r == [] || r[0] !in chars)
  {
    if |s| > 0 && s[0] in chars {
      TrimStartRemovesLeading(s[1..], chars);
      var r := TrimStart(s, chars);
      forall k | 1 <= k < |s| - |r| ensures s[k] in chars {
        assert s[k] == s[1..][k - 1];
      }
    }
  }

  /** `rstrip` removes only characters of `chars`, and all of them back to
      the last other character. */
  lemma {:induction false} TrimEndRemovesTrailing(s: string, chars: set<char>)
    decreases |s|
    ensures var r := TrimEnd(s, chars);
            (forall k :: |r| <= k < |s| ==> s[k] in chars) && (r == [] || r[|r| - 1] !in chars)
  {
    if |s| > 0 && s[|s| - 1] in chars {
      TrimEndRemovesTrailing(s[..|s| - 1], chars);
      var r := TrimEnd(s, chars);
      forall k | |r| <= k < |s| - 1 ensures s[k] in chars {
        assert s[k] == s[..|s| - 1][k];
      }
    }
  }

  /** An occurrence in either part is an occurrence in the concatenation. */
  lemma ContainsInConcat(a: string, b: string, pat: string)
    ensures Contains(a, pat) ==> Contains(a + b, pat)
    ensures Contains(b, pat) ==> Contains(a + b, pat)
  {
    if Contains(a, pat) {
      var i :| 0 <= i <= |a| - |pat| && OccursAt(a, pat, i);
      assert (a + b)[i..i + |pat|] == a[i..i + |pat|];
      assert OccursAt(a + b, pat, i);
    }
    if Contains(b, pat) {
      var i :| 0 <= i <= |b| - |pat| && OccursAt(b, pat, i);
      assert (a + b)[|a| + i..|a| + i + |pat|] == b[i..i + |pat|];
      assert OccursAt(a + b, pat, |a| + i);
    }
  }

  /** One step of `lstrip` and of `rstrip`, and where each stops. */
  lemma TrimStartStep(c: char, s: string, chars: set<char>)
    requires c in chars
    ensures TrimStart([c] + s, chars) == TrimStart(s, chars)
  {
    assert ([c] + s)[1..] == s;
  }

  lemma TrimEndStep(s: string, c: char, chars: set<char>)
    requires c in chars
    ensures TrimEnd(s + [c], chars) == TrimEnd(s, chars)
  {
    assert (s + [c])[..|s|] == s;
  }

  lemma TrimStartStops(s: string, chars: set<char>)
    requires s == [] || s[0] !in chars
    ensures TrimStart(s, chars) == s
  {
  }

  lemma TrimEndStops(s: string, chars: set<char>)
    requires s == [] || s[|s| - 1] !in chars
    ensures TrimEnd(s, chars) == s
  {
  }

  /** Python's `s.strip(chars)`. */
  function Strip(s: string, chars: set<char>): string
  {
    TrimEnd(TrimStart(s, chars), chars)
  }

  /** `strip` leaves a text that neither begins nor ends with one of
      `chars`, made only of characters of `s`. */
  lemma StripRemovesEnds(s: string, chars: set<char>)
    ensures var r := Strip(s, chars);
            (r == [] || (r[0] !in chars && r[|r| - 1] !in chars)) &&
            (forall c :: c in r ==> c in s)
  {
    var t := TrimStart(s, chars);
    TrimStartRemovesLeading(s, chars);
    TrimEndRemovesTrailing(t, chars);
    assert Strip(s, chars) == [] || Strip(s, chars)[0] == t[0];
    StripKeepsChars(s, chars);
  }

  /** `strip` keeps one contiguous slice `s[a..b]` of its input and
      removes only characters of `chars` on either side of it. */
  lemma StripIsSlice(s: string, chars: set<char>)
    ensures exists a, b :: 0 <= a <= b <= |s| && Strip(s, chars) == s[a..b] &&
              (forall k :: 0 <= k < a ==> s[k] in chars) &&
              (forall k :: b <= k < |s| ==> s[k] in chars)
  {
    var t := TrimStart(s, chars);
    TrimStartRemovesLeading(s, chars);
    TrimEndRemovesTrailing(t, chars);
    SliceOfSuffix(s, t, TrimEnd(t, chars), chars, |s| - |t|);
  }

  /** A prefix `r` of the suffix `t == s[a..]` is the slice `s[a..a + |r|]`;
      when what `t` drops before and `r` drops after lies in `chars`, so does
      everything of `s` outside that slice. */
  lemma SliceOfSuffix(s: string, t: string, r: string, chars: set<char>, a: int)
    requires 0 <= a <= |s| && t == s[a..] && |r| <= |t| && r == t[..|r|]
    requires forall k :: 0 <= k < a ==> s[k] in chars
    requires forall k :: |r| <= k < |t| ==> t[k] in chars
    ensures 0 <= a <= a + |r| <= |s| && r == s[a..a + |r|] &&
            (forall k :: 0 <= k < a ==> s[k] in chars) &&
            (forall k :: a + |r| <= k < |s| ==> s[k] in chars)
  {
    assert s[a..][..|r|] == s[a..a + |r|];
    forall k | a + |r| <= k < |s| ensures s[k] in chars {
      assert s[k] == t[k - a];
    }
  }

  /** `strip` only removes characters. */
  lemma StripKeepsChars(s: string, chars: set<char>)
    ensures forall c :: c in Strip(s, chars) ==> c in s
  {
    var t := TrimStart(s, chars);
    assert forall c :: c in t ==> c in s;
    assert forall c :: c in TrimEnd(t, chars) ==> c in t;
  }

  /** Python's `c.lower()` on ASCII letters. */
  function LowerChar(c: char): char
  {
    if 'A' <= c <= 'Z' then (c as int + 32) as char else c
  }

  /** Python's `s.lower()`, on ASCII letters. */
  function Lower(s: string): (r: string)
    ensures |r| == |s|
    ensures forall i :: 0 <= i < |s| ==> r[i] == LowerChar(s[i])
    ensures forall i :: 0 <= i < |r| ==> !('A' <= r[i] <= 'Z')
  {
    seq(|s|, i requires 0 <= i < |s| => LowerChar(s[i]))
  }
}
