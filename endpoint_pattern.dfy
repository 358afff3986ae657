/** The endpoint pattern ^(.+\.)?cos[.-]([a-z0-9-]+)\. of COSURI, matched by hand with
    the backtracking order of java.util.regex: the optional group is tried before it
    is skipped, and its greedy ".+" tries the longest prefix first, so the match found
    is the one whose prefix is longest, "no prefix" counting as length 0. */
module EndpointPattern {
  import opened Wrappers

  /** The characters '.' does not match without DOTALL. */
  predicate IsLineTerminator(c: char) {
    c == '\n' || c == '\r' || c == '\U{85}' || c == '\U{2028}' || c == '\U{2029}'
  }

  /** The class [a-z0-9-]. */
  predicate IsRegionChar(c: char) {
    ('a' <= c <= 'z') || ('0' <= c <= '9') || c == '-'
  }

  /** The first line terminator at or after i, or |h| if there is none. */
  function FirstLineTerminator(h: string, i: nat): (t: nat)
    requires i <= |h|
    ensures i <= t <= |h|
    ensures forall k :: i <= k < t ==> !IsLineTerminator(h[k])
    ensures t < |h| ==> IsLineTerminator(h[t])
    decreases |h| - i
  {
    if i == |h| || IsLineTerminator(h[i]) then i else FirstLineTerminator(h, i + 1)
  }

  /** The end of the longest run of region characters starting at i. */
  function RegionEnd(h: string, i: nat): (j: nat)
    requires i <= |h|
    ensures i <= j <= |h|
    ensures forall k :: i <= k < j ==> IsRegionChar(h[k])
    ensures j < |h| ==> !IsRegionChar(h[j])
    decreases |h| - i
  {
    if i < |h| && IsRegionChar(h[i]) then RegionEnd(h, i + 1) else i
  }

  /** The literal "cos" at position p, read character by character. */
  predicate StartsWithCos(h: string, p: nat)
    requires p + 3 <= |h|
  {
    h[p] == 'c' && h[p + 1] == 'o' && h[p + 2] == 's'
  }

  /** Matches cos[.-]([a-z0-9-]+)\. at position p and returns the captured region.
      The greedy run of region characters can only be followed by '.' at its maximal
      end, since '.' is not a region character. */
  function MatchTail(h: string, p: nat): (r: Option<string>)
    requires p <= |h|
    ensures r.Some? ==> r.value != [] && forall k :: 0 <= k < |r.value| ==> IsRegionChar(r.value[k])
  {
    if p + 4 <= |h| && StartsWithCos(h, p) && (h[p + 3] == '.' || h[p + 3] == '-') then
      var j := RegionEnd(h, p + 4);
      if j > p + 4 && j < |h| && h[j] == '.' then Some(h[p + 4..j]) else None
    else None
  }

  /** h, from position p, reads "cos", a separator '.' or '-', then region, then '.'. */
  predicate IsTail(h: string, p: nat, region: string) {
    p + 5 + |region| <= |h| &&
    h[p..p + 3] == "cos" && (h[p + 3] == '.' || h[p + 3] == '-') &&
    |region| > 0 && (forall k :: 0 <= k < |region| ==> IsRegionChar(region[k])) &&
    h[p + 4..p + 4 + |region|] == region && h[p + 4 + |region|] == '.'
  }

  /** MatchTail finds exactly the tails the pattern admits: the region is unique. */
  lemma MatchTailSpec(h: string, p: nat, region: string)
    requires p <= |h|
    ensures MatchTail(h, p) == Some(region) <==> IsTail(h, p, region)
  {
    if IsTail(h, p, region) {
      var e := p + 4 + |region|;
      forall k | p + 4 <= k < e ensures IsRegionChar(h[k]) {
        assert h[k] == region[k - p - 4];
      }
      RegionEndIsMaximal(h, p + 4, e);
    }
    if MatchTail(h, p) == Some(region) {
      var j := RegionEnd(h, p + 4);
      assert region == h[p + 4..j];
      forall k | 0 <= k < |region| ensures IsRegionChar(region[k]) {
        assert region[k] == h[p + 4 + k];
      }
    }
  }

  /** Any prefix, then "cos", a separator, a region and a '.', then anything: the tail
      is found right after the prefix and its region is captured. */
  lemma TailFound(prefix: string, separator: char, region: string, rest: string)
    requires separator == '.' || separator == '-'
    requires |region| > 0 && forall k :: 0 <= k < |region| ==> IsRegionChar(region[k])
    ensures MatchTail(prefix + "cos" + [separator] + region + "." + rest, |prefix|) == Some(region)
  {
    var h := prefix + "cos" + [separator] + region + "." + rest;
    var p := |prefix|;
    assert h[p..p + 3] == "cos";
    assert h[p + 3] == separator;
    assert h[p + 4..p + 4 + |region|] == region;
    assert h[p + 4 + |region|] == '.';
    MatchTailSpec(h, p, region);
  }

  /** A run of region characters from i ending just before a non-region character at
      e is the run RegionEnd finds. */
  lemma {:induction false} RegionEndIsMaximal(h: string, i: nat, e: nat)
    requires i <= e < |h|
    requires forall k :: i <= k < e ==> IsRegionChar(h[k])
    requires !IsRegionChar(h[e])
    ensures RegionEnd(h, i) == e
    decreases e - i
  {
    if i < e {
      RegionEndIsMaximal(h, i + 1, e);
    }
  }

  /** The optional group (.+\.) matches h[..q]: at least one character that is not a
      line terminator, then '.'. */
  predicate IsPrefixEnd(h: string, q: nat) {
    2 <= q <= |h| && h[q - 1] == '.' && forall k :: 0 <= k < q - 1 ==> !IsLineTerminator(h[k])
  }

  /** The whole pattern matches h with a prefix of length q (0 when the group is
      skipped) and captures region. */
  predicate Matches(h: string, q: nat, region: string) {
    (q == 0 || IsPrefixEnd(h, q)) && q <= |h| && IsTail(h, q, region)
  }

  /** What Matcher.find() reports: group(1), null when the group did not take part,
      and group(2). */
  datatype EndpointMatch = EndpointMatch(prefix: Option<string>, region: string)

  /** The prefix length of a match, 0 for no prefix. */
  function PrefixLength(m: EndpointMatch): nat {
    if m.prefix.Some? then |m.prefix.value| else 0
  }

  /** Tries the prefix lengths p, p - 1, ..., 2 in turn, as the backtracking of ".+"
      does, and returns the first that is followed by a tail, with its region. */
  function SearchPrefix(h: string, p: nat): (r: Option<(nat, string)>)
    requires p <= |h|
    ensures r.Some? ==> 2 <= r.value.0 <= p && r.value.1 != []
    decreases p
  {
    if p < 2 then None
    else if h[p - 1] == '.' && MatchTail(h, p).Some? then Some((p, MatchTail(h, p).value))
    else SearchPrefix(h, p - 1)
  }

  /** The search returns the largest prefix length up to p that ends in '.' and is
      followed by a tail, and nothing when there is none. */
  lemma {:induction false} SearchPrefixSpec(h: string, p: nat)
    requires p <= |h|
    ensures var r := SearchPrefix(h, p);
      r.Some? ==> 2 <= r.value.0 <= p && h[r.value.0 - 1] == '.' && MatchTail(h, r.value.0) == Some(r.value.1)
    ensures var r := SearchPrefix(h, p);
      r.Some? ==> forall q :: r.value.0 < q <= p ==> h[q - 1] != '.' || MatchTail(h, q).None?
    ensures SearchPrefix(h, p).None? ==> forall q :: 2 <= q <= p ==> h[q - 1] != '.' || MatchTail(h, q).None?
    decreases p
  {
    if p >= 2 && !(h[p - 1] == '.' && MatchTail(h, p).Some?) {
      SearchPrefixSpec(h, p - 1);
    }
  }

  /** Matcher.find() on the anchored pattern. The greedy ".+" first runs up to the
      first line terminator, so the search for the group starts there; when no
      prefix works, the group is skipped and the tail is tried at position 0. */
  function MatchEndpoint(h: string): (r: Option<EndpointMatch>)
    ensures r.Some? ==> r.value.region != []
    ensures r.Some? && r.value.prefix.Some? ==> |r.value.prefix.value| >= 2
  {
    var t := FirstLineTerminator(h, 0);
    match SearchPrefix(h, t)
    case Some((p, region)) => Some(EndpointMatch(Some(h[..p]), region))
    case None =>
      match MatchTail(h, 0)
      case Some(region) => Some(EndpointMatch(None, region))
      case None => None
  }

  /** The matcher follows Java's semantics: it fails exactly when the pattern does
      not match at all, and otherwise it reports the match with the longest prefix,
      whose group(1) is h[..q] and, when present, at least two characters long. */
  lemma MatchEndpointSpec(h: string)
    ensures MatchEndpoint(h).None? <==> forall q: nat, region :: !Matches(h, q, region)
    ensures MatchEndpoint(h).Some? ==>
      var m := MatchEndpoint(h).value;
      var q := PrefixLength(m);
      Matches(h, q, m.region) &&
      (m.prefix.Some? ==> |m.prefix.value| >= 2 && m.prefix.value == h[..q]) &&
      forall q': nat, region :: q < q' ==> !Matches(h, q', region)
  {
    var t := FirstLineTerminator(h, 0);
    SearchPrefixSpec(h, t);
    // Beyond t the group cannot match: its ".+" would have to cross a line terminator.
    forall q: nat | t < q ensures !IsPrefixEnd(h, q) {
      if t < |h| && q <= |h| {
        assert IsLineTerminator(h[t]);
      }
    }
    // Below t, the group matches exactly where the search looks.
    forall q: nat, region | 2 <= q <= t && Matches(h, q, region)
      ensures h[q - 1] == '.' && MatchTail(h, q).Some?
    {
      MatchTailSpec(h, q, region);
    }
    match SearchPrefix(h, t)
    case Some((p, region)) =>
      MatchTailSpec(h, p, region);
      assert IsPrefixEnd(h, p);
      assert |h[..p]| == p;
      assert Matches(h, p, region);
    case None =>
      match MatchTail(h, 0)
      case Some(region) =>
        MatchTailSpec(h, 0, region);
        assert Matches(h, 0, region);
      case None =>
        forall region ensures !Matches(h, 0, region) {
          MatchTailSpec(h, 0, region);
        }
  }
}
