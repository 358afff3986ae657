/** COSURI: breaks an object-storage URI into bucket, key, region, version id and a
    path-style flag. The private constructor COSURI(URI, boolean) is the function
    Parse, and the exceptions it throws are Failure values of Errors.Error, with one
    difference: Parse splits a path-style path with the corrected PathStyleLocation,
    which reads an empty path like "/", where the constructor as written throws
    StringIndexOutOfBoundsException (PathStyleLocationAsWritten). */
module CosUriParser {
  import opened Wrappers
  import opened Errors
  import opened JavaStrings
  import opened PercentDecoding
  import opened EndpointPattern
  import opened VersionId

  /** A java.net.URI, given by the accessors the constructor calls; None is null.
      path is getPath() (decoded by java.net.URI), rawPath is getRawPath(). */
  datatype Uri = Uri(
    scheme: Option<string>,
    authority: Option<string>,
    host: Option<string>,
    path: Option<string>,
    rawPath: Option<string>,
    rawQuery: Option<string>)

  /** What java.net.URI guarantees the constructor: a URI with an authority or a host
      is hierarchical, so its path and raw path are not null. */
  predicate WellFormed(u: Uri) {
    (u.authority.Some? || u.host.Some?) ==> u.path.Some? && u.rawPath.Some?
  }

  /** The immutable result: the source URI and the five extracted fields. */
  datatype CosUri = CosUri(
    uri: Uri,
    isPathStyle: bool,
    bucket: Option<string>,
    key: Option<string>,
    versionId: Option<string>,
    region: Option<string>)

  /** The bucket and key one addressing style extracts. */
  datatype Location = Location(bucket: Option<string>, key: Option<string>)

  /** "cos".equalsIgnoreCase(scheme), letter by letter; a null scheme never matches. */
  function IsCosScheme(scheme: Option<string>): (b: bool)
    ensures b <==> scheme.Some? && EqualsIgnoreCaseAscii("cos", scheme.value)
  {
    scheme.Some? && |scheme.value| == 3 &&
    scheme.value[0] in "cC" && scheme.value[1] in "oO" && scheme.value[2] in "sS"
  }

  /** Path-style bucket and key, as the source computes them: the path is split at
      the first '/' after its leading one, and both parts are percent-decoded. On an
      empty path, path.substring(1) throws StringIndexOutOfBoundsException. */
  function PathStyleLocationAsWritten(path: string): (r: Result<Location, Error>)
    ensures path == [] <==> r == Failure(IndexOutOfBounds)
    ensures path == "/" ==> r == Success(Location(None, None))
  {
    if path == "/" then Success(Location(None, None))
    else
      var index := IndexOf(path, '/', 1);
      if index == -1 then
        if |path| < 1 then Failure(IndexOutOfBounds)
        else
          var bucket :- PercentDecode(path[1..]);
          Success(Location(Some(bucket), None))
      else if index == |path| - 1 then
        var bucket :- PercentDecode(path[1..index]);
        Success(Location(Some(bucket), None))
      else
        var bucket :- PercentDecode(path[1..index]);
        var key :- PercentDecode(path[index + 1..]);
        Success(Location(Some(bucket), Some(key)))
  }

  /** A decoded bucket with no key, or the decoder's failure. */
  function BucketOnly(bucket: Result<string, Error>): Result<Location, Error> {
    if bucket.Success? then Success(Location(Some(bucket.value), None)) else Failure(InvalidEscape)
  }

  /** No '/' after the first character: the rest of the path is the bucket, decoded,
      and there is no key. */
  lemma PathStyleBucketOnly(c: char, b: string)
    requires '/' !in b && [c] + b != "/"
    ensures PathStyleLocationAsWritten([c] + b) == BucketOnly(PercentDecode(b))
  {
    var path := [c] + b;
    forall k | 1 <= k < |path| ensures path[k] != '/' {
      assert path[k] == b[k - 1];
    }
    assert path[1..] == b;
  }

  /** A '/' that ends the path is the first after the leading character: the text
      between is the bucket, decoded, and there is no key. */
  lemma PathStyleBucketWithSlash(c: char, b: string)
    requires '/' !in b
    ensures PathStyleLocationAsWritten([c] + b + "/") == BucketOnly(PercentDecode(b))
  {
    var path := [c] + b + "/";
    forall k | 1 <= k < |b| + 1 ensures path[k] != '/' {
      assert path[k] == b[k - 1];
    }
    IndexOfFirst(path, '/', 1, |b| + 1);
    assert path[1..|b| + 1] == b;
  }

  /** Otherwise the path splits at its first '/' after the leading character: the
      bucket before it and the key after it, both decoded; the key may hold '/'. */
  lemma PathStyleBucketAndKey(c: char, b: string, k: string)
    requires '/' !in b && k != []
    ensures PathStyleLocationAsWritten([c] + b + "/" + k) ==
      if PercentDecode(b).Success? && PercentDecode(k).Success?
      then Success(Location(Some(PercentDecode(b).value), Some(PercentDecode(k).value)))
      else Failure(InvalidEscape)
  {
    var head := [c] + b + "/";
    var path := head + k;
    forall j | 1 <= j < |b| + 1 ensures path[j] != '/' {
      assert path[j] == head[j] == b[j - 1];
    }
    assert path[|b| + 1] == head[|b| + 1] == '/';
    IndexOfFirst(path, '/', 1, |b| + 1);
    assert path[1..|b| + 1] == b;
    assert path[|b| + 2..] == k;
  }

  /** Path-style bucket and key with the empty path read like "/", the endpoint root.
      A key is never found without a bucket, and the only failure is a bad escape. */
  function PathStyleLocation(path: string): (r: Result<Location, Error>)
    ensures r.Success? && r.value.bucket.None? ==> r.value.key.None?
    ensures r.Failure? ==> r.error == InvalidEscape
    ensures path != [] ==> r == PathStyleLocationAsWritten(path)
  {
    if path == [] then Success(Location(None, None)) else PathStyleLocationAsWritten(path)
  }

  /** Virtual-hosted bucket and key: the bucket is the host prefix without its last
      character (the '.' the pattern ends it with), the key is the path without its
      leading '/', absent for a null, empty or "/" path. Neither is decoded. */
  function VirtualHostedLocation(prefix: string, path: Option<string>): (r: Location)
    requires |prefix| >= 1
    ensures r.bucket.Some? && r.bucket.value + [prefix[|prefix| - 1]] == prefix
    ensures r.key.None? <==> path.None? || path.value == [] || path.value == "/"
    ensures r.key.Some? ==> path.Some? && path.value == [path.value[0]] + r.key.value
  {
    var bucket := prefix[..|prefix| - 1];
    match path
    case None => Location(Some(bucket), None)
    case Some(p) => if p == [] || p == "/" then Location(Some(bucket), None) else Location(Some(bucket), Some(p[1..]))
  }

  /** The region a matched token stands for: the token itself, except that
      "amazonaws" marks the default region and gives none. */
  function RegionOf(token: string): (r: Option<string>)
    ensures r.None? <==> token == "amazonaws"
    ensures r.Some? ==> r.value == token
  {
    if token == "amazonaws" then None else Some(token)
  }

  /** The private constructor COSURI(URI, boolean), with the corrected path-style
      split. A result never has a key without a bucket, and a cos: URI never has a
      region or a version id. */
  function Parse(uri: Uri, urlEncode: bool): (r: Result<CosUri, Error>)
    requires WellFormed(uri)
    ensures r.Success? ==> r.value.uri == uri
    ensures r.Success? && r.value.bucket.None? ==> r.value.key.None?
    ensures r.Success? && IsCosScheme(uri.scheme) ==>
      r.value.region.None? && r.value.versionId.None? && !r.value.isPathStyle
  {
    if IsCosScheme(uri.scheme) then
      if uri.authority.None? then Failure(InvalidUri(NoBucket))
      else
        var path := uri.path.value;
        var key := if |path| <= 1 then None else Some(path[1..]);
        Success(CosUri(uri, false, uri.authority, key, None, None))
    else if uri.host.None? then Failure(InvalidUri(NoHostname))
    else
      match MatchEndpoint(uri.host.value)
      case None => Failure(InvalidUri(NotAnEndpoint))
      case Some(m) =>
        var isPathStyle := m.prefix.None? || m.prefix.value == [];
        var location :-
          if isPathStyle then PathStyleLocation(if urlEncode then uri.path.value else uri.rawPath.value)
          else Success(VirtualHostedLocation(m.prefix.value, uri.path));
        var versionId :- VersionIdOf(uri.rawQuery);
        Success(CosUri(uri, isPathStyle, location.bucket, location.key, versionId, RegionOf(m.region)))
  }

  /** A cos: URI (scheme compared ignoring case) takes its bucket from the authority,
      undecoded, and fails without one; its key is the path after the leading '/',
      undecoded, absent when the path has at most one character. */
  lemma CosSchemeParse(uri: Uri, urlEncode: bool)
    requires WellFormed(uri) && IsCosScheme(uri.scheme)
    ensures Parse(uri, urlEncode).Failure? <==> uri.authority.None?
    ensures uri.authority.None? ==> Parse(uri, urlEncode).error == InvalidUri(NoBucket)
    ensures Parse(uri, urlEncode).Success? ==>
      var c := Parse(uri, urlEncode).value;
      c.bucket == uri.authority &&
      (c.key.None? <==> |uri.path.value| <= 1) &&
      (c.key.Some? ==> uri.path.value == [uri.path.value[0]] + c.key.value)
  {
  }

  /** An endpoint URI fails without a host, and fails when the host does not match
      the endpoint pattern at all. */
  lemma EndpointRejected(uri: Uri, urlEncode: bool)
    requires WellFormed(uri) && !IsCosScheme(uri.scheme)
    ensures uri.host.None? ==> Parse(uri, urlEncode) == Failure(InvalidUri(NoHostname))
    ensures uri.host.Some? && (forall q: nat, region :: !Matches(uri.host.value, q, region)) ==>
      Parse(uri, urlEncode) == Failure(InvalidUri(NotAnEndpoint))
  {
    if uri.host.Some? {
      MatchEndpointSpec(uri.host.value);
    }
  }

  /** Path style: when the pattern matches only with no prefix, the URI is path-style,
      bucket and key come from the decoded path (getPath()) when urlEncode is set and
      from the raw path otherwise, the version id from the raw query, and the region
      is the captured token unless it is "amazonaws". Only bad escapes fail. */
  lemma PathStyleParse(uri: Uri, urlEncode: bool, region: string)
    requires WellFormed(uri) && !IsCosScheme(uri.scheme) && uri.host.Some?
    requires Matches(uri.host.value, 0, region)
    requires forall q: nat, token :: 0 < q ==> !Matches(uri.host.value, q, token)
    ensures
      var location := PathStyleLocation(if urlEncode then uri.path.value else uri.rawPath.value);
      var versionId := VersionIdOf(uri.rawQuery);
      var r := Parse(uri, urlEncode);
      (r.Success? <==> location.Success? && versionId.Success?) &&
      (r.Failure? ==> r.error == InvalidEscape) &&
      (r.Success? ==>
        r.value.isPathStyle &&
        Location(r.value.bucket, r.value.key) == location.value &&
        r.value.versionId == versionId.value &&
        r.value.region == RegionOf(region))
  {
    var h := uri.host.value;
    MatchEndpointSpec(h);
    var m := MatchEndpoint(h).value;
    assert PrefixLength(m) == 0;
    MatchTailSpec(h, 0, region);
    MatchTailSpec(h, 0, m.region);
  }

  /** Virtual-hosted style: when the longest prefix the pattern admits is h[..q], the
      URI is not path-style, the bucket is h[..q - 1] (the prefix without its '.'),
      the key is the path after its leading '/', neither decoded. */
  lemma VirtualHostedParse(uri: Uri, urlEncode: bool, q: nat, region: string)
    requires WellFormed(uri) && !IsCosScheme(uri.scheme) && uri.host.Some?
    requires q > 0 && Matches(uri.host.value, q, region)
    requires forall q': nat, token :: q < q' ==> !Matches(uri.host.value, q', token)
    ensures
      var versionId := VersionIdOf(uri.rawQuery);
      var r := Parse(uri, urlEncode);
      (r.Success? <==> versionId.Success?) &&
      (r.Failure? ==> r.error == InvalidEscape) &&
      (r.Success? ==>
        !r.value.isPathStyle &&
        r.value.bucket == Some(uri.host.value[..q - 1]) &&
        r.value.key == VirtualHostedLocation(uri.host.value[..q], uri.path).key &&
        r.value.versionId == versionId.value &&
        r.value.region == RegionOf(region))
  {
    var h := uri.host.value;
    MatchEndpointSpec(h);
    var m := MatchEndpoint(h).value;
    assert PrefixLength(m) == q;
    MatchTailSpec(h, q, region);
    MatchTailSpec(h, q, m.region);
    assert h[..q][..q - 1] == h[..q - 1];
  }

  /** equals: structural over the URI, the flag and the four optional fields. */
  function Equals(a: CosUri, b: CosUri): (r: bool)
    ensures r <==> a == b
  {
    a.isPathStyle == b.isPathStyle && a.uri == b.uri && a.bucket == b.bucket &&
    a.key == b.key && a.versionId == b.versionId && a.region == b.region
  }

  /** preprocessUrlStr: with encode unset the string passes through; with it set, the
      form-encoded string (urlEncoder stands for URLEncoder.encode) gets "%3A" back
      to ':', "%2F" back to '/', and every '+' to "%20", so no '+' is left. */
  function PreprocessUrlStr(str: string, encode: bool, urlEncoder: string -> string): (r: string)
    ensures !encode ==> r == str
    ensures encode ==> '+' !in r
  {
    if encode then
      var restored := Replace(Replace(urlEncoder(str), "%3A", ":"), "%2F", "/");
      ReplaceRemovesChar(restored, '+', "%20");
      Replace(restored, "+", "%20")
    else str
  }
}
