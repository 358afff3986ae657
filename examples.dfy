/** Worked examples of the parser on concrete URIs. Each Uri lists what
    java.net.URI reports for the URI named in the comment. */
module ParseExamples {
  import opened Wrappers
  import opened Errors
  import opened EndpointPattern
  import opened CosUriParser
  import opened JavaStrings
  import opened PercentDecoding
  import opened VersionId
  import opened EndpointExamples

  /** cos://mybucket/my/key: bucket from the authority, key from the path. */
  lemma CosSchemeExample()
    ensures
      var u := Uri(Some("cos"), Some("mybucket"), Some("mybucket"), Some("/my/key"), Some("/my/key"), None);
      Parse(u, true) == Success(CosUri(u, false, Some("mybucket"), Some("my/key"), None, None))
  {
  }

  /** COS:///key has no authority, so there is no bucket: it fails. */
  lemma CosSchemeWithoutBucket()
    ensures
      var u := Uri(Some("COS"), None, None, Some("/key"), Some("/key"), None);
      Parse(u, true) == Failure(InvalidUri(NoBucket))
  {
  }

  /** https://cos.eu-1.io/: path style, no bucket, no key. */
  lemma PathStyleRootExample()
    ensures
      var h := "cos.eu-1.io";
      var u := Uri(Some("https"), Some(h), Some(h), Some("/"), Some("/"), None);
      Parse(u, false) == Success(CosUri(u, true, None, None, None, Some("eu-1")))
  {
    PathHostMatch();
  }

  /** https://cos.eu-1.io (no path at all): the source throws
      StringIndexOutOfBoundsException from path.substring(1); the model reads the
      empty path like "/", as the virtual-hosted branch does for its key. */
  lemma EmptyPathFinding()
    ensures PathStyleLocationAsWritten("") == Failure(IndexOutOfBounds)
    ensures PathStyleLocation("") == Success(Location(None, None)) == PathStyleLocation("/")
    ensures
      var h := "cos.eu-1.io";
      var u := Uri(Some("https"), Some(h), Some(h), Some(""), Some(""), None);
      Parse(u, true) == Success(CosUri(u, true, None, None, None, Some("eu-1")))
  {
    PathHostMatch();
  }

  lemma VersionQuerySplit()
    ensures Split("versionId=v1") == ["versionId=v1"]
  {
    assert '&' !in "versionId=v1" && ';' !in "versionId=v1";
  }

  lemma VersionQueryParam()
    ensures StartsWith("versionId=v1", VersionIdKey)
    ensures "versionId=v1"[|VersionIdKey|..] == "v1"
  {
    assert "versionId=v1" == VersionIdKey + "v1";
  }

  /** A query that is one "versionId=" parameter without escapes names its value. */
  lemma SingleVersionParam(q: string, v: string)
    requires Split(q) == [q] && StartsWith(q, VersionIdKey) && q[|VersionIdKey|..] == v
    requires '%' !in v
    ensures VersionIdOf(Some(q)) == Success(Some(v))
  {
    NoPercentIsIdentity(v);
  }

  lemma NoEscapeInV1()
    ensures '%' !in "v1"
  {
  }

  /** The raw query versionId=v1 names version v1. */
  lemma VersionQueryExample()
    ensures VersionIdOf(Some("versionId=v1")) == Success(Some("v1"))
  {
    VersionQuerySplit();
    VersionQueryParam();
    NoEscapeInV1();
    SingleVersionParam("versionId=v1", "v1");
  }

  /** Parse once the host match and the version id are known: a virtual-hosted
      match gives the bucket, key and region of that match. */
  lemma VirtualHostedWith(u: Uri, m: EndpointMatch, versionId: Option<string>)
    requires WellFormed(u) && !IsCosScheme(u.scheme) && u.host.Some?
    requires MatchEndpoint(u.host.value) == Some(m) && m.prefix.Some? && m.prefix.value != []
    requires VersionIdOf(u.rawQuery) == Success(versionId)
    ensures
      var location := VirtualHostedLocation(m.prefix.value, u.path);
      Parse(u, true) == Success(CosUri(u, false, location.bucket, location.key, versionId, RegionOf(m.region)))
  {
  }

  lemma BucketHostLocation()
    ensures VirtualHostedLocation("bucket.", Some("/a/b")) == Location(Some("bucket"), Some("a/b"))
  {
    assert "bucket."[..6] == "bucket";
    assert "/a/b"[1..] == "a/b";
  }

  lemma HttpsIsNotCos()
    ensures !IsCosScheme(Some("https"))
  {
  }

  lemma EuIsRegion()
    ensures RegionOf("eu") == Some("eu")
  {
  }

  /** https://bucket.cos.eu.io/a/b?versionId=v1: virtual-hosted, so the bucket comes
      from the host and the whole path after its '/' is the key. */
  lemma VirtualHostedExample()
    ensures
      var h := "bucket.cos.eu.io";
      var u := Uri(Some("https"), Some(h), Some(h), Some("/a/b"), Some("/a/b"), Some("versionId=v1"));
      Parse(u, true) == Success(CosUri(u, false, Some("bucket"), Some("a/b"), Some("v1"), Some("eu")))
  {
    var h := "bucket.cos.eu.io";
    var u := Uri(Some("https"), Some(h), Some(h), Some("/a/b"), Some("/a/b"), Some("versionId=v1"));
    BucketHostMatch();
    VersionQueryExample();
    BucketHostLocation();
    HttpsIsNotCos();
    EuIsRegion();
    VirtualHostedWith(u, EndpointMatch(Some("bucket."), "eu"), Some("v1"));
  }

  /** https://s3.amazonaws.com/bucket/key is refused as not an endpoint. */
  lemma AmazonHostRefused()
    ensures
      var h := "s3.amazonaws.com";
      var u := Uri(Some("https"), Some(h), Some(h), Some("/bucket/key"), Some("/bucket/key"), None);
      Parse(u, true) == Failure(InvalidUri(NotAnEndpoint))
  {
    AmazonHostUnmatched();
  }
}
