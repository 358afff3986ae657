# COSURI in Dafny

A model of `COSURI`, the class of spark-select that breaks an object-storage URI
into bucket, key, region, version id and a path-style flag, with proofs of what it
promises. Three addressing styles are distinguished:

- `cos://bucket/key`. The bucket is the authority and the key is the path without its
  leading `/`. Neither is decoded.
- Path-style endpoints such as `https://cos.<region>.<domain>/bucket/key`. Bucket and
  key come from the path and are percent-decoded.
- Virtual-hosted endpoints such as `https://bucket.cos.<region>.<domain>/key`. The
  bucket comes from the host and the key from the path. Neither is decoded.

The endpoint style is chosen by matching the host against
`^(.+\.)?cos[.-]([a-z0-9-]+)\.`. The version id is the decoded value of the first
`&`/`;`-separated query parameter that starts with `versionId=`.

Modules, one per part of the class:

- `Wrappers`, `Errors`: `Option` stands for Java's `null` and `Result` for a value or
  the exception thrown instead of it. `InvalidUri(reason)` is the
  `IllegalArgumentException`, `InvalidEscape` the decoder's `IllegalStateException`,
  and `IndexOutOfBounds` a `StringIndexOutOfBoundsException`.
- `JavaStrings`: `startsWith`, `indexOf(char, from)` and `replace`.
- `PercentDecoding`: `fromHex` and the specification of the decoder, `PercentDecode`,
  with its lemmas. Decoding is one pass: every `%XY` becomes the single character
  `16*hex(X)+hex(Y)`, which is not UTF-8 decoding. A truncated escape or a bad digit
  fails the whole string.
- `Decoder`: the decoder as the class runs it. `decode(String)`,
  `decode(String, int)` and `appendDecoded` become methods over a `StringBuilder`
  class. Each method is proved equal to `PercentDecode`.
- `EndpointPattern`: the endpoint pattern, matched by hand with the backtracking
  order of `java.util.regex`. `MatchEndpointSpec` proves that the hand matcher
  returns the match Java's greedy `(.+\.)?` selects: the longest prefix, or none.
- `VersionId`: `Pattern.split` on `[&;]`, including its dropping of trailing empty
  strings, and `parseVersionId` as a scanning method.
- `CosUriParser`: the `java.net.URI` accessors as a record, the constructor as the
  function `Parse`, `equals`, and `preprocessUrlStr`.
- `EndpointExamples`, `ParseExamples`: the worked URIs.

## Model

| member | source | states |
|---|---|---|
| CosUriParser.Parse | src/main/scala/io/minio/spark/select/util/COSURI.java:40-145 | The result keeps the URI it was given. A result never has a key without a bucket. A `cos` URI never has a region or a version id and is not path-style. A path-style path is split by the corrected `PathStyleLocation` (see Findings). |
| CosUriParser.CosSchemeParse | src/main/scala/io/minio/spark/select/util/COSURI.java:47-67 | For scheme `cos`, matched ignoring ASCII case, parsing fails exactly when there is no authority, and the failure is `NoBucket`. Otherwise the bucket is the undecoded authority. The key is absent exactly when the path has at most one character; when present, it is the undecoded path after its first character. |
| CosUriParser.EndpointRejected | src/main/scala/io/minio/spark/select/util/COSURI.java:70-81 | A non-`cos` URI without a host fails with `NoHostname`. One whose host matches the endpoint pattern in no way fails with `NotAnEndpoint`. |
| CosUriParser.PathStyleParse | src/main/scala/io/minio/spark/select/util/COSURI.java:84-118 | When the pattern matches only without a prefix, the URI is path-style. Bucket and key are `PathStyleLocation` of `getPath()` when `urlEncode` is set, and of `getRawPath()` otherwise. The version id comes from the raw query. The region is the captured token, absent when the token is `amazonaws`. Parsing succeeds exactly when the path and the version id decode, and any failure is a bad escape. This holds with the corrected split; with the split as written, an empty path throws instead (see Findings). |
| CosUriParser.VirtualHostedParse | src/main/scala/io/minio/spark/select/util/COSURI.java:120-134 | When the longest admitted prefix is `h[..q]`, the URI is not path-style. The bucket is `h[..q-1]`, the prefix without its `.`. The key is the undecoded path after its leading `/`. Version id and region are as in path style. Only a bad escape in the version id fails. |
| CosUriParser.PathStyleLocationAsWritten | src/main/scala/io/minio/spark/select/util/COSURI.java:93-118 | The path-style split exactly as written. It throws `IndexOutOfBounds` exactly when the path is empty. The path `/` gives no bucket and no key. |
| CosUriParser.PathStyleBucketOnly | src/main/scala/io/minio/spark/select/util/COSURI.java:98-103 | A path other than `/` with no `/` after its first character gives the rest of the path, decoded, as the bucket, and no key. A bad escape fails. |
| CosUriParser.PathStyleBucketWithSlash | src/main/scala/io/minio/spark/select/util/COSURI.java:105-109 | A path `c b /` whose `b` holds no `/` gives `b`, decoded, as the bucket, and no key. A bad escape fails. |
| CosUriParser.PathStyleBucketAndKey | src/main/scala/io/minio/spark/select/util/COSURI.java:111-116 | A path `c b / k`, with `b` free of `/` and `k` non-empty, splits at that `/`. The bucket is `b` decoded and the key is `k` decoded, and `k` may hold further `/`. It fails when either part has a bad escape. |
| CosUriParser.PathStyleLocation | src/main/scala/io/minio/spark/select/util/COSURI.java:93-118 | The corrected split. An absent bucket implies an absent key, and the only failure is a bad escape. On every non-empty path it agrees with the code as written. |
| CosUriParser.VirtualHostedLocation | src/main/scala/io/minio/spark/select/util/COSURI.java:125-134 | The bucket plus the prefix's last character gives back the prefix. The key is absent exactly when the path is null, empty or `/`, and is otherwise the path without its first character. |
| CosUriParser.IsCosScheme | src/main/scala/io/minio/spark/select/util/COSURI.java:47 | The scheme is `cos` exactly when it is present and equals `cos` ignoring ASCII case (`EqualsIgnoreCaseAscii`). |
| CosUriParser.RegionOf | src/main/scala/io/minio/spark/select/util/COSURI.java:139-144 | No region exactly for the token `amazonaws`. Any other token is the region itself. |
| CosUriParser.Equals | src/main/scala/io/minio/spark/select/util/COSURI.java:289-302 | `equals` holds exactly when the two results are equal: the same URI, flag, bucket, key, version id and region. |
| CosUriParser.PreprocessUrlStr | src/main/scala/io/minio/spark/select/util/COSURI.java:187-201 | Without `encode` the string is returned unchanged. With it, no `+` is left in the result. |
| JavaStrings.IndexOf | src/main/scala/io/minio/spark/select/util/COSURI.java:98 | `-1` exactly when the character does not occur at or after `from`. Otherwise the result is the first index at or after `from` that holds it. |
| JavaStrings.Replace | src/main/scala/io/minio/spark/select/util/COSURI.java:190-193 | A string without an occurrence of the target is left as it is. |
| JavaStrings.ReplaceRemovesChar | src/main/scala/io/minio/spark/select/util/COSURI.java:193 | Replacing a one-character target by text that does not contain it leaves no occurrence of that character. This is why no `+` survives preprocessing. |
| PercentDecoding.FromHex | src/main/scala/io/minio/spark/select/util/COSURI.java:255-286 | A value exactly for the characters `0-9`, `A-F` and `a-f`. The value is below 16 and is the digit's position in the upper- or lower-case table. |
| PercentDecoding.HexDigitRoundTrip | src/main/scala/io/minio/spark/select/util/COSURI.java:255-286 | Every digit of both tables reads back as its own value. |
| PercentDecoding.EscapedChar | src/main/scala/io/minio/spark/select/util/COSURI.java:250 | The character an escape produces is below 256. |
| PercentDecoding.EscapeAt | src/main/scala/io/minio/spark/select/util/COSURI.java:242-250 | An escape at `index` yields a character exactly when two characters follow `index` and both are hexadecimal digits. |
| PercentDecoding.PercentDecode | src/main/scala/io/minio/spark/select/util/COSURI.java:204-252 | Decoding only ever fails with `InvalidEscape`, and it never makes a string longer. |
| PercentDecoding.DecodeStepAt | src/main/scala/io/minio/spark/select/util/COSURI.java:225-232 | One step of the scan at `i`. A plain character is copied. A well-formed escape produces its character and the scan resumes three positions on. A malformed escape fails the whole decoding. |
| PercentDecoding.NoPercentIsIdentity | src/main/scala/io/minio/spark/select/util/COSURI.java:209-215 | A string without `%` decodes to itself. |
| PercentDecoding.VerbatimPrefix | src/main/scala/io/minio/spark/select/util/COSURI.java:220-221 | Text before the first `%` is copied verbatim and does not change how the rest decodes. |
| PercentDecoding.EscapeDecoding | src/main/scala/io/minio/spark/select/util/COSURI.java:226-228 | `p%xy t` with `p` free of `%` decodes to `p`, then the escape's character, then `t` decoded on its own. It fails when either digit is not hexadecimal. |
| PercentDecoding.TruncatedEscapeFails | src/main/scala/io/minio/spark/select/util/COSURI.java:242-245 | A `%` with fewer than two characters after it fails the whole decoding. |
| PercentDecoding.SingleEscapeRoundTrip | src/main/scala/io/minio/spark/select/util/COSURI.java:247-251 | Decoding `%XY` written for a character below 256 gives that character back. |
| PercentDecoding.PercentEncodeRoundTrip | src/main/scala/io/minio/spark/select/util/COSURI.java:219-235 | Decoding undoes escaping every character of a string whose characters are all below 256. |
| PercentDecoding.EscapePercentSignsRoundTrip | src/main/scala/io/minio/spark/select/util/COSURI.java:225-229 | Decoding is single-pass: writing every `%` of any string as `%25` decodes back to that string, so a decoded `%` is never read as a new escape. |
| PercentDecoding.RejectedEscapes | src/main/scala/io/minio/spark/select/util/COSURI.java:242-286 | `%`, `%A`, `%GG` and `ab%4` fail to decode. |
| Decoder.AppendDecoded | src/main/scala/io/minio/spark/select/util/COSURI.java:238-252 | Succeeds exactly when `EscapeAt` finds a well-formed escape, appending its character. On failure the builder is unchanged. |
| Decoder.ScanStep | src/main/scala/io/minio/spark/select/util/COSURI.java:225-232 | One loop iteration. On success, the builder followed by the decoding from the next index equals the old builder followed by the decoding from `i`. On failure, decoding from `i` fails. |
| Decoder.DecodeFrom | src/main/scala/io/minio/spark/select/util/COSURI.java:219-235 | Returns the text before the first `%` followed by `PercentDecode` of the rest. |
| Decoder.Decode | src/main/scala/io/minio/spark/select/util/COSURI.java:204-216 | `null` gives `null`. A string without `%` is returned as it is. Any other string gives `PercentDecode` of it. |
| EndpointPattern.FirstLineTerminator | src/main/scala/io/minio/spark/select/util/COSURI.java:15-16 | The first line terminator at or after `i`, or the length when there is none. `.` cannot run past it. |
| EndpointPattern.RegionEnd | src/main/scala/io/minio/spark/select/util/COSURI.java:15-16 | The end of the longest run of `[a-z0-9-]` from `i`. |
| EndpointPattern.MatchTailSpec | src/main/scala/io/minio/spark/select/util/COSURI.java:15-16 | The tail matcher captures `region` exactly when `cos`, a `.` or `-`, `region` (non-empty, from `[a-z0-9-]`) and a `.` follow position `p`. |
| EndpointPattern.TailFound | src/main/scala/io/minio/spark/select/util/COSURI.java:15-16 | Any text followed by `cos`, a separator, a region and a `.` has its tail found right after that text. |
| EndpointPattern.RegionEndIsMaximal | src/main/scala/io/minio/spark/select/util/COSURI.java:15-16 | A run of region characters that ends at a non-region character is the run `RegionEnd` finds. |
| EndpointPattern.MatchTail | src/main/scala/io/minio/spark/select/util/COSURI.java:15-16 | A captured region is non-empty and made only of `[a-z0-9-]` characters. |
| EndpointPattern.SearchPrefix | src/main/scala/io/minio/spark/select/util/COSURI.java:15-16 | A prefix length found by the backtracking search is at least 2 and at most where the search started. |
| EndpointPattern.SearchPrefixSpec | src/main/scala/io/minio/spark/select/util/COSURI.java:15-16 | The search returns the largest length up to `p` that ends in `.` and is followed by a tail, with its region. It returns nothing when there is no such length. |
| EndpointPattern.MatchEndpoint | src/main/scala/io/minio/spark/select/util/COSURI.java:76-83 | A match always has a non-empty region, and a prefix group, when present, has at least two characters. |
| EndpointPattern.MatchEndpointSpec | src/main/scala/io/minio/spark/select/util/COSURI.java:76-83 | `find()` fails exactly when the pattern matches in no way. Otherwise the match has the longest admissible prefix (at least two characters, so never empty) or, when there is none, no prefix. |
| EndpointExamples.PathHostMatch | src/main/scala/io/minio/spark/select/util/COSURI.java:15-16 | `cos.eu-1.io` matches without a prefix and captures `eu-1`. |
| EndpointExamples.BucketHostMatch | src/main/scala/io/minio/spark/select/util/COSURI.java:15-16 | `bucket.cos.eu.io` matches with the prefix `bucket.` and captures `eu`. |
| EndpointExamples.AmazonHostUnmatched | src/main/scala/io/minio/spark/select/util/COSURI.java:15-16 | `s3.amazonaws.com` does not match the pattern. |
| VersionId.Fields | src/main/scala/io/minio/spark/select/util/COSURI.java:149 | There is at least one field, and no field holds a separator. |
| VersionId.Separators | src/main/scala/io/minio/spark/select/util/COSURI.java:149 | Every character returned is `&` or `;`, and there are none exactly when the query holds neither. |
| VersionId.FieldsJoin | src/main/scala/io/minio/spark/select/util/COSURI.java:149 | Splitting loses nothing: there is one more field than there are separators, and joining the fields with the separators gives the query back. |
| VersionId.DropTrailingEmpty | src/main/scala/io/minio/spark/select/util/COSURI.java:149 | The result is a prefix of the fields. Only empty strings are dropped, and the result does not end with one. |
| VersionId.Split | src/main/scala/io/minio/spark/select/util/COSURI.java:149 | No element holds a separator. When the query has a separator, the result does not end with an empty string. |
| VersionId.FirstVersionParam | src/main/scala/io/minio/spark/select/util/COSURI.java:150-154 | A parameter is found only when it starts with `versionId=` and is one of the parameters. Nothing is found only when no parameter starts with it. |
| VersionId.FirstVersionParamIsFirst | src/main/scala/io/minio/spark/select/util/COSURI.java:150-154 | The earliest parameter that starts with `versionId=` is the one found. |
| VersionId.TrailingEmptyIgnored | src/main/scala/io/minio/spark/select/util/COSURI.java:149-154 | Dropping trailing empty parameters does not change which one is found. |
| VersionId.SplitFindsFirstField | src/main/scala/io/minio/spark/select/util/COSURI.java:149-154 | Searching `Pattern.split`'s output finds the same parameter as searching every field. |
| VersionId.VersionIdOf | src/main/scala/io/minio/spark/select/util/COSURI.java:147-157 | A null query gives no version id, and the only failure is a bad escape. |
| VersionId.VersionIdOfFirstField | src/main/scala/io/minio/spark/select/util/COSURI.java:147-157 | The version id is the decoded remainder of the first field that starts with `versionId=`. |
| VersionId.VersionIdAbsent | src/main/scala/io/minio/spark/select/util/COSURI.java:147-157 | Without such a field, the version id is absent. |
| VersionId.ParseVersionId | src/main/scala/io/minio/spark/select/util/COSURI.java:147-157 | The scanning loop returns exactly `VersionIdOf(query)`. |
| ParseExamples.CosSchemeExample | src/main/scala/io/minio/spark/select/util/COSURI.java:47-67 | `cos://mybucket/my/key` gives bucket `mybucket` and key `my/key`. |
| ParseExamples.CosSchemeWithoutBucket | src/main/scala/io/minio/spark/select/util/COSURI.java:53-56 | `COS:///key`, which has no authority, fails with `NoBucket`. |
| ParseExamples.PathStyleRootExample | src/main/scala/io/minio/spark/select/util/COSURI.java:93-95 | `https://cos.eu-1.io/` is path-style, with no bucket, no key and region `eu-1`. |
| ParseExamples.EmptyPathFinding | src/main/scala/io/minio/spark/select/util/COSURI.java:98-102 | The split as written throws on the empty path. The corrected split reads the empty path like `/`, and `https://cos.eu-1.io` parses as that endpoint's root. |
| ParseExamples.VersionQueryExample | src/main/scala/io/minio/spark/select/util/COSURI.java:147-157 | The raw query `versionId=v1` gives the version id `v1`. |
| ParseExamples.SingleVersionParam | src/main/scala/io/minio/spark/select/util/COSURI.java:147-157 | A query that is a single `versionId=` parameter with no `%` in its value gives that value. |
| ParseExamples.VirtualHostedExample | src/main/scala/io/minio/spark/select/util/COSURI.java:120-144 | `https://bucket.cos.eu.io/a/b?versionId=v1` is virtual-hosted, with bucket `bucket`, key `a/b`, version id `v1` and region `eu`. |
| ParseExamples.AmazonHostRefused | src/main/scala/io/minio/spark/select/util/COSURI.java:76-81 | `https://s3.amazonaws.com/bucket/key` is refused as not an endpoint. |

## Left out

- `java.net.URI.create` and its accessors are library parsing. The model takes a URI
  as a record of what `getScheme`, `getAuthority`, `getHost`, `getPath`, `getRawPath`
  and `getRawQuery` return. `CosUriParser.WellFormed` assumes that a URI with an
  authority or a host has a path and a raw path, as `java.net.URI` guarantees.
  `URI.equals` is taken as equality of these records.
- The public constructors that call `URI.create` are left out, for the same reason.
  The null-`uri` guard is left out too, because a record is never null.
- CosUriParser.PreprocessUrlStr: `URLEncoder.encode` is a foreign library call and is
  a parameter of the function. Only the pass-through without `encode`, and that no
  `+` is left with it, are stated. Restoring `%3A` and `%2F` is computed but not
  stated.
- CosUriParser.IsCosScheme: `equalsIgnoreCase` is modelled over ASCII only
  (`JavaStrings.EqualsIgnoreCaseAscii`). Java would also accept the few non-ASCII
  characters whose case mapping gives `c`, `o` or `s`, such as `ſ` (U+017F).
- `hashCode` is 32-bit overflowing arithmetic that adds nothing beyond `Equals`.
- Exception message texts, the getters and `toString` are left out. Errors are
  values without messages.
- Characters are Dafny `char`s, which are Unicode scalar values. A Java `String` can
  also hold unpaired surrogates, which are not modelled.
- CosUriParser.Parse: on a path-style host it splits the path with the corrected
  `PathStyleLocation`. When the selected path is empty it returns the endpoint root,
  where the code throws `StringIndexOutOfBoundsException` (see Findings).
- CosUriParser.PathStyleParse: it states `Parse`, so it uses the corrected split too.
  Its "any failure is a bad escape" does not hold for the code as written on an empty
  path, which `CosUriParser.PathStyleLocationAsWritten` states.
- Decoder.DecodeFrom: the loop's `i += 2` followed by `++i` is a single step of three
  positions (`ScanStep` returns the next index). No intermediate index is observable.
- The style flag is the source's boolean. A `cos` URI reports `false`; the model does
  not turn the flag into three styles.
- `https://s3.amazonaws.com/bucket/key` looks like a plain Amazon path-style URL, but
  the code refuses it: its host has no `cos.` or `cos-` label. The model follows the
  code (`ParseExamples.AmazonHostRefused`). The `amazonaws` token only matters for
  hosts such as `cos.amazonaws.example.com`.
- The regex engine in general is not modelled. Only this one pattern is matched, by
  hand.

## Findings

| source | as written | input that shows it | evidently intended | confidence | as-written member | corrected member |
|---|---|---|---|---|---|---|
| src/main/scala/io/minio/spark/select/util/COSURI.java:98-102 | On a path-style endpoint the path is `""`, so `path.indexOf('/', 1)` is -1 and `path.substring(1)` throws `StringIndexOutOfBoundsException` | `https://cos.eu-1.io` (no path), whose `getPath()` and `getRawPath()` are `""` | The endpoint root with no bucket and no key, as for `https://cos.eu-1.io/`; the virtual-hosted branch already treats an empty path like `/` | not executed | CosUriParser.PathStyleLocationAsWritten | CosUriParser.PathStyleLocation |
