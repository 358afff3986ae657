/** The endpoint pattern on the hosts of the worked examples. Each host is checked
    through two general facts, so that no proof has to run the matcher step by step. */
module EndpointExamples {
  import opened Wrappers
  import opened EndpointPattern

  /** A host of printable ASCII characters has no line terminator, so ".+" can run
      to its end. */
  lemma PrintableHasNoTerminator(h: string)
    requires forall k :: 0 <= k < |h| ==> ' ' <= h[k] <= '~'
    ensures FirstLineTerminator(h, 0) == |h|
  {
  }

  /** The search for a prefix passes over a length p that does not end in '.' or is
      not followed by "cos". */
  lemma SearchStep(h: string, p: nat)
    requires 2 <= p <= |h|
    requires h[p - 1] != '.' || p + 3 > |h| || !StartsWithCos(h, p)
    ensures SearchPrefix(h, p) == SearchPrefix(h, p - 1)
  {
  }

  /** A host that starts with "cos" has no prefix of length 2 or 3. */
  lemma SearchBeforeCos(h: string)
    requires 3 <= |h| && StartsWithCos(h, 0)
    ensures SearchPrefix(h, 3) == None
  {
    SearchStep(h, 3);
    SearchStep(h, 2);
  }

  /** No '.' at the positions lo <= k < hi, checked from the top down. */
  predicate NoDotBetween(h: string, lo: nat, hi: nat)
    requires lo <= hi <= |h|
    decreases hi - lo
  {
    lo == hi || (h[hi - 1] != '.' && NoDotBetween(h, lo, hi - 1))
  }

  /** ... and so over every length in (lo, hi] that does not end in '.'. */
  lemma {:induction false} SearchSkips(h: string, lo: nat, hi: nat)
    requires 2 <= lo <= hi <= |h|
    requires NoDotBetween(h, lo, hi)
    ensures SearchPrefix(h, hi) == SearchPrefix(h, lo)
    decreases hi - lo
  {
    if lo < hi {
      SearchStep(h, hi);
      SearchSkips(h, lo, hi - 1);
    }
  }

  // cos.eu-1.io: no prefix works, the tail matches at 0.

  lemma PathHostNoTerminator()
    ensures FirstLineTerminator("cos.eu-1.io", 0) == 11
  {
    assert forall k :: 0 <= k < |"cos.eu-1.io"| ==> ' ' <= "cos.eu-1.io"[k] <= '~';
    PrintableHasNoTerminator("cos.eu-1.io");
  }

  lemma PathHostSearchUpper()
    ensures SearchPrefix("cos.eu-1.io", 11) == SearchPrefix("cos.eu-1.io", 8)
  {
    SearchStep("cos.eu-1.io", 11);
    SearchStep("cos.eu-1.io", 10);
    SearchStep("cos.eu-1.io", 9);
  }

  lemma PathHostSearchLabel()
    ensures SearchPrefix("cos.eu-1.io", 8) == SearchPrefix("cos.eu-1.io", 3)
  {
    SearchSkips("cos.eu-1.io", 4, 8);
    assert "cos.eu-1.io"[4] == 'e';
    SearchStep("cos.eu-1.io", 4);
  }

  lemma PathHostStartsWithCos()
    ensures StartsWithCos("cos.eu-1.io", 0)
  {
  }

  lemma PathHostNoPrefix()
    ensures SearchPrefix("cos.eu-1.io", 11) == None
  {
    PathHostSearchUpper();
    PathHostSearchLabel();
    PathHostStartsWithCos();
    SearchBeforeCos("cos.eu-1.io");
  }

  lemma PathHostTail()
    ensures MatchTail("cos.eu-1.io", 0) == Some("eu-1")
  {
    TailFound("", '.', "eu-1", "io");
    assert "" + "cos" + ['.'] + "eu-1" + "." + "io" == "cos.eu-1.io";
  }

  /** A path-style host: the region is captured and there is no bucket prefix. */
  lemma PathHostMatch()
    ensures MatchEndpoint("cos.eu-1.io") == Some(EndpointMatch(None, "eu-1"))
  {
    PathHostNoTerminator();
    PathHostNoPrefix();
    PathHostTail();
  }

  // bucket.cos.eu.io: the prefix "bucket." is found.

  lemma BucketHostNoTerminator()
    ensures FirstLineTerminator("bucket.cos.eu.io", 0) == 16
  {
    assert forall k :: 0 <= k < |"bucket.cos.eu.io"| ==> ' ' <= "bucket.cos.eu.io"[k] <= '~';
    PrintableHasNoTerminator("bucket.cos.eu.io");
  }

  lemma BucketHostSearch()
    ensures SearchPrefix("bucket.cos.eu.io", 16) == SearchPrefix("bucket.cos.eu.io", 7)
  {
    SearchSkips("bucket.cos.eu.io", 14, 16);
    SearchStep("bucket.cos.eu.io", 14);
    SearchSkips("bucket.cos.eu.io", 11, 13);
    assert "bucket.cos.eu.io"[11] == 'e';
    SearchStep("bucket.cos.eu.io", 11);
    SearchSkips("bucket.cos.eu.io", 7, 10);
  }

  lemma BucketHostTail()
    ensures MatchTail("bucket.cos.eu.io", 7) == Some("eu")
  {
    TailFound("bucket.", '.', "eu", "io");
    assert "bucket." + "cos" + ['.'] + "eu" + "." + "io" == "bucket.cos.eu.io";
  }

  lemma BucketHostPrefix()
    ensures SearchPrefix("bucket.cos.eu.io", 7) == Some((7, "eu"))
  {
    BucketHostTail();
    assert "bucket.cos.eu.io"[6] == '.';
  }

  lemma BucketHostGroup()
    ensures "bucket.cos.eu.io"[..7] == "bucket."
  {
  }

  /** A virtual-hosted host: the group captures "bucket.", the longest prefix. */
  lemma BucketHostMatch()
    ensures MatchEndpoint("bucket.cos.eu.io") == Some(EndpointMatch(Some("bucket."), "eu"))
  {
    BucketHostNoTerminator();
    BucketHostSearch();
    BucketHostPrefix();
    BucketHostGroup();
  }

  // s3.amazonaws.com: no "cos" label at all.

  lemma AmazonNoTerminator()
    ensures FirstLineTerminator("s3.amazonaws.com", 0) == 16
  {
    assert forall k :: 0 <= k < |"s3.amazonaws.com"| ==> ' ' <= "s3.amazonaws.com"[k] <= '~';
    PrintableHasNoTerminator("s3.amazonaws.com");
  }

  lemma AmazonNoPrefix()
    ensures SearchPrefix("s3.amazonaws.com", 16) == None
  {
    SearchSkips("s3.amazonaws.com", 13, 16);
    assert "s3.amazonaws.com"[14] == 'o' && "s3.amazonaws.com"[15] == 'm';
    SearchStep("s3.amazonaws.com", 13);
    SearchSkips("s3.amazonaws.com", 3, 12);
    assert "s3.amazonaws.com"[3] == 'a';
    SearchStep("s3.amazonaws.com", 3);
    assert "s3.amazonaws.com"[1] == '3';
    SearchStep("s3.amazonaws.com", 2);
  }

  lemma AmazonNoTail()
    ensures MatchTail("s3.amazonaws.com", 0) == None
  {
    assert "s3.amazonaws.com"[0] == 's';
  }

  /** A host without a "cos." or "cos-" label does not match. */
  lemma AmazonHostUnmatched()
    ensures MatchEndpoint("s3.amazonaws.com") == None
  {
    AmazonNoTerminator();
    AmazonNoPrefix();
    AmazonNoTail();
  }
}
