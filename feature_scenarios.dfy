/**
 * Worked examples: three URLs and what the extractor makes of them. Where a
 * value differs from what a reader might expect (a `scheme://` counts as
 * obfuscation; a bare IP address without a scheme has no netloc), the lemma
 * records the value the code computes.
 */
module FeatureScenarios {
  import opened StringOps
  import opened UrlParse
  import opened Features
  import opened FeatureProperties

  /** A plain http URL with a query string: "//" already sets the obfuscation flag. */
  lemma HttpLoginWithQuery(url: string)
    requires url == "http://example.com/login?user=1&pass=2"
    ensures ExtractFeatures(url).hasObfuscation
    ensures !ExtractFeatures(url).isHttps
    ensures ExtractFeatures(url).noOfEquals == 2
    ensures ExtractFeatures(url).noOfQMark == 1
    ensures ExtractFeatures(url).noOfAmpersand == 1
    ensures !ExtractFeatures(url).bank && !ExtractFeatures(url).pay && !ExtractFeatures(url).crypto
  {
    HttpLoginFlags(url);
    HttpLoginQueryChars(url);
    HttpLoginKeywords(url);
  }

  lemma HttpLoginFlags(url: string)
    requires url == "http://example.com/login?user=1&pass=2"
    ensures ExtractFeatures(url).hasObfuscation
    ensures !ExtractFeatures(url).isHttps
  {
    assert url[4] == ':' && url[5] == '/' && url[6] == '/';
    assert url[4..7] == "://";
    var head := url[..6];
    assert head[4] == ':';
    assert Lower(head)[4] == ':';
    ContainsAt(url, "://", 4);
    SchemeSeparatorIsObfuscation(url);
    HttpsFlag(url);
  }

  /** `user=1&pass=2`: two '=', and one '?' and one '&'. */
  lemma HttpLoginQueryChars(url: string)
    requires url == "http://example.com/login?user=1&pass=2"
    ensures ExtractFeatures(url).noOfEquals == 2
    ensures ExtractFeatures(url).noOfQMark == 1
    ensures ExtractFeatures(url).noOfAmpersand == 1
  {
    HttpLoginEquals(url);
    HttpLoginQMark(url);
    HttpLoginAmpersand(url);
    QueryCharCounts(url);
  }

  lemma HttpLoginEquals(url: string)
    requires url == "http://example.com/login?user=1&pass=2"
    ensures Occurrences(url, '=') == 2
  {
    HttpLoginEqualsAbsent();
    assert url == "http://example.com/login?user" + ['='] + ("1&pass" + ['='] + "2");
    OccursTwice(url, "http://example.com/login?user", "1&pass", "2", '=');
  }

  lemma HttpLoginEqualsAbsent()
    ensures '=' !in "http://example.com/login?user" && '=' !in "1&pass" && '=' !in "2"
  {
  }

  lemma HttpLoginQMark(url: string)
    requires url == "http://example.com/login?user=1&pass=2"
    ensures Occurrences(url, '?') == 1
  {
    HttpLoginQMarkAbsent();
    assert url == "http://example.com/login" + ['?'] + "user=1&pass=2";
    OccursOnce(url, "http://example.com/login", "user=1&pass=2", '?');
  }

  lemma HttpLoginQMarkAbsent()
    ensures '?' !in "http://example.com/login" && '?' !in "user=1&pass=2"
  {
  }

  lemma HttpLoginAmpersand(url: string)
    requires url == "http://example.com/login?user=1&pass=2"
    ensures Occurrences(url, '&') == 1
  {
    HttpLoginAmpersandAbsent();
    assert url == "http://example.com/login?user=1" + ['&'] + "pass=2";
    OccursOnce(url, "http://example.com/login?user=1", "pass=2", '&');
  }

  lemma HttpLoginAmpersandAbsent()
    ensures '&' !in "http://example.com/login?user=1" && '&' !in "pass=2"
  {
  }

  /** No 'b' and no 'y' in either case: none of the three keywords can occur. */
  lemma HttpLoginKeywords(url: string)
    requires url == "http://example.com/login?user=1&pass=2"
    ensures !ExtractFeatures(url).bank && !ExtractFeatures(url).pay && !ExtractFeatures(url).crypto
  {
    HttpLoginNoB(url);
    HttpLoginNoY(url);
    MissingFromLower(url, 'b');
    MissingFromLower(url, 'y');
    assert "bank"[0] == 'b' && "pay"[2] == 'y' && "crypto"[2] == 'y';
    MissingCharNotContained(Lower(url), "bank", 'b');
    MissingCharNotContained(Lower(url), "pay", 'y');
    MissingCharNotContained(Lower(url), "crypto", 'y');
  }

  lemma HttpLoginNoB(url: string)
    requires url == "http://example.com/login?user=1&pass=2"
    ensures 'b' !in url && 'B' !in url
  {
    HttpLoginHostLetters();
    HttpLoginPathLetters();
    assert url == "http://example.com/" + "login?user=1&pass=2";
  }

  lemma HttpLoginNoY(url: string)
    requires url == "http://example.com/login?user=1&pass=2"
    ensures 'y' !in url && 'Y' !in url
  {
    HttpLoginHostLetters();
    HttpLoginPathLetters();
    assert url == "http://example.com/" + "login?user=1&pass=2";
  }

  lemma HttpLoginHostLetters()
    ensures 'b' !in "http://example.com/" && 'B' !in "http://example.com/"
    ensures 'y' !in "http://example.com/" && 'Y' !in "http://example.com/"
  {
  }

  lemma HttpLoginPathLetters()
    ensures 'b' !in "login?user=1&pass=2" && 'B' !in "login?user=1&pass=2"
    ensures 'y' !in "login?user=1&pass=2" && 'Y' !in "login?user=1&pass=2"
  {
  }

  lemma PaypalLookalikeSeparator(url: string)
    requires url == "https://secure-paypal-login.com//update"
    ensures Contains(url, "://")
  {
    assert url[5] == ':' && url[6] == '/' && url[7] == '/';
    assert url[5..8] == "://";
    ContainsAt(url, "://", 5);
  }

  lemma PaypalLookalikeScheme(url: string)
    requires url == "https://secure-paypal-login.com//update"
    ensures Scheme(url) == "https"
  {
    assert url[0] == 'h' && url[1] == 't' && url[2] == 't' && url[3] == 'p' && url[4] == 's';
    var scheme := url[..5];
    assert scheme == "https";
    assert url == scheme + ":" + url[6..];
    assert ValidScheme(scheme);
    assert Lower(scheme) == scheme;
    SplitSchemeAssembled(scheme, url[6..]);
  }

  lemma PaypalLookalikeKeyword(url: string)
    requires url == "https://secure-paypal-login.com//update"
    ensures OccursAt(Lower(url), "pay", 15)
  {
    PaypalLookalikeKeywordPiece();
    assert url == "https://secure-" + "pay" + "pal-login.com//update";
    LowerOccursAt("https://secure-", "pay", "pal-login.com//update");
  }

  lemma PaypalLookalikeKeywordPiece()
    ensures |"https://secure-"| == 15 && Lower("pay") == "pay"
  {
  }

  /** An https look-alike of a payment site with a doubled slash in its path. */
  lemma HttpsPaypalLookalike(url: string)
    requires url == "https://secure-paypal-login.com//update"
    ensures ExtractFeatures(url).hasObfuscation
    ensures ExtractFeatures(url).noOfObfuscatedChar >= 1
    ensures ExtractFeatures(url).isHttps
    ensures ExtractFeatures(url).pay
  {
    PaypalLookalikeSeparator(url);
    PaypalLookalikeScheme(url);
    PaypalLookalikeKeyword(url);
    SchemeSeparatorIsObfuscation(url);
    KeywordFlags(url);
  }

  lemma BareIpNoNetloc(url: string)
    requires url == "192.168.1.5"
    ensures Netloc(url) == ""
  {
    assert url[0] == '1';
    assert ':' !in url;
  }

  lemma BareIpSchemedNetloc(url: string)
    requires url == "192.168.1.5"
    ensures Netloc("http://" + url) == url
  {
    BareIpChars();
    assert url == "192.168.1.5";
    ParseAssembled("http", url, "");
    assert "http" + "://" + url + "" == "http://" + url;
  }

  lemma BareIpChars()
    ensures forall k :: 0 <= k < |"192.168.1.5"| ==> "192.168.1.5"[k] !in "/?#"
  {
  }

  lemma BareIpQuad(url: string)
    requires url == "192.168.1.5"
    ensures IsDomainIP(url)
  {
    assert url == Dotted("192", Dotted("168", Dotted("1", "5" + "")));
    DottedQuadIsDomainIP("192", "168", "1", "5", "");
  }

  /**
   * A bare IP address is not recognised: without a scheme there is no netloc,
   * and the IP check looks only at the netloc. With "http://" in front it is.
   */
  lemma BareIpAddress(url: string)
    requires url == "192.168.1.5"
    ensures !ExtractFeatures(url).isDomainIP
    ensures ExtractFeatures("http://" + url).isDomainIP
  {
    BareIpNoNetloc(url);
    BareIpSchemedNetloc(url);
    BareIpQuad(url);
  }
}
