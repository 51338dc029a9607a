/**
 * The lexical URL feature extractor of the backend (`extract_all_features_df`):
 * a URL string becomes a vector of 20 numbers in a fixed order. Every value
 * is a count, a table lookup, a 0/1 flag, a count divided by the URL's length
 * (0 for the empty URL), or the mean of the per-character shares
 * (`URLCharProb`, NaN for the empty URL). Ratios are exact reals here; the
 * source rounds them to six decimals as floats.
 */
module Features {
  import opened StringOps
  import opened UrlParse

  /** A value of the feature vector: a number, or NaN (the mean of no values). */
  datatype Number = Finite(value: real) | NaN

  // ---------------------------------------------------------------------------
  // Top-level domain
  // ---------------------------------------------------------------------------

  /** Empirical trust score of the common top-level domains. */
  const TldProbability: map<string, real> := map[
    "com" := 0.95, "org" := 0.90, "net" := 0.90, "gov" := 0.98, "edu" := 0.97,
    "io" := 0.85, "co" := 0.85, "us" := 0.80, "biz" := 0.75, "info" := 0.70,
    "xyz" := 0.40, "top" := 0.30, "tk" := 0.20, "ml" := 0.20, "gq" := 0.10, "cf" := 0.10
  ]

  /** Table value for a known TLD, 0.5 for any other: always within [0.10, 0.98]. */
  function TldLegitimateProb(tld: string): (p: real)
    ensures tld in TldProbability ==> p == TldProbability[tld]
    ensures tld !in TldProbability ==> p == 0.5
    ensures 0.10 <= p <= 0.98
  {
    if tld in TldProbability then TldProbability[tld] else 0.5
  }

  /** `s.split('.')[-1]`: the text after the last '.', or all of `s` when it has none. */
  function LastLabel(s: string): (r: string)
    ensures '.' !in r
    ensures |r| <= |s| && r == s[|s| - |r|..]
    ensures |r| < |s| ==> s[|s| - |r| - 1] == '.'
    ensures '.' in s ==> |r| < |s|
  {
    if s == [] || s[|s| - 1] == '.' then []
    else
      assert s == s[..|s| - 1] + [s[|s| - 1]];
      LastLabel(s[..|s| - 1]) + [s[|s| - 1]]
  }

  /** The lower-cased TLD of a domain, or "" when the domain has no '.'. */
  function Tld(domain: string): string {
    if '.' in domain then Lower(LastLabel(domain)) else ""
  }

  /** A proper suffix returned by `LastLabel` is preceded by the domain's last '.'. */
  lemma LabelSplit(domain: string, tail: string)
    requires tail == LastLabel(domain) && '.' in domain
    ensures |tail| < |domain|
    ensures domain == domain[..|domain| - |tail| - 1] + "." + tail
  {
    var cut := |domain| - |tail| - 1;
    assert domain[cut] == '.' && domain[cut + 1..] == tail;
    SplitAround(domain, cut);
  }

  lemma SplitAround(s: string, i: nat)
    requires i < |s|
    ensures s == s[..i] + [s[i]] + s[i + 1..]
  {
  }

  /**
   * The TLD is the lower-cased text after the domain's last '.': the domain
   * is some prefix, a dot, and a tail with no dot whose lower case is the TLD.
   * Without a dot the TLD is empty.
   */
  lemma TldShape(domain: string)
    ensures '.' !in Tld(domain)
    ensures '.' !in domain ==> Tld(domain) == ""
    ensures '.' in domain ==>
      (var tail := domain[|domain| - |Tld(domain)|..];
       && |Tld(domain)| < |domain|
       && domain == domain[..|domain| - |tail| - 1] + "." + tail
       && '.' !in tail
       && Lower(tail) == Tld(domain))
  {
    if '.' in domain {
      var tail := LastLabel(domain);
      assert Tld(domain) == Lower(tail);
      LabelSplit(domain, tail);
    }
  }

  // ---------------------------------------------------------------------------
  // Dotted-quad IP prefix: re.match(r'\d+\.\d+\.\d+\.\d+', domain)
  // ---------------------------------------------------------------------------

  /** Length of the run of ASCII digits at the start of `s`. */
  function DigitRun(s: string): (n: nat)
    ensures n <= |s|
    ensures forall k :: 0 <= k < n ==> IsAsciiDigit(s[k])
    ensures n < |s| ==> !IsAsciiDigit(s[n])
  {
    if s == [] || !IsAsciiDigit(s[0]) then 0 else 1 + DigitRun(s[1..])
  }

  /**
   * `s` starts with `k` groups of digits separated by '.'. A digit group can
   * only be followed by '.' at the end of its longest run, so taking that run
   * is the one way the regular expression can match.
   */
  predicate DigitGroupsPrefix(s: string, k: nat)
    requires k >= 1
    decreases k
  {
    var n := DigitRun(s);
    n > 0 && (k == 1 || (n < |s| && s[n] == '.' && DigitGroupsPrefix(s[n + 1..], k - 1)))
  }

  predicate IsDomainIP(domain: string) {
    DigitGroupsPrefix(domain, 4)
  }

  predicate DigitString(g: string) {
    g != [] && forall k :: 0 <= k < |g| ==> IsAsciiDigit(g[k])
  }

  lemma {:induction false} DigitRunOfGroup(g: string, t: string)
    requires DigitString(g)
    requires t == [] || !IsAsciiDigit(t[0])
    ensures DigitRun(g + t) == |g|
  {
    if |g| == 1 {
      assert (g + t)[1..] == t;
    } else {
      assert (g + t)[1..] == g[1..] + t;
      DigitRunOfGroup(g[1..], t);
    }
  }

  /** `g + "." + t`: a group, a dot, and what follows. */
  function Dotted(g: string, t: string): string {
    g + "." + t
  }

  /** A digit group and a dot in front of `t` make one more group. */
  lemma GroupThenDot(g: string, t: string, k: nat)
    requires DigitString(g) && k >= 2
    ensures DigitGroupsPrefix(Dotted(g, t), k) == DigitGroupsPrefix(t, k - 1)
  {
    var s := Dotted(g, t);
    assert s == g + ("." + t);
    DigitRunOfGroup(g, "." + t);
    assert s[|g|] == '.';
    assert s[|g| + 1..] == t;
  }

  lemma OneGroupPrefix(d: string, rest: string)
    requires DigitString(d)
    ensures DigitGroupsPrefix(d + rest, 1)
  {
    assert (d + rest)[0] == d[0];
  }

  lemma TwoGroupsPrefix(c: string, d: string, rest: string)
    requires DigitString(c) && DigitString(d)
    ensures DigitGroupsPrefix(Dotted(c, d + rest), 2)
  {
    OneGroupPrefix(d, rest);
    GroupThenDot(c, d + rest, 2);
  }

  lemma ThreeGroupsPrefix(b: string, c: string, d: string, rest: string)
    requires DigitString(b) && DigitString(c) && DigitString(d)
    ensures DigitGroupsPrefix(Dotted(b, Dotted(c, d + rest)), 3)
  {
    TwoGroupsPrefix(c, d, rest);
    GroupThenDot(b, Dotted(c, d + rest), 3);
  }

  /** Four digit groups joined by dots (`a.b.c.d`), followed by anything, are recognised. */
  lemma DottedQuadIsDomainIP(a: string, b: string, c: string, d: string, rest: string)
    requires DigitString(a) && DigitString(b) && DigitString(c) && DigitString(d)
    ensures IsDomainIP(Dotted(a, Dotted(b, Dotted(c, d + rest))))
  {
    ThreeGroupsPrefix(b, c, d, rest);
    GroupThenDot(a, Dotted(b, Dotted(c, d + rest)), 4);
  }

  /** A prefix of `k >= 2` groups is a digit group, a dot, and a prefix of `k - 1` groups. */
  lemma FirstGroup(s: string, k: nat) returns (g: string, t: string)
    requires k >= 2 && DigitGroupsPrefix(s, k)
    ensures DigitString(g) && s == Dotted(g, t) && DigitGroupsPrefix(t, k - 1)
  {
    var n := DigitRun(s);
    g, t := s[..n], s[n + 1..];
    assert s == g + [s[n]] + t;
  }

  lemma OneGroup(s: string) returns (d: string, rest: string)
    requires DigitGroupsPrefix(s, 1)
    ensures DigitString(d) && s == d + rest
  {
    var n := DigitRun(s);
    d, rest := s[..n], s[n..];
    assert s == d + rest;
  }

  lemma TwoGroups(s: string) returns (c: string, d: string, rest: string)
    requires DigitGroupsPrefix(s, 2)
    ensures DigitString(c) && DigitString(d)
    ensures s == Dotted(c, d + rest)
  {
    var t;
    c, t := FirstGroup(s, 2);
    d, rest := OneGroup(t);
  }

  lemma ThreeGroups(s: string) returns (b: string, c: string, d: string, rest: string)
    requires DigitGroupsPrefix(s, 3)
    ensures DigitString(b) && DigitString(c) && DigitString(d)
    ensures s == Dotted(b, Dotted(c, d + rest))
  {
    var t;
    b, t := FirstGroup(s, 3);
    c, d, rest := TwoGroups(t);
  }

  /** Conversely, a recognised domain starts with four dot-separated digit groups. */
  lemma DomainIPIsDottedQuad(domain: string) returns (a: string, b: string, c: string, d: string, rest: string)
    requires IsDomainIP(domain)
    ensures DigitString(a) && DigitString(b) && DigitString(c) && DigitString(d)
    ensures domain == Dotted(a, Dotted(b, Dotted(c, d + rest)))
  {
    var t;
    a, t := FirstGroup(domain, 4);
    b, c, d, rest := ThreeGroups(t);
  }

  // ---------------------------------------------------------------------------
  // Character continuation: len(re.findall(r'(.)\1{2,}', url))
  // ---------------------------------------------------------------------------

  /** Length of the run of `c` at the start of `s`. */
  function RunLength(s: string, c: char): (n: nat)
    ensures n <= |s|
    ensures forall k :: 0 <= k < n ==> s[k] == c
    ensures n < |s| ==> s[n] != c
  {
    if s == [] || s[0] != c then 0 else 1 + RunLength(s[1..], c)
  }

  /**
   * Matches of `(.)\1{2,}` found left to right: where a character other than
   * a newline ('.' does not match one) is repeated at least three times, the
   * match takes the whole run and the search resumes after it; elsewhere the
   * search moves on by one character. Each match covers at least three
   * characters.
   */
  function ContinuationRuns(s: string): (n: nat)
    ensures 3 * n <= |s|
    decreases |s|
  {
    if |s| < 3 then 0
    else if s[0] != '\n' && s[1] == s[0] && s[2] == s[0] then 1 + ContinuationRuns(s[RunLength(s, s[0])..])
    else ContinuationRuns(s[1..])
  }

  // ---------------------------------------------------------------------------
  // Character histogram: np.mean([count / total for count in Counter(url).values()])
  // ---------------------------------------------------------------------------

  predicate NoDuplicates(d: string) {
    forall i, j :: 0 <= i < j < |d| ==> d[i] != d[j]
  }

  /** The keys of `Counter(s)`: each character of `s` once, in order of first appearance. */
  function Distinct(s: string): (d: string)
    ensures forall c :: c in d <==> c in s
    ensures NoDuplicates(d)
    decreases |s|
  {
    if s == [] then []
    else
      var d := Distinct(s[..|s| - 1]);
      assert s == s[..|s| - 1] + [s[|s| - 1]];
      if s[|s| - 1] in d then d else d + [s[|s| - 1]]
  }

  /** The sum of the counts of the characters of `d` in `s`. */
  function SumOccurrences(s: string, d: string): nat {
    if d == [] then 0 else SumOccurrences(s, d[..|d| - 1]) + Occurrences(s, d[|d| - 1])
  }

  /** Appending one character to `s` adds one to the sum exactly when `d` lists it. */
  lemma {:induction false} SumOccurrencesSnoc(s: string, x: char, d: string)
    requires NoDuplicates(d)
    ensures SumOccurrences(s + [x], d) == SumOccurrences(s, d) + (if x in d then 1 else 0)
  {
    if d != [] {
      var init, e := d[..|d| - 1], d[|d| - 1];
      assert d == init + [e];
      SumOccurrencesSnoc(s, x, init);
      OccurrencesAppend(s, [x], e);
      assert x in d <==> x in init || x == e;
      if x == e {
        assert x !in init;
      }
    }
  }

  /** `sum(Counter(s).values()) == len(s)`: every character is counted exactly once. */
  lemma {:induction false} HistogramTotal(s: string)
    ensures SumOccurrences(s, Distinct(s)) == |s|
    decreases |s|
  {
    if s != [] {
      var init, x := s[..|s| - 1], s[|s| - 1];
      assert s == init + [x];
      HistogramTotal(init);
      var d := Distinct(init);
      SumOccurrencesSnoc(init, x, d);
      if x !in d {
        assert Distinct(s) == d + [x];
        assert (d + [x])[..|d|] == d;
        OccurrencesAppend(init, [x], x);
      }
    }
  }

  /** The share `count / total` of each character listed in `d`. */
  function Shares(s: string, d: string, total: nat): (r: seq<real>)
    requires total > 0
    ensures |r| == |d|
  {
    seq(|d|, i requires 0 <= i < |d| => Occurrences(s, d[i]) as real / total as real)
  }

  lemma DivAdd(a: real, b: real, t: real)
    requires t > 0.0
    ensures a / t + b / t == (a + b) / t
  {
    assert (a / t) * t == a;
    assert (b / t) * t == b;
    assert ((a + b) / t) * t == a + b;
  }

  lemma DivSelf(t: real)
    requires t > 0.0
    ensures t / t == 1.0
  {
  }

  /** Dividing by a positive number keeps the order. */
  lemma DivMono(u: real, v: real, t: real)
    requires u <= v && t > 0.0
    ensures u / t <= v / t
  {
    DivAdd(u, v - u, t);
    assert (v - u) / t >= 0.0;
  }

  function Sum(xs: seq<real>): real {
    if xs == [] then 0.0 else Sum(xs[..|xs| - 1]) + xs[|xs| - 1]
  }

  lemma {:induction false} SumShares(s: string, d: string, total: nat)
    requires total > 0
    ensures Sum(Shares(s, d, total)) == SumOccurrences(s, d) as real / total as real
  {
    if d != [] {
      var init := d[..|d| - 1];
      var xs := Shares(s, d, total);
      assert xs[..|d| - 1] == Shares(s, init, total);
      SumShares(s, init, total);
      var a, b, t := SumOccurrences(s, init) as real, Occurrences(s, d[|d| - 1]) as real, total as real;
      assert Sum(xs) == a / t + b / t;
      DivAdd(a, b, t);
    }
  }

  /** `np.mean(xs)`: NaN for an empty list. */
  function Mean(xs: seq<real>): Number {
    if xs == [] then NaN else Finite(Sum(xs) / |xs| as real)
  }

  /** The `URLCharProb` feature: the mean of the character shares of `s`. */
  function UrlCharProb(s: string): Number {
    var d := Distinct(s);
    var total := SumOccurrences(s, d);
    if d == [] then Mean([])
    else
      HistogramTotal(s);
      Mean(Shares(s, d, total))
  }

  /** The characters of `s`, as a set: `set(s)` in Python. */
  function CharSet(s: string): set<char> {
    set c | c in s
  }

  lemma {:induction false} CardinalityOfDistinct(d: string)
    requires NoDuplicates(d)
    ensures |CharSet(d)| == |d|
  {
    if d != [] {
      var init := d[..|d| - 1];
      CardinalityOfDistinct(init);
      assert CharSet(d) == CharSet(init) + {d[|d| - 1]};
    }
  }

  /** The shares of a non-empty string's histogram sum to 1. */
  lemma SharesSumToOne(s: string)
    requires s != []
    ensures Sum(Shares(s, Distinct(s), |s|)) == 1.0
  {
    var d := Distinct(s);
    HistogramTotal(s);
    SumShares(s, d, |s|);
    assert SumOccurrences(s, d) as real == |s| as real;
    DivSelf(|s| as real);
  }

  /** `Counter(s)` has one key per distinct character of `s`. */
  lemma DistinctCount(s: string)
    ensures |Distinct(s)| == |CharSet(s)|
    ensures |CharSet(s)| == 0 <==> s == []
  {
    CardinalityOfDistinct(Distinct(s));
    assert CharSet(Distinct(s)) == CharSet(s);
    if s != [] {
      assert s[0] in Distinct(s);
    }
  }

  /**
   * For a non-empty URL the shares sum to 1, so their mean is one over the
   * number of distinct characters; the empty URL gives NaN.
   */
  lemma UrlCharProbIsInverseDistinct(s: string)
    ensures |CharSet(s)| == 0 <==> s == []
    ensures s == [] ==> UrlCharProb(s) == NaN
    ensures s != [] ==> UrlCharProb(s) == Finite(1.0 / |CharSet(s)| as real)
  {
    DistinctCount(s);
    if s != [] {
      SharesSumToOne(s);
      HistogramTotal(s);
    }
  }

  // ---------------------------------------------------------------------------
  // Character classes and ratios
  // ---------------------------------------------------------------------------

  /** Characters matched by `[^A-Za-z0-9]`. */
  predicate IsSpecial(c: char) {
    !IsAsciiLetter(c) && !IsAsciiDigit(c)
  }

  /** The number of characters of `s` that satisfy `p`. */
  function CountIf(s: string, p: char -> bool): (n: nat)
    ensures n <= |s|
  {
    if s == [] then 0 else (if p(s[0]) then 1 else 0) + CountIf(s[1..], p)
  }

  /** `n / length if length > 0 else 0`. */
  function Ratio(n: nat, length: nat): (r: real)
    ensures length == 0 ==> r == 0.0
    ensures n <= length ==> 0.0 <= r <= 1.0
  {
    if length > 0 then n as real / length as real else 0.0
  }

  lemma RatiosOfPartition(a: nat, b: nat, c: nat, n: nat)
    requires a + b + c == n && n > 0
    ensures Ratio(a, n) + Ratio(b, n) + Ratio(c, n) == 1.0
  {
    var x, y, z, t := a as real, b as real, c as real, n as real;
    DivAdd(x, y, t);
    DivAdd(x + y, z, t);
    assert x + y + z == t;
    DivSelf(t);
  }

  lemma {:induction false} CharClassesPartition(s: string)
    ensures CountIf(s, IsAsciiLetter) + CountIf(s, IsAsciiDigit) + CountIf(s, IsSpecial) == |s|
  {
    if s != [] {
      CharClassesPartition(s[1..]);
    }
  }

  /**
   * Letters, digits and `[^A-Za-z0-9]` split an ASCII URL into three disjoint
   * classes, so their three ratios sum to exactly 1. (Python's `isalpha` and
   * `isdigit` also accept non-ASCII letters and digits, which the character
   * class counts as special too, so beyond ASCII the source gives no such sum.)
   */
  lemma CharClassRatiosSumToOne(url: string)
    requires IsAscii(url) && url != []
    ensures var f := ExtractFeatures(url);
      f.letterRatio + f.digitRatio + f.specialCharRatio == 1.0
  {
    CharClassesPartition(url);
    RatiosOfPartition(CountIf(url, IsAsciiLetter), CountIf(url, IsAsciiDigit), CountIf(url, IsSpecial), |url|);
  }

  // ---------------------------------------------------------------------------
  // The feature record
  // ---------------------------------------------------------------------------

  datatype UrlFeatures = UrlFeatures(
    urlLength: nat,
    domainLength: nat,
    isDomainIP: bool,
    charContinuationRate: real,
    tldLegitimateProb: real,
    urlCharProb: Number,
    tldLength: nat,
    noOfObfuscatedChar: nat,
    hasObfuscation: bool,
    obfuscationRatio: real,
    letterRatio: real,
    digitRatio: real,
    noOfEquals: nat,
    noOfQMark: nat,
    noOfAmpersand: nat,
    specialCharRatio: real,
    isHttps: bool,
    bank: bool,
    pay: bool,
    crypto: bool)

  /** Every feature the extractor computes for `url`, before ordering. */
  function ExtractFeatures(url: string): (f: UrlFeatures)
    ensures f.urlLength == |url|
    ensures f.domainLength == |Netloc(url)|
    ensures f.tldLength == |Tld(Netloc(url))|
  {
    var domain := Netloc(url);
    var tld := Tld(domain);
    var obfuscated := CountSub(url, "//") + CountSub(url, "\\");
    var lowerUrl := Lower(url);
    UrlFeatures(
      urlLength := |url|,
      domainLength := |domain|,
      isDomainIP := IsDomainIP(domain),
      charContinuationRate := Ratio(ContinuationRuns(url), |url|),
      tldLegitimateProb := TldLegitimateProb(tld),
      urlCharProb := UrlCharProb(url),
      tldLength := |tld|,
      noOfObfuscatedChar := obfuscated,
      hasObfuscation := obfuscated > 0,
      obfuscationRatio := Ratio(obfuscated, |url|),
      letterRatio := Ratio(CountIf(url, IsAsciiLetter), |url|),
      digitRatio := Ratio(CountIf(url, IsAsciiDigit), |url|),
      noOfEquals := CountSub(url, "="),
      noOfQMark := CountSub(url, "?"),
      noOfAmpersand := CountSub(url, "&"),
      specialCharRatio := Ratio(CountIf(url, IsSpecial), |url|),
      isHttps := Scheme(url) == "https",
      bank := Contains(lowerUrl, "bank"),
      pay := Contains(lowerUrl, "pay"),
      crypto := Contains(lowerUrl, "crypto"))
  }

  // ---------------------------------------------------------------------------
  // The ordered vector
  // ---------------------------------------------------------------------------

  /** The fixed output order of the 20 features. */
  const FeatureNames: seq<string> := [
    "URLLength", "DomainLength", "IsDomainIP", "HasObfuscation", "CharContinuationRate",
    "TLDLegitimateProb", "NoOfObfuscatedChar", "NoOfEqualsInURL", "NoOfQMarkInURL", "NoOfAmpersandInURL",
    "URLCharProb", "DegitRatioInURL", "Bank", "Pay", "Crypto",
    "SpacialCharRatioInURL", "IsHTTPS", "TLDLength", "LetterRatioInURL", "ObfuscationRatio"
  ]

  function Count(n: nat): Number {
    Finite(n as real)
  }

  /** `int(b)`: 1 for true, 0 for false. */
  function Flag(b: bool): Number {
    Finite(if b then 1.0 else 0.0)
  }

  /** The local `features` dictionary: feature name to value. */
  function FeatureTable(f: UrlFeatures): map<string, Number> {
    map[
      "URLLength" := Count(f.urlLength),
      "DomainLength" := Count(f.domainLength),
      "IsDomainIP" := Flag(f.isDomainIP),
      "CharContinuationRate" := Finite(f.charContinuationRate),
      "TLDLegitimateProb" := Finite(f.tldLegitimateProb),
      "URLCharProb" := f.urlCharProb,
      "TLDLength" := Count(f.tldLength),
      "NoOfObfuscatedChar" := Count(f.noOfObfuscatedChar),
      "HasObfuscation" := Flag(f.hasObfuscation),
      "ObfuscationRatio" := Finite(f.obfuscationRatio),
      "LetterRatioInURL" := Finite(f.letterRatio),
      "DegitRatioInURL" := Finite(f.digitRatio),
      "NoOfEqualsInURL" := Count(f.noOfEquals),
      "NoOfQMarkInURL" := Count(f.noOfQMark),
      "NoOfAmpersandInURL" := Count(f.noOfAmpersand),
      "SpacialCharRatioInURL" := Finite(f.specialCharRatio),
      "IsHTTPS" := Flag(f.isHttps),
      "Bank" := Flag(f.bank),
      "Pay" := Flag(f.pay),
      "Crypto" := Flag(f.crypto)
    ]
  }

  /** The output order lists 20 names, no name twice. */
  lemma FeatureNamesDistinct()
    ensures |FeatureNames| == 20
    ensures forall i, j :: 0 <= i < j < |FeatureNames| ==> FeatureNames[i] != FeatureNames[j]
  {
  }

  /** The features dictionary has exactly the names of the output order as keys. */
  lemma FeatureNamesMatchTable(f: UrlFeatures)
    ensures forall i :: 0 <= i < |FeatureNames| ==> FeatureNames[i] in FeatureTable(f)
    ensures forall n :: n in FeatureTable(f) ==> n in FeatureNames
  {
  }

  /** `extract_all_features_df(url)`: the table's values in the fixed order. */
  function ExtractAllFeatures(url: string): (v: seq<Number>)
    ensures |v| == 20
    ensures forall i :: 0 <= i < 20 ==> v[i] == FeatureTable(ExtractFeatures(url))[FeatureNames[i]]
  {
    var table := FeatureTable(ExtractFeatures(url));
    FeatureNamesMatchTable(ExtractFeatures(url));
    seq(|FeatureNames|, i requires 0 <= i < |FeatureNames| => table[FeatureNames[i]])
  }
}

/** Properties of the extractor's output, one group of features at a time. */
module FeatureProperties {
  import opened StringOps
  import opened UrlParse
  import opened Features

  /**
   * `NoOfObfuscatedChar` is the number of non-overlapping "//" plus the number
   * of backslashes, and `HasObfuscation` holds exactly when either occurs.
   */
  lemma ObfuscationFeatures(url: string)
    ensures ExtractFeatures(url).noOfObfuscatedChar == CountSub(url, "//") + Occurrences(url, '\\')
    ensures ExtractFeatures(url).hasObfuscation <==> ExtractFeatures(url).noOfObfuscatedChar > 0
    ensures ExtractFeatures(url).hasObfuscation <==> Contains(url, "//") || Contains(url, "\\")
  {
    CountSubChar(url, '\\');
    CountSubPositive(url, "//");
    CountSubPositive(url, "\\");
  }

  /** Every URL with a `scheme://` separator already counts as obfuscated. */
  lemma SchemeSeparatorIsObfuscation(url: string)
    requires Contains(url, "://")
    ensures ExtractFeatures(url).hasObfuscation
    ensures ExtractFeatures(url).noOfObfuscatedChar >= 1
  {
    ContainsTransitive(url, "://", "//");
    ObfuscationFeatures(url);
  }

  /** Slashes in "//" pairs and backslashes are different characters of the URL. */
  lemma ObfuscatedCharsBound(url: string)
    ensures ExtractFeatures(url).noOfObfuscatedChar <= |url|
  {
    ObfuscationFeatures(url);
    CountSubDoubledChar(url, '/');
    OccurrencesOfTwo(url, '/', '\\');
  }

  /** For the empty URL every ratio is 0, and the character probability is NaN. */
  lemma RatiosOfEmptyUrl()
    ensures var f := ExtractFeatures("");
      && f.charContinuationRate == 0.0 && f.obfuscationRatio == 0.0
      && f.letterRatio == 0.0 && f.digitRatio == 0.0 && f.specialCharRatio == 0.0
      && f.urlCharProb == NaN
  {
    UrlCharProbIsInverseDistinct("");
  }

  /**
   * For a non-empty URL each ratio is its count over the URL's length and lies
   * in [0, 1]; runs of three take at least three characters each, so the
   * continuation rate is at most 1/3.
   */
  lemma RatiosInUnitInterval(url: string)
    requires url != []
    ensures ExtractFeatures(url).charContinuationRate == ContinuationRuns(url) as real / |url| as real
    ensures ExtractFeatures(url).obfuscationRatio == ExtractFeatures(url).noOfObfuscatedChar as real / |url| as real
    ensures ExtractFeatures(url).letterRatio == CountIf(url, IsAsciiLetter) as real / |url| as real
    ensures ExtractFeatures(url).digitRatio == CountIf(url, IsAsciiDigit) as real / |url| as real
    ensures ExtractFeatures(url).specialCharRatio == CountIf(url, IsSpecial) as real / |url| as real
    ensures 0.0 <= ExtractFeatures(url).charContinuationRate <= 1.0 / 3.0
    ensures 0.0 <= ExtractFeatures(url).obfuscationRatio <= 1.0
    ensures 0.0 <= ExtractFeatures(url).letterRatio <= 1.0
    ensures 0.0 <= ExtractFeatures(url).digitRatio <= 1.0
    ensures 0.0 <= ExtractFeatures(url).specialCharRatio <= 1.0
  {
    ContinuationRate(url);
    ObfuscationRatio(url);
    ClassRatio(url, IsAsciiLetter, ExtractFeatures(url).letterRatio);
    ClassRatio(url, IsAsciiDigit, ExtractFeatures(url).digitRatio);
    ClassRatio(url, IsSpecial, ExtractFeatures(url).specialCharRatio);
  }

  lemma ContinuationRate(url: string)
    requires url != []
    ensures ExtractFeatures(url).charContinuationRate == ContinuationRuns(url) as real / |url| as real
    ensures 0.0 <= ExtractFeatures(url).charContinuationRate <= 1.0 / 3.0
  {
    ThirdBound(ContinuationRuns(url), |url|);
  }

  lemma ObfuscationRatio(url: string)
    requires url != []
    ensures ExtractFeatures(url).obfuscationRatio == ExtractFeatures(url).noOfObfuscatedChar as real / |url| as real
    ensures 0.0 <= ExtractFeatures(url).obfuscationRatio <= 1.0
  {
    ObfuscatedCharsBound(url);
  }

  lemma ClassRatio(url: string, p: char -> bool, r: real)
    requires url != [] && r == Ratio(CountIf(url, p), |url|)
    ensures r == CountIf(url, p) as real / |url| as real
    ensures 0.0 <= r <= 1.0
  {
  }

  lemma ThirdBound(x: nat, n: nat)
    requires 0 < n && 3 * x <= n
    ensures Ratio(x, n) == x as real / n as real
    ensures 0.0 <= Ratio(x, n) <= 1.0 / 3.0
  {
    var a, b := x as real, n as real;
    DivMono(3.0 * a, b, b);
    DivSelf(b);
    DivAdd(a, 2.0 * a, b);
    DivAdd(a, a, b);
  }

  /**
   * The three query-string counts are the raw numbers of '=', '?' and '&'
   * in the URL.
   */
  lemma QueryCharCounts(url: string)
    ensures ExtractFeatures(url).noOfEquals == Occurrences(url, '=')
    ensures ExtractFeatures(url).noOfQMark == Occurrences(url, '?')
    ensures ExtractFeatures(url).noOfAmpersand == Occurrences(url, '&')
  {
    CountSubChar(url, '=');
    CountSubChar(url, '?');
    CountSubChar(url, '&');
  }

  /** A keyword flag is set exactly when the keyword occurs in the lower-cased URL. */
  lemma KeywordFlags(url: string)
    ensures ExtractFeatures(url).bank <==> exists i :: OccursAt(Lower(url), "bank", i)
    ensures ExtractFeatures(url).pay <==> exists i :: OccursAt(Lower(url), "pay", i)
    ensures ExtractFeatures(url).crypto <==> exists i :: OccursAt(Lower(url), "crypto", i)
  {
    KeywordOccurs(Lower(url), "bank");
    KeywordOccurs(Lower(url), "pay");
    KeywordOccurs(Lower(url), "crypto");
  }

  lemma KeywordOccurs(s: string, p: string)
    ensures Contains(s, p) <==> exists i :: OccursAt(s, p, i)
  {
    if Contains(s, p) {
      var i := ContainsWitness(s, p);
    }
    if exists i :: OccursAt(s, p, i) {
      var i :| OccursAt(s, p, i);
      ContainsAt(s, p, i);
    }
  }

  /**
   * `IsHTTPS` holds exactly when the URL starts with "https:" in any mix of
   * upper and lower case.
   */
  lemma HttpsFlag(url: string)
    ensures ExtractFeatures(url).isHttps <==> |url| >= 6 && Lower(url[..6]) == "https:"
  {
    if |url| >= 6 && Lower(url[..6]) == "https:" {
      var s := url[..5];
      forall k | 0 <= k < 5
        ensures IsAsciiLetter(s[k])
      {
        assert LowerChar(url[k]) == "https:"[k];
      }
      assert LowerChar(url[5]) == ':';
      assert url == s + ":" + url[6..];
      assert Lower(s) == "https";
      SplitSchemeAssembled(s, url[6..]);
    }
    if Scheme(url) == "https" {
      var i := IndexOf(url, ':').value;
      assert |Lower(url[..i])| == 5;
      assert url[..6] == url[..5] + [':'];
      assert Lower(url[..6]) == "https:";
    }
  }
}
