# PhishGuard in Dafny

PhishGuard is a phishing detector made of two parts:

- a browser extension that checks every navigation (top-level and in frames);
- a backend that scores URLs.

This project models the two pieces of logic that decide what happens to a URL.

**The backend's lexical feature extractor** (`extract_all_features_df`) turns a URL into an ordered vector of 20 numbers. Each number is one of:

- a length;
- an occurrence count;
- a lookup in the table of top-level-domain trust scores;
- a 0/1 flag;
- a count divided by the URL's length (0 for the empty URL);
- the mean of the per-character shares (`URLCharProb`), which is `NaN` for the empty URL.

The model has:

- the feature record, `Features.ExtractFeatures`;
- the ordered vector, `Features.ExtractAllFeatures`;
- the Python library behaviour they rely on, written out as small functions:
  - `str.count`, which counts non-overlapping occurrences;
  - substring tests and ASCII lower-casing;
  - the scheme and network location of `urllib.parse.urlparse`;
  - the dotted-quad prefix match;
  - the `(.)\1{2,}` run scan;
  - the character histogram.

Ratios are exact reals. The mean over an empty histogram is `NaN`.

**The extension's background script** gates navigations with a per-tab bypass table. `Background.BypassTable` is a class whose field `entries: map<int, set<string>>` is the script's `bypassMap`. Three methods change or read it:

- the message listener adds a URL when the user chooses to proceed anyway;
- the tab-removed listener drops a tab's entry;
- the before-navigate listener reads the table.

Around the table sit three pure rules:

- the skip rule for internal and local URLs;
- the trailing-slash cleanup before a URL is sent;
- the verdict: a numeric prediction of 0 redirects to the warning page, and everything else fails open.

Each method is tied to a pure function on the map. The properties are lemmas about those functions.

The backend's answer is an input. It is modelled as a function from the URL sent to the response received: a network error, or an OK flag (`response.ok`) and a body that may not parse as JSON. The extension's own address of its warning page is a parameter too.

Three behaviours of the code differ from what a reader might expect:

- **Example URL `http://example.com/login?user=1&pass=2`.** `HasObfuscation` is 1, because the "//" after the scheme is counted. The URL has two '=' (one in `user=1` and one in `pass=2`), one '?' and one '&', and none of the three keywords. `FeatureScenarios.HttpLoginWithQuery` proves all of these values.
- **Bare IP address `192.168.1.5`.** No scheme is added before parsing. Without `//` there is no network location, so `IsDomainIP` is 0. With `http://` in front it is 1. `FeatureScenarios.BareIpAddress` proves both.
- **Empty host.** The domain is `urlparse(url).netloc` and nothing else. When the URL has no `//` it is empty; it is never recovered from the path.

## Model

| member | source | states |
|---|---|---|
| Features.TldLegitimateProb | backend/features.py:7-11 | a known TLD scores its table value, an unknown TLD 0.5, and every score lies within [0.10, 0.98] |
| Features.LastLabel | backend/features.py:25 | the result has no '.', is a suffix of its input, is shorter than the input whenever the input has a '.', and is then preceded by a '.' |
| Features.TldShape | backend/features.py:25 | with a '.' in the domain, the domain is a prefix, a '.', and a dot-free tail whose lower case is the TLD; without one the TLD is empty |
| Features.DottedQuadIsDomainIP | backend/features.py:21 | any domain that starts with four dot-separated runs of ASCII digits passes the IP check, whatever follows |
| Features.DomainIPIsDottedQuad | backend/features.py:21 | conversely, a domain that passes the IP check starts with four dot-separated non-empty digit runs |
| Features.ContinuationRuns | backend/features.py:23 | the run matches of `(.)\1{2,}` each use at least three characters: three times the count is at most the URL's length |
| Features.Distinct | backend/features.py:28 | the histogram's keys: exactly the characters of the URL, each once |
| Features.HistogramTotal | backend/features.py:28-29 | the histogram's counts sum to the URL's length |
| Features.SharesSumToOne | backend/features.py:30 | the per-character shares count/total sum to 1 for a non-empty URL |
| Features.UrlCharProbIsInverseDistinct | backend/features.py:28-31 | `URLCharProb` is 1 / (number of distinct characters) for a non-empty URL and NaN for the empty one |
| Features.CountIf | backend/features.py:38-39 | a character-class count never exceeds the URL's length |
| Features.Ratio | backend/features.py:36 | a ratio is 0 for the empty URL, and within [0, 1] when the count does not exceed the length |
| Features.CharClassRatiosSumToOne | backend/features.py:38-46 | for a non-empty ASCII URL, the letter, digit and special-character ratios sum to exactly 1 |
| Features.ExtractFeatures | backend/features.py:13-53 | `URLLength` is the URL's length, `DomainLength` the netloc's, `TLDLength` the TLD's |
| Features.FeatureNamesDistinct | backend/features.py:56-61 | the output order lists 20 names, pairwise different |
| Features.FeatureNamesMatchTable | backend/features.py:55-61 | the names of the output order are exactly the keys of the features dictionary |
| Features.ExtractAllFeatures | backend/features.py:55-63 | the vector has 20 entries, entry i being the feature named by the i-th name of the fixed order |
| FeatureProperties.ObfuscationFeatures | backend/features.py:34-35 | `NoOfObfuscatedChar` is the non-overlapping count of "//" plus the number of backslashes; `HasObfuscation` holds iff that sum is positive, iff "//" or a backslash occurs |
| FeatureProperties.SchemeSeparatorIsObfuscation | backend/features.py:34-35 | every URL containing "://" has `HasObfuscation` set and at least one obfuscated character |
| FeatureProperties.ObfuscatedCharsBound | backend/features.py:34 | the obfuscated-character count never exceeds the URL's length |
| FeatureProperties.RatiosOfEmptyUrl | backend/features.py:23-46 | for the empty URL every ratio is 0 and `URLCharProb` is NaN |
| FeatureProperties.RatiosInUnitInterval | backend/features.py:23-46 | for a non-empty URL each ratio is its count over the length and lies in [0, 1]; the continuation rate is at most 1/3 |
| FeatureProperties.QueryCharCounts | backend/features.py:41-43 | the '=', '?' and '&' features are the raw numbers of those characters |
| FeatureProperties.KeywordFlags | backend/features.py:50-53 | `Bank`, `Pay`, `Crypto` hold iff "bank", "pay", "crypto" occur at some index of the lower-cased URL |
| FeatureProperties.HttpsFlag | backend/features.py:48 | `IsHTTPS` holds iff the URL starts with "https:" in any letter case |
| FeatureScenarios.HttpLoginWithQuery | backend/features.py:34-53 | `http://example.com/login?user=1&pass=2` has `HasObfuscation` set, `IsHTTPS` clear, two '=', one '?', one '&', and `Bank`, `Pay`, `Crypto` clear |
| FeatureScenarios.HttpsPaypalLookalike | backend/features.py:34-53 | `https://secure-paypal-login.com//update` has `HasObfuscation`, `IsHTTPS` and `Pay` set and at least one obfuscated character |
| FeatureScenarios.BareIpAddress | backend/features.py:14-21 | `192.168.1.5` is not recognised as an IP domain, and `http://192.168.1.5` is |
| UrlParse.IndexOf | backend/features.py:14 | the first index of a character, or none exactly when it does not occur |
| UrlParse.NetlocEnd | backend/features.py:14 | the netloc stops at the first '/', '?' or '#', or at the end |
| UrlParse.SplitSchemeAssembled | backend/features.py:14 | a valid scheme followed by ':' is split off, lower-cased, from the rest |
| UrlParse.ParseAssembled | backend/features.py:14-15 | parsing `scheme://host` followed by a path, query or fragment gives back the scheme and the host |
| UrlParse.NoDoubleSlashNoNetloc | backend/features.py:15 | a URL without "//" has an empty domain |
| StringOps.Lower | backend/features.py:50 | lower-casing keeps the length and maps each character by ASCII lower case |
| StringOps.Occurrences | backend/features.py:41-43 | a character count is at most the length and is 0 exactly when the character is absent |
| StringOps.CountSubChar | backend/features.py:41-43 | `str.count` of a one-character pattern is that character's number of occurrences |
| StringOps.CountSubBound | backend/features.py:34 | non-overlapping matches of a non-empty pattern fit in the string |
| StringOps.CountSubDoubledChar | backend/features.py:34 | each "//" match uses two slashes: twice the count is at most the number of '/' |
| StringOps.CountSubPositive | backend/features.py:34-35 | `str.count` of a non-empty pattern is positive iff the pattern occurs |
| FeatureProperties.KeywordOccurs | backend/features.py:51-53 | `in` holds iff the pattern occurs at some index |
| StringOps.ContainsTransitive | background.js:21-22 | a string containing `q` contains every substring of `q` |
| Background.WarningPageTestRedundant | background.js:21-22 | when the warning page's address contains "warning.html", testing for that address adds nothing to testing for "warning.html" |
| Background.OnlyWarningPageSkipped | background.js:14-26 | for the http(s) URLs the listener receives, none of the six prefix tests can succeed: a URL is skipped iff it contains "warning.html" |
| Background.StripTrailingSlashes | background.js:81 | the cleaned URL never ends in '/', and the URL is the cleaned one followed by only slashes |
| Background.StripIdempotent | background.js:81 | cleaning twice is cleaning once |
| Background.StripUnique | background.js:81 | any split of the URL into a part not ending in '/' plus slashes is the one the cleanup finds |
| Background.FetchPrediction | background.js:83-100 | a result comes back iff the backend was reached, answered OK and sent JSON |
| Background.RedirectIffPredictionZero | background.js:30-51 | a redirect happens iff the backend answered OK with an object whose `prediction` is the number 0; anything else allows the navigation |
| Background.AfterMessage | background.js:62-71 | a bypass request adds its URL to the sender tab's set, creating the set when absent, and leaves every other tab alone; any other message changes nothing |
| Background.AfterTabRemoved | background.js:73-75 | a closed tab's entry goes; every other tab's set stays as it was |
| Background.BypassOnlyAddsThePair | background.js:63-66 | after a bypass request, the bypassed (tab, URL) pairs are the old ones plus exactly the requested one |
| Background.RemovalEndsBypass | background.js:73-75 | after a tab closes, none of its URLs is bypassed, and other tabs keep theirs |
| Background.BypassThenNavigate | background.js:8-11 | after a bypass request for a URL from a tab, navigating that tab to exactly that URL is let through without a prediction |
| Background.NavigationSendsStripped | background.js:8-31 | a navigation reaches the backend iff it is neither bypassed nor internal, and what is sent is the URL without trailing slashes |
| Background.RedirectIffChecked | background.js:30-47 | a navigation is redirected, to the warning page for the URL as navigated to, iff it reaches the backend and the answer for the cleaned URL is a prediction of 0 |
| Background.BypassTable.constructor | background.js:58 | the table starts empty |
| Background.BypassTable.OnMessage | background.js:62-71 | the new table is `AfterMessage` of the old one; a reply is sent iff the message is a bypass request from a tab |
| Background.BypassTable.OnTabRemoved | background.js:73-75 | the new table is `AfterTabRemoved` of the old one |
| Background.BypassTable.OnBeforeNavigate | background.js:3-54 | the decision is `Navigate` of the current table, and it is "bypassed" iff the tab's set holds the URL |
| Background.BypassLifecycle | background.js:62-75 | proceed-anyway then navigate again passes unchecked; after the tab closes, the same navigation is not bypassed |

## Left out

- `backend/app.py` is not part of this model. It is Flask routing, loading a model bundle, scaling and neural-network inference with a float threshold. Its line 50 indexes a Python list with a list of names, which raises and ends in the 500 handler; the model does not cover this.
- `round(..., 6)` and floating point: ratios are exact reals, and the vector is not rounded.
- `np.mean([])` is represented as the value `NaN`. Its floating-point behaviour in later arithmetic is not modelled.
- Character classes and lower-casing are ASCII only. Python's `isalpha`, `isdigit` and `lower` also act on non-ASCII characters. This is why `Features.CharClassRatiosSumToOne` requires an ASCII URL.
- UrlParse.Netloc: the model covers the library's scheme and netloc split. It does not cover these parts of `urlsplit`:
  - stripping leading whitespace and control characters;
  - removing tab, CR and LF;
  - the error raised for an ill-formed IPv6 bracket.
- UrlParse.Netloc always returns a value. `urlsplit` also checks a non-ASCII netloc: when its NFKC normalisation produces '/', '?', '#', '@' or ':', it raises `ValueError`, and so does the extractor. That error path is not modelled.
- Features.DigitRun accepts ASCII digits only. In the IP regular expression (backend/features.py:21), `\d` matches any Unicode decimal digit, so a netloc of non-ASCII digits such as Arabic-Indic ones passes the source's IP check but not the model's.
- UrlParse.SplitScheme follows the scheme rule of recent Python versions. Older versions also treated a scheme followed by a port-like number differently.
- Features.ContinuationRuns: only the bound of one match per three characters is proved. The scan follows the regex engine's left-to-right search; the engine itself is not modelled.
- Background.AfterMessage: a bypass request without a `url` adds JavaScript's `undefined`, which no navigation URL equals. Here it adds nothing, which decides every later navigation the same way. A non-string `msg.url` is not modelled.
- Browser plumbing is not modelled:
  - `chrome.tabs.update` is represented by the `Redirect` action's tab and destination;
  - `chrome.runtime.getURL` is a parameter;
  - `encodeURIComponent` of the destination is not modelled;
  - `fetch` and its POST body are an input function from the URL sent to the response.
- The script's async/await interleaving is not modelled. Each listener runs to completion, and a table change made while a prediction is pending is not represented.
- Logging is not modelled.
- The listener's `{schemes: ['http', 'https']}` filter is applied by the browser. Here it is the predicate `Background.PassesListenerFilter`, stated as a prefix test on the URL.
- `warning.js` and `popup.js` are not part of this model: they are page and UI code. The popup reads a prediction of 0 as safe, while the background script reads 0 as phishing. The model follows the background script and does not reconcile the two.
- Content-based page features, the trained model and its scaler are not part of this model.
