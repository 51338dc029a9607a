/**
 * The extension's background script: it gates every navigation, top-level
 * and in frames (a 0 verdict for a frame redirects its whole tab).
 * A per-tab table of URLs the user chose to visit despite a warning lets a
 * navigation through unchecked; internal and local URLs are skipped; every
 * other URL, with its trailing slashes removed, goes to the prediction
 * backend, and a prediction of 0 redirects the tab to the warning page.
 * Anything else the backend answers, or any failure to reach it, lets the
 * navigation proceed (fail-open).
 *
 * The browser's callbacks become methods of `BypassTable`; the backend is a
 * function from the URL sent to the response received.
 */
module Background {
  import opened Wrappers
  import opened StringOps

  // ---------------------------------------------------------------------------
  // URLs that are never checked
  // ---------------------------------------------------------------------------

  /**
   * Internal and local URLs. `warningPage` is the extension's own address of
   * its warning page, as the browser reports it.
   */
  predicate IsInternalOrLocal(url: string, warningPage: string) {
    || StartsWith(url, "chrome://")
    || StartsWith(url, "chrome-extension://")
    || StartsWith(url, "moz-extension://")
    || StartsWith(url, "localhost")
    || StartsWith(url, "127.0.0.1")
    || StartsWith(url, "file://")
    || Contains(url, "warning.html")
    || Contains(url, warningPage)
  }

  /**
   * The listener is registered for http and https URLs only (the browser
   * applies this filter before the listener runs).
   */
  predicate PassesListenerFilter(url: string) {
    StartsWith(url, "http://") || StartsWith(url, "https://")
  }

  /**
   * The warning page's own address ends in "warning.html", so the last test
   * of the skip rule adds nothing: the rule is decided by the fixed prefixes
   * and the "warning.html" substring alone.
   */
  lemma WarningPageTestRedundant(url: string, warningPage: string)
    requires Contains(warningPage, "warning.html")
    ensures IsInternalOrLocal(url, warningPage) <==> IsInternalOrLocal(url, "warning.html")
  {
    if Contains(url, warningPage) {
      ContainsTransitive(url, warningPage, "warning.html");
    }
  }

  /**
   * On the URLs the listener actually receives, none of the six prefix tests
   * can succeed: only a URL containing "warning.html" is skipped. In
   * particular `http://localhost/...` and `http://127.0.0.1/...` are sent to
   * the backend.
   */
  lemma OnlyWarningPageSkipped(url: string, warningPage: string)
    requires PassesListenerFilter(url)
    requires Contains(warningPage, "warning.html")
    ensures IsInternalOrLocal(url, warningPage) <==> Contains(url, "warning.html")
  {
    WarningPageTestRedundant(url, warningPage);
    assert url[0] == 'h';
  }

  // ---------------------------------------------------------------------------
  // The URL sent to the backend
  // ---------------------------------------------------------------------------

  /** A string of `n` slashes. */
  function Slashes(n: nat): (r: string)
    ensures |r| == n && forall k :: 0 <= k < n ==> r[k] == '/'
  {
    if n == 0 then [] else Slashes(n - 1) + ['/']
  }

  /**
   * `url.replace(/\/+$/, '')`: the URL without the run of '/' at its end. The
   * result never ends in '/', and putting the removed slashes back gives the
   * URL again.
   */
  function StripTrailingSlashes(url: string): (r: string)
    ensures r == [] || r[|r| - 1] != '/'
    ensures |r| <= |url| && url == r + Slashes(|url| - |r|)
  {
    if url != [] && url[|url| - 1] == '/' then
      var r := StripTrailingSlashes(url[..|url| - 1]);
      assert url == url[..|url| - 1] + ['/'];
      r
    else
      assert url == url + [];
      url
  }

  /** Stripping twice is stripping once. */
  lemma StripIdempotent(url: string)
    ensures StripTrailingSlashes(StripTrailingSlashes(url)) == StripTrailingSlashes(url)
  {
  }

  /** The stripped URL is the unique slash-free-ended prefix that leaves only slashes. */
  lemma {:induction false} StripUnique(url: string, r: string, n: nat)
    requires url == r + Slashes(n)
    requires r == [] || r[|r| - 1] != '/'
    ensures StripTrailingSlashes(url) == r
    decreases n
  {
    if n == 0 {
      assert url == r;
    } else {
      assert url[..|url| - 1] == r + Slashes(n - 1);
      StripUnique(url[..|url| - 1], r, n - 1);
    }
  }

  // ---------------------------------------------------------------------------
  // From the backend's answer to a verdict
  // ---------------------------------------------------------------------------

  /** A value parsed from the backend's JSON body. */
  datatype Json =
    | JNull
    | JBool(b: bool)
    | JNumber(n: real)
    | JString(s: string)
    | JArray(items: seq<Json>)
    | JObject(fields: map<string, Json>)

  /** What `fetch` yields: a network failure, or an OK flag (`response.ok`) and a body that may not parse. */
  datatype Response =
    | NetworkError
    | HttpResponse(ok: bool, body: Option<Json>)

  /**
   * `fetchPrediction`: the parsed body of a successful response; `None` when
   * it throws (network failure, a non-2xx status, or a body that is not JSON).
   */
  function FetchPrediction(response: Response): (r: Option<Json>)
    ensures r.Some? <==> response.HttpResponse? && response.ok && response.body.Some?
  {
    match response
    case NetworkError => None
    case HttpResponse(ok, body) => if ok then body else None
  }

  /** JavaScript truthiness of a parsed JSON value. */
  predicate Truthy(v: Json) {
    match v
    case JNull => false
    case JBool(b) => b
    case JNumber(n) => n != 0.0
    case JString(s) => s != []
    case JArray(_) => true
    case JObject(_) => true
  }

  /** `result.prediction`: only an object can have that property. */
  function PredictionOf(v: Json): Option<Json> {
    if v.JObject? && "prediction" in v.fields then Some(v.fields["prediction"]) else None
  }

  datatype Verdict = Allow | RedirectToWarning

  /**
   * The decision after `fetchPrediction`: a thrown error, a falsy result or a
   * prediction that is not a number allows the navigation; a numeric
   * prediction equal to 0 means phishing.
   */
  function Decide(result: Option<Json>): Verdict {
    match result
    case None => Allow
    case Some(v) =>
      if !Truthy(v) then Allow
      else match PredictionOf(v)
        case Some(JNumber(p)) => if p == 0.0 then RedirectToWarning else Allow
        case _ => Allow
  }

  /**
   * A redirect happens exactly when the backend answered with status OK and a
   * JSON object whose `prediction` is the number 0; every other answer, and
   * every failure, allows the navigation.
   */
  lemma RedirectIffPredictionZero(response: Response)
    ensures Decide(FetchPrediction(response)) == RedirectToWarning <==>
      && response.HttpResponse? && response.ok
      && response.body.Some? && response.body.value.JObject?
      && "prediction" in response.body.value.fields
      && response.body.value.fields["prediction"] == JNumber(0.0)
  {
  }

  // ---------------------------------------------------------------------------
  // The bypass table
  // ---------------------------------------------------------------------------

  /** A runtime message: its `action` and `url` properties, when they are strings. */
  datatype Message = Message(action: Option<string>, url: Option<string>)

  /** The sender of a message: the id of its tab, when it comes from a tab. */
  datatype Sender = Sender(tab: Option<int>)

  predicate IsBypassRequest(msg: Message, sender: Sender) {
    msg.action == Some("bypassUrl") && sender.tab.Some?
  }

  /** The URLs of tab `tab` in `table`, or none. */
  function UrlsOf(table: map<int, set<string>>, tab: int): set<string> {
    if tab in table then table[tab] else {}
  }

  /**
   * The table after a message: a bypass request adds its URL to the sender
   * tab's set, creating the set if needed; any other message changes nothing.
   * (A request without a URL adds JavaScript's `undefined`, which no
   * navigation URL equals; here it adds nothing.)
   */
  function AfterMessage(table: map<int, set<string>>, msg: Message, sender: Sender): (r: map<int, set<string>>)
    ensures !IsBypassRequest(msg, sender) ==> r == table
    ensures IsBypassRequest(msg, sender) ==>
      && r.Keys == table.Keys + {sender.tab.value}
      && (forall t :: t in table && t != sender.tab.value ==> r[t] == table[t])
      && r[sender.tab.value] == UrlsOf(table, sender.tab.value) + (if msg.url.Some? then {msg.url.value} else {})
  {
    if IsBypassRequest(msg, sender) then
      var tab := sender.tab.value;
      table[tab := UrlsOf(table, tab) + (if msg.url.Some? then {msg.url.value} else {})]
    else table
  }

  /** The table after tab `tab` closes: its entry goes, every other stays as it was. */
  function AfterTabRemoved(table: map<int, set<string>>, tab: int): (r: map<int, set<string>>)
    ensures tab !in r
    ensures r.Keys == table.Keys - {tab}
    ensures forall t :: t in r ==> r[t] == table[t]
  {
    table - {tab}
  }

  predicate IsBypassed(table: map<int, set<string>>, tab: int, url: string) {
    tab in table && url in table[tab]
  }

  // ---------------------------------------------------------------------------
  // The navigation listener
  // ---------------------------------------------------------------------------

  /** What the tab is told to do after a check. */
  datatype Action = NoAction | Redirect(tab: int, destination: string)

  /** How a navigation was handled. */
  datatype Navigation =
    | Bypassed
    | SkippedInternal
    | Checked(sent: string, action: Action)

  /**
   * The navigation listener: the bypass table first, then the skip rule, then
   * the backend, asked about the URL without its trailing slashes. A redirect
   * carries the URL as navigated to, not the stripped one.
   */
  function Navigate(table: map<int, set<string>>, tab: int, url: string, warningPage: string,
                    backend: string -> Response): Navigation
  {
    if IsBypassed(table, tab, url) then Bypassed
    else if IsInternalOrLocal(url, warningPage) then SkippedInternal
    else
      var sent := StripTrailingSlashes(url);
      var verdict := Decide(FetchPrediction(backend(sent)));
      Checked(sent, if verdict == RedirectToWarning then Redirect(tab, url) else NoAction)
  }

  /**
   * A navigation reaches the backend exactly when it is neither bypassed nor
   * internal, and then what is sent is the URL without trailing slashes,
   * which never ends in '/'.
   */
  lemma NavigationSendsStripped(table: map<int, set<string>>, tab: int, url: string, warningPage: string,
                                backend: string -> Response)
    ensures Navigate(table, tab, url, warningPage, backend).Checked? <==>
      !IsBypassed(table, tab, url) && !IsInternalOrLocal(url, warningPage)
    ensures Navigate(table, tab, url, warningPage, backend).Checked? ==>
      var sent := Navigate(table, tab, url, warningPage, backend).sent;
      sent == StripTrailingSlashes(url) && (sent == [] || sent[|sent| - 1] != '/')
  {
  }

  /**
   * A navigation is redirected to the warning page exactly when it reaches the
   * backend and the backend's answer for the stripped URL is a prediction of 0.
   */
  lemma RedirectIffChecked(table: map<int, set<string>>, tab: int, url: string, warningPage: string,
                           backend: string -> Response)
    ensures Navigate(table, tab, url, warningPage, backend) == Checked(StripTrailingSlashes(url), Redirect(tab, url)) <==>
      && !IsBypassed(table, tab, url) && !IsInternalOrLocal(url, warningPage)
      && Decide(FetchPrediction(backend(StripTrailingSlashes(url)))) == RedirectToWarning
  {
  }

  /**
   * After a bypass request for `url` from tab `tab`, a navigation of that tab
   * to exactly `url` is let through without a prediction, whatever the
   * backend would say.
   */
  lemma BypassThenNavigate(table: map<int, set<string>>, tab: int, url: string, warningPage: string,
                           backend: string -> Response)
    ensures Navigate(AfterMessage(table, Message(Some("bypassUrl"), Some(url)), Sender(Some(tab))),
                     tab, url, warningPage, backend) == Bypassed
  {
  }

  /**
   * A bypass is confined to its tab and its exact URL: after the request, the
   * bypassed (tab, URL) pairs are the old ones plus that one pair.
   */
  lemma BypassOnlyAddsThePair(table: map<int, set<string>>, tab: int, url: string, t: int, u: string)
    ensures IsBypassed(AfterMessage(table, Message(Some("bypassUrl"), Some(url)), Sender(Some(tab))), t, u) <==>
      IsBypassed(table, t, u) || (t == tab && u == url)
  {
  }

  /** Once a tab has closed, none of its URLs is bypassed; other tabs keep theirs. */
  lemma RemovalEndsBypass(table: map<int, set<string>>, tab: int, t: int, u: string)
    ensures IsBypassed(AfterTabRemoved(table, tab), t, u) <==> t != tab && IsBypassed(table, t, u)
  {
  }

  // ---------------------------------------------------------------------------
  // The listener state
  // ---------------------------------------------------------------------------

  /** The script's module-level `bypassMap` and the three listeners that use it. */
  class BypassTable {
    var entries: map<int, set<string>>

    constructor ()
      ensures entries == map[]
    {
      entries := map[];
    }

    /** The runtime message listener; a bypass request is answered `{ok: true}`. */
    method OnMessage(msg: Message, sender: Sender) returns (replied: bool)
      modifies this
      ensures entries == AfterMessage(old(entries), msg, sender)
      ensures replied <==> IsBypassRequest(msg, sender)
    {
      if msg.action == Some("bypassUrl") && sender.tab.Some? {
        var tab := sender.tab.value;
        if tab !in entries {
          entries := entries[tab := {}];
        }
        if msg.url.Some? {
          entries := entries[tab := entries[tab] + {msg.url.value}];
        }
        assert entries[tab] == UrlsOf(old(entries), tab) + (if msg.url.Some? then {msg.url.value} else {});
        replied := true;
      } else {
        replied := false;
      }
    }

    /** The tab-removed listener. */
    method OnTabRemoved(tab: int)
      modifies this
      ensures entries == AfterTabRemoved(old(entries), tab)
    {
      entries := entries - {tab};
    }

    /** The before-navigate listener; it reads the table and changes nothing. */
    method OnBeforeNavigate(tab: int, url: string, warningPage: string, backend: string -> Response)
      returns (nav: Navigation)
      ensures nav == Navigate(entries, tab, url, warningPage, backend)
      ensures nav == Bypassed <==> tab in entries && url in entries[tab]
    {
      nav := Navigate(entries, tab, url, warningPage, backend);
    }
  }

  /**
   * The user's path through the extension: a warning for `url` in tab `tab`,
   * "proceed anyway" (a bypass request from that tab), the navigation again,
   * which passes unchecked; after the tab closes, the same URL in a tab with
   * the same id is checked again unless it is internal.
   */
  method BypassLifecycle(tab: int, url: string, warningPage: string, backend: string -> Response)
    returns (again: Navigation, afterClose: Navigation)
    ensures again == Bypassed
    ensures afterClose != Bypassed
  {
    var table := new BypassTable();
    var replied := table.OnMessage(Message(Some("bypassUrl"), Some(url)), Sender(Some(tab)));
    again := table.OnBeforeNavigate(tab, url, warningPage, backend);
    table.OnTabRemoved(tab);
    afterClose := table.OnBeforeNavigate(tab, url, warningPage, backend);
  }
}
