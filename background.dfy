/**
 * The browser extension's service worker: a listener that, after a
 * main-frame navigation in the active tab, injects a script that looks for
 * "page not found" wording and reports the URL, and a listener that
 * forwards manual submissions from the popup.
 *
 * Browser and network calls are modelled by what they return: the tab
 * query's outcome, the page's title and text, and the reply to the POST are
 * parameters, and each listener returns the effects it causes.
 */
module Background {
  import opened Wrappers
  import opened Strings

  const DEFAULT_API_URL := "http://localhost:5000/submit-url"

  /** The report endpoint: `CONFIG.API_URL` when `config.js` defined `CONFIG`, else the local default. */
  function ApiUrl(config: Option<string>): (url: string)
    ensures config.Some? ==> url == config.value
    ensures config.None? ==> url == DEFAULT_API_URL
  {
    if config.Some? then config.value else DEFAULT_API_URL
  }

  const INDICATORS: seq<string> := [
    "404",
    "not found",
    "page not found",
    "tidak ditemukan",
    "halaman tidak ditemukan",
    "error 404",
    "page doesn't exist",
    "content not available"
  ]

  /** The indicators no other indicator is a substring of. */
  const ESSENTIAL: seq<string> := ["404", "not found", "tidak ditemukan", "page doesn't exist", "content not available"]

  function LowerChar(c: char): char
  {
    if 'A' <= c <= 'Z' then (c as int + 32) as char else c
  }

  function UpperChar(c: char): char
  {
    if 'a' <= c <= 'z' then (c as int - 32) as char else c
  }

  /** `toLowerCase`, on ASCII letters. */
  function Lower(s: string): (r: string)
    ensures |r| == |s| && forall i :: 0 <= i < |s| ==> r[i] == LowerChar(s[i])
  {
    if s == [] then [] else [LowerChar(s[0])] + Lower(s[1..])
  }

  /** `toUpperCase`, on ASCII letters. */
  function Upper(s: string): (r: string)
    ensures |r| == |s| && forall i :: 0 <= i < |s| ==> r[i] == UpperChar(s[i])
  {
    if s == [] then [] else [UpperChar(s[0])] + Upper(s[1..])
  }

  /** `String.prototype.includes`, scanning from each position in turn. */
  predicate Includes(s: string, sub: string)
    decreases |s|
  {
    StartsWith(s, sub) || (|s| > 0 && Includes(s[1..], sub))
  }

  /** `indicators.some(i => title.includes(i) || body.includes(i))`. */
  predicate AnyIndicator(indicators: seq<string>, title: string, body: string)
    decreases |indicators|
  {
    |indicators| > 0 && (Includes(title, indicators[0]) || Includes(body, indicators[0]) || AnyIndicator(indicators[1..], title, body))
  }

  /** What the injected script reads: `document.title` and `document.body.innerText`. */
  datatype Page = Page(title: string, body: string)

  predicate Is404(page: Page)
  {
    AnyIndicator(INDICATORS, Lower(page.title), Lower(page.body))
  }

  /** The JSON body of a report. */
  datatype Payload = Payload(url: string, source: string)

  /** The outcome of `fetch(...).then(r => r.json())`: a rejection with its message, or the decoded body. */
  datatype FetchReply = FetchFailed(message: string) | FetchJson(data: string)

  datatype Response = Succeeded(data: string) | Failed(error: string)

  datatype Effect =
    | Inject(tabId: int, args: seq<string>)
    | Post(endpoint: string, payload: Payload)
    | Notify
    | Respond(response: Response)

  /** `webNavigation.onCompleted`'s details. */
  datatype Navigation = Navigation(frameId: int, tabId: int, url: string)

  /** `chrome.tabs.query({active: true, currentWindow: true})`: rejected, or the id of its first tab (`None`: no tab). */
  datatype TabQuery = QueryRaised | Tabs(first: Option<int>)

  /** The popup's message. */
  datatype Request = Request(action: string, url: string)

  function Report(endpoint: string, currentUrl: string): Effect
  {
    Post(endpoint, Payload(currentUrl, "extension"))
  }

  /**
   * The injected script with the endpoint handed to it: report the URL when
   * the page looks dead, and notify once the reply has been decoded.
   */
  function DetectDeadPage(apiUrl: string, page: Page, currentUrl: string, reply: FetchReply): (effects: seq<Effect>)
    ensures Is404(page) <==> Report(apiUrl, currentUrl) in effects
    ensures forall e :: e in effects ==> e.Post? ==> e == Report(apiUrl, currentUrl)
    ensures Notify in effects <==> Is404(page) && reply.FetchJson?
  {
    if !Is404(page) then []
    else [Report(apiUrl, currentUrl)] + (if reply.FetchJson? then [Notify] else [])
  }

  /**
   * The injected script as written. A function passed to
   * `chrome.scripting.executeScript` as `func` is serialised and run in the
   * page's isolated world, without the service worker's globals, so the
   * free name `API_URL` is looked up in `scope`; `None` is the
   * `ReferenceError` that ends the script.
   */
  function DetectDeadPageAsWritten(scope: map<string, string>, page: Page, currentUrl: string, reply: FetchReply)
    : (r: Option<seq<Effect>>)
    ensures !Is404(page) ==> r == Some([])
    ensures Is404(page) && "API_URL" !in scope ==> r.None?
  {
    if !Is404(page) then Some([])
    else if "API_URL" in scope then Some(DetectDeadPage(scope["API_URL"], page, currentUrl, reply))
    else None
  }

  /** The globals an injected function finds: none of the service worker's. */
  const ISOLATED_WORLD: map<string, string> := map[]

  /** What an injected script causes: its effects, or none once it has thrown. */
  function ScriptEffects(r: Option<seq<Effect>>): seq<Effect>
  {
    if r.Some? then r.value else []
  }

  /**
   * The navigation listener as written. Only main-frame navigations in the
   * active tab are looked at; a rejected tab query is logged and ends the
   * handler. `detectDeadPage` is injected with the URL as its only argument,
   * so it runs without `API_URL`, and a dead-looking page ends in a
   * `ReferenceError` before anything is posted.
   */
  method OnCompleted(details: Navigation, tabs: TabQuery, page: Page, reply: FetchReply)
    returns (effects: seq<Effect>)
    ensures details.frameId != 0 ==> effects == []
    ensures tabs != Tabs(Some(details.tabId)) ==> effects == []
    ensures details.frameId == 0 && tabs == Tabs(Some(details.tabId)) ==>
      effects == [Inject(details.tabId, [details.url])]
        + ScriptEffects(DetectDeadPageAsWritten(ISOLATED_WORLD, page, details.url, reply))
    ensures forall e :: e in effects ==> !e.Post?
  {
    if details.frameId != 0 {
      return [];
    }
    match tabs {
      case QueryRaised =>
        return [];
      case Tabs(tab) =>
        if tab.None? || tab.value != details.tabId {
          return [];
        }
    }
    effects := [Inject(details.tabId, [details.url])];
    var outcome := DetectDeadPageAsWritten(ISOLATED_WORLD, page, details.url, reply);
    AsWrittenNeverReports(page, details.url, reply);
    match outcome {
      case Some(scriptEffects) =>
        effects := effects + scriptEffects;
      case None =>
    }
  }

  /**
   * The navigation listener with the endpoint handed to the script as a
   * second argument (`args: [details.url, API_URL]`): a main-frame
   * navigation in the active tab to a dead-looking page is reported to the
   * configured endpoint.
   */
  method OnCompletedCorrected(details: Navigation, tabs: TabQuery, config: Option<string>, page: Page, reply: FetchReply)
    returns (effects: seq<Effect>)
    ensures details.frameId != 0 ==> effects == []
    ensures tabs != Tabs(Some(details.tabId)) ==> effects == []
    ensures details.frameId == 0 && tabs == Tabs(Some(details.tabId)) ==>
      effects == [Inject(details.tabId, [details.url, ApiUrl(config)])]
        + DetectDeadPage(ApiUrl(config), page, details.url, reply)
    ensures Report(ApiUrl(config), details.url) in effects <==>
      details.frameId == 0 && tabs == Tabs(Some(details.tabId)) && Is404(page)
  {
    if details.frameId != 0 {
      return [];
    }
    match tabs {
      case QueryRaised =>
        return [];
      case Tabs(tab) =>
        if tab.None? || tab.value != details.tabId {
          return [];
        }
    }
    var endpoint := ApiUrl(config);
    effects := [Inject(details.tabId, [details.url, endpoint])];
    effects := effects + DetectDeadPage(endpoint, page, details.url, reply);
  }

  /**
   * The message listener: a `submitUrl` request is posted as a report to
   * the configured endpoint and answered once the reply is in, with the
   * channel kept open meanwhile; any other message is ignored.
   */
  method OnMessage(request: Request, config: Option<string>, reply: FetchReply) returns (effects: seq<Effect>, keepOpen: bool)
    ensures request.action != "submitUrl" ==> effects == [] && !keepOpen
    ensures request.action == "submitUrl" ==> keepOpen && |effects| == 2 && effects[0] == Report(ApiUrl(config), request.url)
    ensures request.action == "submitUrl" ==>
      effects[1] == Respond(if reply.FetchJson? then Succeeded(reply.data) else Failed(reply.message))
  {
    if request.action != "submitUrl" {
      return [], false;
    }
    effects := [Report(ApiUrl(config), request.url)];
    match reply {
      case FetchJson(data) =>
        effects := effects + [Respond(Succeeded(data))];
      case FetchFailed(message) =>
        effects := effects + [Respond(Failed(message))];
    }
    keepOpen := true;
  }

  // ----- Properties -----

  /** `sub` occurs in `s` starting at position `i`. */
  predicate OccursAt(s: string, sub: string, i: nat)
  {
    i + |sub| <= |s| && s[i..i + |sub|] == sub
  }

  lemma {:induction false} IncludesIff(s: string, sub: string)
    ensures Includes(s, sub) <==> exists i: nat :: OccursAt(s, sub, i)
    decreases |s|
  {
    if StartsWith(s, sub) {
      assert OccursAt(s, sub, 0);
    } else if |s| > 0 {
      IncludesIff(s[1..], sub);
      if Includes(s[1..], sub) {
        var i: nat :| OccursAt(s[1..], sub, i);
        assert s[i + 1..i + 1 + |sub|] == s[1..][i..i + |sub|];
        assert OccursAt(s, sub, i + 1);
      }
      if i: nat :| OccursAt(s, sub, i) {
        assert i != 0;
        assert s[1..][i - 1..i - 1 + |sub|] == s[i..i + |sub|];
        assert OccursAt(s[1..], sub, i - 1);
      }
    }
  }

  lemma IncludesAt(s: string, sub: string, i: nat)
    requires OccursAt(s, sub, i)
    ensures Includes(s, sub)
  {
    IncludesIff(s, sub);
  }

  /** A substring of a substring is a substring. */
  lemma IncludesTransitive(s: string, a: string, b: string)
    requires Includes(s, a) && Includes(a, b)
    ensures Includes(s, b)
  {
    IncludesIff(s, a);
    IncludesIff(a, b);
    var i: nat :| OccursAt(s, a, i);
    var j: nat :| OccursAt(a, b, j);
    assert s[i + j..i + j + |b|] == b by {
      forall k | 0 <= k < |b|
        ensures s[i + j + k] == b[k]
      {
        assert a[j..j + |b|][k] == a[j + k];
        assert s[i..i + |a|][j + k] == s[i + j + k];
      }
    }
    IncludesAt(s, b, i + j);
  }

  /** Text around a substring keeps it a substring. */
  lemma IncludesExtended(s: string, sub: string, before: string, after: string)
    requires Includes(s, sub)
    ensures Includes(before + s + after, sub)
  {
    IncludesIff(s, sub);
    var t := before + s + after;
    var i: nat :| OccursAt(s, sub, i);
    assert t[|before| + i..|before| + i + |sub|] == sub by {
      forall k | 0 <= k < |sub|
        ensures t[|before| + i + k] == sub[k]
      {
        assert s[i..i + |sub|][k] == s[i + k];
      }
    }
    IncludesAt(t, sub, |before| + i);
  }

  /** `some` is an existential over the indicator list. */
  lemma {:induction false} AnyIndicatorIff(indicators: seq<string>, title: string, body: string)
    ensures AnyIndicator(indicators, title, body) <==>
      exists k :: 0 <= k < |indicators| && (Includes(title, indicators[k]) || Includes(body, indicators[k]))
    decreases |indicators|
  {
    if |indicators| > 0 {
      AnyIndicatorIff(indicators[1..], title, body);
      if k :| 0 <= k < |indicators| && (Includes(title, indicators[k]) || Includes(body, indicators[k])) {
        if k > 0 {
          assert indicators[1..][k - 1] == indicators[k];
        }
      }
      if k :| 0 <= k < |indicators[1..]| && (Includes(title, indicators[1..][k]) || Includes(body, indicators[1..][k])) {
        assert indicators[k + 1] == indicators[1..][k];
      }
    }
  }

  /** A page is reported dead exactly when some indicator occurs in its lower-cased title or lower-cased text. */
  lemma Is404Iff(page: Page)
    ensures Is404(page) <==>
      exists k :: 0 <= k < |INDICATORS| && (Includes(Lower(page.title), INDICATORS[k]) || Includes(Lower(page.body), INDICATORS[k]))
  {
    AnyIndicatorIff(INDICATORS, Lower(page.title), Lower(page.body));
  }

  lemma {:induction false} LowerAppend(a: string, b: string)
    ensures Lower(a + b) == Lower(a) + Lower(b)
  {
    var l := Lower(a + b);
    assert forall i :: 0 <= i < |a| ==> l[i] == LowerChar((a + b)[i]) == LowerChar(a[i]);
    assert forall i :: |a| <= i < |a + b| ==> l[i] == LowerChar((a + b)[i]) == LowerChar(b[i - |a|]);
  }

  /** Adding text before or after the title or the text never turns a dead verdict into a live one. */
  lemma Is404Monotone(page: Page, t0: string, t1: string, b0: string, b1: string)
    requires Is404(page)
    ensures Is404(Page(t0 + page.title + t1, b0 + page.body + b1))
  {
    var (lt, lb) := (Lower(page.title), Lower(page.body));
    LowerAppend(t0, page.title);
    LowerAppend(t0 + page.title, t1);
    LowerAppend(b0, page.body);
    LowerAppend(b0 + page.body, b1);
    Is404Iff(page);
    Is404Iff(Page(t0 + page.title + t1, b0 + page.body + b1));
    var k :| 0 <= k < |INDICATORS| && (Includes(lt, INDICATORS[k]) || Includes(lb, INDICATORS[k]));
    if Includes(lt, INDICATORS[k]) {
      IncludesExtended(lt, INDICATORS[k], Lower(t0), Lower(t1));
    } else {
      IncludesExtended(lb, INDICATORS[k], Lower(b0), Lower(b1));
    }
  }

  lemma LowerUpper(s: string)
    ensures Lower(Upper(s)) == Lower(s)
    ensures Lower(Lower(s)) == Lower(s)
  {
  }

  /** `a` and `b` differ at most in the case of some of their letters. */
  predicate SameUpToCase(a: string, b: string)
  {
    |a| == |b| && forall i :: 0 <= i < |a| ==> LowerChar(a[i]) == LowerChar(b[i])
  }

  /** Upper-casing or lower-casing a string changes letter case only. */
  lemma CaseChangesOnly(s: string)
    ensures SameUpToCase(s, Upper(s)) && SameUpToCase(s, Lower(s))
  {
  }

  /** The verdict ignores letter case: changing the case of any letters of the title or text changes nothing. */
  lemma Is404IgnoresCase(page: Page, other: Page)
    requires SameUpToCase(page.title, other.title) && SameUpToCase(page.body, other.body)
    ensures Is404(other) == Is404(page)
  {
    assert Lower(page.title) == Lower(other.title);
    assert Lower(page.body) == Lower(other.body);
  }

  lemma RedundantIndicators()
    ensures Includes("page not found", "not found")
    ensures Includes("halaman tidak ditemukan", "tidak ditemukan")
    ensures Includes("error 404", "404")
  {
    Contains("page not found", "not found", 5);
    Contains("halaman tidak ditemukan", "tidak ditemukan", 8);
    Contains("error 404", "404", 6);
  }

  lemma Contains(s: string, sub: string, i: nat)
    requires i + |sub| <= |s| && forall k :: 0 <= k < |sub| ==> s[i + k] == sub[k]
    ensures Includes(s, sub)
  {
    assert s[i..i + |sub|] == sub;
    IncludesAt(s, sub, i);
  }

  /**
   * Three indicators contain another one, so the verdict is the same with
   * only the five essential ones.
   */
  lemma EssentialIndicatorsSuffice(title: string, body: string)
    ensures AnyIndicator(INDICATORS, title, body) == AnyIndicator(ESSENTIAL, title, body)
  {
    AnyIndicatorIff(INDICATORS, title, body);
    AnyIndicatorIff(ESSENTIAL, title, body);
    RedundantIndicators();
    if k :| 0 <= k < |INDICATORS| && (Includes(title, INDICATORS[k]) || Includes(body, INDICATORS[k])) {
      var s := if Includes(title, INDICATORS[k]) then title else body;
      if k == 2 {
        IncludesTransitive(s, "page not found", "not found");
        assert Includes(s, ESSENTIAL[1]);
      } else if k == 4 {
        IncludesTransitive(s, "halaman tidak ditemukan", "tidak ditemukan");
        assert Includes(s, ESSENTIAL[2]);
      } else if k == 5 {
        IncludesTransitive(s, "error 404", "404");
        assert Includes(s, ESSENTIAL[0]);
      } else if k == 0 {
        assert Includes(s, ESSENTIAL[0]);
      } else if k == 1 {
        assert Includes(s, ESSENTIAL[1]);
      } else if k == 3 {
        assert Includes(s, ESSENTIAL[2]);
      } else if k == 6 {
        assert Includes(s, ESSENTIAL[3]);
      } else {
        assert Includes(s, ESSENTIAL[4]);
      }
    }
    if k :| 0 <= k < |ESSENTIAL| && (Includes(title, ESSENTIAL[k]) || Includes(body, ESSENTIAL[k])) {
      var m := [0, 1, 3, 6, 7][k];
      assert INDICATORS[m] == ESSENTIAL[k];
    }
  }

  /**
   * As written, the injected script never reports: on every page that looks
   * dead the lookup of `API_URL` throws before `fetch` is called.
   */
  lemma AsWrittenNeverReports(page: Page, currentUrl: string, reply: FetchReply)
    ensures forall effects :: DetectDeadPageAsWritten(ISOLATED_WORLD, page, currentUrl, reply) == Some(effects) ==> effects == []
  {
  }

  /** A page whose title starts with "404" looks dead. */
  lemma TitleStarting404(title: string, body: string)
    requires StartsWith(title, "404")
    ensures Is404(Page(title, body))
  {
    var lt := Lower(title);
    assert lt[..3] == title[..3];
    assert Includes(lt, INDICATORS[0]);
  }

  /** A page titled "404 Not Found" looks dead, and the as-written script still sends nothing. */
  lemma AsWrittenMissesNotFoundPage(currentUrl: string, reply: FetchReply)
    ensures Is404(Page("404 Not Found", ""))
    ensures DetectDeadPageAsWritten(ISOLATED_WORLD, Page("404 Not Found", ""), currentUrl, reply).None?
  {
    assert "404 Not Found"[..3] == "404";
    TitleStarting404("404 Not Found", "");
  }

  /** Had `API_URL` been visible, the as-written script would do exactly what the corrected one does. */
  lemma CorrectedMatchesIntent(scope: map<string, string>, page: Page, currentUrl: string, reply: FetchReply)
    requires "API_URL" in scope
    ensures DetectDeadPageAsWritten(scope, page, currentUrl, reply) == Some(DetectDeadPage(scope["API_URL"], page, currentUrl, reply))
  {
  }
}
