/** One run of the script, with the server's answers as inputs: configure,
    authenticate, read the leak period when asked to, page through rules
    and hotspots, sort the hotspots and count them. The result is the data
    handed to the report template together with the requests issued, in
    order, or the fatal error that ends the run without output. */
module Report {
  import opened Wrappers
  import opened Errors
  import Config
  import Auth
  import Pagination
  import opened Records
  import opened Severity

  /** A request the script issues. Hotspot searches carry the project key
      and page only: no type or branch filter is ever attached to them. */
  datatype Endpoint =
    | LoginRequest(login: string, password: string)
    | LeakPeriodSetting
    | RulesSearch(page: nat, typeFilter: string)
    | HotspotsSearch(projectKey: Option<string>, page: nat)

  /** What a run hands on to rendering: the configuration (including the
      component and rule filter, which only shape the requests), the
      previous period, the projected rules, the sorted hotspots and their
      summary. The date stamp is left out. */
  datatype ReportData = ReportData(
    settings: Config.Settings,
    previousPeriod: Option<string>,
    rules: seq<Rule>,
    hotspots: seq<Hotspot>,
    summary: Summary)

  datatype Run = Run(data: ReportData, headers: Auth.Headers, requests: seq<Endpoint>)

  /** What the server answers, as far as the script reads it. */
  datatype Server = Server(
    loginSetCookie: Option<seq<string>>,
    leakPeriodSettings: seq<Option<string>>,
    rulePages: seq<seq<RawRule>>,
    hotspotPages: seq<seq<RawHotspot>>)

  /** The requests of one pagination loop: pages 1..n, in order. */
  function RuleRequests(n: nat, filter: string): (r: seq<Endpoint>)
    ensures |r| == n
    ensures forall i :: 0 <= i < n ==> r[i] == RulesSearch(i + 1, filter)
  {
    seq(n, i requires 0 <= i < n => RulesSearch(i + 1, filter))
  }

  function HotspotRequests(n: nat, projectKey: Option<string>): (r: seq<Endpoint>)
    ensures |r| == n
    ensures forall i :: 0 <= i < n ==> r[i] == HotspotsSearch(projectKey, i + 1)
  {
    seq(n, i requires 0 <= i < n => HotspotsSearch(projectKey, i + 1))
  }

  /** The requests of a run, in order: the login when username and password
      are both given, the leak-period setting when delta analysis is on,
      rule pages 1..n with the rule filter, then hotspot pages 1..m for the
      component, with no filter. */
  function Requests(credentials: Auth.Credentials, sinceLeakPeriod: bool, ruleFilter: string, n: nat,
                    projectKey: Option<string>, m: nat): (r: seq<Endpoint>)
    ensures var login := if credentials.Login? then 1 else 0;
            var leak := if sinceLeakPeriod then 1 else 0;
            && |r| == login + leak + n + m
            && (credentials.Login? ==> r[0] == LoginRequest(credentials.username, credentials.password))
            && (sinceLeakPeriod ==> r[login] == LeakPeriodSetting)
            && (forall i :: login + leak <= i < login + leak + n ==>
                  r[i] == RulesSearch(i - login - leak + 1, ruleFilter))
            && (forall i :: login + leak + n <= i < |r| ==>
                  r[i] == HotspotsSearch(projectKey, i - login - leak - n + 1))
  {
    var login := match credentials
      case Login(u, p) => [LoginRequest(u, p)]
      case _ => [];
    var leak := if sinceLeakPeriod then [LeakPeriodSetting] else [];
    login + leak + RuleRequests(n, ruleFilter) + HotspotRequests(m, projectKey)
  }

  /** `data.previousPeriod`: "" unless delta analysis is on, then the value
      of the first leak-period setting. */
  function PreviousPeriod(sinceLeakPeriod: bool, settings: seq<Option<string>>): (r: Result<Option<string>, Fatal>)
    ensures r.Failure? <==> sinceLeakPeriod && |settings| == 0
    ensures r.Failure? ==> r.error == MissingLeakPeriodSetting
    ensures r.Success? && !sinceLeakPeriod ==> r.value == Some("")
    ensures r.Success? && sinceLeakPeriod ==> r.value == settings[0]
  {
    if !sinceLeakPeriod then Success(Some(""))
    else if |settings| == 0 then Failure(MissingLeakPeriodSetting)
    else Success(settings[0])
  }

  /** The whole run. */
  function Execute(args: Config.Args, server: Server): (r: Result<Run, Fatal>)
    ensures args.sonarurl.None? ==> r == Failure(MissingSonarUrl)
    ensures args.sonarurl.Some? ==>
              (r.Failure? <==> (Config.Truthy(args.sonarusername) && Config.Truthy(args.sonarpassword)
                                && server.loginSetCookie.None?)
                               || (args.sinceleakperiod == Some("true") && |server.leakPeriodSettings| == 0))
    ensures args.sonarurl.Some? && r.Failure? ==>
              r.error == (if Config.Truthy(args.sonarusername) && Config.Truthy(args.sonarpassword)
                             && server.loginSetCookie.None?
                          then MissingSetCookie else MissingLeakPeriodSetting)
    ensures r.Success? ==>
      var d := r.value.data;
      var rules := Pagination.Paginate(server.rulePages);
      var hotspots := Pagination.Paginate(server.hotspotPages);
      var credentials := Auth.SelectCredentials(args.sonarusername, args.sonarpassword, args.sonartoken);
      && d.rules == ProjectRules(rules.items)
      && d.hotspots == Sort(ProjectHotspots(hotspots.items))
      && multiset(d.hotspots) == multiset(ProjectHotspots(hotspots.items))
      && d.summary == Summarize(ProjectHotspots(hotspots.items))
      && r.value.requests == Requests(credentials, d.settings.sinceLeakPeriod, d.settings.ruleFilter,
                                      |rules.requests|, args.sonarcomponent, |hotspots.requests|)
      && d.settings == Config.Configure(args).value
      && d.previousPeriod == PreviousPeriod(d.settings.sinceLeakPeriod, server.leakPeriodSettings).value
      && r.value.headers == Auth.HeadersFor(credentials, server.loginSetCookie).value
      && (r.value.headers.cookie.None? || r.value.headers.authorization.None?)
      && (r.value.headers.cookie.Some? <==> credentials.Login?)
      && (r.value.headers.authorization.Some? <==> credentials.Token?)
  {
    var settings :- Config.Configure(args);
    var credentials := Auth.SelectCredentials(args.sonarusername, args.sonarpassword, args.sonartoken);
    var headers :- Auth.HeadersFor(credentials, server.loginSetCookie);
    var previousPeriod :- PreviousPeriod(settings.sinceLeakPeriod, server.leakPeriodSettings);
    var ruleFetch := Pagination.Paginate(server.rulePages);
    var hotspotFetch := Pagination.Paginate(server.hotspotPages);
    var hotspots := Sort(ProjectHotspots(hotspotFetch.items));
    SummaryIgnoresOrder(ProjectHotspots(hotspotFetch.items));
    var requests := Requests(credentials, settings.sinceLeakPeriod, settings.ruleFilter,
                             |ruleFetch.requests|, settings.component, |hotspotFetch.requests|);
    Success(Run(
      ReportData(settings, previousPeriod, ProjectRules(ruleFetch.items), hotspots, Summarize(hotspots)),
      headers,
      requests))
  }

  /** With ranked severities the report lists HIGH, then MEDIUM, then LOW
      hotspots, each group in arrival order, and the summary adds up to the
      hotspot count. The run succeeds whenever the URL is given, a requested
      login returns a cookie and a requested leak period is present. */
  lemma RankedReport(args: Config.Args, server: Server)
    requires args.sonarurl.Some?
    requires Config.Truthy(args.sonarusername) && Config.Truthy(args.sonarpassword) ==> server.loginSetCookie.Some?
    requires args.sinceleakperiod == Some("true") ==> |server.leakPeriodSettings| > 0
    requires forall k, j :: 0 <= k < |server.hotspotPages| && 0 <= j < |server.hotspotPages[k]| ==>
               Rank(server.hotspotPages[k][j].vulnerabilityProbability).Some?
    ensures Execute(args, server).Success?
    ensures var d := Execute(args, server).value.data;
            var all := ProjectHotspots(Pagination.Paginate(server.hotspotPages).items);
            && d.hotspots == Keep(all, High) + Keep(all, Medium) + Keep(all, Low)
            && d.summary.high + d.summary.medium + d.summary.low == |d.hotspots|
  {
    var pages := server.hotspotPages;
    var fetched := Pagination.Paginate(pages);
    var all := ProjectHotspots(fetched.items);
    assert AllRanked(all) by {
      forall i | 0 <= i < |all| ensures Ranked(all[i]) {
        Pagination.ConcatFromPages(pages, |fetched.requests|, i);
      }
    }
    SortGroupsBySeverity(all);
    CountsBounded(Sort(all));
  }

  /** A single short page is fetched with one request. */
  lemma SinglePage<T>(page: seq<T>)
    requires |page| < Pagination.PageSize
    ensures Pagination.Paginate([page]).requests == [1]
    ensures Pagination.Paginate([page]).items == page
  {
    var pages := [page];
    assert Pagination.StopsAt(pages, 1);
    Pagination.StopsAtUnique(pages, |Pagination.Paginate(pages).requests|, 1);
  }

  /** A LOW hotspot followed by a HIGH one: sorted HIGH first, counted one each. */
  lemma LowThenHigh(low: RawHotspot, high: RawHotspot)
    requires low.vulnerabilityProbability == Some("LOW")
    requires high.vulnerabilityProbability == Some("HIGH")
    ensures Sort(ProjectHotspots([low, high])) == [ProjectHotspot(high), ProjectHotspot(low)]
    ensures Summarize(ProjectHotspots([low, high])) == Summary(1, 0, 1)
  {
    var l, h := ProjectHotspot(low), ProjectHotspot(high);
    assert ProjectHotspots([low, high]) == [l, h];
    TwoHotspotsExample(l, h);
  }

  /** One rule and two hotspots, LOW then HIGH, on a single short page:
      one rule, the hotspots reordered HIGH then LOW, and a summary of
      one high, no medium and one low. */
  lemma SmallServerExample(args: Config.Args, rule: RawRule, low: RawHotspot, high: RawHotspot)
    requires args.sonarurl.Some?
    requires !Config.Truthy(args.sonarusername) && !Config.Truthy(args.sonartoken)
    requires args.sinceleakperiod.None?
    requires low.vulnerabilityProbability == Some("LOW")
    requires high.vulnerabilityProbability == Some("HIGH")
    ensures var r := Execute(args, Server(None, [], [[rule]], [[low, high]]));
            && r.Success?
            && |r.value.data.rules| == 1
            && r.value.data.hotspots == [ProjectHotspot(high), ProjectHotspot(low)]
            && r.value.data.summary == Summary(1, 0, 1)
            && r.value.headers == Auth.Headers(None, None)
            && |r.value.requests| == 2
  {
    var server := Server(None, [], [[rule]], [[low, high]]);
    SinglePage([rule]);
    SinglePage([low, high]);
    LowThenHigh(low, high);
    var r := Execute(args, server);
    assert r.Success?;
  }
}
