/** From command-line arguments to the report's configuration: the
    "exactly 'true'" flags, the base URL without its trailing slash, the
    delta-analysis label and the rule type filter. */
module Config {
  import opened Wrappers
  import opened Errors

  /** The command-line arguments the script reads, each absent or a string. */
  datatype Args = Args(
    project: Option<string>,
    application: Option<string>,
    release: Option<string>,
    branch: Option<string>,
    sonarurl: Option<string>,
    sonarcomponent: Option<string>,
    sonarusername: Option<string>,
    sonarpassword: Option<string>,
    sonartoken: Option<string>,
    sonarorganization: Option<string>,
    sinceleakperiod: Option<string>,
    allbugs: Option<string>,
    fixMissingRule: Option<string>,
    noSecurityHotspot: Option<string>)

  /** The configuration part of the report data. */
  datatype Settings = Settings(
    projectName: Option<string>,
    applicationName: Option<string>,
    releaseName: Option<string>,
    branch: Option<string>,
    sinceLeakPeriod: bool,
    allBugs: bool,
    fixMissingRule: bool,
    noSecurityHotspot: bool,
    sonarBaseURL: string,
    sonarOrganization: Option<string>,
    deltaAnalysis: string,
    component: Option<string>,
    ruleFilter: string)

  /** The rule type filter used unless all bugs or missing rules are asked for. */
  const TypesFilter := "&types=VULNERABILITY,SECURITY_HOTSPOT"

  /** ECMAScript truthiness of an argument: present and not the empty string. */
  predicate Truthy(a: Option<string>) {
    a.Some? && a.value != ""
  }

  /** `argv.x == 'true'`: between two strings the loose comparison is exact
      string equality, and an absent argument never equals a string. */
  function FlagOn(a: Option<string>): (on: bool)
    ensures on <==> a == Some("true")
  {
    match a
    case Some(v) => v == "true"
    case None => false
  }

  /** `url.replace(/\/$/, "")`: removes one '/' at the very end, if there is one. */
  function StripTrailingSlash(url: string): (r: string)
    ensures url == r + "/" || (url == r && (|url| == 0 || url[|url| - 1] != '/'))
  {
    if |url| > 0 && url[|url| - 1] == '/' then url[..|url| - 1] else url
  }

  /** Only one slash goes: a URL ending in "//" keeps one. */
  lemma StripTrailingSlashOnce(base: string)
    ensures StripTrailingSlash(base + "/") == base
    ensures StripTrailingSlash(base + "//") == base + "/"
  {
    assert (base + "/")[..|base|] == base;
    assert (base + "//")[..|base| + 1] == base + "/";
  }

  /** The label shown for delta analysis. */
  function DeltaAnalysis(sinceLeakPeriod: bool): (shown: string)
    ensures shown == "Yes" || shown == "No"
    ensures shown == "Yes" <==> sinceLeakPeriod
  {
    if sinceLeakPeriod then "Yes" else "No"
  }

  /** `filterRule` after its sequence of updates: the types filter, cleared
      by allBugs, cleared again by fixMissingRule. */
  function RuleFilter(allBugs: bool, fixMissingRule: bool): (filter: string)
    ensures filter == "" || filter == TypesFilter
    ensures filter == "" <==> allBugs || fixMissingRule
  {
    var start := TypesFilter;
    var afterAllBugs := if allBugs then "" else start;
    var afterFixMissingRule := if fixMissingRule then "" else afterAllBugs;
    afterFixMissingRule
  }

  /** The configuration, or the abort caused by a missing `--sonarurl`. */
  function Configure(args: Args): (r: Result<Settings, Fatal>)
    ensures args.sonarurl.None? <==> r == Failure(MissingSonarUrl)
    ensures r.Success? ==>
      var c := r.value;
      && (c.sinceLeakPeriod <==> args.sinceleakperiod == Some("true"))
      && (c.allBugs <==> args.allbugs == Some("true"))
      && (c.fixMissingRule <==> args.fixMissingRule == Some("true"))
      && (c.noSecurityHotspot <==> args.noSecurityHotspot == Some("true"))
      && c.deltaAnalysis == DeltaAnalysis(c.sinceLeakPeriod)
      && c.sonarBaseURL == StripTrailingSlash(args.sonarurl.value)
      && c.ruleFilter == RuleFilter(c.allBugs, c.fixMissingRule)
      && c.component == args.sonarcomponent
      && c.branch == args.branch
      && c.projectName == args.project
      && c.applicationName == args.application
      && c.releaseName == args.release
      && c.sonarOrganization == args.sonarorganization
  {
    match args.sonarurl
    case None => Failure(MissingSonarUrl)
    case Some(url) =>
      var sinceLeakPeriod := FlagOn(args.sinceleakperiod);
      var allBugs := FlagOn(args.allbugs);
      var fixMissingRule := FlagOn(args.fixMissingRule);
      Success(Settings(
        projectName := args.project,
        applicationName := args.application,
        releaseName := args.release,
        branch := args.branch,
        sinceLeakPeriod := sinceLeakPeriod,
        allBugs := allBugs,
        fixMissingRule := fixMissingRule,
        noSecurityHotspot := FlagOn(args.noSecurityHotspot),
        sonarBaseURL := StripTrailingSlash(url),
        sonarOrganization := args.sonarorganization,
        deltaAnalysis := DeltaAnalysis(sinceLeakPeriod),
        component := args.sonarcomponent,
        ruleFilter := RuleFilter(allBugs, fixMissingRule)))
  }
}
