# sonar-report core, modelled in Dafny

sonar-report is a one-file Node.js script (`index.js`). It reads security
rules and security hotspots from a SonarQube server and renders them as an
HTML report. This project models the logic that sits between the HTTP calls
and the template, as pure functions over immutable values:

- **Configuration.**
  - A flag is on only when its argument is exactly `"true"`.
  - The base URL loses one trailing `/`.
  - `deltaAnalysis` is `"Yes"` or `"No"`.
  - The rule type filter starts as `&types=VULNERABILITY,SECURITY_HOTSPOT`. Either `allbugs` or `fixMissingRule` clears it.
- **Authentication headers.** Username plus password is chosen first. It gives a `Cookie` header built from the login response's Set-Cookie values: each value is cut at its first `;` and the pairs are joined with `"; "`. This is the cookie-pair form of section 4.1.1 and the Cookie header of section 5.4 of RFC 6265. Otherwise a token gives `Authorization: Basic` plus the base64 of `token + ":"`. Otherwise no header is set.
- **Base64.** `Buffer.from(text).toString("base64")` is modelled as UTF-8 encoding followed by the base64 encoding of section 4 of RFC 4648. A decoder that accepts only canonical texts (section 3.5 of RFC 4648) serves as its partner, and the two are proved inverse in both directions.
- **Pagination.** The do-while loop requests pages 1, 2, … of 500 items and continues only while the page just received held exactly 500. The server is a finite sequence of pages, and a page past its end comes back empty.
- **Record projection.**
  - Rules keep `key`, `htmlDesc`, `name` and `vulnerabilityProbability`.
  - Hotspots copy `message` into `description` as well.
  - A hotspot's `component` keeps only the text after its last `:`.
- **Severity sort and summary.** The rank table is LOW=0, MEDIUM=1, HIGH=2. The comparator is `rank(b) - rank(a)`, and NaN (an unranked side) reads as 0. The sort is a stable insertion sort driven by that comparator, as `Array.prototype.sort` has been required to be stable since ECMAScript 2019. The summary holds exact-string counts of `"HIGH"`, `"MEDIUM"` and `"LOW"`.
- **One whole run.** `Report.Execute` chains the parts above into one function:
  - Its inputs are the arguments and the server's answers.
  - It returns the report data, the headers and the list of requests in order.
  - Or it returns the fatal error that ends the script without output.

Modules follow the script's stages:

| module | file | what it holds |
|---|---|---|
| `Wrappers` | `wrappers.dfy` | `Option` and `Result` |
| `Errors` | `errors.dfy` | the three ways a run aborts |
| `Strings` | `strings.dfy` | `String.prototype.split` with a string separator, and `Array.prototype.join` |
| `Base64` | `base64.dfy` | base64 and UTF-8 |
| `Config` | `config.dfy` | arguments to settings |
| `Auth` | `auth.dfy` | credential choice and header values |
| `Pagination` | `pagination.dfy` | the page loop, as a function and as a `while` method |
| `Records` | `records.dfy` | raw and projected rules and hotspots |
| `Severity` | `severity.dfy` | rank, sort, filter and summary |
| `Report` | `report.dfy` | the whole run |

The three fatal errors correspond to `TypeError`s the script would throw:

- `MissingSonarUrl`: `argv.sonarurl.replace` is called on an absent argument.
- `MissingSetCookie`: `.map` is called on an absent `set-cookie` header.
- `MissingLeakPeriodSetting`: `settings[0].value` is read from an empty `settings` list.

In several places the script's own text promises more than its code does. The model follows the code in each:

- **Component stripping.** The comment at index.js:209 says the component keeps the "filename with path, without project name". The code at index.js:210 keeps the text after the last `:`, so colons inside the path are lost as well. `Records.ComponentPathLastSegmentExample` shows this.
- **Branch filter.** The `--branch` help text at index.js:26-27 calls it the branch "that we want to get the hotspots for". The code appends it to `filterIssue` at index.js:111-113, but `filterIssue` is never read. The hotspot query at index.js:190 carries only the project key and the page (`Report.Endpoint.HotspotsSearch`).
- **Leak period.** The `--sinceleakperiod` help at index.js:47-48 promises reporting "since the last sonarqube leak period". The filter built from it at index.js:87 (`leakPeriodFilter`) is never used, and the hotspot query at index.js:190 fixes `sinceLeakPeriod=false`. The flag only sets the `deltaAnalysis` label (index.js:88) and the previous period read from the settings (index.js:141-149).
- **Missing probability.** The comment at index.js:205-206 says a hotspot without `vulnerabilityProbability` takes it from its rule. The code at index.js:207 copies the raw field. Such a hotspot stays without a severity: it is neither ranked nor counted (`Severity.CountsBounded`).
- **Options never acted on.** `--noSecurityHotspot` (index.js:56-57) is only stored as a flag (index.js:79). `--sonarorganization` (index.js:44-45) is only stored, and the organization filter built from it at index.js:91 is never used. Neither changes a request.

## Model

| member | source | states |
|---|---|---|
| `Config.Configure` | index.js:69-117 | A run without `--sonarurl` aborts, and only then. Otherwise: every flag is on exactly when its argument is `"true"`; the base URL is `StripTrailingSlash` of the argument, `deltaAnalysis` is `DeltaAnalysis` of the leak-period flag and the rule filter is `RuleFilter` of the two rule flags, so each has the characterisation proved for that function; project, application, release, organization, component and branch pass through unchanged. |
| `Config.FlagOn` | index.js:75-79 | A flag is on if and only if its argument is present and equal to `"true"`. An absent argument and any other string leave it off. |
| `Config.StripTrailingSlash` | index.js:81 | The result plus a `/` is the input, or the result is the input and the input does not end in `/`. |
| `Config.StripTrailingSlashOnce` | index.js:81 | Exactly one slash is removed: `base/` becomes `base`, and `base//` becomes `base/`. |
| `Config.DeltaAnalysis` | index.js:88 | The label is "Yes" or "No", and it is "Yes" exactly when the leak period is requested. |
| `Config.RuleFilter` | index.js:94-117 | The rule filter is either empty or the types filter. It is empty if and only if allBugs or fixMissingRule is set. |
| `Auth.SelectCredentials` | index.js:119-138 | Login is chosen exactly when username and password are both non-empty. Token is chosen exactly when that fails and the token is non-empty. Each choice carries the argument values it was chosen for. |
| `Auth.CookiePair` | index.js:134 | The pair has no `;`, and it is a prefix of the Set-Cookie value. It is the whole value when the value has no `;`; otherwise the value continues with a `;` right after the pair. |
| `Auth.CookieHeader` | index.js:134 | No cookies give the empty header. Otherwise, splitting the header on `"; "` gives back exactly one pair per Set-Cookie value, in order. No pair contains `;`. |
| `Auth.TokenHeader` | index.js:137 | The header starts with "Basic ". The rest base64-decodes to the UTF-8 bytes of the token followed by the byte of `:`. |
| `Auth.TokenHeaderUnique` | index.js:137 | Any header meeting `TokenHeader`'s contract is `TokenHeader`'s result: the contract fixes the header text. |
| `Auth.HeadersFor` | index.js:119-139 | The run fails exactly on the login branch when the response has no Set-Cookie list. On success: Cookie and Authorization are never both set; Cookie is set exactly on the login branch and Authorization exactly on the token branch; the values are the joined cookie pairs and `TokenHeader` of the token, a Basic header that decodes to `token:`. |
| `Auth.TokenHeaderExample` | index.js:137 | The token "abc" sends `Basic YWJjOg==`. |
| `Base64.DecodeEncode` | index.js:137 | Decoding the base64 text of any byte sequence gives that byte sequence back. |
| `Base64.EncodeDecode` | index.js:137 | Any text the decoder accepts is the encoding of what it decodes to, because a final padded group with non-zero unused bits is rejected: each byte sequence has exactly one base64 text. |
| `Base64.EncodeLength` | index.js:137 | The text has four characters for every started group of three bytes. |
| `Base64.OfText` | index.js:137 | The base64 text of a string decodes to the string's UTF-8 bytes. |
| `Base64.OfTextUnique` | index.js:137 | No other text decodes to those bytes, so `OfText`'s contract determines its result. |
| `Base64.Utf8Ascii` | index.js:137 | On ASCII text, the UTF-8 bytes are the character codes, one byte per character. |
| `Base64.OfTextExample` | index.js:137 | "abc:" encodes to "YWJjOg==". |
| `Strings.JoinSplit` | index.js:134 | Joining the parts of a split with the same separator gives back the original string. |
| `Strings.SplitJoin` | index.js:134 | Splitting the join of a non-empty list of parts gives back the parts, provided none of them contains the separator's first character. |
| `Strings.SplitCutsIffPresent` | index.js:210 | A split on one character makes more than one part if and only if the character occurs. |
| `Pagination.Paginate` | index.js:151-173 | Requests count up 1, 2, …, n. Pages 1..n-1 held exactly 500 items and page n did not, so larger and smaller pages both stop the loop. At most one page past the server's last is requested. The items are pages 1..n concatenated in order. |
| `Pagination.FetchAll` | index.js:175-217 | The `while` form of the loop meets the same stopping characterisation. It returns 500·(n-1) items plus the last page's count, and it agrees exactly with `Paginate`. |
| `Pagination.ConcatLength` | index.js:151-173 | After n requests the item count is 500·(n-1) plus the size of page n. |
| `Pagination.PaginateIsPrefix` | index.js:151-173 | The accumulated list never claims more than the server holds: it is a prefix of all items in page order. |
| `Pagination.ConcatFromPages` | index.js:151-173 | Every item collected is an item of some page the server returned. |
| `Pagination.PaginateMap` | index.js:163-170 | Mapping each item before or after accumulating gives the same requests and the same mapped list. |
| `Pagination.ThreePagesExample` | index.js:151-173 | Pages of 500, 500 and 137 items take three requests and give the 1137 items in order. |
| `Pagination.EmptyFirstPageExample` | index.js:151-173 | An empty first page stops the loop after one request with nothing collected. |
| `Pagination.OversizedPageExample` | index.js:171 | A first page of 501 items also stops the loop after one request. |
| `Records.ComponentPath` | index.js:210 | The path contains no `:` and is a suffix of the key. It is the whole key exactly when the key has no `:`; otherwise a `:` stands right before it. |
| `Records.ComponentPathUnique` | index.js:210 | Any suffix with those properties is the path, so the path is the text after the last `:`. |
| `Records.ComponentPathExample` | index.js:209-210 | "myproj:src/Foo.java" reduces to "src/Foo.java". |
| `Records.ComponentPathLastSegmentExample` | index.js:210 | "org:proj:lib/a:b.txt" reduces to "b.txt". Every colon goes, not only the project-key prefix. |
| `Records.ProjectRules` | index.js:165-170 | One rule per raw rule, in order, with key, description, name and probability copied. |
| `Records.ProjectHotspots` | index.js:203-216 | One hotspot per raw hotspot, in order. Description and message both equal the raw message. Key, status, line and probability are copied. The component is the raw key's path after its last `:`, a colon-free suffix of it. |
| `Severity.Rank` | index.js:64-67 | Exactly "LOW", "MEDIUM" and "HIGH" have a rank, and every rank is at most 2. |
| `Severity.RankTable` | index.js:64-67 | LOW ranks 0, MEDIUM ranks 1 and HIGH ranks 2. |
| `Severity.RankInjective` | index.js:64-67 | Two ranked severities with the same rank are the same severity. |
| `Severity.Insert` | index.js:219-221 | One insertion step adds exactly the one hotspot (as a multiset) and puts either it or the old first element in front. |
| `Severity.InsertDescending` | index.js:219-221 | Inserting a ranked hotspot into a ranked, descending list keeps it descending. |
| `Severity.Sort` | index.js:219-221 | The sort is a permutation of its input: same length, same multiset. |
| `Severity.SortDescending` | index.js:219-221 | On ranked input, every adjacent pair of the result is in non-increasing rank. |
| `Severity.SortIsDescending` | index.js:219-221 | On ranked input, any earlier hotspot of the result ranks at least as high as any later one. |
| `Severity.SortStable` | index.js:219-221 | On ranked input, the hotspots of each severity keep their arrival order. |
| `Severity.SortGroupsBySeverity` | index.js:219-221 | On ranked input, the result is exactly the HIGH hotspots, then the MEDIUM ones, then the LOW ones, each in arrival order. |
| `Severity.SortCount` | index.js:219-227 | Sorting changes no severity's count, whether ranked or not. |
| `Severity.Summarize` | index.js:223-227 | The three counts together never exceed the hotspot count. |
| `Severity.CountIsMultiplicity` | index.js:223-227 | Each count is the multiplicity of its exact string among the hotspots' probabilities. |
| `Severity.CountsBounded` | index.js:223-227 | The three counts sum to at most the hotspot count, with equality exactly when every severity is ranked. |
| `Severity.SummaryIgnoresOrder` | index.js:223-227 | The summary taken after the sort equals the one taken before it. |
| `Severity.TwoHotspotsExample` | index.js:219-227 | A LOW hotspot that arrived before a HIGH one ends up behind it, and they are counted as one high and one low. |
| `Report.Requests` | index.js:119-217 | The requests, in order: the login request (only on the login branch), the leak-period setting (only with the leak period on), rule pages 1..n with the rule filter, then hotspot pages 1..m for the component with no other filter. |
| `Report.PreviousPeriod` | index.js:141-149 | "" when the leak period is off. When it is on: the abort if the server lists no setting, and the first setting's value otherwise. |
| `Report.Execute` | index.js:69-228 | A run aborts exactly when the URL is missing, the login answer has no cookies, or the leak period is asked for and absent. The error names the first of these in the script's order: a missing URL, then missing cookies, then a missing leak-period setting. Otherwise: rules are the projected pages; hotspots are the projected pages sorted, a permutation of them; the summary counts the unsorted list; the settings are `Configure` of the arguments; the previous period is `PreviousPeriod` of the leak-period flag and the server's settings; the headers are `HeadersFor` of the credential choice, so they are never both set; the request list is `Requests` with the configured leak flag and rule filter. |
| `Report.RankedReport` | index.js:219-227 | A run with the URL given, a cookie for a requested login and a leak period when asked succeeds; when every hotspot the server holds has a ranked severity, the report lists HIGH, then MEDIUM, then LOW hotspots in arrival order, and the summary adds up to the hotspot count. |
| `Report.LowThenHigh` | index.js:203-227 | A LOW raw hotspot followed by a HIGH one yields the HIGH record first and a summary of 1/0/1. |
| `Report.SmallServerExample` | index.js:151-227 | An anonymous run against a one-rule, two-hotspot server issues two requests and sets no header. It reports one rule, the hotspots reordered HIGH then LOW, and a summary of one high, no medium and one low. |

## Left out

- HTTP transport (`sync-request`), JSON parsing and `res.getBody()`. Raw rules and hotspots carry only the fields the script reads. Page contents, the Set-Cookie list and the leak-period settings are inputs of `Report.Execute`. Transport and response-shape failures other than the three modelled aborts are not represented.
- The request URLs are represented as `Report.Endpoint` values with the parts the script varies. The fixed query text is not spelled out: `activation=true`, `ps=500`, the `statuses=` value that interpolates `OPEN_STATUSES` (`TO_REVIEW,IN_REVIEW`), `onlyMine=false`, `sinceLeakPeriod=false`, and so on. `encodeURIComponent` of the login form body is not modelled either.
- `minimist` argument parsing, `--help` and `process.exit`. Arguments are modelled as absent or a string; minimist's conversion of numeric-looking values to numbers is not modelled.
- `ejs` rendering, console output and the `Date` stamp of the report data.
- Values the script computes but never uses: `leakPeriodFilter`, `withOrganization`, and `filterIssue` (with its branch suffix). `noSecurityHotspot` is kept in the settings as data only, because the script reads it nowhere else.
- Severity.Sort: nothing is claimed about the order of hotspots whose severity is missing or unranked. The comparator then returns NaN and the engine's order is implementation-defined. For such inputs the model only proves that the sort is a permutation and leaves each count unchanged.
- Pagination.Paginate: a server that answers full pages forever (a script that never stops) is outside the model, because the server is a finite page sequence followed by empty pages.
- Base64.Utf8: lone UTF-16 surrogates, which `Buffer.from` replaces with U+FFFD, are not modelled. Characters are taken as Unicode scalar values.
