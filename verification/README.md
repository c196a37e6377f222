# The checks of ptah-operator, modelled and proved

ptah-operator keeps its promises with programs that decide whether something may go ahead: whether
a measured request rate bounds every minute of a scenario, whether a shell text can be trusted once
its here-documents are blanked, whether a CI run can outlast the wait for it, whether a sharded
acceptance matrix still runs every phase, whether a certificate is renewed in time, whether an
authority can be retired. This project
models those programs in Dafny and proves what each of them is for.

| file | what it models |
|---|---|
| `ApiDemand.dfy` | the request demand of the managers, bounded over every 60-second window |
| `ApiPopulation.dfy` | the API servers of a cluster, one for each node, and their concurrent scrape |
| `ShellLexer.dfy`, `ShellQuoting.dfy` | the two shell scanners and when they agree |
| `DelimiterQuoting.dfy` | the delimiter of a here-document beside the POSIX shell's |
| `CaseBlocks.dfy` | the audit of the case statements that select Kubernetes minors |
| `RunBound.dfy` | the bound on how long a CI run can take |
| `ApiSurface.dfy`, `StringOrder.dfy` | the API surface reachable from a Job, listed for a digest |
| `SupportWindow.dfy`, `Decimals.dfy` | the supported minors, the range they become, their names |
| `E2ESuites.dfy`, `E2EMatrix.dfy` | the acceptance suites, what they need and the matrix that runs them |
| `Databases.dfy` | the database lines, what they leave out and their matrix |
| `DriverPhases.dfy` | two readers of the driver and when they agree |
| `Durations.dfy`, `RotatorConfig.dfy`, `Supervisor.dfy` | the certificate rotator: what it accepts and how it runs |
| `ResultRotation.dfy` | the rotation of result trust: journal, projection and policy under lost writes |
| `Results.dfy` | the outcome datatypes |

What the code changes in place is a class or an array here: the memo of the walk over the needs, the
visited types, the probe states, the shared map behind the mutex, the buffer that is blanked. What
it computes with a loop is a method with a loop, proved against a specification that does not share
its shape: the longest chain of needs for a memoised walk, a token grammar for a byte scanner, a
multiset for greedy matching, nesting depth for a stack of frames.

Time is `real` in the measurement and 64-bit nanoseconds in the rotator, where an operation either
wraps around as written or may be used only where it is shown not to. Readings, regular expression
matches, dates, random draws and the results of API calls are parameters. Inductive lemmas spell
their induction out.

## Where the code is not what it says

Each disagreement has an input that shows it and the condition for it to be absent.

- The delimiter of a here-document is not always the one the POSIX Shell Command Language (Issue 7)
  gives it. A backslash between double quotes always goes, where section 2.2.3 keeps it in front of
  most bytes (`DelimiterQuoting.KeptBackslash`). A # that begins the word is taken for a delimiter,
  where section 2.3 begins a comment (`DelimiterQuoting.CommentIsTaken`). A substitution is cut at
  the quotes inside it (`DelimiterQuoting.SubstitutionIsCut`). The delimiter is the standard's as
  `DelimiterQuoting.OpeningIsPosix` says: exactly, for words without substitutions.
- The two readers of the driver disagree about an indented engine
  (`DriverPhases.IndentedEngineIsLost`). They agree exactly as `DriverPhases.ReadersAgree` says.
- The two shell scanners disagree behind an opening such as `<< # '`
  (`ShellQuoting.BlankHashDivides`). There the quote scanner reads the comment a shell reads, and
  the lexer that blanks the bodies is the one that departs. The scanner's answers are the lexer's
  exactly as `ShellQuoting.AnswersAgreeExactly` says, and its states exactly as
  `ShellQuoting.ScannersAgreeExactly` says.
- The last two refusals of the demand measurement, and its skip of a window that ends before it
  starts, are never reached; `ApiDemand.ManagerApiDemand` says so of the refusals.

## Model

| member | source | states |
|---|---|---|
| `ApiDemand.DemandBoundsEveryWindow` | hack/capacity/api_demand.go:31-112 | The promise of the measurement: for every way the counters can have moved that never falls and passes each reading at some instant of its scrape, every 60-second window of the scenario lies in a reported tile whose requests are at least what moved in it and at most what moved over the whole scrape span, and 60 times the reported maximum rate is at least what moved in any window |
| `ApiDemand.MeasuredHasHistory` | hack/capacity/api_demand.go:8-14 | The bound is never about nothing: whatever samples were measured, a history of the counters with just those readings exists |
| `ApiDemand.MeasurableExactly` | hack/capacity/api_demand.go:54-72 | Which bracketed samples of one population are measured: exactly those whose scrapes do not overlap and whose readings some counters that never fall and are never negative explain, an idle manager's included |
| `ApiDemand.ExplainedIsKept` | hack/capacity/continuity.go:144-146 | Two scrapes, one after the other, of such a counter are accepted whatever it reads, zero or the same twice |
| `ApiDemand.IsIdentified` | hack/capacity/continuity.go:46-50 | A process is identified exactly when none of its four fields is missing |
| `ApiDemand.ManagerApiDemand` | hack/capacity/api_demand.go:35-112 | A demand comes back exactly when the scenario holds a window and the samples between the bracket are one continuous population whose counters only rise; its tiles join from the start to the last window start and its maximum is the largest of their rates. Each refusal names what is wrong, and the two refusals at the end of the code cannot happen |
| `ApiDemand.BracketIsUnique` | hack/capacity/api_demand.go:40-53 | There is one last sample scraped before the scenario and one first sample scraped after it, so the bracket the contracts speak of is the one the code finds |
| `ApiDemand.FindBracket` | hack/capacity/api_demand.go:40-50 | The last valid sample wholly read by the start and the first valid one wholly read after the end, each or -1 when there is none |
| `ApiDemand.MeasurableIsBracketed` | hack/capacity/api_demand.go:51-72 | Samples that pass the checks have scrape ends that rise, one population, and a first and last scrape outside the scenario: what the loop over the windows needs |
| `ApiDemand.MeasureInside` | hack/capacity/api_demand.go:54-72 | Accepts exactly continuous processes with valid, kept counters; a refusal names a sample and manager of which it is true |
| `ApiDemand.CheckCounters` | hack/capacity/api_demand.go:58-72 | Refuses exactly when some sample is invalid or some manager's scrape overlaps its predecessor's or its counter falls, and names such a sample and manager |
| `ApiDemand.CheckPair` | hack/capacity/api_demand.go:65-71 | One pair of samples: a name comes back exactly when some manager lost its counter, and it is such a manager |
| `ApiDemand.MeasureWindows` | hack/capacity/api_demand.go:73-111 | On bracketed scrapes the loop always ends with a result: the tiles cover every window start with no gap, and neither late refusal is reachable |
| `ApiDemand.MeasureOne` | hack/capacity/api_demand.go:76-104 | A tile runs from one scrape end to the next, clipped to the scenario, and is counted to the first scrape that starts once its last window is over |
| `ApiDemand.FindEnd` | hack/capacity/api_demand.go:88-97 | The search stops at the first scrape that starts at or after the end |
| `ApiDemand.StartedByIsFirst` | hack/capacity/api_demand.go:89-94 | Every scrape before the one searched for starts before the end, and it does not |
| `ApiDemand.SumRequests` | hack/capacity/api_demand.go:101-103 | The order the managers are added in does not matter: the result is the sum of their differences |
| `ApiDemand.LastRises` | hack/capacity/api_demand.go:68-70 | Scrapes that do not overlap manager by manager finish in order sample by sample |
| `ApiDemand.JoinNext` | hack/capacity/api_demand.go:78-86 | A tile that starts where the one before it ended keeps the tiling without a gap |
| `ApiDemand.ReadingsBound` | hack/capacity/api_demand.go:98-103 | Between a scrape that ended before a window and one that started after it, the readings differ by at least what moved in the window and at most what moved from the first scrape's start to the last one's end |
| `ApiDemand.BoundHolds` | hack/capacity/api_demand.go:87-106 | One tile bounds every window that starts in it, from above by its requests and from below by its counter span |
| `ApiDemand.TileContains` | hack/capacity/api_demand.go:16-20 | Every window start of the scenario lies in some tile |
| `ApiDemand.RequestReadBounds` | hack/capacity/api_demand.go:114-131 | Valid exactly when there is a manager and every reading is well formed; then the earliest scrape start and the latest scrape end of all managers |
| `ApiDemand.ManagerProcessContinuity` | hack/capacity/continuity.go:98-142 | The problems are exactly those the samples have, each named with its sample and manager, and there are none exactly when at least two samples all show one population of fully identified processes at rising times |
| `ApiDemand.LostOrChanged` | hack/capacity/continuity.go:117-135 | Exactly the managers the sample before had and this one lost or shows as another process are named, each as what it is |
| `ApiDemand.Added` | hack/capacity/continuity.go:136-140 | Exactly the managers the sample shows and its predecessor did not are named |
| `ApiDemand.Unidentified` | hack/capacity/continuity.go:107-111 | Exactly the managers of the sample without a complete identity are named |
| `ShellLexer.MaskShellHeredocBodies` | hack/verify-kubernetes-support.go:5056-5151 | The one-pass scanner over a byte buffer computes the reference reading: a text lexed token by token into code, quotes, comments, openers and here-document bodies, with the body bytes blanked |
| `ShellLexer.MaskKeepsCode` | hack/verify-kubernetes-support.go:5047-5056 | Blanking keeps the length and every line break, changes nothing outside a body, and leaves nothing but spaces and line breaks inside one |
| `ShellLexer.HeredocEndIsFirst` | hack/verify-kubernetes-support.go:5070-5097 | A body ends right after the first line that is its terminator and no earlier line of it is one |
| `ShellLexer.TerminatorIsWritten` | hack/verify-kubernetes-support.go:5077-5088 | A line ends a here-document exactly when it is the delimiter, behind tabs where they are stripped and before at most one carriage return; a delimiter that begins with a tab is never met where tabs are stripped |
| `ShellLexer.BytesAreCharacters` | hack/verify-kubernetes-support.go:5177-5187 | The bytes that end a word, quote or begin a comment, as the characters they are |
| `ShellLexer.ParseShellHeredoc` | hack/verify-kubernetes-support.go:5153-5216 | Recognises exactly the here-document openings of the reference grammar, with their delimiter, tab stripping and end; refused otherwise at the offset it was given |
| `ShellLexer.ParseWord` | hack/verify-kubernetes-support.go:5170-5215 | The delimiter is the word with its quotes and backslashes removed, and a word cut short by an open quote or a trailing backslash is refused |
| `ShellLexer.QuotedWordIsItself` | hack/verify-kubernetes-support.go:5170-5215 | A delimiter between single quotes is read back byte for byte |
| `DelimiterQuoting.OpeningIsPosix` | hack/verify-kubernetes-support.go:5153-5216 | An opening the code recognises has the end and delimiter the POSIX Shell Command Language gives it if its word complies and does not begin with a #, and a word without substitutions only if |
| `DelimiterQuoting.WordIsPosix` | hack/verify-kubernetes-support.go:5170-5215 | Without substitutions, a word has the standard's text and end if and only if every backslash between double quotes escapes a dollar sign, backquote, double quote or backslash, and none outside quotes a line break; words the code refuses are covered |
| `DelimiterQuoting.CompliantWordIsPosix` | hack/verify-kubernetes-support.go:5170-5215 | With substitutions too, a word whose escapes are such and whose substitutions hold no byte the code takes for a quote or the end of a word is read as the standard reads it, or refused by both |
| `DelimiterQuoting.StringIsPosix` | hack/verify-kubernetes-support.go:5196-5211 | The same if and only if of one double-quoted string, by section 2.2.3 |
| `DelimiterQuoting.CompliantStringIsPosix` | hack/verify-kubernetes-support.go:5196-5211 | The same sufficient condition of one string, substitutions included |
| `DelimiterQuoting.CodeWordIsShorter` | hack/verify-kubernetes-support.go:5170-5215 | Where the code departs from the standard on a word without substitutions it only takes more away: the ends are equal and its text is never longer |
| `DelimiterQuoting.LinesAreJoined` | hack/verify-kubernetes-support.go:5200-5203 | By the standard an escaped line break in a string is as if it were not there; the code refuses it |
| `DelimiterQuoting.IntroducersAreCharacters` | hack/verify-kubernetes-support.go:5170-5215 | Where a substitution begins, as the characters it begins with |
| `DelimiterQuoting.KeptBackslash` | hack/verify-kubernetes-support.go:5200-5207 | An input on which it departs: a double-quoted a, backslash, b opens a body the code ends at ab and a shell at a, backslash, b |
| `DelimiterQuoting.CommentIsTaken` | hack/verify-kubernetes-support.go:5166-5181 | Another: a # right behind the opener is the code's delimiter and the standard's comment |
| `DelimiterQuoting.SubstitutionIsCut` | hack/verify-kubernetes-support.go:5175-5199 | Another: a quoted substitution that holds a quoted blank is one word by the standard, and the code ends the word at the blank |
| `ShellLexer.StepCode` | hack/verify-kubernetes-support.go:5099-5148 | One turn of the scanner in code consumes exactly the labels the reference reading starts with |
| `ShellLexer.StepPlain` | hack/verify-kubernetes-support.go:5123-5147 | The same for an unquoted byte: escape, quote, comment, opening, line break or any other |
| `ShellLexer.StepBody` | hack/verify-kubernetes-support.go:5070-5097 | One body line is blanked up to its line break, nothing else in the buffer changes, and the next here-document is opened exactly after a terminator |
| `ShellLexer.CloseHeredoc` | hack/verify-kubernetes-support.go:5077-5091 | A here-document leaves the queue exactly when its line, without leading tabs for the dash form and without a trailing carriage return, is the delimiter |
| `ShellLexer.BlankLine` | hack/verify-kubernetes-support.go:5085-5087 | The bytes of the line become spaces and no other byte changes |
| `ShellQuoting.ScannersAgreeExactly` | hack/verify-kubernetes-support.go:5056-5273 | The second scanner, run on the blanked text, is in the first one's state at every offset if and only if no unquoted # of an opening follows blank space |
| `ShellQuoting.AnswersAgreeExactly` | hack/verify-kubernetes-support.go:5056-5273 | What the second scanner answers, quoted or not, is what the first one reads at every offset if and only if nothing the first reads as quoted follows, on the same line, an unquoted # after blank space in an opening |
| `ShellQuoting.HashHides` | hack/verify-kubernetes-support.go:5265-5268 | Such a # makes the second scanner take the rest of its line for a comment, and leaves it unquoted on the next one |
| `ShellQuoting.ToLineEnd` | hack/verify-kubernetes-support.go:5099-5148 | A line the first scanner reads without a quote ends at one of its own steps, unquoted |
| `ShellQuoting.AnswersFrom` | hack/verify-kubernetes-support.go:5056-5273 | Answers carried through the rest of the text, over a turn or over the whole line of such a # |
| `ShellQuoting.ScannerAgrees` | hack/verify-kubernetes-support.go:5227-5273 | Without such a # the two scanners are in the same state at every offset |
| `ShellQuoting.BlankHashDivides` | hack/verify-kubernetes-support.go:5227-5273 | A text on which they differ: the first scanner takes a # for a delimiter and reads a quote behind it, the second takes it for a comment, as the standard does |
| `ShellQuoting.InsideShellQuote` | hack/verify-kubernetes-support.go:5227-5273 | Inside a quote exactly when the state walk from the start of the text is in a single or double quote at the offset |
| `ShellQuoting.FirstUnquotedShellMatch` | hack/verify-kubernetes-support.go:5218-5225 | The match that comes back is unquoted and every match before it is quoted; none comes back exactly when all are quoted |
| `ShellQuoting.OpenerIsNoComment` | hack/verify-kubernetes-support.go:5134-5143 | After any byte of an opening the first scanner is never in a comment, which is where the two part ways |
| `ShellQuoting.WalkOneMore` | hack/verify-kubernetes-support.go:5235-5271 | Away from backslashes one more byte is one more step of the second scanner |
| `ShellQuoting.AgreesFrom` | hack/verify-kubernetes-support.go:5056-5273 | Agreement carried through the rest of the text, one turn of the first scanner at a time |
| `RunBound.VerifyCIRunBound` | hack/verify-kubernetes-support.go:1557-1609 | Accepts exactly when every need is defined, no job needs itself, and the bound is the weight of the longest chain of needs; a refusal is true: a reachable undefined need, a real cycle, or the longest chain itself. An accepted bound is reached by a run |
| `RunBound.RunsEndByTheBound` | hack/verify-kubernetes-support.go:1549-1556 | Safety over every run: whenever each job starts once its needs have ended and runs no longer than its limit, no job of the workflow ends after the bound |
| `RunBound.LimitsAreARun` | hack/verify-kubernetes-support.go:1550-1552 | The schedule the walk computes is itself such a run, so the bound is never too long |
| `RunBound.LimitsAreARunExactly` | hack/verify-kubernetes-support.go:1557-1609 | It is a run if and only if no limit is negative, and with a negative limit there is no run at all |
| `RunBound.RunsForMinutes` | hack/verify-kubernetes-support.go:1546-1548 | A job of a run takes no longer than its own limit, or six hours without one |
| `RunBound.CriticalPath` | hack/verify-kubernetes-support.go:1549-1556 | In any run a job's end is explained by a chain of needs at least as heavy |
| `RunBound.NeedsWalk.constructor` | hack/verify-kubernetes-support.go:1558-1559 | Nothing finished, nothing being visited |
| `RunBound.NeedsWalk.End` | hack/verify-kubernetes-support.go:1561-1591 | The memoised walk gives a job the weight of its longest chain, keeps every end it already had, leaves no job marked as being visited, and fails only with an undefined need or a job that reaches itself |
| `RunBound.NeedsWalk.EndOfNeeds` | hack/verify-kubernetes-support.go:1574-1581 | The start is the largest end of the needs, zero without any |
| `RunBound.FinishesAfterNeeds` | hack/verify-kubernetes-support.go:1582-1588 | Adding a job after its needs keeps every recorded end the weight of the longest chain from it |
| `RunBound.CycleClosed` | hack/verify-kubernetes-support.go:1570-1572 | A job met while it is being visited really needs itself through its dependencies |
| `RunBound.LatestIsLongest` | hack/verify-kubernetes-support.go:1592-1608 | The latest end over all jobs is the longest chain of the workflow |
| `RunBound.AllFinishedIsWellFormed` | hack/verify-kubernetes-support.go:1570-1572 | When every job has an end there is neither a cycle nor an undefined need |
| `RunBound.PathStays` | hack/verify-kubernetes-support.go:1574-1580 | A chain that starts in a set closed under needs never leaves it |
| `ApiSurface.ControllerJobAPISurface` | hack/verify-kubernetes-support.go:497-558 | The listing holds every API struct reachable from the roots through exported, serialised fields, each once, with its sorted field names, in order of type name |
| `ApiSurface.SurfaceIgnoresOrder` | hack/verify-kubernetes-support.go:497-558 | What is digested does not depend on the order the roots or the fields are declared in, for types with distinct full names |
| `ApiSurface.Surface.Visit` | hack/verify-kubernetes-support.go:501-545 | The recursive visit reaches the struct behind pointers, slices, arrays and maps, only adds reachable types, and lists a type after everything it holds is visited |
| `ApiSurface.Surface.VisitFields` | hack/verify-kubernetes-support.go:518-538 | The field names are those of the exported fields with a name, and every struct they hold has been visited |
| `ApiSurface.Surface.constructor` | hack/verify-kubernetes-support.go:498-499 | Nothing visited and nothing listed |
| `ApiSurface.CollectEntries` | hack/verify-kubernetes-support.go:541-555 | Each reachable struct is listed exactly once and nothing else is |
| `ApiSurface.AllReached` | hack/verify-kubernetes-support.go:501-555 | A walk that holds the roots and is closed under fields has found exactly the reachable structs |
| `ApiSurface.ReachableStays` | hack/verify-kubernetes-support.go:501-540 | A chain of held types never leaves a set that has the roots and everything its members hold |
| `ApiSurface.FieldNamesReordered` | hack/verify-kubernetes-support.go:518-538 | Reordering fields reorders their names and does no more |
| `ApiSurface.EntryListsFields` | hack/verify-kubernetes-support.go:518-541 | An entry names its type in full and lists, in order, each name as often as an exported field is serialised under it: its tag's name, or its own when the tag has none and the field is not embedded |
| `ApiSurface.FieldNameIsSerialised` | hack/verify-kubernetes-support.go:519-533 | What one field adds to the list |
| `ApiSurface.OrderIsUnique` | hack/verify-kubernetes-support.go:556-556 | Distinct type names have one order, whatever sort is used |
| `StringOrder.SortIgnoresOrder` | hack/verify-kubernetes-support.go:536-536 | Sorting the same names in any order gives one list |
| `StringOrder.LeIsLexicographic` | hack/verify-kubernetes-support.go:536-536 | The order of the names is that of their first difference, and a name comes before those it begins |
| `RotatorConfig.ParseFlags` | cmd/ptah-cert-rotator/main.go:126-145 | The configuration comes back, with the run interval as the default switch delay, exactly when the three checks' inequalities hold over unbounded integers, and a refusal is true |
| `RotatorConfig.ValidateRuntimeRelationships` | cmd/ptah-cert-rotator/supervisor.go:45-90 | The guards make the 64-bit checks exact for any input: accepted exactly when every inequality holds over unbounded integers, a refusal is true, and each sum, difference and product is an operation that may only be used where it does not wrap |
| `RotatorConfig.ValidateResult` | cmd/ptah-cert-rotator/result_rotation.go:20-44 | For a cycle that is a duration and any threshold: none or all five names, all dedicated, and three cycles plus both overlaps inside the threshold; dividing by three loses nothing and nothing wraps |
| `RotatorConfig.CountFields` | cmd/ptah-cert-rotator/result_rotation.go:21-32 | None and all five are told apart from every partial set |
| `RotatorConfig.Validate` | cmd/ptah-cert-rotator/supervisor.go:28-43 | Positive intervals with the maximum retry no less than the first, and a refusal that is true |
| `Supervisor.RenewedInTime` | cmd/ptah-cert-rotator/supervisor.go:77-89 | With an accepted configuration and passes that keep their time, every instant is followed by a pass within one cycle, early enough that the CA switch still comes before the threshold runs out |
| `Supervisor.PassesRenewInTime` | cmd/ptah-cert-rotator/supervisor.go:77-89 | The same of the passes a run of the supervisor hands back: one of them starts in time |
| `Supervisor.Run` | cmd/ptah-cert-rotator/supervisor.go:117-193 | The whole loop over any sequence of passes: it goes on until cancelled, each pass waits what its outcome and the failures before it say (`StartsWhenAsked`, `StartsAsDrawn`), and the probes show exactly live, each pass's readiness, then neither; ready is never shown without live |
| `Supervisor.Loop` | cmd/ptah-cert-rotator/supervisor.go:146-192 | Stops at the first cancellation; every completed pass has the delay and readiness its round gives it |
| `Supervisor.Settle` | cmd/ptah-cert-rotator/supervisor.go:161-191 | Success resets the backoff and shows readiness unless pending, failure shows not ready and doubles it; the wait is the one asked for when that is sooner, or the draw |
| `Supervisor.GapBetweenStarts` | cmd/ptah-cert-rotator/supervisor.go:146-192 | Passes that end by the operation timeout start one after another, within a run interval and a timeout after a success, within the maximum retry and a timeout after a failure |
| `Supervisor.StartsWhenAsked` | cmd/ptah-cert-rotator/supervisor.go:165-178 | After a success the next pass starts when it was asked to, if that is within the interval, and else when the interval is over |
| `Supervisor.StartsAsDrawn` | cmd/ptah-cert-rotator/supervisor.go:181-191 | After a failure it starts as much later as was drawn, at most a fifth more than the base and no later than the maximum |
| `Supervisor.FirstStartFrom` | cmd/ptah-cert-rotator/supervisor.go:147-192 | Some pass starts within a cycle of any instant the run reaches |
| `Supervisor.StartsGoOn` | cmd/ptah-cert-rotator/supervisor.go:147-192 | Starts advance with every pass, so a run does not stall |
| `Supervisor.WaitAfterFailures` | cmd/ptah-cert-rotator/supervisor.go:181-191 | After n failures in a row the next wait is at least the first delay doubled n times, or the maximum, and never more than the maximum |
| `Supervisor.BackoffDoubles` | cmd/ptah-cert-rotator/supervisor.go:228-233 | The step the loop takes is doubling with a ceiling, started over from the initial delay |
| `Supervisor.NextRetryDelay` | cmd/ptah-cert-rotator/supervisor.go:228-233 | Double or the maximum, whichever is smaller, with no 64-bit overflow on the way |
| `Supervisor.RetryDelayWithJitter` | cmd/ptah-cert-rotator/supervisor.go:213-222 | Below the maximum at least the base, at most a fifth more of a positive base and at most the maximum, whatever is drawn and whatever the difference wraps to; otherwise the maximum |
| `Supervisor.ClampRetryDelay` | cmd/ptah-cert-rotator/supervisor.go:224-226 | Inside the interval, and unchanged if it was inside |
| `Supervisor.Healthy` | cmd/ptah-cert-rotator/probes.go:23-30 | Healthy exactly when every state is live and, for readiness, ready |
| `Supervisor.ProbeState.SetLive` | cmd/ptah-cert-rotator/probes.go:13-15 | Sets liveness and leaves readiness |
| `Supervisor.ProbeState.SetReady` | cmd/ptah-cert-rotator/probes.go:17-19 | Sets readiness and leaves liveness |
| `Durations.WrapIsCongruent` | cmd/ptah-cert-rotator/supervisor.go:83-83 | Wrapping around changes a sum by a multiple of two to the 64 |
| `Durations.QuotientTruncates` | cmd/ptah-cert-rotator/supervisor.go:57-57 | The divisions leave a remainder with the sign of what is divided |
| `ResultRotation.AuthorityOutlivesItsCredentials` | internal/certrotation/result_rotator.go:106-252 | Safety over every run, with any write lost, any pass stopped anywhere and credentials issued at any time from any projection that was ever mounted: a client authority leaves the trust projection only after every credential it signed has expired |
| `ResultRotation.UnexpiredIsUsable` | internal/certrotation/result_rotator.go:272-294 | In every state of every run a credential that has not expired is let in by the projection and pins the authority it serves with, unless one it pins has expired; while an expired candidate is discarded this holds of the projection that is put back |
| `ResultRotation.DiscardIsNotReady` | internal/certrotation/result_recovery.go:129-141 | A run, through a whole prepare and switch, in which the projection there is does not do while a candidate is discarded: the policy is put back first and a replica that still mounts the first keys issues under it |
| `ResultRotation.NothingIsRefused` | internal/certrotation/result_rotator.go:165-176 | No pass is refused over what earlier passes left behind, wherever they stopped and whichever of their writes were lost, even with a clock behind theirs by the margin; but a candidate is discarded only by a clock that has seen it expire |
| `ResultRotation.TransitionsAreResumed` | internal/certrotation/result_rotator.go:44-62 | A transition that has begun keeps its candidate authorities and the start of its wait, its phases come in order, and it ends with the candidate, or with what was there if the candidate was discarded |
| `ResultRotation.PhasesAreProved` | internal/certrotation/result_rotator.go:210-242 | Over any step of any run a phase is left only with a probe that succeeded, unless the server authority it would have proved had expired by the margin |
| `ResultRotation.ProbeDecides` | internal/certrotation/result_rotator.go:210-237 | A pass rests only after a probe that succeeds and reports failure only with one that does not, and an expired server authority is not probed |
| `ResultRotation.WritesComeInOrder` | internal/certrotation/result_rotator.go:193-209 | The policy is written before the fence, the fence before the projection it names, and the journal moves on when both are there |
| `ResultRotation.ForeignIsRefused` | internal/certrotation/result_rotator.go:106-176 | A pass takes nothing foreign for its own: without a journal no trust at all, and with one only keys that belong together, a fence not ahead of the clock, trust of those keys and, once a wait has begun, the policy it began with |
| `ResultRotation.CandidateIsGivenUp` | internal/certrotation/result_recovery.go:113-123 | A candidate is given up exactly when both its authorities expired a margin ago |
| `ResultRotation.WornLeavesAreRenewed` | internal/certrotation/result_recovery.go:75-111 | Within a transition exactly the leaves that will not last a probe and a minute are renewed, and both versions are kept |
| `ResultRotation.LifetimeIsTight` | internal/resultcredentials/issuer.go:36-39 | The longest credential that can be issued lives exactly as long as the waits allow for |
| `ResultRotation.TransitionsEnd` | internal/certrotation/result_rotator.go:165-242 | Once its wait is over and its probe succeeds, a transition that has no leaf to renew writes, and each write that takes effect leaves fewer of at most 28 |
| `ResultRotation.StableRenewsWhatAges` | internal/certrotation/result_rotator.go:129-164 | Between transitions nothing is written exactly while authorities and leaf outlast the threshold, and the authorities are replaced only with a leaf that lasts the first wait or their own end |
| `ResultRotation.StableChooses` | internal/certrotation/result_rotator.go:138-163 | New authorities exactly when one of them ages and the leaf lasts the wait, lasts as long as the authority, or cannot be renewed; a new leaf alone in the other cases |
| `ResultRotation.RunHolds` | internal/certrotation/result_rotator.go:106-242 | What every step of every run keeps: the journal decodes, the objects are ones it accepts, no credential outlives its authority or its policy by more than a lifetime, and every unexpired one fits the phase |
| `ResultRotation.PassKeeps` | internal/certrotation/result_rotator.go:106-242 | One write of a pass, decided with any clock it can have read, keeps it |
| `ResultRotation.IssueKeeps` | internal/resultcredentials/issuer.go:120-152 | Issuing keeps it: two checks of the policy and the authority's own end bound what is signed |
| `ResultRotation.PolicyServes` | internal/resultcredentials/enrollment.go:13-17 | What the policy lets be issued is served by the phase the journal is in |
| `ResultRotation.FenceKeeps` | internal/certrotation/result_rotator.go:196-202 | A fence stamped after the policy was read back bounds everything the policy before it let be issued |
| `ResultRotation.SwitchKeeps` | internal/certrotation/result_rotator.go:210-232 | When the first wait is over whoever pins the old server alone has expired, or the old server has |
| `ResultRotation.RetireKeeps` | internal/certrotation/result_rotator.go:210-232 | When the second wait is over whoever the old client authority signed has expired |
| `ResultRotation.SettleKeeps` | internal/certrotation/result_rotator.go:234-241 | The candidate becomes what is there, with every unexpired credential fitting it |
| `ResultRotation.RepairKeeps` | internal/certrotation/result_recovery.go:75-111 | Renewing leaves in the middle of a transition changes neither authorities nor policy nor fence, and the projection from before is still accepted |
| `ResultRotation.FlagKeeps` | internal/certrotation/result_recovery.go:113-123 | A candidate is given up only when nothing it signed can be unexpired |
| `ResultRotation.DiscardPassKeeps` | internal/certrotation/result_recovery.go:125-143 | Going back to what was there, write by write, keeps everything unexpired fitting it |
| `ResultRotation.PassRetires` | internal/certrotation/result_rotator.go:203-205 | The only writes that take a client authority out of the trust come when nothing it signed is unexpired |
| `ResultRotation.JournalGoesOn` | internal/certrotation/result_rotator.go:106-242 | Whatever a pass saves goes on from the journal it read |
| `E2EMatrix.ExactlyOneJob` | hack/verify-kubernetes-support.go:5561-5566 | The promise of the partition: for every supported minor, exactly one job of the matrix runs each phase of the driver for its acceptance |
| `E2EMatrix.CoveredPhasesCounted` | hack/verify-kubernetes-support.go:5553-5559 | The count that is printed is the number of distinct phases the driver runs |
| `E2EMatrix.RequirementsRunBefore` | hack/verify-kubernetes-support.go:5612-5614 | Everything a fully run phase requires, directly or through others, is run in full by the same suite and earlier in the driver |
| `E2EMatrix.RequirementsHaveNoCycle` | hack/verify-kubernetes-support.go:5612-5645 | So no fully run phase requires itself |
| `E2EMatrix.VerifyE2ESuiteCoverage` | hack/verify-kubernetes-support.go:5567-5610 | Accepts exactly when the driver's phases and the suites' are the same non-empty set and every suite is prepared; the phases a refusal lists are exactly the missing or unknown ones |
| `E2EMatrix.VerifyE2ESuitePrerequisites` | hack/verify-kubernetes-support.go:5615-5647 | Accepts exactly when every fully run phase is declared and has its requirements met before it, in whatever order the phases are looked at; a refusal names one that is not |
| `E2EMatrix.PreparedExactly` | hack/verify-kubernetes-support.go:5612-5645 | What a suite owes, by its fields: every phase of its own, and every one it prepares with that is declared without a shorter mode, is declared, and all its last declaration requires is run in full by the suite and called earlier |
| `E2EMatrix.DefinitionIsLast` | hack/verify-kubernetes-support.go:5616-5619 | Of several declarations of a phase the last is in force |
| `E2EMatrix.CheckRequired` | hack/verify-kubernetes-support.go:5632-5643 | One phase: refused exactly when undeclared or some requirement is not run in full before it, and the refusal names it |
| `E2EMatrix.OrderIsLastCall` | hack/verify-kubernetes-support.go:5572-5577 | A phase has a place exactly when the driver calls it, and a phase called more than once has the place of its last call |
| `E2EMatrix.ReadDriver` | hack/verify-kubernetes-support.go:5572-5577 | Overwriting a map call by call leaves that placement |
| `E2EMatrix.E2ESuiteMatrix` | hack/verify-kubernetes-support.go:6146-6158 | Every minor against every suite, the suites inside |
| `E2EMatrix.MatrixAt` | hack/verify-kubernetes-support.go:6146-6158 | Job m times the number of suites plus s is minor m with the name, slug and summary of suite s and all else its own |
| `E2EMatrix.E2ESuiteCoveredPhases` | hack/verify-kubernetes-support.go:5553-5559 | The length of all claimed phases, suite by suite |
| `E2EMatrix.CountMatrix` | hack/verify-kubernetes-support.go:6146-6158 | Exactly one entry of the matrix is for a minor of the window and the suite that runs a phase, and none for another minor |
| `E2ESuites.LoadE2ESuites` | hack/verify-kubernetes-support.go:5487-5551 | Accepts exactly the sound catalogs: usable distinct names, no phase claimed twice anywhere, preparation only with another suite's phases; a refusal names a fault the catalog has |
| `E2ESuites.ReadSuites` | hack/verify-kubernetes-support.go:5502-5534 | The first pass accepts exactly the suites that are sound together and knows the one owner of every phase |
| `E2ESuites.ClaimPhases` | hack/verify-kubernetes-support.go:5522-5533 | The owners grow by exactly the suite's phases and lose none, or a phase that is unusable or already claimed is named |
| `E2ESuites.CheckPreparation` | hack/verify-kubernetes-support.go:5535-5549 | Refused exactly when some preparation phase is unusable, unowned or the suite's own, and names it |
| `E2ESuites.OwnerIsSuite` | hack/verify-kubernetes-support.go:5545-5548 | The recorded owner is the suite's name exactly when the suite runs the phase |
| `E2ESuites.UsableIsMatched` | hack/verify-kubernetes-support.go:5478-5478 | A usable name, piece by piece |
| `E2ESuites.SpacesAreWhiteSpace` | hack/verify-kubernetes-support.go:5511-5513 | What counts as blank space: the 25 code points of the Unicode property White_Space |
| `SupportWindow.RangeIsWindow` | hack/verify-kubernetes-support.go:677-681 | The range written to the chart admits a version, prereleases included, exactly when its minor is in the window |
| `SupportWindow.FirstIsLeast` | hack/verify-kubernetes-support.go:680-680 | By section 11 of Semantic Versioning 2.0.0 nothing of a minor, prereleases included, precedes its .0-0 version |
| `SupportWindow.PrecedesAsInSection11` | hack/verify-kubernetes-support.go:677-681 | The precedence the range is read with is that of the example in section 11 of Semantic Versioning 2.0.0 |
| `SupportWindow.NumbersComeFirst` | hack/verify-kubernetes-support.go:677-681 | Major, minor and patch decide before any prerelease does |
| `SupportWindow.ReadWindow` | hack/verify-kubernetes-support.go:604-674 | Accepts exactly three consecutive minors in order, read as their numbers; a refusal is true of the texts |
| `SupportWindow.ParseMinor` | hack/verify-kubernetes-support.go:634-639 | Two runs of digits around one dot, with their values, and nothing else |
| `SupportWindow.WindowIsDistinct` | hack/verify-kubernetes-support.go:264-273 | Entries named after the minors of a window have distinct minors and distinct slugs |
| `SupportWindow.MinorEntries` | hack/verify-kubernetes-support.go:264-273 | The entries built from a window carry their minor, slug, version and image in order, and no two share a minor or a slug |
| `SupportWindow.MinorsCountUp` | hack/verify-kubernetes-support.go:666-672 | The k-th minor of a window is k after the first |
| `Databases.ExactlyOneJobOnLine` | hack/verify-kubernetes-support.go:5988-6019 | The promise of the lines matrix: for every added line, every minor and every phase of the driver that is not handed another engine, exactly one job of the matrix runs that phase for its acceptance on that minor and line |
| `Databases.LinesMatrixIsNamed` | hack/verify-kubernetes-support.go:5988-6019 | No two jobs of the matrix share a name, and there are as many as lines, minors and suites not left out call for |
| `Databases.JobsCarryTheirLine` | hack/verify-kubernetes-support.go:6009-6017 | Every job of the matrix runs a suite its line does not leave out, on the line's image, named after minor, engine and major, with all else its minor's and suite's |
| `Databases.MatrixLength` | hack/verify-kubernetes-support.go:5997-6018 | The number of jobs, line by line |
| `Databases.PhaseIsKept` | hack/verify-kubernetes-support.go:5904-5907 | No line leaves out a suite with a phase that could run on it |
| `Databases.MajorsDiffer` | hack/verify-kubernetes-support.go:5775-5804 | Two added lines of a sound catalog never name one PostgreSQL major |
| `Databases.LineSlugInjective` | hack/verify-kubernetes-support.go:6012-6012 | A job's slug gives back its minor and its major |
| `Databases.DatabaseLineMatrix` | hack/verify-kubernetes-support.go:5993-6019 | Fails exactly without added lines or with an image that names no major; otherwise line by line the suite matrix without what the line leaves out |
| `Databases.JobsOnLine` | hack/verify-kubernetes-support.go:6003-6017 | One line: every entry not left out, in order, renamed for the line |
| `Databases.VerifyDatabaseLeftOutSuites` | hack/verify-kubernetes-support.go:5908-5949 | Accepts exactly when engines are named and each line leaves out, once and with a reason, only suites whose every phase is on another engine, the last suite counting where a name is repeated; a refusal names such an exclusion |
| `Databases.CheckLeftOut` | hack/verify-kubernetes-support.go:5927-5945 | One exclusion: refused exactly when it is no suite, repeated, unexplained or could run, and the refusal says which |
| `Databases.LoadDatabaseCatalog` | hack/verify-kubernetes-support.go:5758-5818 | Accepts exactly the sound catalogs, no engine and release twice across baseline and added; a refusal is true of a line of the catalog |
| `Databases.Claim` | hack/verify-kubernetes-support.go:5780-5806 | One line: known engine, a release its image agrees with, a pinned image, and not seen before |
| `Databases.KeyIsEngineAndLine` | hack/verify-kubernetes-support.go:5797-5801 | Two lines collide exactly when they name one release of one engine |
| `Databases.EnginesAreNamed` | hack/verify-kubernetes-support.go:5722-5722 | The engines as they are written |
| `Databases.ValidateAddedDatabaseLine` | hack/verify-kubernetes-support.go:5820-5848 | PostgreSQL, at least two weeks old, and pending without a run or supported with one |
| `Decimals.ItoaOfValue` | hack/verify-kubernetes-support.go:5793-5793 | A text of digits that does not begin with a zero has a positive value and is what that value is written as |
| `Decimals.ValueCountsTens` | hack/verify-kubernetes-support.go:5793-5793 | The value of two runs of digits is that of the first, shifted by the places of the second, plus that of the second |
| `Databases.RunNumberIsWritten` | hack/verify-kubernetes-support.go:5725-5725 | A run is named by a positive number without leading zeros |
| `Databases.KeptCount` | hack/verify-kubernetes-support.go:5927-5945 | A line runs the suites less exactly as many as it leaves out |
| `CaseBlocks.VerifyAuditedKubernetesMinorSelection` | hack/verify-kubernetes-support.go:2964-3002 | Accepts exactly when case statements nest, every contract is one block, the blocks naming three minors or more are the contracts one for one up to blank space, and no grep encodes a window; each of the six refusals comes back exactly on its own failure |
| `CaseBlocks.MatchBlocks` | hack/verify-kubernetes-support.go:2977-2997 | Greedy matching with a flag per contract succeeds exactly when the two lists hold the same blocks equally often |
| `CaseBlocks.ParseKubernetesMinorCaseBlocks` | hack/verify-kubernetes-support.go:2895-2940 | The stack of frames finds exactly the matched case and esac pairs, in the order they end, and fails exactly when they do not nest, saying in which way |
| `CaseBlocks.MatchedOnce` | hack/verify-kubernetes-support.go:2921-2926 | An esac ends one case at most |
| `CaseBlocks.BlocksAreMatched` | hack/verify-kubernetes-support.go:2921-2934 | The blocks are those of the matched cases that name three minors or more, and nothing else |
| `CaseBlocks.OpenEsac` | hack/verify-kubernetes-support.go:2918-2926 | The top frame is the case that esac matches, and what stays open is the rest |
| `CaseBlocks.OpenCase` | hack/verify-kubernetes-support.go:2915-2917 | A new case is open on top of those that were |
| `CaseBlocks.TooManyEsacs` | hack/verify-kubernetes-support.go:2921-2923 | An esac with nothing open can never be made to nest by what follows |
| `CaseBlocks.TooManyCases` | hack/verify-kubernetes-support.go:2936-2938 | A case open at the end means more cases began than ended |
| `CaseBlocks.NeverOvercloses` | hack/verify-kubernetes-support.go:2910-2938 | While the stack has not failed, no prefix has ended more cases than it began, so an unmatched esac and an unterminated case are told apart |
| `CaseBlocks.NestsExactly` | hack/verify-kubernetes-support.go:2921-2938 | Nesting is the absence of both failures |
| `CaseBlocks.NormalizedNonemptyLines` | hack/verify-kubernetes-support.go:4197-4208 | The lines with blank space trimmed, without those that were blank |
| `CaseBlocks.SameUpToBlanks` | hack/verify-kubernetes-support.go:2983-2990 | Two blocks are held for the same exactly when the lines of each that say something are, in order and without the blank space at their ends, the same |
| `CaseBlocks.NormalizedIsSpoken` | hack/verify-kubernetes-support.go:4197-4208 | One line is left for each that says something, in order, trimmed |
| `CaseBlocks.TrimSpaceIsSlice` | hack/verify-kubernetes-support.go:4202-4202 | Trimming leaves the one slice between the blank space at the ends |
| `CaseBlocks.TrimSpaceIsEmpty` | hack/verify-kubernetes-support.go:4203-4205 | Nothing is left exactly of a line of blank space |
| `ApiPopulation.EveryNodeHasOneServer` | hack/capacity/apiserver.go:31-33 | The one-to-one mapping: every declared node has exactly one server Pod and that Pod no other node |
| `ApiPopulation.PopulationIgnoresOrder` | hack/capacity/apiserver.go:31-68 | Neither the verdict nor the targets depend on the order nodes and Pods are listed in |
| `ApiPopulation.ReadAPIServers` | hack/capacity/apiserver.go:70-147 | Under every order the scrapers reach the mutex in: each target ends with its own reading or its own problem and never both, no problem at all means one reading of every target by the process it names and a population that is the same when listed again, and the converse |
| `ApiPopulation.CollectAll` | hack/capacity/apiserver.go:94-129 | Any schedule leaves a reading or a problem of every Pod and nothing else |
| `ApiPopulation.ReadAgain` | hack/capacity/apiserver.go:130-145 | Lists that fail and a population that changed are told apart, and nothing is reported exactly when the targets are the same |
| `ApiPopulation.CommitNext` | hack/capacity/apiserver.go:120-126 | One more scraper at the mutex keeps what the others wrote |
| `ApiPopulation.Collection.Commit` | hack/capacity/apiserver.go:120-126 | A failure adds its problem and no reading, a success its reading and no problem |
| `ApiPopulation.Outcome` | hack/capacity/apiserver.go:96-119 | A reading is kept exactly when the scrape and its metrics are good and the same process still serves the same node after it |
| `ApiPopulation.ApiPopulation` | hack/capacity/apiserver.go:33-68 | Targets come back exactly when the nodes and Pods are one to one with distinct UIDs and as many as expected; a refusal is true |
| `ApiPopulation.ReadNodes` | hack/capacity/apiserver.go:37-46 | Accepts exactly labelled nodes with distinct names and UIDs |
| `ApiPopulation.ReadPods` | hack/capacity/apiserver.go:47-63 | Accepts exactly live server Pods on declared nodes with distinct hosts and UIDs, and gives each its node's UID |
| `ApiPopulation.HostsAreNodes` | hack/capacity/apiserver.go:64-67 | Counting is enough: as many distinct hosts as nodes are all the nodes |
| `ApiPopulation.IdentityIsFirstNamed` | hack/capacity/continuity.go:25-40 | A Pod has an identity exactly when it runs, has a UID and its first container of the name has started, and it is that container's, whatever containers come after |
| `DriverPhases.EngineReaches` | hack/acceptancecoverage/catalog.go:170-196 | A call is given an engine exactly when a line naming it is above with nothing in between that ends its block |
| `DriverPhases.EngineDoesNotTravel` | hack/acceptancecoverage/catalog.go:185-187 | An engine named for one call never reaches another |
| `DriverPhases.ParseDriverPhases` | hack/acceptancecoverage/catalog.go:170-196 | Every call of the driver in order, each with the engine that reaches it or none |
| `DriverPhases.ReadersAgree` | hack/verify-kubernetes-support.go:4828-4853 | The two readers give a call the same engine if and only if they agree about the first line above it that is not a continued assignment of another name: there is none, it names the engine at its left edge, it ends the forward block and binds no engine further on for the backward reader, it is a continued line that no engine reaches, or it binds for the backward reader alone the engine that reaches it |
| `DriverPhases.EngineIsBound` | hack/verify-kubernetes-support.go:4841-4849 | The backward reader gives a call an engine exactly when a line assigns it and only assignments of other names come between |
| `DriverPhases.RegularBlocksAgree` | hack/verify-kubernetes-support.go:4828-4853 | In particular they agree wherever every continued line of the block is an assignment and the engine is at the left edge |
| `DriverPhases.IndentedEngineIsLost` | hack/acceptancecoverage/catalog.go:170-196 | An input on which the two readers differ |
| `DriverPhases.FindPhaseInvocations` | hack/verify-kubernetes-support.go:4832-4853 | Every call in order with the assignments that prefix it |
| `DriverPhases.ReadPrefix` | hack/verify-kubernetes-support.go:4841-4849 | The backward walk prepends: the bindings come out in the order they are written and stop at the first line that is none |
| `DriverPhases.EnginesOf` | hack/verify-kubernetes-support.go:5909-5916 | The last invocation of a phase that names an engine decides it |

## Left out

- The operator itself (`internal/`, `api/`) but for the rotation of result trust, the other commands and the chart: not part of this model.
- Reading files, YAML, JSON, Go reflection, dates and regular expressions: their results are the inputs.
- Not modelled: the other capacity measurements, the page and workflow checks, the isolation workers, the node images and the age of the manifest.
- The digest of the API surface: the listing it is taken of is modelled, SHA-256 is not.
- Message texts, and which of several faults is reported first; the kind of a refusal and what it names are modelled.
- Floating point: totals and rates are `real`, so rounding, infinities and NaN are not modelled.
- Integers of the CI bound, the minors and the majors are unbounded; 64-bit overflow and the clamp of `strconv.Atoi` are not modelled there.
- ManagerApiDemand: the read bounds of a sample are computed once and kept, where the code computes them at each use; a window is taken as the requests after its start and by its end.
- VerifyCIRunBound: jobs are walked in any order, so the name of the last job is not reported.
- SurfaceIgnoresOrder: two types with one full name could be listed in either order, so distinct names are required.
- ControllerJobAPISurface: assumes that pointers, slices, arrays and maps nest finitely; on a type such as a slice of itself, which Go allows, the walk does not end.
- FirstUnquotedShellMatch: the offsets of the matches are given, and have to lie in the text.
- VerifyAuditedKubernetesMinorSelection: lines come classified as case, esac or other, the minors of a block are a given function of it, and whether a grep encodes a window is given.
- RangeIsWindow: the range is its two bounds, not the text written to the chart.
- ReadWindow: node images and the date of the manifest are not checked.
- LoadDatabaseCatalog: whether an image is pinned, the major its tag names and the day of a date are given.
- ValidateResult: its cycle has to be a duration that is not negative, which the two checks before it ensure.
- Run: the checks for missing collaborators and the log are not modelled, and a pass is its outcome and how long it took.
- RenewedInTime: passes keep their time when none fails and each ends by the operation timeout; timers are exact.
- ReadAPIServers: the refusal without a scraper, the order of the target list, the times of a scrape and the histogram of a reading are not modelled; a scraper is one step at the mutex.
- ReadersAgree: a line that names the engine at its left edge is an assignment of it, as the two expressions guarantee.
- WordIsPosix: a substitution may hold any program, quotes and comments of its own included, so what a shell makes of one is given; the exact condition is proved for words without one and a sufficient one for words with one.
- OpeningIsPosix: where a word ends outside quotes is taken from the code, a carriage return included, and the quoting by a dollar sign and single quotes of Issue 8 is not modelled.
- AuthorityOutlivesItsCredentials: one pass runs at a time, as its Lease ensures, and nobody else writes the three objects; a write takes effect before the next pass reads or not at all, since a late one carries an old resource version; clocks do not go back, and an issuer's is ahead by no more than the margin.
- TransitionsEnd: endpoint probes are given, and a leaf that needs renewal in the middle of a transition takes three writes more.
- RunHolds: object identities and metadata, the encoding of the journal and key generation are not modelled; generated client authorities are new, and times are unbounded.
