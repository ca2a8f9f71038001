# EmployeeCrudApp dashboard rules in Dafny

This project models the decision logic of the EmployeeCrudApp personal dashboard, an
ASP.NET MVC site with a few browser scripts, and proves properties of that model. The
modelled parts are:

- the goal model: status, progress percentage, progress-bar colour and the "target date
  is not in the past" validator;
- the JSON-file repositories: roles, users with role inheritance on every read, goals and
  time entries. Each is modelled as operations on the whole loaded list of records. A
  mutation returns the list that would be written back;
- the decision rules of four controllers:
  - `UserController`: widget allow-lists, user listing, OTP signup, editing, login history;
  - `DashboardController`: view model, PIN gate, notes, habits;
  - `TimeTrackerController`: timesheet, save, update;
  - `NewsController`: the NewsAPI requests and what is done with the answers;
- three browser scripts:
  - `timeTracker.js`: the stopwatch;
  - `theme.js`: the light/dark switch;
  - `translation.js`: language choice, retry policy, cache misses, batching, text
    replacement.

The clock, random draws, HTTP answers, local storage and the signed-in identity are
parameters. A C# `DateTime` is a number of seconds since `DateTime.MinValue`. A JavaScript
`Date` is a number of milliseconds. A `DateTimeOffset` is an instant plus its offset. C#
`decimal` is `real`. Collections are sequences of immutable records. LINQ's
`OrderBy`/`ThenBy` is a stable insertion sort on composite integer keys (`Sorting`).
Culture-sensitive string order is a collation function supplied by the caller.

One module per source component. The shared modules are:

| module | contents |
|---|---|
| `Wrappers` | `Option`, `Result` |
| `Seqs` | list primitives the repositories use |
| `Text` | .NET/JavaScript string calls |
| `Digits` | decimal rendering |
| `Durations` | "hh:mm:ss" text |
| `Clock` | day arithmetic |
| `Sorting` | stable sort |
| `Storage` | what a JSON file can hold |

## Model

| member | source | states |
|---|---|---|
| Goals.ProgressPercentage | Models/Goal.cs:40-48 | 0 for a zero target; with a non-zero target, a `CurrentValue * 100` beyond the decimal range throws; a percentage shown never exceeds 100 |
| Goals.TruncToInt | Models/Goal.cs:45 | the `(int)` cast of a decimal truncates toward zero, for both signs |
| Goals.CastToInt | Models/Goal.cs:45 | the cast returns exactly for values strictly between int.MinValue - 1 and int.MaxValue + 1, truncated toward zero, and throws otherwise |
| Goals.ProgressMeaning | Models/Goal.cs:44-46 | for a positive target and non-negative progress the getter returns exactly when 100·current fits a decimal and the quotient stays below 2^31; the percentage then lies in [0, 100], below 100 it brackets 100·current/target, and it is 100 exactly when the target is reached |
| Goals.LargeProgressThrows | Models/Goal.cs:45-46 | 30,000,000 against a target of 1 throws instead of showing 100 |
| Goals.ProgressMonotone | Models/Goal.cs:45-46 | more progress never shows a smaller percentage |
| Goals.ProgressCanBeNegative | Models/Goal.cs:45-46 | there is no lower clamp, so progress of -1% of the target or less shows a negative percentage |
| Goals.Status | Models/Goal.cs:30-38 | Completed exactly when current >= target; it can throw only for an unfinished goal whose target day has passed, through the percentage |
| Goals.CompletedIgnoresDate | Models/Goal.cs:34 | whether a goal is completed does not depend on the date |
| Goals.CompletedShowsFullProgress | Models/Goal.cs:34-46 | a completed goal with a positive target shows 100% whenever its percentage does not throw |
| Goals.OverdueMeaning | Models/Goal.cs:34-36 | for a positive target whose percentage does not throw: Overdue iff unfinished and today's date is after the target date; Active iff unfinished and not past the target date |
| Goals.OverdueIsPermanent | Models/Goal.cs:35 | an overdue goal whose values do not change stays overdue later |
| Goals.ProgressBarColor | Models/Goal.cs:50-63 | bg-success for Completed, bg-danger for Overdue; throws exactly when Status throws or an Active goal's percentage throws; otherwise one of the five classes |
| Goals.ActiveColorBands | Models/Goal.cs:57-61 | an active goal's colour is danger/warning/info/primary exactly on the bands <25, <50, <75, ≥75, and never success |
| Goals.FutureDateIsValid | Models/Goal.cs:68-75 | a DateTime passes iff it is at or after today's midnight; any other value, null included, passes |
| Storage.ReadData | Services/JsonGoalRepository.cs:19-25 | a missing or blank file or a null document reads as empty; a corrupt file is an error; stored records read as themselves |
| Storage.LoadAll | Services/JsonTimeTrackerRepository.cs:59-64 | like ReadData, except that blank text is an error |
| Storage.LoadersDifferOnlyOnBlank | Services/JsonTimeTrackerRepository.cs:59-64 | the two loaders disagree exactly on a blank file |
| Seqs.NextId | Services/JsonGoalRepository.cs:46 | the new id exceeds every stored id; it is 1 for an empty store and otherwise one more than some stored id |
| Seqs.ReplaceFirst | Services/JsonGoalRepository.cs:54-57 | only the first matching position changes; with no match the list is unchanged |
| Seqs.RemoveFirst | Services/JsonGoalRepository.cs:65-68 | exactly the first matching position is removed; with no match the list is unchanged |
| Seqs.FirstWhereFilter | Services/JsonTimeTrackerRepository.cs:20-23 | a first match among the user's records is the first record matching both the user and the id |
| Sorting.SortBy | Controllers/TimeTrackerController.cs:23 | the output is sorted and a permutation of the input |
| Sorting.SortByStable | Controllers/TimeTrackerController.cs:23 | records sharing a key keep their input order |
| Sorting.FilterKeepsSorted | Controllers/UserController.cs:293-302 | filtering a sorted list leaves it sorted |
| GoalRepository.GetAll | Services/JsonGoalRepository.cs:33-36 | only the user's goals, in stored order, each as many times as it is stored |
| GoalRepository.GetById | Services/JsonGoalRepository.cs:38-41 | the first goal with the id, whoever owns it; none exactly when no goal has the id |
| GoalRepository.Add | Services/JsonGoalRepository.cs:43-49 | appends the goal under an id greater than every stored id (1 when empty); earlier goals unchanged |
| GoalRepository.Update | Services/JsonGoalRepository.cs:51-60 | replaces the first goal with the id, without an ownership check; no match, no change; length kept |
| GoalRepository.Delete | Services/JsonGoalRepository.cs:62-71 | removes the first goal with the id, the rest keep their order; no match, no change |
| GoalRepository.AddKeepsIdsUnique | Services/JsonGoalRepository.cs:46-47 | adding keeps ids unique |
| GoalRepository.AddThenGetById | Services/JsonGoalRepository.cs:38-47 | the added goal is what GetById finds under its new id |
| GoalRepository.AddThenGetAll | Services/JsonGoalRepository.cs:33-49 | after an add, a user's goals are the old ones plus the new goal at the end exactly when it is that user's |
| GoalRepository.UpdateThenGetById | Services/JsonGoalRepository.cs:38-60 | with unique ids, after updating an existing id the lookup finds the submitted goal |
| GoalRepository.DeleteThenGetById | Services/JsonGoalRepository.cs:38-71 | with unique ids, a deleted id is found no more |
| Roles.SeedRoles | Services/JsonRoleRepository.cs:15-41 | four roles: ids 1..4; names Admin, User, Private, Visitor, distinct even ignoring case; widgets inside the widget catalog; Admin has the full catalog; only Admin may add, edit and delete users or open settings |
| Roles.AfterConstruction | Services/JsonRoleRepository.cs:13-43 | a missing roles file is created holding the seeds; an existing one is untouched |
| Roles.GetByName | Services/JsonRoleRepository.cs:62 | the first role whose name equals the argument ignoring case; none exactly when no name matches |
| Roles.Add | Services/JsonRoleRepository.cs:64-70 | appends the role under an id greater than every stored id (1 when empty) |
| Roles.Update | Services/JsonRoleRepository.cs:72-81 | replaces the first role matching by id or by name ignoring case; no match, no change; length kept |
| Roles.UpdateByNameCanDuplicateIds | Services/JsonRoleRepository.cs:75 | the name half of the match can overwrite a role with a different id, leaving two roles that share an id |
| Roles.UpdateUnknownIsNoOp | Services/JsonRoleRepository.cs:75-80 | an update whose id and name are both new changes nothing |
| Users.ResolveRole | Services/JsonUserRepository.cs:31-32 | the role with the user's role id when there is one, otherwise the name lookup |
| Users.Resolve | Services/JsonUserRepository.cs:34-40 | only widgets, role name and role id change, and they become the resolved role's; without a role the user is unchanged |
| Users.ReadData | Services/JsonUserRepository.cs:21-44 | every stored user, resolved, in stored order, with ids and emails kept |
| Users.ReadInheritsRoleById | Services/JsonUserRepository.cs:31-40 | a user whose role id names a role carries that role's widgets, name and id after a read |
| Users.IdTakesPriority | Services/JsonUserRepository.cs:31-32 | when a role has the user's role id, the stored role name is never consulted |
| Users.NameFallbackIgnoresCase | Services/JsonUserRepository.cs:32 | two spellings of a role name differing only in case resolve alike |
| Users.UnmatchedPassesThrough | Services/JsonUserRepository.cs:34 | a user matched by neither id nor name is returned unchanged |
| Users.ReadIdempotent | Services/JsonUserRepository.cs:28-41 | with unique role ids, reading what a read returned changes nothing |
| Users.ResolveIdempotent | Services/JsonUserRepository.cs:31-40 | with unique role ids, resolving a resolved user changes nothing |
| Users.RenamePropagates | Services/JsonUserRepository.cs:31-40 | after a role is renamed through the role update, its users read back with the new name and the role's widgets |
| Users.GetByEmail | Services/JsonUserRepository.cs:54 | the first stored user whose email equals the argument exactly, case included, with its role resolved; none exactly when no email matches |
| Users.GetById | Services/JsonUserRepository.cs:56 | a resolved user with the id; none exactly when no stored user has it |
| Users.Add | Services/JsonUserRepository.cs:58-64 | writes the resolved list plus the new user under an id greater than every stored id (1 when empty) |
| Users.Update | Services/JsonUserRepository.cs:66-75 | replaces the first user with the id, the others keep their place; nothing written without a match |
| Users.Delete | Services/JsonUserRepository.cs:77-86 | removes the first user with the id, the others keep their order; nothing written without a match |
| Users.LocateId | Services/JsonUserRepository.cs:56 | the first stored record with an id is the user that lookups by that id find |
| Users.AddThenGetByEmail | Services/JsonUserRepository.cs:54-64 | a user added under an email nobody has is what the lookup by that email finds |
| UserController.GetAuthorizedWidgets | Controllers/UserController.cs:307-324 | Admin keeps the request; User and Private keep every copy of each requested widget on their allow-list and nothing else, counted per widget; any other role name, case-sensitively, gets none |
| UserController.RepeatedRequestKept | Controllers/UserController.cs:311-315 | an allowed widget requested twice is kept twice, as `Where` keeps duplicates |
| UserController.AuthorizedIsSubsequence | Controllers/UserController.cs:307-324 | the result is always the request with some entries deleted |
| UserController.AllowListsMatchSeeds | Controllers/UserController.cs:313-319 | the User and Private allow-lists equal the seeded roles' widget lists, and a User request inside its list is kept as it is |
| UserController.NextSortLinks | Controllers/UserController.cs:27-31 | the name link is name_desc only from the default order; each other column's link is its descending order exactly after a sort on that column, and the column's ascending name otherwise |
| UserController.SortLinksAlternate | Controllers/UserController.cs:27-31 | following a column's link twice returns to the first order |
| UserController.Index | Controllers/UserController.cs:25-98 | exactly the users passing the visibility rule, the "today" filter and the case-insensitive name/email search, each as often as stored, sorted by the requested column |
| UserController.DefaultSortIsByName | Controllers/UserController.cs:92-93 | an unknown sort order sorts ascending by name |
| UserController.Create | Controllers/UserController.cs:128-162 | an invalid form and a taken email are refused; otherwise the pending user carries a six-digit code for the draw, expiring five minutes on, unverified, with the chosen role and its authorized widgets |
| UserController.VerifyOtp | Controllers/UserController.cs:184-210 | the pending user is added exactly when the code matches and has not expired; the added user is the pending one verified, with its code cleared and a fresh id; the stored users are written back as read |
| UserController.CreateThenVerify | Controllers/UserController.cs:142-193 | the e-mailed code completes the signup exactly when entered before the five minutes are over |
| UserController.EditedUser | Controllers/UserController.cs:238-251 | a blank submitted password keeps the stored password pair; otherwise both are replaced; id, role id and history kept |
| UserController.Edit | Controllers/UserController.cs:220-261 | not found exactly when no user has the id; saved exactly when the user exists and the form is valid, where a blank password skips the password checks |
| UserController.EditWritesEditedUser | Controllers/UserController.cs:228-253 | any edit that passes validation, a blank password with failing password fields included, writes the resolved list with the first user of that id rewritten from the form, all others in place |
| UserController.EditRoleChangeIsLost | Controllers/UserController.cs:244 | see Findings: a role change made through Edit is undone by the next read |
| UserController.EditCorrected | Controllers/UserController.cs:220-261 | as Edit (saved exactly when the user exists and the form is valid), with the role id following the submitted role name |
| UserController.BlankPasswordIgnoresPasswordErrors | Controllers/UserController.cs:228-236 | with only the password fields in error, an edit is saved exactly when the submitted password is blank |
| UserController.EditCorrectedRoleSticks | Controllers/UserController.cs:244 | with unique role ids, a user edited to an existing role reads back with that role's name, id and widgets |
| UserController.ResolveByUniqueId | Services/JsonUserRepository.cs:31 | with unique role ids, a user linked by id resolves to that role |
| UserController.HistoryView | Controllers/UserController.cs:293-302 | login instants newest first, exactly those inside the window, each as often as recorded: 7 or 30 days back for "7days"/"30days", all otherwise |
| UserController.GetLoginHistory | Controllers/UserController.cs:288-305 | not found exactly when no user has the id; otherwise that user's history view |
| Dashboard.Index | Controllers/DashboardController.cs:23-37 | notes and habits newest first, same elements; no widgets for a missing user; a PIN is asked for iff one is stored non-empty; verified iff the session says "true" |
| Dashboard.IndexKeepsTiesInStoredOrder | Controllers/DashboardController.cs:30-31 | items created at the same instant keep the repository's order |
| Dashboard.VerifyPin | Controllers/DashboardController.cs:40-52 | success iff the user exists and its PIN equals the posted one, null included; success marks the session verified, failure leaves it |
| Dashboard.PinGate | Controllers/DashboardController.cs:33-47 | when a PIN is asked for, only that exact non-empty PIN unlocks it, and the next view reports it verified |
| Dashboard.NoStoredPinAcceptsNoPin | Controllers/DashboardController.cs:45 | a user without a PIN passes by posting none, and a posted PIN fails |
| Dashboard.AddNote | Controllers/DashboardController.cs:55-64 | accepted iff the text is not blank, stored as given for the caller; else "Note text cannot be empty." |
| Dashboard.EditNote | Controllers/DashboardController.cs:67-77 | the same rule, scoped to the caller |
| Dashboard.NoteAcceptedIffTrimmedNonEmpty | Controllers/DashboardController.cs:55-77 | a note is accepted iff trimming leaves text; add and edit agree; the text is stored untrimmed |
| Dashboard.ParseDay | Controllers/DashboardController.cs:99 | a piece that is not numeric parses iff it is exactly a weekday name, to that day; numbers stay within 32 bits |
| Dashboard.CustomDays | Controllers/DashboardController.cs:93-103 | no days unless the frequency is "Custom" and the text non-empty; every piece parsed in order; one bad piece empties the list |
| Dashboard.CustomDaysRoundTrip | Controllers/DashboardController.cs:94-103 | weekday names joined by commas read back as exactly those days |
| Dashboard.AddHabit | Controllers/DashboardController.cs:88-117 | accepted iff the name is not blank; the fields as posted; the start date defaults to today's midnight |
| Dashboard.ToggleHabit | Controllers/DashboardController.cs:120-140 | acts iff the caller owns the habit; flips "done today": unticking drops every entry dated today and keeps the rest in order, ticking appends today's midnight; all other fields unchanged |
| Dashboard.ToggleTwiceRestores | Controllers/DashboardController.cs:128-135 | ticking and unticking on the same day restores the habit |
| Dashboard.DeleteHabit | Controllers/DashboardController.cs:143-158 | deletes the habit's id iff the caller owns it |
| Dashboard.ToggleAndDeleteAgreeOnOwnership | Controllers/DashboardController.cs:120-158 | toggle and delete refuse the same requests |
| TimeEntries.AddSeconds | Controllers/TimeTrackerController.cs:50 | moves the instant by the seconds and keeps the offset |
| TimeEntries.FormattedDurationReadsBack | Models/TimeEntry.cs:15 | eight characters; reads back as hours under 24, minutes and seconds under 60, totalling the magnitude modulo one day |
| TimeEntries.FormattedDurationRoundTrip | Models/TimeEntry.cs:15 | under a day the text reads back as the duration |
| TimeEntries.FormattedDurationDropsDays | Models/TimeEntry.cs:15 | whole days are dropped |
| TimeEntries.FormattedDurationIgnoresSign | Models/TimeEntry.cs:15 | a negative duration prints like its magnitude |
| TimeRepository.GetAll | Services/JsonTimeTrackerRepository.cs:15-18 | only the user's entries, in stored order, each as many times as it is stored |
| TimeRepository.GetById | Services/JsonTimeTrackerRepository.cs:20-23 | only an entry the user owns with that id, the first one; none exactly when there is none |
| TimeRepository.Add | Services/JsonTimeTrackerRepository.cs:25-31 | appends under an id greater than every user's ids (1 when empty) |
| TimeRepository.CopyEditable | Services/JsonTimeTrackerRepository.cs:39-43 | the five copied fields come from the submitted entry, id and owner from the stored one |
| TimeRepository.Update | Services/JsonTimeTrackerRepository.cs:33-46 | only the first entry matching id and owner changes; no match, no change |
| TimeRepository.Delete | Services/JsonTimeTrackerRepository.cs:48-57 | removes only the first entry matching id and owner; no match, no change |
| TimeRepository.UpdateKeepsOwnership | Services/JsonTimeTrackerRepository.cs:36-43 | no entry changes owner or id; other users' entries unchanged |
| TimeRepository.DeleteKeepsOthers | Services/JsonTimeTrackerRepository.cs:51-56 | other users' entries are untouched |
| TimeRepository.AddThenGetById | Services/JsonTimeTrackerRepository.cs:20-31 | the owner finds the added entry under its new id, and nobody else does |
| TimeRepository.AddThenGetAll | Services/JsonTimeTrackerRepository.cs:15-31 | a saved entry is appended to its owner's list and no other list changes |
| TimeTracker.Index | Controllers/TimeTrackerController.cs:18-25 | the caller's entries only, all of them, sorted by date then start time |
| TimeTracker.IndexOrder | Controllers/TimeTrackerController.cs:23 | earlier dates first, and within a date earlier starts first |
| TimeTracker.SaveEntry | Controllers/TimeTrackerController.cs:29-36 | stores the entry as sent, owned by the caller, under a fresh id |
| TimeTracker.SavedEntryIsListedForCallerOnly | Controllers/TimeTrackerController.cs:21-34 | a saved entry appears on the caller's timesheet and nobody else's |
| TimeTracker.UpdateEntry | Controllers/TimeTrackerController.cs:40-53 | not found unless the caller owns the id; otherwise only task name, duration and end change, with end = stored start + new duration |
| Stopwatch.SecondsBetween | wwwroot/js/timeTracker.js:36 | whole seconds between two instants, rounded down |
| Stopwatch.LoadState | wwwroot/js/timeTracker.js:15-40 | on a new day the total restarts at 0 and 0 is stored; a missing, empty, "stopped" or "paused" status loads as stopped, other statuses are kept; a running stopwatch resumes its elapsed time |
| Stopwatch.LoadedStatusIsRunningOrStopped | wwwroot/js/timeTracker.js:28-30 | from a status the page writes, loading gives running or stopped |
| Stopwatch.UnknownStatusIsKept | wwwroot/js/timeTracker.js:28-30 | a status from elsewhere survives loading |
| Stopwatch.SaveState | wwwroot/js/timeTracker.js:42-50 | stores status, start, task name and daily total, and leaves the date |
| Stopwatch.SaveThenLoad | wwwroot/js/timeTracker.js:15-50 | reloading on the same day restores what was saved |
| Stopwatch.Start | wwwroot/js/timeTracker.js:77-86 | the task name comes from the input box ("" without one), start is now, status running, state saved |
| Stopwatch.Stop | wwwroot/js/timeTracker.js:88-136 | no-op when stopped; otherwise banks the elapsed seconds and resets; posts an entry iff there was a start, named "Unnamed Task" when the name is empty, with start and end cut to whole seconds and the duration measured on the exact instants |
| Stopwatch.Tick | wwwroot/js/timeTracker.js:67-75 | only a running stopwatch's elapsed time moves |
| Stopwatch.ShownTotal | wwwroot/js/timeTracker.js:164 | the banked total plus the running session |
| Stopwatch.StopBanksTheRunningSession | wwwroot/js/timeTracker.js:88-165 | stopping does not change the shown total, the posted duration is the session shown, and the posted times are at least that far apart |
| Stopwatch.WholeSecond | wwwroot/js/timeTracker.js:96-107 | the posted instant is a whole second, at most the exact instant and less than a second before it |
| Stopwatch.PostedSpan | wwwroot/js/timeTracker.js:90-131 | the posted end minus start is the posted duration or one second more |
| Stopwatch.PostedSpanCanExceedDuration | wwwroot/js/timeTracker.js:90-131 | a session from 0.9 s to 125.1 s posts 124 seconds between times 125 seconds apart |
| Stopwatch.StartThenStop | wwwroot/js/timeTracker.js:77-131 | a start and a stop post one entry timed at the two clicks' whole seconds, lasting the whole seconds between them, named after the task or "Unnamed Task" |
| Stopwatch.FormatTimeReadsBack | wwwroot/js/timeTracker.js:179-185 | the text reads back as hours, minutes under 60 and seconds under 60 totalling the clamped seconds |
| Stopwatch.FormatTimeClampsToZero | wwwroot/js/timeTracker.js:180 | negative and NaN inputs print "00:00:00" |
| Stopwatch.FormatTimeHundredHours | wwwroot/js/timeTracker.js:181-184 | hours are not capped and 100 hours print "100:00:00" |
| Stopwatch.ClientAndServerAgreeUnderADay | wwwroot/js/timeTracker.js:179-185 | under a day the stopwatch text equals the server's duration text |
| Stopwatch.ClientAndServerDifferFromADay | wwwroot/js/timeTracker.js:181 | from a day on the two texts differ, since the browser keeps counting hours |
| Stopwatch.ClockTextInjective | wwwroot/js/timeTracker.js:184 | different fields give different clock texts |
| Stopwatch.OffsetSuffix | wwwroot/js/timeTracker.js:97-107 | the sign is '+' iff the local time is at or ahead of UTC |
| Stopwatch.OffsetSuffixRoundTrip | wwwroot/js/timeTracker.js:97-107 | the suffix reads back as `-getTimezoneOffset()` minutes |
| Digits.Pad2 | wwwroot/js/timeTracker.js:99 | at least two digits, exactly two below 100, reading back as the number |
| Durations.ReadClockText | Models/TimeEntry.cs:15 | a clock text reads back as the three numbers it was built from |
| Theme.CurrentTheme | wwwroot/js/theme.js:37-39 | never empty; "light" when the attribute is absent |
| Theme.ApplyTheme | wwwroot/js/theme.js:48-54 | sets the attribute and leaves storage |
| Theme.Init | wwwroot/js/theme.js:9-19 | the page ends on the stored theme, or "light"; storage is only read; nothing changes when it is already current |
| Theme.Toggle | wwwroot/js/theme.js:41-62 | dark becomes light and every other theme dark; the new theme is applied, and stored only when storage accepts the write |
| Theme.ToggleIsInvolution | wwwroot/js/theme.js:43 | on light and dark, two toggles return to the start and one always changes the theme |
| Theme.ToggleForgetsOtherThemes | wwwroot/js/theme.js:43 | from any other theme two toggles end on light |
| Theme.ToggleSurvivesReload | wwwroot/js/theme.js:9-62 | after a toggle that storage accepted, a reload shows the toggled theme |
| Theme.SaveTheme | wwwroot/js/theme.js:56-62 | the theme is stored when storage accepts it; a refused write is swallowed and changes nothing |
| Theme.RefusedSaveIsForgotten | wwwroot/js/theme.js:41-62 | after a toggle whose save was refused, a reload shows the previously stored theme |
| Theme.UpdateIcon | wwwroot/js/theme.js:64-70 | "Switch to Light Mode" and a moon iff the theme is dark, else "Switch to Dark Mode" and a sun |
| Theme.TitleOffersNextTheme | wwwroot/js/theme.js:41-70 | the button title names the theme a click switches to |
| Translation.PrimaryTag | wwwroot/js/translation.js:12 | the browser language up to its first '-' |
| Translation.InitialLanguage | wwwroot/js/translation.js:5-18 | a stored non-empty language wins unchecked; otherwise the browser's primary tag if supported, else "en" |
| Translation.InitialLanguageExamples | wwwroot/js/translation.js:12-18 | "hi-IN" gives "hi", "pt-BR" gives "en", a stored "xx" is kept |
| Translation.SetLanguage | wwwroot/js/translation.js:151-175 | a no-op for the current language; otherwise switches and sets the cookie and page language, restoring English or translating; the choice is stored when storage accepts it and a refused write leaves the stored choice as it was |
| Translation.SetLanguageSurvivesReload | wwwroot/js/translation.js:151-159 | after an accepted switch, a reload starts in the chosen language whatever the browser prefers |
| Translation.RefusedLanguageIsForgotten | wwwroot/js/translation.js:155-159 | after a switch whose write was refused, a reload starts where it would have before the switch |
| Translation.SetLanguageTwice | wwwroot/js/translation.js:152 | setting the same language twice does nothing the second time |
| Translation.CultureCookieRoundTrip | wwwroot/js/translation.js:165 | the culture cookie reads back as the language for both culture and UI culture |
| Translation.RetriableStatuses | wwwroot/js/translation.js:245-253 | a response is retried iff it is 429, 5xx or otherwise neither ok nor 4xx |
| Translation.FetchWithRetry | wwwroot/js/translation.js:241-263 | waits double each time, at most `retries` of them, each after a retriable attempt; the answer is the first non-retriable attempt; failure only after `retries` retries |
| Translation.DefaultRetryPolicy | wwwroot/js/translation.js:241-263 | waits are 1000, 2000, 4000 ms; it fails exactly when all four attempts are retriable |
| Translation.FetchList | wwwroot/js/translation.js:309-315 | exactly the distinct texts missing from the cache, duplicates dropped |
| Translation.FetchListExtends | wwwroot/js/translation.js:310-315 | more texts only extend the fetch list: first-seen order is kept |
| Translation.Chunks | wwwroot/js/translation.js:321-323 | consecutive non-empty chunks of at most 50, full except the last, concatenating to the list |
| Translation.NodeRequests | wwwroot/js/translation.js:381-437 | nothing for English; every request holds 1 to 50 texts |
| Translation.DropBlankBounded | wwwroot/js/translation.js:417-418 | dropping blank texts keeps chunks within the size |
| Translation.DropBlankKeepsCleanBatches | wwwroot/js/translation.js:417-418 | chunks of non-blank texts pass the blank filter unchanged |
| Translation.NodeRequestsAreChunkedFetchList | wwwroot/js/translation.js:385-418 | the text-node requests are exactly the chunked fetch list of the trimmed non-blank texts |
| Translation.AttributeRequests | wwwroot/js/translation.js:266-324 | nothing for English or no texts; otherwise the requests concatenate to the fetch list, 1 to 50 texts each |
| Translation.ProcessQueue | wwwroot/js/translation.js:200-214 | a no-op on empty queues; otherwise hands over both queues and empties them |
| Translation.ProcessQueueDrains | wwwroot/js/translation.js:201-207 | a second run right after finds nothing to do |
| Translation.ApplyTranslation | wwwroot/js/translation.js:452-456 | where the source occurs, its first occurrence is replaced by the translation with its `$` patterns expanded; otherwise the whole value becomes the translation, unexpanded |
| Translation.TranslationKeepsSurroundingSpace | wwwroot/js/translation.js:441-456 | translating a node replaces its trimmed text and keeps the white space around it; a translation without `$` is inserted as it is |
| Translation.DollarsInTranslations | wwwroot/js/translation.js:453 | a translation "$$" comes out as "$", while a translation with every `$` doubled is inserted exactly |
| Text.ReplaceFirstOccurrence | wwwroot/js/translation.js:453 | only the first occurrence of the pattern is replaced, by the replacement with `$$`, `$&`, `` $` `` and `$'` expanded; without an occurrence the text is unchanged |
| Text.SubstituteLiteral | wwwroot/js/translation.js:453 | a replacement without `$` is inserted as it is |
| Text.SubstituteEscaped | wwwroot/js/translation.js:453 | doubling every `$` makes the replacement come out exactly |
| Text.DoubleDollarCollapses | wwwroot/js/translation.js:453 | `$$` comes out as a single `$` |
| News.ConfiguredKey | Controllers/NewsController.cs:23 | the NewsApi key, else the legacy key, else empty; an empty setting is kept |
| News.GlobalQuery | Controllers/NewsController.cs:46 | "latest" for a blank keyword, else the keyword trimmed |
| News.GlobalQueryIsSettled | Controllers/NewsController.cs:46 | defaulting the keyword twice is defaulting it once |
| News.GlobalNewsRequest | Controllers/NewsController.cs:38-55 | refused iff the key is empty; otherwise everything with the keyword, newest first, 20 a page, and the key |
| News.LatestArticles | Controllers/NewsController.cs:89-99 | at most 20 listable articles, newest first; all of them when at most 20 qualify, otherwise exactly 20 |
| News.LatestArticlesAreTheNewest | Controllers/NewsController.cs:97-98 | a listable article left off the page is no newer than any article on it |
| News.GlobalNewsReply | Controllers/NewsController.cs:57-115 | the page of articles iff the call succeeded with a readable body, articles and no error status; an `HttpRequestException` is a "Network Error", any other exception (a timeout included) or an unreadable body a "System Error"; every other case its own message |
| News.GlobalNewsPage | Controllers/NewsController.cs:86-103 | a page the browser receives holds at most 20 of the answer's listable articles, newest first, and no listable article left off it is newer than one on it |
| News.TimeoutIsASystemError | Controllers/NewsController.cs:108-115 | an exception other than `HttpRequestException` is a "System Error", not a "Network Error" |
| News.NewsRequest | Controllers/NewsController.cs:119-182 | refused for an empty or placeholder key; key first; language iff supported; quoted keyword search without country/category, or headlines with country, category, or "general" |
| News.KeywordParams | Controllers/NewsController.cs:153-157 | the quoted keyword and publishedAt order, no country, category or language |
| News.HeadlineParams | Controllers/NewsController.cs:165-179 | country and category when given; category "general" only when both are missing |
| News.LanguageParam | Controllers/NewsController.cs:143-147 | a language parameter iff the UI language is supported, carrying that language |
| News.EverythingRequest | Controllers/NewsController.cs:208-222 | refused for an unusable key; otherwise keyword and order as given, language always present, "en" for an unsupported UI language |
| News.UnsupportedLanguageHandling | Controllers/NewsController.cs:143-220 | on an unsupported UI language GetNews drops the filter while GetEverything sends "en" |
| News.PlaceholderKeyOnlyPassesGlobal | Controllers/NewsController.cs:38-255 | the placeholder key is refused everywhere except GetGlobalNews |
| News.CityQuery | Controllers/NewsController.cs:272-276 | the non-empty ones of city and country joined by a space; an error when both are empty |
| News.CityQueryParts | Controllers/NewsController.cs:272 | the join of the non-empty parts is the concatenation the query states |
| News.CityTopic | Controllers/NewsController.cs:282-284 | lower-cased and trimmed, "sport" read as "sports" |
| News.CountryCode | Controllers/NewsController.cs:292 | "in" for India, a two-letter country lower-cased, "in" otherwise |
| News.CityNewsRequest | Controllers/NewsController.cs:250-298 | key and query checks first; a category topic asks top-headlines for that category and country code, and fails on a null country; any other text searches everything; 100 a page |
| News.NullCountryOnlyHurtsCategories | Controllers/NewsController.cs:272-297 | `country=` is harmless for a city search, fails a category topic, while a missing country falls back to "in" |
| News.CategoryRequest | Controllers/NewsController.cs:293 | top-headlines for the category and country, 100 a page, language iff supported |
| News.SearchRequest | Controllers/NewsController.cs:297-319 | everything for the text, newest first, 100 a page, language iff supported |
| News.SportIsTheSportsCategory | Controllers/NewsController.cs:281-286 | "sport" in any case and spacing is a category |
| News.CityNewsOutcome | Controllers/NewsController.cs:300-342 | a call that throws ends the action with "unreachable" for a network error or its message otherwise, a throwing first call before any fallback; an unreadable or non-int `totalResults` throws too; otherwise the first body when it found results, else with a country the fallback's body when it succeeds, else the first body if its call succeeded, else "no news" |
| News.ThrownFirstCallSkipsFallback | Controllers/NewsController.cs:300-342 | a first call that throws decides the reply whatever the fallback would do, and never yields the fallback's body |
| News.NoCountryNoFallback | Controllers/NewsController.cs:314-332 | without a country the reply depends on the first call alone |
| News.FallbackDecides | Controllers/NewsController.cs:314-332 | with a country and a first search that found nothing, the fallback's body, the first body or the fallback's exception is the reply |
| News.HugeTotalFails | Controllers/NewsController.cs:308 | a `totalResults` beyond int throws even though the search succeeded |
| News.EmptyFirstSearch | Controllers/NewsController.cs:302-342 | an empty but successful first search beats "no news" and loses to a successful fallback; a first call that throws anything else than a network error replies with its message |

## Left out

- Persistence, HTTP, e-mail and browser APIs are not modelled:
  - JSON files, `File.*` and serialization: a store is the loaded list, and a mutation returns the list it writes;
  - NewsAPI calls and `fetch`: answers are inputs;
  - e-mail sending and the DOM, MutationObserver and TreeWalker;
  - timers and the debounce, local storage and cookies.

  Where stored state matters, it is a record such as `Stopwatch.LocalStore` or `Theme.Page`.
- URL building and `WebUtility.UrlEncode`: a request is modelled as its endpoint plus its query parameters in order.
  That list is what the code means to send, not always what reaches NewsAPI. `GetNews` and `GetEverything` splice `query`, `sortBy`, `country` and `category` into the URL without encoding them (Controllers/NewsController.cs:156, 167, 172 and 222). A value holding `&` or `=` therefore adds or splits parameters on the wire. For example, a keyword `x&country=us` also sends a country. So the parameter facts the three members below state hold for the parameter list, not for the URL text:
- News.KeywordParams: "no country, no category" holds of the list only; the unencoded keyword can add either on the wire.
- News.NewsRequest: the keyword, country and category values are those of the list; on the wire an `&` in one of them splits it.
- News.EverythingRequest: the keyword and sort order are those of the list; on the wire an `&` in either splits it.
- Concurrency: lost updates between concurrent read-modify-write cycles on a file.
- The identity claims (`Email`/`Name`), Session, TempData and ModelState are parameters. `[Authorize]` is not modelled.
- Note and habit repositories are not part of this model. The dashboard actions take the repository's lookup result and return the record they hand back. `DeleteNote` is a plain repository call. The habit fields are inferred from the controller's use of them.
- `DeleteEntry` is `TimeRepository.Delete` with the caller's name.
- `Create` (GET), `CreateAdmin`, `Details`, `Delete` (GET), `UserList`, `AdminList`, `VerifyAddUserOtp` (GET) and the News views only render or redirect. `DeleteConfirmed` is `Users.Delete`.
- `EmployeeController` forwards to a repository outside this model.
- Culture-sensitive string order is the caller's `collate` function.
- `ToLower` and case-insensitive comparison cover ASCII letters only.
- Unicode white space is approximated by the characters listed in `Text.IsWhiteSpace`.
- The 32-bit overflow of `Max(id) + 1` at `int.MaxValue` is not modelled; ids are unbounded.
- `decimal` is an exact `real`, so rounding at 28 digits is not modelled. Its range limit (`Limits.DecimalMax`) is modelled where `Goals.ProgressPercentage` multiplies. The quotient's own overflow is not modelled separately: it lies far outside `int` anyway, so the cast throws just the same.
- Times are whole seconds, or milliseconds in the browser. Sub-second `DateTime` ticks and the `DateTimeOffset` range limits are not modelled.
- A corrupt JSON file appears only as `Storage.ReadData`'s error.
- `parseInt` returning NaN for a corrupt daily total is not modelled: the stored total is read as a number.
- Stopwatch.OffsetSuffix: only the `±hh:mm` offset part of `toLocalISOString` is modelled. The calendar fields are left out because they depend on the browser's time zone database.
- Theme.UpdateIcon: the emoji are the `Moon` and `Sun` glyphs.
- News.GlobalNewsReply: an exception thrown while reading a successful body is the `Unparsable` case, answered "System Error: " plus its message. These are not modelled: a `status` or `message` property that is not a string, an `articles` property that is not an array, and article fields other than the title and the publication time.
- News.CityNewsOutcome: a failure to read the first body or its `totalResults` is an input (`Unreadable`) with its message. Reading the fallback's or the first call's body text is taken not to throw.
- Exception texts (`ex.Message`) are inputs, except the two fixed BCL messages in `News`. View rendering is not modelled.
- `GetNews` and `GetEverything` pass the response body through, so only their requests are modelled.
- `UserController.Index` view-bag values other than the sort links are not modelled.
- `GetLoginHistory` is modelled only on the `Users` side; the partial view is not.

Where the code and its described intent disagree, the model follows the code:

- A loaded stopwatch status other than "paused" or empty is kept as it is, rather than forced to running or stopped (`Stopwatch.UnknownStatusIsKept`).
- `GetGlobalNews` accepts the placeholder key; the other news endpoints refuse it.

## Findings

| source | as written | input that shows it | evidently intended | confidence | as-written member | corrected member |
|---|---|---|---|---|---|---|
| Controllers/UserController.cs:244 with Services/JsonUserRepository.cs:31-39 | `Edit` copies the submitted role NAME but keeps the stored role id, and every read resolves the role by id first | seeded roles; user 7 with role id 2 ("User") edited to role "Admin": the next read returns role "User" with the User widgets | an administrator's role change sticks: the edited user reads back with the chosen role | not executed | UserController.EditRoleChangeIsLost | UserController.EditCorrectedRoleSticks |
