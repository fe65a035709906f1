# Recruitment-fair check-in: a verified model

This project models a small check-in system for a university recruitment fair, written in Dafny.

- A visitor enters a name and an email on a kiosk.
- The backend stores the visit once per email address, with a welcome letter. The letter is written by an AI service, or is a fixed template when that service is not available.
- The kiosk then shows the letter, with two link placeholders filled in.
- Five clicks on the logo open a hidden admin dashboard. It lists the visitors with a case-insensitive search, shows daily counts, and links to a CSV export.

There is one module per part of the system:

| module | file | models |
|---|---|---|
| `Types` | `types.dfy` | the shared record types, view modes and configuration constants |
| `Text` | `text.dfy` | the JavaScript string operations the front end relies on: `indexOf`/`includes`, `replace` with a string pattern (first occurrence only), lower-casing, and `Number.prototype.toString` with its inverse |
| `Shell` | `app.dfy` | the application shell. It is a pure transition function `Step`/`Run`, with an invariant, plus the class `App`, whose handlers update the three state fields and are proved to perform `Step` |
| `CheckInScreen` | `checkin_form.dfy` | the check-in form as a class. `Submit` is the handler up to the `await`, `Resolve` is its continuation, and `HandleSubmit` runs both around one call of the data-access client |
| `Dashboard` | `admin_dashboard.dfy` | the search filter, with a proof that it is sound, complete and keeps order, plus the dashboard class with its all-or-nothing fetch |
| `SuccessScreen` | `success_screen.dfy` | the chained placeholder substitution on the letter, and the confirmation header |
| `DataService` | `data_service.dfy` | the data-access client, over abstract responses: record mapping, non-ok guards and error-message selection |
| `Backend` | `backend.dfy` | the backend service. The table is a class `StudentStore` over a sequence of rows, holding check-in and the CSV export loop. Beside it are pure functions for the sorted listing and the daily counts, the database URL rewrite and the welcome-letter fallback |

Each remote call is modelled by the response it receives, passed in as a parameter. Such a response is one of:
- an ok response whose body parses, or does not;
- a non-ok response with its status text and error body;
- no response at all, when `fetch` itself rejects.

The same goes for the clock (a `Timestamp(date, time)` pair), the environment variables, whether the AI library is available, and what the AI call returned.

The shell's state machine is modelled twice. Each handler is a method that updates the class's fields; its postcondition ties the new state to a pure function of the old state. The lemmas about event sequences (the invariants, the click threshold) are proved about that pure function.

Two details of the code shape the model:
- The check-in screen shows the fixed busy message on every failure, including a duplicate email (`components/CheckInForm.tsx:27-29`). The server's `detail` text, which `saveStudent` builds into the error, is never shown.
- The hidden admin view opens on the fifth logo click: `adminEntryClicks = 5` (`constants.ts:7`).

## Model

| member | source | states |
|---|---|---|
| Shell.Step | App.tsx:15-40 | Only a logo click can open the admin view. Clicks and resets never change the last record. Check-in completion and going home never change the counter. |
| Shell.Run | App.tsx:15-40 | A run of events reaches the admin view only if it contains a logo click, and sets a last record only if it contains a check-in completion. |
| Shell.App.constructor | App.tsx:10-12 | The shell starts in the initial state: the check-in view, no last record, a zero click counter. The invariant holds. |
| Shell.App.HandleLogoClick | App.tsx:15-24 | A click below the threshold only increments the counter. The click that reaches the threshold opens the admin view and clears the counter. The last record is untouched. The new state is `Step(old, LogoClick)` and the invariant is kept. |
| Shell.App.ResetClicks | App.tsx:27-30 | The inactivity reset clears the counter and changes nothing else. |
| Shell.App.OnCheckInComplete | App.tsx:32-35 | Check-in completion stores the record and selects the success view. The counter is untouched. |
| Shell.App.GoToHome | App.tsx:37-40 | Going home selects the check-in view and clears the record. The counter is untouched. |
| Shell.App.SuccessRecord | App.tsx:74-75 | Whenever the success view is selected, there is a record to hand to the success screen. |
| Shell.Hint | App.tsx:89-92 | The "clicks to Admin" hint is shown exactly when the counter is positive. It shows `adminEntryClicks` minus the counter, a value between 1 and `adminEntryClicks - 1`. |
| Shell.InitialSatisfiesInv | App.tsx:10-12 | The initial state satisfies the invariant: the counter is below the threshold, and the success view implies a record. |
| Shell.StepPreservesInv | App.tsx:15-40 | Every handler keeps the invariant `Inv`: the counter stays below `adminEntryClicks`, and the success view always has a record. |
| Shell.RunPreservesInv | App.tsx:15-40 | Any sequence of clicks, resets and navigation keeps the invariant. |
| Shell.ReachableHintPositive | App.tsx:89-92 | In every reachable state the counter is below the threshold, so a shown hint is at least 1. |
| Shell.FewerClicksOnlyCount | App.tsx:16-23 | Fewer than `adminEntryClicks` clicks from a zero counter only set the counter. The view stays the same. |
| Shell.ThresholdClicksOpenAdmin | App.tsx:16-23 | Exactly `adminEntryClicks` clicks from a zero counter, with no reset, open the admin view and leave the counter at zero. |
| Shell.ClickAfterAdminCountsFromOne | App.tsx:18-20 | The counter restarts at zero on entering admin, so the next click counts as one. |
| Shell.ResetRestartsCount | App.tsx:26-30 | After some clicks and an inactivity reset, the next click counts as one, and the view is unchanged. |
| CheckInScreen.CheckInForm.constructor | components/CheckInForm.tsx:11-13 | The form starts with empty fields, not submitting, and an empty status. |
| CheckInScreen.CheckInForm.SetName | components/CheckInForm.tsx:60 | The name field's handler sets the name and changes nothing else. |
| CheckInScreen.CheckInForm.SetEmail | components/CheckInForm.tsx:77 | The email field's handler sets the email and changes nothing else. |
| CheckInScreen.CheckInForm.Submit | components/CheckInForm.tsx:15-20 | With an empty name or email, the handler changes nothing and makes no call. Otherwise it marks the form as submitting, shows the progress message, and calls the service with exactly the two field values. The fields are never changed. |
| CheckInScreen.CheckInForm.Resolve | components/CheckInForm.tsx:22-32 | On success, the status is "完成！" and the record is handed on once. On any failure, the status is the fixed busy message, whatever the error said, and nothing is handed on. Submitting is false either way. |
| CheckInScreen.CheckInForm.HandleSubmit | components/CheckInForm.tsx:15-33 | One submission posts `{name, email}` with no nationality. It completes with the mapped record exactly when the response is ok and parses; otherwise it shows the busy message. |
| Dashboard.Matches | components/AdminDashboard.tsx:31-33 | A record matches exactly when the lower-cased term occurs in its lower-cased name or in its lower-cased email. The empty term matches every record. |
| Dashboard.MatchesIgnoresTermCase | components/AdminDashboard.tsx:31-33 | The search ignores the case of the term: a term and its lower-cased form keep exactly the same records. |
| Dashboard.FilterStudents | components/AdminDashboard.tsx:31-34 | Every kept record matches the lower-cased term in its lower-cased name or email (soundness). Every matching record is kept (completeness). Each matching record is kept as many times as it occurs in the list, and no other record is kept. The result is no longer than the list. |
| Dashboard.FilterIsSubsequence | components/AdminDashboard.tsx:31-34 | The filtered list is an order-preserving subsequence of the full list. |
| Dashboard.EmptyTermKeepsAll | components/AdminDashboard.tsx:31-34 | An empty search shows the whole list. |
| Dashboard.FilterKeepsAllIff | components/AdminDashboard.tsx:31-34 | The search shows the whole list exactly when every record matches. |
| Dashboard.AdminDashboard.constructor | components/AdminDashboard.tsx:8-11 | The dashboard starts with empty lists, loading, and an empty search term. |
| Dashboard.AdminDashboard.FetchData | components/AdminDashboard.tsx:14-27 | If both calls succeed, both lists are set to their results. If either fails, neither list changes. Loading is cleared in every case. |
| Dashboard.AdminDashboard.SetSearchTerm | components/AdminDashboard.tsx:102 | Typing a search term changes only the term. The lists and both tiles stay as they were. |
| Dashboard.AdminDashboard.FilteredStudents | components/AdminDashboard.tsx:31-34 | The shown list is a subsequence of the students. A record is in it exactly when it is a student that matches the term, and as many times as it occurs among the students. |
| Dashboard.AdminDashboard.TotalRecords | components/AdminDashboard.tsx:63 | The "total records" tile counts every loaded student, so it is never below the number shown by the search. |
| Dashboard.AdminDashboard.ActiveDates | components/AdminDashboard.tsx:67 | The "active dates" tile is the number of series entries. When the series has one entry per date, as the backend builds it, this is the number of distinct dates. |
| Dashboard.DistinctDatesCount | components/AdminDashboard.tsx:67 | A series whose dates are pairwise distinct has exactly as many distinct dates as entries. |
| SuccessScreen.RenderLetter | components/SuccessScreen.tsx:31 | A record without a letter renders nothing. A record with a letter always renders a text. |
| SuccessScreen.HeaderText | components/SuccessScreen.tsx:19 | The confirmation line is the fixed prefix followed by exactly the record's email. |
| SuccessScreen.HeaderShowsEmail | components/SuccessScreen.tsx:19 | The confirmation line contains the record's email. |
| SuccessScreen.NoTokensUnchanged | components/SuccessScreen.tsx:31 | A letter with neither placeholder is shown unchanged. |
| SuccessScreen.OnlyWebsiteToken | components/SuccessScreen.tsx:31 | With only the website placeholder present, the first one is replaced by the website address. The letter's length changes by the address length minus the placeholder length. |
| SuccessScreen.OnlyApplyToken | components/SuccessScreen.tsx:31 | With only the application placeholder present, the first one is replaced by the application link. The letter's length changes by the link length minus the placeholder length. |
| SuccessScreen.WebsiteAvoidsApplyToken | components/SuccessScreen.tsx:31 | The configured website address shares no character with the application placeholder, so the first substitution cannot create the second placeholder. |
| SuccessScreen.TokensDisjoint | components/SuccessScreen.tsx:31 | An occurrence of the website placeholder and one of the application placeholder never overlap. |
| SuccessScreen.LaterWebsiteTokenRemains | components/SuccessScreen.tsx:31 | Only the first website placeholder is replaced: a later one is still in the shown letter. |
| SuccessScreen.BothPlaceholdersFilled | components/SuccessScreen.tsx:31 | A letter `a [系所官網] b [申請連結] c`, with no `[` in `a` or `b`, is shown as `a` + website + `b` + application link + `c`. The substitutions run in order, website first. |
| SuccessScreen.FirstPlaceholdersFilled | components/SuccessScreen.tsx:31 | For any letter holding both placeholders, at the first occurrences `i` and `k`: the two never overlap, and the letter is shown with the first website placeholder replaced at `i` and the first application placeholder replaced at `k`, whichever comes first, with all other text kept. |
| SuccessScreen.ExampleLetter | components/SuccessScreen.tsx:31 | A concrete letter with both placeholders is shown with both links filled in. |
| DataService.MapRecord | services/dataService.ts:12-19 | The client record has the server's name, email, check-in time and letter. Its id is `toString` of the server id: a canonical decimal (no leading zero, no `-0`) that parses back to the server id. |
| DataService.MapRecordRoundTrip | services/dataService.ts:12-19 | The record mapping loses nothing: parsing the string id back and renaming the fields recovers the server record exactly. |
| DataService.MapRecordInjective | services/dataService.ts:12-19 | Two server records map to the same client record exactly when they are equal. |
| DataService.GetStudents | services/dataService.ts:8-20 | No response fails with a network error. A non-ok response fails with "無法獲取學生名單". A body that does not parse fails with a syntax error. Otherwise each element is mapped, keeping length and order, with the same mapping `saveStudent` uses. |
| DataService.GetStudentsKeepsIdsDistinct | services/dataService.ts:13 | Distinct server ids stay distinct as strings. |
| DataService.GetAnalytics | services/dataService.ts:59-63 | No response fails with a network error. A non-ok response fails with "無法獲取分析數據". A body that does not parse fails with a syntax error. Otherwise the parsed body is returned unchanged. |
| DataService.SaveStudent | services/dataService.ts:22-57 | The posted body is `{name, email, nationality}`. No response fails with a network error. An ok response yields the mapped record. A non-ok response always fails with a non-empty message, chosen like this: the truthy `detail` of a parsed object; else "打卡失敗" for any other parsed object; or the status text when the body fails to parse or is `null` (reading `detail` then throws), falling back to "打卡失敗" when the status text is empty. |
| Text.IndexOf | components/AdminDashboard.tsx:32-33 | `indexOf` gives an occurrence with none earlier, or reports that there is none at all, so `includes` is exact substring containment. |
| Text.Contains | components/AdminDashboard.tsx:32-33 | `includes` holds exactly when the pattern occurs at some index. |
| Text.ReplaceFirst | components/SuccessScreen.tsx:31 | `replace` with a string pattern leaves a text without the pattern unchanged. Otherwise the length changes by the replacement length minus the pattern length. |
| Text.ReplaceFirstAtFirstOccurrence | components/SuccessScreen.tsx:31 | The replacement happens at the first occurrence: the text before it and the text after the pattern are kept. |
| Text.ReplaceFirstKeepsBefore | components/SuccessScreen.tsx:31 | An occurrence of another pattern that ends before the replaced one is kept at the same index. |
| Text.ReplaceFirstKeepsAfter | components/SuccessScreen.tsx:31 | An occurrence after the replaced one is kept, shifted by the change in length. |
| Text.ReplaceFirstNoNewOccurrence | components/SuccessScreen.tsx:31 | A non-empty replacement sharing no character with a pattern cannot create an occurrence of that pattern. |
| Text.IndexOfAfterReplace | components/SuccessScreen.tsx:31 | After a first-occurrence replacement whose replacement shares no character with a second pattern, that pattern's first occurrence is where it was when it lay before the replaced text, or shifted by the change in length when it lay after. |
| Text.ReplaceFirstTwice | components/SuccessScreen.tsx:31 | Two chained first-occurrence replacements, whose first occurrences do not overlap, each replace their pattern where it stood in the original text, in either order, and keep all other text. |
| Text.Lower | components/AdminDashboard.tsx:32-33 | Lower-casing keeps the length, turns each upper-case ASCII letter into its lower-case partner, and changes no other character. |
| Text.LowerIdempotent | components/AdminDashboard.tsx:32-33 | Lower-casing a lower-cased text changes nothing. |
| Text.NatToDecimal | services/dataService.ts:13 | `toString` of a non-negative integer is a non-empty digit string without a leading zero. It starts with `0` exactly for zero. |
| Text.DecimalRoundTrip | services/dataService.ts:13 | Reading back the decimal digits of a non-negative integer gives the integer. |
| Text.IntToString | services/dataService.ts:13 | `toString` of a non-negative integer is a digit string with no leading zero. A negative integer gives `-` followed by digits that do not start with `0`. The result is canonical. |
| Text.IntToStringRoundTrip | services/dataService.ts:13 | Parsing back the decimal string of any integer, including a negative one, gives the integer. |
| Text.CanonicalNatValue | services/dataService.ts:13 | A digit string with no leading zero is the decimal form of its own value. |
| Text.CanonicalIntUnique | services/dataService.ts:13 | `toString` is the only canonical spelling of an integer: a canonical string that parses as `n` is `IntToString(n)`. So `"07"` or `"-0"` are never produced. |
| Text.IntToStringInjective | services/dataService.ts:13 | Two integers have the same decimal string exactly when they are equal. |
| Backend.NormalizeDatabaseUrl | main.py:27-28 | A URL starting with `postgres://` has that prefix replaced by `postgresql://`, the rest unchanged. Any other URL is unchanged. |
| Backend.DatabaseUrl | main.py:24-28 | Without the variable, the URL is the local SQLite default. Otherwise it is the rewritten variable. |
| Backend.NormalizeIdempotent | main.py:27-28 | Rewriting a rewritten URL changes nothing. |
| Backend.FallbackLetter | main.py:88 | The fixed letter is the greeting, then exactly the name, then the fixed welcome text. |
| Backend.FallbackLetterEmbedsName | main.py:88 | The fixed letter contains the name right after the greeting, and different names give different letters. |
| Backend.GenerateWelcomeLetter | main.py:83-107 | The letter is the fixed template embedding the name if the library is missing, the key is unset or empty, or the call raises. Otherwise it is the reply, stripped. |
| Backend.Strip | main.py:104 | `strip()` is never longer than its input, neither starts nor ends with white space, and is empty for an all-space text. |
| Backend.StripIsTrimmedSlice | main.py:104 | `strip()` returns a slice of the text with only white space cut off at either end, and no white space left at either end. |
| Backend.FindByEmail | main.py:126 | The duplicate query finds a stored row with that email, or reports that no row has it. |
| Backend.StudentStore.constructor | main.py:41-48 | The created table is empty, the id counter starts at 1, and the table invariant holds: emails unique, ids unique, every id below the counter. |
| Backend.StudentStore.CheckIn | main.py:122-149 | A taken email fails with status 400 and "此 Email 已經登記過了", and the table is unchanged. Otherwise exactly one row is appended, with a fresh id, the given name and email, the current time and the generated letter. The table invariant, email uniqueness included, is kept. |
| Backend.StudentStore.ExportCsv | main.py:183-200 | The export has the header `ID, 姓名, Email, 簽到時間`, then one row per student in the listing order (latest first): one more row than there are students. |
| Backend.ListStudents | main.py:152-165 | The listing holds every stored row exactly once (a permutation) and is ordered by check-in time, latest first. |
| Backend.CsvRow | main.py:193 | A CSV row has one field per header column: the id, the name, the email and the check-in time, in the header's order. |
| Backend.DailyCounts | main.py:168-180 | The series has dates strictly ascending, so one entry per date, and every count positive. The count it records for each date is the number of rows checked in that day, and the counts sum to the number of rows. |
| Backend.DailyCountsAreCounts | main.py:171-180 | Each entry's count is the number of rows checked in on its date. |
| Backend.DailyCountsCoverDays | main.py:171-180 | The series has an entry for a date exactly when some row was checked in on that date. |

## Left out

- Network, HTTP and JSON: `fetch`, status codes and JSON parsing are abstract response values. A `fetch` that rejects is the response `NoResponse`; the `TypeError` it raises is the failure `NetworkError`, and its message is not modelled.
- DataService.GetStudents: a parsed body is taken to be a well-formed array of server records (services/dataService.ts:13-19). The shape of the JSON is not checked.
- DataService.SaveStudent: an ok response's parsed body is taken to be a well-formed server record (services/dataService.ts:50-51). A body of another shape is not modelled.
- CheckInScreen.CheckInForm.Submit: the button's `disabled={isSubmitting}` guard (components/CheckInForm.tsx:84) is rendering, so it is not modelled. `Submit` accepts a press while a submission is under way.
- Logging is left out: `console.error` (components/CheckInForm.tsx:28, components/AdminDashboard.tsx:23) and `print` (main.py:106) are output only.
- Backend.StudentStore.CheckIn: `email` stands for the address after pydantic's `EmailStr` (main.py:54) has normalised it. It lower-cases the domain, so in the source two spellings of one address are the same duplicate; the normalisation itself is not modelled.
- DataService.MapRecord: ids are mathematical integers. The model assumes each id is one a JSON number (a double) holds exactly, for which `toString` gives plain digits, with no exponent form.
- Backend.StudentStore.CheckIn: requests are handled one at a time. Two concurrent check-ins with the same email can both pass the duplicate query (main.py:126-127). The unique constraint on the email column (main.py:46) then makes the second commit (main.py:140) raise, so that request ends with a server error (500) instead of the 400 reply. This interleaving is not modelled.
- `Promise.all` in the dashboard fetch is one combined outcome: both calls succeed, or at least one fails. Its concurrency is not modelled.
- The three-second `setTimeout`/`clearTimeout` inactivity timer is the discrete event `InactivityReset`. Real time is not modelled.
- React rendering and hook scheduling are left out. This includes the `setView` call inside the `setClickCount` updater, which is taken as sequential. Also left out: recharts drawing, Tailwind styling and `toLocaleDateString`.
- `exportToCSV` (services/dataService.ts:65-73) only creates and clicks a download link in the DOM, so it is left out.
- Text.Lower: folds ASCII letters only, because full Unicode `toLowerCase` tables are outside the model.
- Text.ReplaceFirst: does not interpret `$` substitution patterns in the replacement, because the configured URLs contain no `$`.
- DataService.SaveStudent: a `detail` that is not a string (such as the list FastAPI returns for a validation error) is not modelled; only string details are.
- The `nationality` property that the client mapping copies from the server record (services/dataService.ts:16, 53) is dropped. The client record type has no such field, and the server never sends one.
- Backend.ListStudents: the order among rows with the same check-in time is not fixed by the database. The model picks one, so only sortedness and permutation are promised.
- Python's `csv` quoting and escaping, and `isoformat` rendering of timestamps, are left out. CSV rows are sequences of typed fields, and times are `(date, time)` pairs.
- The database engine, sessions, `connect_args`, table creation at startup, and the column length limits (100, 255, 2000) are left out. The table is a sequence of rows, with an auto-increment counter for ids.
- pydantic `EmailStr` validation of the request is a third-party library, so it is left out.
- The Gemini API call itself (main.py:91-104) is left out. Its outcome, a reply text or a raised exception, is a parameter.
- Serving static files and the SPA fallback (main.py:204-212), and the uvicorn startup, are left out: they are file I/O and process startup.
- Sending the welcome email over SMTP, and its HTML template, are left out: they are I/O and static markup. email_service.py is not part of this model.
- The Gemini stub in services/geminiService.ts returns a constant and is unused, so it is not part of this model.
