# Workshop registration: a Dafny model of its rules

The system is a registration site for a workshop. Students fill in a form,
and the registration handler stores them until the workshop is full. An
admin dashboard lists them, classified into departments by their USN
(University Seat Number). A countdown runs on the landing page. This project
models the rules underneath as pure Dafny functions and methods, and proves
what those rules promise:

- **Registration handler** (`RegisterApi`). A request passes four steps in
  order. The capacity gate rejects once 70 documents are stored. The
  duplicate gate rejects when a stored document has the same email or the
  same USN, compared literally. Then comes the insert. Last is the welcome
  email, whose provider answer does not change the 201 once the document is
  stored. A missing provider key, or a provider call that throws, still
  gives 500, but the document stays stored. The document store is a
  `seq<Record>`. Failures of the store and of the email provider are inputs.
  Requests are handled one after another.
- **Department classifier** (`Department`). The USN is searched for the
  pattern `4MW\d+(AD|AI|EC|CS)`, ignoring case and without anchors. The code
  of the leftmost match picks "AI&DS", "E&C" or "CSE". No match, or the
  code AI, gives "AI&ML". The engine's search (`FirstMatch`) is proved equal
  to the pattern stated declaratively (`PatternAt`).
- **Participants listing** (`ParticipantsApi`). Every document becomes a row
  with the same fields plus the computed department.
- **Remaining-seats query** (`SeatsApi`). This is `max(0, 70 - count)`.
- **Registration form** (`RegisterForm`). The USN is upper-cased and then
  matched against `^[0-9][A-Z]{2}[0-9]{2}[A-Z]{2}[0-9]{3}$`. The email must
  match `^[a-zA-Z0-9._%+-]+@sode-edu\.in$`. The name needs 2 or more
  UTF-16 code units. The year must be non-empty. The phone needs exactly 10
  UTF-16 code units.
- **Admin dashboard** (`Dashboard`). It computes a seats banner against its
  own capacity of 60. It builds the department list (de-duplicated, in
  first-seen order) and the year list (de-duplicated and sorted). It filters
  the table by department, year and a case-insensitive search on name or
  email. It counts participants per department for the summary cards.
- **Countdown** (`Countdown`). `formatTime(ms)` renders
  `<d>d <h>h <m>m <s>s` with no zero padding. It renders `00:00:00:00` when
  `ms <= 0`.

Two disagreements in the code are modelled as written, and `Interplay`
states them:

- The dashboard counts against 60, while the handler and the seats query
  count against 70.
- The form upper-cases the USN, while the handler compares USNs literally.

A few facts about the code that are easy to assume otherwise:

- The handler has no bulk-export step when the roster reaches capacity.
- USN uniqueness in the handler is literal: case matters.
- The form checks only the phone's length, not that it is digits, and only
  that the year is non-empty. The year select offers "1" to "4".
- Name and phone lengths are JavaScript lengths, counted in UTF-16 code
  units, so a character outside the Basic Multilingual Plane counts twice.

Files: `wrappers.dfy` (Option/Result), `text.dfy` (ASCII case, JavaScript length, substring
search, decimal numerals, string order), `seqs.dfy` (de-duplication,
subsequences, sorting), `records.dfy`, `department.dfy`, `participants.dfy`,
`register_api.dfy`, `seats.dfy`, `register_form.dfy`, `dashboard.dfy`,
`countdown.dfy`, `interplay.dfy`.

## Model

| member | source | states |
|---|---|---|
| RegisterApi.FindExisting | app/api/register/route.ts:22-28 | finds a stored document with the body's email or USN exactly when one exists; the one returned is the first such, and it really clashes |
| RegisterApi.Post | app/api/register/route.ts:8-134 | an unreadable body, or a store whose connect or count throws, gives 500 and writes nothing; with 70 or more documents the answer is "Workshop is full" and the store is unchanged, even for a duplicate or a duplicate search that would throw; below capacity, a duplicate search that throws gives 500 and writes nothing, and a clash on email or USN gives "already registered" and the store is unchanged; a failed insert gives 500 and writes nothing; otherwise the body is appended, and the answer is 201 exactly when the provider answered (ok or not), else 500 with the document kept; every answer leaves the store alone or appends exactly the body; a store within capacity and without duplicates stays so |
| RegisterApi.Outcome.Status | app/api/register/route.ts:17-134 | the status is a success code only for a registration, a client error for the full-workshop and already-registered rejections, and a server error otherwise |
| RegisterApi.MessageIdentifiesOutcome | app/api/register/route.ts:17-134 | each answer has its own message, so the two answers with status 400 are told apart by their text |
| RegisterApi.AdmitAll | app/api/register/route.ts:17-31 | any run of requests, handled one after another, keeps the store within capacity and free of shared emails and USNs; earlier documents never change; the store grows by at most one document per request in total; every request answered 201 has its body in the final store |
| Department.DepartmentLabel | app/api/participants/route.js:15-23 | the label is always one of "AI&ML", "AI&DS", "E&C", "CSE", and it is "AI&ML" exactly when there is no match or the matched code is AI |
| Department.MatchAtIff | app/api/participants/route.js:16-17 | the engine's attempt at a position (greedy digits, then a code) succeeds with code c exactly when `4MW\d+c` matches there, ignoring case |
| Department.FirstMatchIsLeftmost | app/api/participants/route.js:16-17 | the search finds nothing exactly when no match starts anywhere; otherwise it returns the code of the leftmost match |
| Department.LeftmostMatchDecides | app/api/participants/route.js:16-17 | when a match with code c starts at p and none starts between the search start and p, the search returns c |
| Department.ClassifyByLeftmostMatch | app/api/participants/route.js:15-22 | a USN with no match is "AI&ML"; otherwise the leftmost match's code decides: AD gives AI&DS, EC gives E&C, CS gives CSE, AI gives AI&ML |
| Department.ClassifyIgnoresCase | app/api/participants/route.js:16-19 | a USN and its upper-cased spelling get the same department |
| DepartmentExamples.PlaceholderIsAiDs | app/api/participants/route.js:15-23 | "4MW21AD043" is AI&DS |
| DepartmentExamples.CseExample | app/api/participants/route.js:15-23 | "4MW21CS099" is CSE |
| DepartmentExamples.AiCodeIsDefault | app/api/participants/route.js:15-23 | "4MW21AI001" matches with code AI and keeps the default AI&ML |
| DepartmentExamples.LowerCasePlaceholder | app/api/participants/route.js:16-19 | the lower-case spelling "4mw21ad043" of the placeholder USN is AI&DS |
| DepartmentExamples.LowerCaseUsn | app/api/participants/route.js:16-19 | "4mw21cs001" is CSE: matching ignores case |
| DepartmentExamples.UnanchoredMatch | app/api/participants/route.js:16-17 | "x4MW21EC9" is E&C: the match may start after the first character and stop before the end |
| DepartmentExamples.DigitsRequired | app/api/participants/route.js:16-17 | "4MWCS1" is AI&ML: at least one digit must follow 4MW |
| DepartmentExamples.NoMatchIsDefault | app/api/participants/route.js:15-18 | "garbage" is AI&ML |
| ParticipantsApi.ToRow | app/api/participants/route.js:24-32 | a row's department is one of the four labels |
| ParticipantsApi.Project | app/api/participants/route.js:14-32 | one row per document, in store order; each row carries its document's name, email, USN, year and phone unchanged and the department classified from its USN |
| ParticipantsApi.ProjectAppend | app/api/participants/route.js:14 | the listing of a store grown by one document is the old listing plus that document's row |
| SeatsApi.RemainingSeats | app/api/remaining-seats/route.ts:10-23 | never negative and at most 70; 0 exactly when the count is 70 or more; below that, remaining plus count is 70 |
| SeatsApi.RemainingSeatsAntitone | app/api/remaining-seats/route.ts:23 | more participants never means more seats, and strictly fewer while seats remain |
| RegisterForm.Parse | app/register/page.tsx:14-23 | the form passes exactly when all five field rules pass (lengths in UTF-16 code units), and then posts the values as typed except the USN, which is upper-cased; the posted USN and email match their patterns; otherwise the error set is non-empty and names exactly the failing fields |
| RegisterForm.UsnPatternGroups | app/register/page.tsx:11 | the USN rule is: ten characters, one digit, two capitals, two digits, two capitals, three digits |
| RegisterForm.UsnPatternIsUpperCase | app/register/page.tsx:11-19 | a USN that passes is already upper case, so the posted value is the one spelling every case variant maps to |
| RegisterForm.UsnValidIgnoresCase | app/register/page.tsx:16-19 | a USN input passes exactly when its upper-case, or its lower-case, spelling passes |
| RegisterForm.PlaceholderUsnValid | app/register/page.tsx:141 | the placeholder "4MW21AD043" passes, and so does "4mw21ad043" |
| RegisterForm.EmailValidIff | app/register/page.tsx:12 | local + "@sode-edu.in" passes exactly when the local part is non-empty and uses only letters, digits and `._%+-` |
| RegisterForm.EmailValidSplits | app/register/page.tsx:12 | a passing address is its local part followed by the domain, and its only `@` is the domain's |
| RegisterForm.DomainIsCaseSensitive | app/register/page.tsx:12 | "abc@sode-edu.in" passes and "abc@SODE-EDU.IN" does not |
| RegisterForm.YearOptionsValid | app/register/page.tsx:175-177 | of the year select's options, only the empty placeholder fails the year rule |
| Text.Utf16Length | app/register/page.tsx:15-22 | the JavaScript length is between the character count and twice it, and equals the character count exactly when every character is in the Basic Multilingual Plane |
| Text.Utf16LengthAppend | app/register/page.tsx:15-22 | the JavaScript length of a concatenation is the sum of the lengths |
| Text.Utf16LengthOfChar | app/register/page.tsx:15-22 | one character has JavaScript length 1, or 2 outside the Basic Multilingual Plane; with Utf16LengthAppend this fixes the length of every string |
| RegisterForm.LengthsCountCodeUnits | app/register/page.tsx:15-22 | one emoji is a long enough name; nine digits and an emoji are too long for a phone, while eight digits and an emoji are exactly long enough: lengths count UTF-16 code units |
| RegisterForm.PhoneDigitsNotChecked | app/register/page.tsx:22 | the phone rule accepts "12345abcde" and rejects a 9-character number: it counts, it does not check digits |
| Dashboard.SeatsRemaining | app/rama42016/AdminDashboard.jsx:23-26 | the dashboard counter plus the count is 60, and it is negative exactly when more than 60 are registered |
| Dashboard.BannerFor | app/rama42016/AdminDashboard.jsx:54-62 | the FULL banner shows exactly when the count is 60 or more; otherwise the seats shown are between 1 and 60 and equal 60 minus the count |
| Dashboard.Departments | app/rama42016/AdminDashboard.jsx:29 | the department options have no repeats, include every participant's department, and include nothing else |
| Dashboard.Years | app/rama42016/AdminDashboard.jsx:30 | the year options are sorted with no repeats, include every participant's year, and include nothing else |
| Seqs.Dedup | app/rama42016/AdminDashboard.jsx:29 | the de-duplicated list has no repeats and holds exactly the input's elements |
| Seqs.DedupOrder | app/rama42016/AdminDashboard.jsx:29 | the de-duplicated list is in order of first occurrence |
| Seqs.DedupSubsequence | app/rama42016/AdminDashboard.jsx:29 | the de-duplicated list is a subsequence of the input |
| Seqs.SortStrings | app/rama42016/AdminDashboard.jsx:30 | the sort gives an ascending permutation of its input |
| Seqs.SortedIsOrdered | app/rama42016/AdminDashboard.jsx:30 | in a sorted list every string is at most every later one, not only its neighbour |
| Seqs.SortedDistinctIsStrict | app/rama42016/AdminDashboard.jsx:30 | a sorted list without repeats is strictly ascending: no later string sorts before an earlier one |
| Seqs.SortedDistinct | app/rama42016/AdminDashboard.jsx:30 | the sorted de-duplication is ascending, has no repeats and holds exactly the input's elements |
| Dashboard.Filter | app/rama42016/AdminDashboard.jsx:33-42 | every row shown passes the department, year and search tests |
| Dashboard.FilterCounts | app/rama42016/AdminDashboard.jsx:33-42 | each row that passes appears in the table as often as it does in the list, and a row that fails never appears |
| Dashboard.FilterKeepsAllThatPass | app/rama42016/AdminDashboard.jsx:33-42 | when every row passes the three tests, the table is the whole list |
| Dashboard.FilterIsSubsequence | app/rama42016/AdminDashboard.jsx:33-42 | the table keeps the participants' order |
| Dashboard.FilterAllIsIdentity | app/rama42016/AdminDashboard.jsx:33-42 | with both selectors on "all" and an empty search, the table is the whole list |
| Dashboard.EmptySearchKeepsAll | app/rama42016/AdminDashboard.jsx:38-40 | the empty search term matches every participant |
| Dashboard.SearchIgnoresCase | app/rama42016/AdminDashboard.jsx:38-40 | a search term and its upper-cased spelling keep the same participants |
| Dashboard.Summary | app/rama42016/AdminDashboard.jsx:45-48 | the summary has a key exactly for each department present, and its count is that department's number of participants, which is positive |
| Dashboard.SummaryAddsUp | app/rama42016/AdminDashboard.jsx:29-48 | the summary's keys are exactly the department options, and their counts add up to the number of participants |
| Text.Contains | app/rama42016/AdminDashboard.jsx:39-40 | `includes` is true exactly when the term occurs at some position |
| Text.NatToString | components/RiveButton.tsx:49 | a component is printed as at least one decimal digit, and it starts with 0 only when it is 0, printed as the single digit "0" |
| Text.NatToStringRoundTrip | components/RiveButton.tsx:49 | a component printed in decimal reads back as the same number |
| Countdown.Decompose | components/RiveButton.tsx:44-47 | for positive ms, hours < 24, minutes < 60, seconds < 60, and days·86400 + hours·3600 + minutes·60 + seconds is the whole seconds in ms |
| Countdown.FormatTime | components/RiveButton.tsx:42-50 | the text is "00:00:00:00" exactly when ms ≤ 0 |
| Countdown.FormatTimeRoundTrip | components/RiveButton.tsx:44-49 | the positive text "<d>d <h>h <m>m <s>s", read by a parser that accepts only numerals without leading zeros, gives back the four components it was made from: every positive text is unpadded |
| Countdown.ExpiredDoesNotParse | components/RiveButton.tsx:43 | "00:00:00:00" is not of the positive form, so the two cases never produce the same text |
| Countdown.SubSecondExample | components/RiveButton.tsx:44-49 | 999 ms shows "0d 0h 0m 0s": there is no zero padding |
| Countdown.OneOfEachExample | components/RiveButton.tsx:44-49 | 90061000 ms shows "1d 1h 1m 1s" |
| Interplay.SeatsQueryMatchesGate | app/api/remaining-seats/route.ts:10-23 | the seats query reports 0 exactly when the handler's capacity gate rejects |
| Interplay.DashboardCapacityDisagrees | app/rama42016/AdminDashboard.jsx:23-26 | with 60 to 69 participants the dashboard shows FULL while the handler still admits and the seats query reports free seats |
| Interplay.DashboardCounterGoesNegative | app/rama42016/AdminDashboard.jsx:23-26 | at the handler's capacity of 70 the dashboard counter reads -10 |
| Interplay.FormMakesCaseVariantsClash | app/register/page.tsx:16-19 | two form submissions whose USNs differ only in case post the same USN, so the handler sees a duplicate |
| Interplay.HandlerComparesUsnLiterally | app/api/register/route.ts:23-25 | posted directly, "4MW21AD043" and "4mw21ad043" are different keys, although they get the same department |

## Left out

- The MongoDB client: connecting, closing and the shared module-level client. They are I/O. The store is a `seq<Record>`. A throw from connect or count is the `DbDown` input, a throw from the duplicate search is `FindFails`, and a throw from the insert is `InsertFails`.
- The store-assigned `_id` and its string form in the listing rows. The model has no use for an opaque id.
- Extra or missing JSON fields in a posted body. `insertOne(body)` stores whatever arrives, but the model's body always has the five string fields.
- The Brevo HTTP request, its payload and the HTML email. They reduce to the `Mailer` input: ok, non-ok, key missing, or the call throws.
- Concurrent registrations. Count-then-insert is not atomic, so two requests can overbook or duplicate. The model handles requests strictly in sequence.
- The failure answer of the participants listing. Reading the store is I/O, and the 500 path has no rule to state.
- SWR polling, React state and rendering in the dashboard; `data.participants || []` is taken as the given rows.
- The order of the summary cards. `Summary` is a map, and `SummaryAddsUp` sums the counts in department-option order, which is the order JavaScript uses for the cards.
- The Rive animation, the interval timer and the `Date` calls around the countdown.
- Countdown.Decompose: `ms` is an integer, as a difference of two `getTime()` values is, so the floating-point division and floor are integer division. Non-integral and non-finite inputs are not modelled.
- Non-ASCII case mapping in `toUpperCase` and `toLowerCase`. Only a–z and A–Z change case in the model.
- Seqs.SortStrings: the comparison is by character code, like JavaScript's UTF-16 code-unit order. The two orders agree on the Basic Multilingual Plane, but not on characters outside it.
- The register page's agreement dialog, success animation, the seats display it fetches, and the browser's own checks for `type="email"` inputs.
- The landing page, about, prerequisites, workshop details and footer components. They are static content and have no rules.
