# AttendAuto attendance checker — a Dafny model

This project models the decision logic of the AttendAuto attendance checker, a
browser robot that:

- logs in to a student portal, solving the image captcha with an AI vision model;
- expands every subject on the weekly attendance page;
- reads the "conducted" and "attended" counts of each subject;
- prints an overall percentage with a GOOD / WARNING / CRITICAL verdict, or
  hands the same figures to a web page.

The browser, the HTTP download and the AI model are not modelled. Each becomes
data the model is given:

- a reply of the model is an `Option<string>`, one per attempt;
- the image download is its HTTP status code;
- the page is a function from selector to lookup result;
- a plus icon records whether clicking it raises, and which label spans are on
  the page once it is expanded;
- a label span is a visibility flag and an optional text.

Modules (one file each):

| module | file | what it covers |
|---|---|---|
| `Wrappers` | wrappers.dfy | `Option`, standing for Python's `None` |
| `Chars` | chars.dfy | ASCII `isspace`/`isalnum`/`isdigit`/`upper`, `strip`, `find`, `str(n)`/`int(s)` |
| `Config` | config.dfy | the thresholds 75/65, the four captcha prompts, the login URLs, the plus-icon selectors |
| `CaptchaText` | captcha_text.dfy | `clean_captcha_response`, its seven steps and its outcomes |
| `CaptchaTyping` | captcha_typing.dfy | `clean_captcha_character` and the keys `fill_captcha_character_by_character` types |
| `CaptchaSolver` | captcha_solver.dfy | the retry loop of `solve_captcha_with_gemini` and `solve_captcha_with_screenshot` |
| `Login` | login.dfy | captcha URL absolutisation and the two-attempt loop of `automated_login` |
| `Cascade` | cascade.dfy | the seven-strategy plus-icon lookup of `extract_attendance_data` |
| `SubjectNames` | subject_names.dfy | `extract_all_subject_names`: the course-code pass and the dash-split fallback |
| `Counts` | counts.dfy | `extract_conducted_count` and `extract_attended_count` |
| `Attendance` | attendance.dfy | the per-subject loop of `extract_attendance_data` and `calculate_and_display_results` |
| `WebResults` | web_results.dfy | `prepare_results_for_web`, as written and with names bound per subject |

Characters are ASCII. Python's Unicode-aware predicates are restricted to ASCII,
with one extra: `unicodedata.category(c) == 'Cc'` also covers the C1 controls
U+0080–U+009F. Percentages are exact rationals (`real`).

## Model

| member | source | states |
|---|---|---|
| CaptchaTyping.CleanCharacterOfChar | attendance_checker.py:112-133 | one character cleans to its upper-case form when it is an ASCII letter or digit, and to "" otherwise (whitespace, control characters and punctuation all give "") |
| CaptchaTyping.CleanCharacterExamples | attendance_checker.py:112-133 | 'b' cleans to "B", ' ' and '!' to "" |
| CaptchaTyping.Keystrokes | attendance_checker.py:566-573 | a key is sent only for characters whose cleaned form is non-empty, so there are never more keys than characters, and every key is one character of A–Z/0–9 |
| CaptchaTyping.TypedIsUpperAlnum | attendance_checker.py:551-579 | after the field is emptied and the keys are typed, it holds exactly the letters and digits of the text, upper-cased, in order (independent reference `UpperAlnum`) |
| CaptchaTyping.TypesCodeExactly | attendance_checker.py:566-573 | a solved captcha of A–Z/0–9 is typed one key per character and lands in the field unchanged |
| CaptchaTyping.TypingExample | attendance_checker.py:566-573 | typing "aB 3!" enters "AB3" |
| CaptchaText.StripsFirstMatchingPreamble | attendance_checker.py:158-167 | when the i-th preamble is the first in list order the text starts with, exactly that preamble is cut off and the rest stripped, whatever later preambles would match |
| CaptchaText.StripPreambleNoMatch | attendance_checker.py:164-167 | text that starts with no preamble is left unchanged |
| CaptchaText.NoPreambleInCode | attendance_checker.py:158-167 | no string of A–Z/0–9 starts with a preamble, because every preamble ends in ':' |
| CaptchaText.FirstRunFrom | attendance_checker.py:172-175 | `re.findall(...)[0]`: the result is the greedy match at the first position where a run of at least `lo` characters of A–Z/0–9 starts, and it is None exactly when no position starts one |
| CaptchaText.FirstRun | attendance_checker.py:172-175 | a match has between `lo` and `hi` characters, all A–Z/0–9 |
| CaptchaText.FirstRunOfCode | attendance_checker.py:196-198 | on a string of A–Z/0–9 at least `lo` long, the first match is its first `hi` characters |
| CaptchaText.KeepCaptchaChars | attendance_checker.py:185-186 | the filter leaves only A–Z/0–9, leaves a string of them unchanged, and gives "" exactly when the input has none |
| CaptchaText.KeepAppend | attendance_checker.py:185-186 | the filter works character by character: it distributes over concatenation |
| CaptchaText.StripCharsInvisible | attendance_checker.py:178-186 | stripping quotes and punctuation from the ends before the filter never changes the filter's output |
| CaptchaText.CleanValidation | attendance_checker.py:188-206 | the length check: no survivor gives None, 1 to 10 survivors are returned as they are, more than 10 are cut to their first 6 |
| CaptchaText.CleanNoneIff | attendance_checker.py:145-206 | the cleaner returns None exactly when the reply is empty or no A–Z/0–9 character remains after upper-casing and preamble removal |
| CaptchaText.CleanShape | attendance_checker.py:186-206 | every answer is 1 to 10 characters of A–Z/0–9 |
| CaptchaText.CleanTakesFirstRun | attendance_checker.py:169-192 | when the text holds a run of at least 3 of A–Z/0–9, the answer is the first such run, cut to 8 |
| CaptchaText.CleanFixesShortCode | attendance_checker.py:135-206 | a code of 1 to 8 of A–Z/0–9 cleans to itself |
| CaptchaText.CleanIdempotentUpTo8 | attendance_checker.py:135-206 | re-cleaning an answer of at most 8 characters changes nothing |
| CaptchaText.CleanNotIdempotentAt10 | attendance_checker.py:169-192 | a 10-character answer is reachable (from "AB-CD-EF-GH-IJ"), but re-cleaning it cuts it to 8 characters |
| CaptchaText.CleanExample | attendance_checker.py:155-192 | "THE CAPTCHA IS: 'xY12'" cleans to "XY12" |
| CaptchaSolver.PromptIndex | attendance_checker.py:243-244 | attempt k asks with prompt k mod 4; the first four attempts use the four prompts in order |
| CaptchaSolver.PromptInRange | attendance_checker.py:243-244 | the prompt index of every attempt is a valid position in the list of prompt variants |
| CaptchaSolver.PromptsCycle | attendance_checker.py:243-244 | attempt k and attempt k + 4 use the same prompt |
| CaptchaSolver.FirstAcceptedFrom | attendance_checker.py:240-279 | the answer is "" exactly when no cleaned reply passes the gate; otherwise it is the cleaned reply of the first attempt that passes |
| CaptchaSolver.RunAttempts | attendance_checker.py:240-279 | attempt k records prompt k mod 4, its reply and its cleaned reply; the loop stops at the first accepted attempt and returns its text, and an unanswered loop runs all attempts |
| CaptchaSolver.SolveWithGemini | attendance_checker.py:230-279 | a download that is not status 200 gives "" with no attempt made; otherwise the answer is the first reply that passes the gate, with the attempt log of `RunAttempts` |
| CaptchaSolver.FirstAcceptedAt | attendance_checker.py:259-266 | when attempt k is the first to pass the gate, the loop's answer is its cleaned reply |
| CaptchaSolver.CleanedRepliesAt | attendance_checker.py:252-257 | attempt k's cleaned reply is reply k stripped and cleaned; errors and empty replies give None |
| CaptchaSolver.GateIsLength | attendance_checker.py:261 | on a cleaned answer the `isalnum()` test always passes, so the gate is just "at least 4 characters" |
| CaptchaSolver.StripBeforeCleaning | attendance_checker.py:252-257 | stripping the reply before cleaning it changes nothing |
| CaptchaSolver.ScreenshotIsCleaner | attendance_checker.py:312-324 | for a non-empty reply the screenshot method returns exactly what the cleaner returns |
| CaptchaSolver.ScreenshotHasNoGate | attendance_checker.py:312-318 | the screenshot method returns a one-character answer that the URL method's gate rejects |
| Login.AbsoluteCaptchaUrl | attendance_checker.py:421-430 | the URL always starts with "http" and ends with the source; a source is kept as it is exactly when it starts with "http"; any other source is placed under the portal origin plus '/' |
| Login.RelativeUnderOrigin | attendance_checker.py:425-430 | "/x" becomes origin + "/x", and any other relative "x" becomes origin + "/x" |
| Login.AbsoluteIdempotent | attendance_checker.py:421-430 | making an absolute URL absolute again changes nothing |
| Login.UrlAnswerIsCode | attendance_checker.py:435 | a non-empty answer of the URL method is 4 to 10 characters of A–Z/0–9 |
| Login.CaptchaIsCode | attendance_checker.py:434-442 | the captcha an attempt submits (URL method, else screenshot method) is 1 to 10 characters of A–Z/0–9 |
| Login.TypedIsSolvedCaptcha | attendance_checker.py:452-453 | what is typed into the captcha field of a submitted attempt is the solved captcha itself |
| Login.LoginFrom | attendance_checker.py:399-505 | the attempts made are a prefix of the attempts available; every attempt but the last failed; success means the last one landed on the dashboard; a failure means all attempts were made |
| Login.LoginSucceedsIff | attendance_checker.py:399-505 | the login succeeds exactly when one of the two attempts lands on exactly the dashboard URL |
| Login.SucceedsIffSomeLoggedIn | attendance_checker.py:465-496 | over any recorded outcomes, the loop succeeds exactly when one of them is a login |
| Login.AttemptsMade | attendance_checker.py:399-505 | one attempt is made when the first logs in, otherwise exactly two |
| Login.LandingOnLoginPageFails | attendance_checker.py:466-487 | landing on the login page's URL is never a success |
| Cascade.FirstNonEmptyFrom | attendance_checker.py:606-641 | the icons are the elements of the first lookup that found any, unmerged, and none exactly when every lookup raised or found nothing |
| Cascade.FirstNonEmptyIsFirst | attendance_checker.py:606-641 | when lookup i is the first non-empty one, its elements are the result, whatever later lookups find |
| Cascade.NoIconsIff | attendance_checker.py:606-661 | no icon is found exactly when every one of the seven strategies raised or found nothing |
| Cascade.StrategyWins | attendance_checker.py:606-641 | the first strategy, in the order CSS, XPath, then the five alternatives, to find elements supplies all the icons |
| Cascade.CssFirst | attendance_checker.py:609-617 | whatever the configured CSS selector finds is taken as it is |
| Counts.LastReading | attendance_checker.py:808-819 | the backward scan gives the reading of the last span that has one, and None exactly when no span has one |
| Counts.LastReadingIsLast | attendance_checker.py:808-819 | the scan settles on the last span with a reading, whatever earlier spans hold |
| Counts.ConductedFromLastVisible | attendance_checker.py:804-817 | when a visible span holds a number in 1..50, the last such span gives the conducted count |
| Counts.ConductedImplausibleIsFallback | attendance_checker.py:821-827 | a conducted count outside 1..50 comes only from the last span, when no visible span qualifies |
| Counts.ConductedNoneIff | attendance_checker.py:803-833 | the conducted count is missing exactly when no visible span qualifies and the last span's text is not a bare number |
| Counts.TotalSegment | attendance_checker.py:863-865 | `split("Total-")[1]` exists exactly when the text holds the marker; it is the text that starts just after the first marker and runs to the next marker or to the end, and it holds no marker |
| Counts.FirstNumber | attendance_checker.py:866-868 | a number is found exactly when the segment holds a digit |
| Counts.FirstNumberIs | attendance_checker.py:866-868 | the number read is the value of the whole first run of digits: no digit before it, and the run not continued |
| Counts.AttendedFromLastVisible | attendance_checker.py:854-880 | when a visible span yields a reading, the last such span gives the attended count |
| Counts.AttendedNoneIff | attendance_checker.py:849-898 | the attended count is missing exactly when no visible span yields a reading and the last span has no readable total |
| Counts.TotalWithoutDigitsSkipped | attendance_checker.py:863-873 | a visible span holding the marker but no digit after it is skipped, not read as a bare number |
| Counts.BareAttendedPlausible | attendance_checker.py:872-878 | an attended count read from a bare number lies in 1..50 |
| Counts.BreakdownReadsTotal | attendance_checker.py:862-870 | a breakdown "prefix Total-n" reads as n, with no window applied |
| Counts.BreakdownExample | attendance_checker.py:862-870 | "P-12/E-1/L-0/MCR-0/R-0/Total-13" reads as 13 |
| SubjectNames.TidyIsCollapse | attendance_checker.py:736-742 | the name clean-up collapses whitespace into single spaces; keeping the first line and stripping again change nothing |
| SubjectNames.TidyIdempotent | attendance_checker.py:736-742 | the clean-up is idempotent |
| SubjectNames.SearchFrom | attendance_checker.py:734 | `re.search`: the first position where the course-code pattern matches, None exactly when none does |
| SubjectNames.NameGroup | attendance_checker.py:734-736 | the captured group is non-empty and made of A–Z, whitespace and '&' |
| SubjectNames.NameGroupIs | attendance_checker.py:734-736 | the captured group is the whole run of name characters after the dash of the first course-code match |
| SubjectNames.PrimaryNameIs | attendance_checker.py:727-744 | a container's primary name is that group, tidied, and kept only when it has 4 to 49 characters |
| SubjectNames.AfterDashIs | attendance_checker.py:760-766 | the fallback reads everything after the first '-' of the stripped text, once the raw text has a '-' and its first 15 stripped characters a digit |
| SubjectNames.FallbackNameIs | attendance_checker.py:760-773 | a container's fallback name is that text, tidied, and kept only when it has 4 to 49 characters |
| SubjectNames.PrimaryNameShape | attendance_checker.py:727-745 | a name of the primary pass has 4 to 49 characters, is well spaced, and uses only A–Z, ' ' and '&' |
| SubjectNames.FallbackNameShape | attendance_checker.py:757-776 | a name of the fallback pass has 4 to 49 characters and is well spaced |
| SubjectNames.CollectFrom | attendance_checker.py:725-745 | every primary name is what the pattern finds in some container, and there are no more names than containers |
| SubjectNames.PrimaryPassAppend | attendance_checker.py:725-745 | the primary pass works container by container, so names follow container order |
| SubjectNames.CollectNewSet | attendance_checker.py:757-776 | gathering without repeats never repeats a name, and finds every name a container yields |
| SubjectNames.CollectNewSnoc | attendance_checker.py:757-776 | the containers are visited in page order: one more container appends its name at the end exactly when the name is new |
| SubjectNames.CollectNewExtends | attendance_checker.py:757-776 | names already gathered stay at the front, in order |
| SubjectNames.FallbackPassSet | attendance_checker.py:757-776 | the fallback pass has no duplicates and holds exactly the names the containers yield |
| SubjectNames.FallbackPassSnoc | attendance_checker.py:757-776 | the fallback names are in order of first occurrence: a later container adds its name at the end, and only when it is new |
| SubjectNames.FallbackIff | attendance_checker.py:752-756 | the primary pass is kept when it finds at least 3 names, and otherwise replaced by the fallback pass |
| SubjectNames.ExtractedNamesShape | attendance_checker.py:712-787 | every extracted name has 4 to 49 characters, no whitespace at either end and single spaces inside |
| Attendance.CollectCounts | attendance_checker.py:694-697 | the loop appends both counts of each subject where both were found, and nothing else |
| Attendance.CountsOf | attendance_checker.py:694-697 | the two count lists always have the same length |
| Attendance.CountsPaired | attendance_checker.py:694-697 | the k-th conducted and k-th attended counts are the two counts of one and the same subject |
| Attendance.CompleteIconCounted | attendance_checker.py:694-697 | every subject whose two counts were both found appears in the lists |
| Attendance.CompleteRecordsMembers | attendance_checker.py:694-699 | the counted subjects are exactly those whose two counts were found |
| Attendance.CompleteRecordsInOrder | attendance_checker.py:665-697 | counted subjects keep page order |
| Attendance.CountedInPageOrder | attendance_checker.py:665-697 | on any page, the subjects whose counts are kept appear with strictly increasing subject numbers |
| Attendance.AllCompleteKeepsAll | attendance_checker.py:694-697 | when no subject misses a count, every subject is counted |
| Attendance.NoIconsNoCounts | attendance_checker.py:603-661 | with no icon found, the names are still extracted and both count lists are empty |
| Attendance.SumPointwise | attendance_checker.py:1051-1052 | a sum over a pointwise smaller list is no larger |
| Attendance.SumZeroIff | attendance_checker.py:1051-1052 | a total is 0 exactly when every count is 0 |
| Attendance.Percentage | attendance_checker.py:1054-1058 | the percentage is 0 when nothing was conducted, and otherwise p · conducted = 100 · attended |
| Attendance.Classify | attendance_checker.py:1073-1078 | GOOD exactly at 75% and above, WARNING exactly from 65% up to below 75%, CRITICAL exactly below 65% |
| Attendance.PercentageAtMost100 | attendance_checker.py:1054-1058 | no more attended than conducted gives at most 100% |
| Attendance.StatusByCounts | attendance_checker.py:1054-1078 | in whole numbers: GOOD iff 100 · attended ≥ 75 · conducted, WARNING iff 65 · conducted ≤ 100 · attended < 75 · conducted, CRITICAL when nothing was conducted |
| Attendance.CalculateResults | attendance_checker.py:1046-1064 | no report exactly when either list is empty; otherwise one line per pair, numbered from 1, with the counts carried unchanged |
| Attendance.ReportStatus | attendance_checker.py:1050-1078 | the report's verdict on the totals, in whole numbers |
| Attendance.ReportAtMost100 | attendance_checker.py:1050-1058 | when no subject was attended more often than conducted, the overall percentage is at most 100 |
| WebResults.LabelsDistinguishVerdicts | webapp.py:185-194 | status and CSS class are paired one-to-one with the verdict (GOOD/success, WARNING/warning, CRITICAL/danger) |
| WebResults.PrepareResultsForWeb | webapp.py:157-204 | None exactly when either list is empty; otherwise one row per pair, with ids 1..n, counts carried unchanged, and the name at the row's own position (or "Subject i+1") |
| WebResults.WebAgreesWithConsole | webapp.py:159-194 | the page and the console report exist for the same lists and agree on every subject's counts and percentage, the totals and the verdict |
| WebResults.WebStatusByCounts | webapp.py:181-194 | the page says "GOOD" iff 100 · attended ≥ 75 · conducted over the totals, with something conducted, and "WARNING" in the 65–75 band |
| WebResults.NamesMisboundAfterDrop | webapp.py:166-171 | as written: when subject 1's click raises and subject 2's counts are found, the only row carries subject 2's counts under subject 1's name |
| WebResults.ResultsFromRecords | webapp.py:162-179 | corrected rows: one per counted subject, each under that subject's own name and with its own counts |
| WebResults.WebReportNamesBound | webapp.py:166-175 | corrected page: row k shows the name the extraction loop gave some subject i + 1 together with subject i + 1's own two counts |
| WebResults.CorrectedKeepsFigures | webapp.py:162-202 | the corrected page differs from the page as written only in the row names |
| WebResults.BindNameIsPositional | webapp.py:167-171 | the loop's name for subject i + 1 is the page's name for position i |
| WebResults.NoDropNoDrift | webapp.py:166-171 | when every subject's two counts are found, the corrected page equals the page as written |

## Left out

- Playwright is not modelled: navigation, waits, scrolling, `is_visible`, screenshots. Its answers are inputs: page lookups, icons, spans, landed URLs.
- The AI model, `requests` and PIL are not modelled. Replies and the download status are inputs.
- Logging and `print` are left out. They do not affect any returned value.
- NFKD normalisation (step 5 of `clean_captcha_response`) is left out, with the rest of Unicode. On ASCII text it is the identity, but not on other text. For the reply "ÉTÉ" the code returns "ETE": NFKD splits each É into E and a combining accent, and step 6 drops the accent. The model treats É as a non-code character, finds only "T", and does not return "ETE". Likewise fullwidth "ＡＢＣＤ" becomes "ABCD" in the code and is rejected by the model.
- Unicode is left out. The character classes, `upper()` and `\s` are modelled on ASCII only.
- Floating point is not modelled. Percentages are exact rationals: `/ * 100` is exact division, and boundary cases that a float would round differently are not represented.
- `round(x, 2)` in the console print and on the web page is left out. The web rows and `overallPercentage` carry the exact, unrounded percentage.
- The web page's `timestamp` is left out. It is a clock reading.
- Exceptions inside the name extraction are not modelled. An outer exception would reset the names to an empty list.
- `extract_subject_name` is left out. It is never called, and it is DOM walking plus bounding-box geometry.
- `setup_gemini`, `get_credentials`, `setup_browser`, `navigate_to_attendance_page`, `cleanup`, `run` and `main` are left out. They are interactive input, browser lifecycle and process exit.
- webapp.py beyond `prepare_results_for_web` is left out: Flask routes, SocketIO, threads, the session table, `find_available_port`.
- setup.py is not part of this model. config.py contributes only its constants.
- The debug listing of clickable elements when no icon is found is left out. It only prints.
- `max_retries` is the number of replies given. `DefaultMaxRetries` records the default of 3.
- `Login.CaptchaImage.urlReplies` may have any length, although login always calls the solver with the default of 3 retries. Every property about it holds for any number of replies.
- Two properties hold only in weaker forms:
  - Re-cleaning is proved to be a no-op only for answers of at most 8 characters (`CaptchaText.CleanIdempotentUpTo8`). It is not a no-op for 10-character answers: the code cuts them to 8 on the second pass (`CaptchaText.CleanNotIdempotentAt10`). Answers of 9 characters are covered by neither lemma.
  - With no icon found, the names are not empty, because `extract_all_subject_names` runs before the cascade. Only the two count lists are empty (`Attendance.NoIconsNoCounts`).
- The console's WARNING label text "65-74%" is only printed. The verdict itself uses the band 65 ≤ p < 75, as in `Attendance.Classify`.

## Findings

| source | as written | input that shows it | evidently intended | confidence | as-written member | corrected member |
|---|---|---|---|---|---|---|
| webapp.py:166-171 | the web row at position i of the filtered count lists takes `subject_names[i]`, but subjects with a missing count were dropped from those lists while the names were not | names ["Maths", "Physics"]; clicking subject 1's icon raises and subject 2's counts are both found: the only row shows Physics's counts under the name "Maths" | each row carries the name of the subject its counts were read from, as bound in the extraction loop (attendance_checker.py:671-675) | not executed | WebResults.NamesMisboundAfterDrop | WebResults.WebReportNamesBound |
