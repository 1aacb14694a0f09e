# Recruitment form: a Dafny model

This project models the working parts of a student tech society's recruitment web form: the rate limiter in front of the submission endpoint, the endpoint's validation and upsert, and the two versions of the five-step application wizard. The signed-in wizard lives in `src/app/recruit/page.tsx`. The earlier, unauthenticated one is `src/app/page.tsx`.

Modules, one file each:

- `Form` (`form.dfy`) is the shared vocabulary. It covers the seventeen form fields and the values they hold (string, list of strings, null). It defines JavaScript truthiness and react-hook-form's notion of an empty value. It also has the integer ceiling the progress bar uses and the wizard navigation state.
- `RateLimit` (`rate_limit.dfy`) models the middleware. `Step` is a pure function, and the `RateLimiter` class holds the in-memory `ipStore` table. Its `Middleware` method updates that table in place and is proved equal to `Step`. Lemmas cover single requests and whole sequences of requests.
- `RecruitApi` (`recruit_api.dfy`) models the POST handler:
  - the email pattern, written as a character predicate and proved equal to the pattern read as a language;
  - the required-fields loop, a method proved equal to a specification function;
  - the Mongoose upsert and the mapping from errors to responses.
  The `Recruits` class holds the collection and keeps a store invariant: each record sits under its own valid email and has its required fields.
- `RecruitPage` (`recruit_page.dfy`) models the signed-in wizard:
  - the per-step field lists and the field rules;
  - the Next warning and the navigation functions, with an invariant kept over any sequence of presses;
  - the filter that drops past interview dates, and the date-checkbox click;
  - the `Wizard` class with the page's state.
- `LandingPage` (`landing_page.dfy`) models the earlier wizard. It closes with lemmas that compare it with the signed-in wizard: where the two agree, and where they differ.

These are inputs to the model rather than things it computes:

- the clock;
- the `x-forwarded-for` header;
- whether the database connected, whether the body parsed as JSON, and how the write ended;
- the boolean `trigger` resolves to and the `errors` map react-hook-form reports;
- today's date, as a day number;
- how the browser's `fetch` ended.

Time is an `int` of milliseconds. A date is a day number counting from 1970-01-01.

## Model

| member | source | states |
|---|---|---|
| Form.Truthy | src/app/api/recruit/route.ts:52-69 | The truthiness tests `!data.email` and `!data[field]`: an absent key, null and "" are falsy, every array is truthy. Its partner is `TruthyVersusEmpty`. |
| Form.IsEmpty | src/app/recruit/page.tsx:388-646 | What the `required` rules treat as empty: null or absent, "", and an empty checkbox array. Its partner is `TruthyVersusEmpty`. |
| Form.TruthyVersusEmpty | src/app/api/recruit/route.ts:68-69 | A truthy field is present, and a field is truthy iff it is non-empty for `required` or is an empty array: the two tests differ on the empty checkbox group only. |
| Form.AsText | src/app/api/recruit/route.ts:59 | The string `emailRegex.test` sees: a string as it is, an array joined with commas, null as "null". Its partner is `AsTextOfList`. |
| Form.AsTextOfList | src/app/api/recruit/route.ts:59 | A non-empty array of comma-free strings turns into a text that splits at its commas back into that array. |
| Form.CeilDiv | src/app/recruit/page.tsx:226 | `Math.ceil(a / b)` for b > 0: the least r with a <= r * b. |
| Form.Progress | src/app/recruit/page.tsx:226-244 | The progress after k of the four transitions, `Math.ceil((k / 4) * 100)`, is exactly 25 * k. |
| RateLimit.Step | src/app/middleware.ts:8-37 | One call of the middleware as a function of the table: other paths pass, a guarded path bumps its key's entry and is rejected when the count exceeds five. Its properties are the lemmas below. |
| RateLimit.ClientKey | src/app/middleware.ts:11 | The key is the shared "unknown" bucket exactly when the header is missing, empty or literally "unknown"; any other key is the header value itself. |
| RateLimit.Bump | src/app/middleware.ts:14-25 | Within the window (age at most 60000 ms) the entry keeps its timestamp and counts one more. A new key, or one whose window is older, restarts at count 1 at `now`. |
| RateLimit.RateLimiter.constructor | src/app/middleware.ts:5-6 | The table starts empty, as `const ipStore = {}` at server start. |
| RateLimit.RateLimiter.Middleware | src/app/middleware.ts:8-37 | The in-place update of `ipStore` and the verdict equal `Step` on the old table: create the entry, restart an expired window, increment, answer 429 when the count exceeds five. Entries keep a count of at least 1. |
| RateLimit.OtherPathsPassThrough | src/app/middleware.ts:10-36 | A request to any path other than /api/recruit gets `NextResponse.next()`, and the table does not change. |
| RateLimit.GuardedStep | src/app/middleware.ts:14-33 | A guarded request touches only its own key and removes nothing. The new count is the old count + 1, or 1 when the key is new or its window is more than 60000 ms old; at exactly 60000 ms the window is kept. The timestamp is kept or set to now to match. The verdict is the 429 "Too many requests" answer iff the new count exceeds 5. |
| RateLimit.FirstRequestAdmitted | src/app/middleware.ts:14-25 | The first request from a new key is stored as count 1 at `now` and is admitted. |
| RateLimit.ExpiredWindowReadmits | src/app/middleware.ts:19-25 | Once the window is more than a minute old, the entry restarts at count 1 at `now` and the request is admitted, whatever the old count. |
| RateLimit.MissingHeaderSharesBucket | src/app/middleware.ts:11 | No header, an empty header and the header "unknown" lead to the same table and the same verdict. |
| RateLimit.Run | src/app/middleware.ts:8-37 | Requests applied in order produce one verdict per request. |
| RateLimit.SameWindow | src/app/middleware.ts:19-33 | Requests from one key within a minute of its window start: the i-th is rejected iff c + i + 1 > 5, where c is the window's count so far. Rejected requests are counted too, and the window ends holding c + n. |
| RateLimit.FivePerWindow | src/app/middleware.ts:14-33 | From a new key, within a minute of its first request, requests 0..4 are admitted and every later one gets 429. |
| RateLimit.RunKeepsKeys | src/app/middleware.ts:6-25 | Over any sequence of requests, no entry is removed, and an entry no request maps to stays unchanged. |
| RecruitApi.InstitutionalEmail | src/app/api/recruit/route.ts:58-59 | The endpoint's email test, split at the first '@'. Its meaning is given by `InstitutionalEmailIsPattern`. |
| RecruitApi.IndexOf | src/app/api/recruit/route.ts:58 | The position of the first occurrence of a character, or the length when there is none. |
| RecruitApi.InstitutionalEmailIsPattern | src/app/api/recruit/route.ts:58-59 | Splitting at the first '@' gives exactly the strings of `^[a-zA-Z0-9._%+-]+@(ds\|es)\.study\.iitm\.ac\.in$` with the i flag: a non-empty local part of the allowed characters, an '@', one of the two domains in any letter case. |
| RecruitApi.LowerAllFolds | src/app/api/recruit/route.ts:58 | Lower-casing a whole string is idempotent and leaves it equal, ignoring case, to the original. |
| RecruitApi.LowerPreserves | src/app/api/recruit/route.ts:58 | Lower-casing is idempotent, keeps the local-part class, and does not create or remove '@'. |
| RecruitApi.IndexOfLower | src/app/api/recruit/route.ts:58 | Lower-casing does not move the first '@'. |
| RecruitApi.InstitutionalEmailIgnoresCase | src/app/api/recruit/route.ts:58 | The email test gives the same answer on a string and on its lower-cased form, as the i flag promises. |
| RecruitApi.Messages | src/app/api/recruit/route.ts:107 | One detail per schema error, in order, each that error's message. |
| RecruitApi.FirstFalsy | src/app/api/recruit/route.ts:67-76 | The index of the first falsy field: every earlier field is truthy and the field found is falsy. |
| RecruitApi.FindMissingField | src/app/api/recruit/route.ts:67-76 | The loop over the required fields returns the first falsy one in list order, or nothing when all are set. |
| RecruitApi.MissingField | src/app/api/recruit/route.ts:67-76 | Nothing is missing iff every required field is truthy; a field reported missing is a required field and is falsy. |
| RecruitApi.Precheck | src/app/api/recruit/route.ts:52-76 | Every pre-check failure is a BadRequest. The checks all pass iff the email is truthy and institutional and every required field is truthy. |
| RecruitApi.KeyOf | src/app/api/recruit/route.ts:83-84 | The filter value is the submitted email string, and for a payload that passed the pre-checks it is a non-empty institutional address. |
| RecruitApi.Upsert | src/app/api/recruit/route.ts:20-40 | The write of `findOneAndUpdate` with upsert and `setDefaultsOnInsert`: an update sets the payload over the old fields, keeps `createdAt` and stamps `updatedAt`; an insert starts from the empty array defaults and both timestamps at `now`. Its properties are `SubmissionReadBack` and `ResubmissionOverwrites`. |
| RecruitApi.Handle | src/app/api/recruit/route.ts:45-121 | One POST as a function of the store and the inputs: a connection or parse failure is a 500, then the pre-checks, then the write and its outcome. Its properties are the lemmas below. |
| RecruitApi.Recruits.constructor | src/app/api/recruit/route.ts:43 | The collection starts empty, and the empty store meets the store invariant. |
| RecruitApi.Recruits.Post | src/app/api/recruit/route.ts:45-121 | The handler's answer and the collection's new contents equal `Handle` on the old contents. The store invariant holds afterwards: each record is under its valid email and has every required field. |
| RecruitApi.UpsertKeepsInvariant | src/app/api/recruit/route.ts:52-95 | Writing a payload that passed the pre-checks keeps the store invariant. |
| RecruitApi.EmailCheckedFirst | src/app/api/recruit/route.ts:52-57 | A missing or falsy email gives 400 "Email is required." whatever else the payload holds, and nothing is written. |
| RecruitApi.InvalidEmailRejected | src/app/api/recruit/route.ts:58-64 | An email that is present but fails the pattern gives 400 with the invalid-email message, and nothing is written. |
| RecruitApi.FirstMissingFieldReported | src/app/api/recruit/route.ts:66-76 | With a valid email, the 400 names the first falsy field of fullName, degreeType, year, house, experience, timeCommitment, and nothing is written. |
| RecruitApi.WriteOnlyOnSuccess | src/app/api/recruit/route.ts:45-121 | The answer is 200 with the success message iff the connection, the JSON parse and every pre-check succeed and the write succeeds. Any other answer leaves the store unchanged. A BadRequest is always the first failing pre-check. |
| RecruitApi.WriteFailuresMapped | src/app/api/recruit/route.ts:102-119 | A schema rejection gives 400 with the error "Validation failed." and one detail per failing path, in order. Any other failure gives 500 with the generic message. Neither writes. |
| RecruitApi.SubmissionReadBack | src/app/api/recruit/route.ts:20-40 | After an accepted write, the record under the email holds every submitted value. On an update, fields the payload did not send keep their old values. On an insert, the record has exactly the payload's fields plus the four array paths, which are [] where the payload left them out. `updatedAt` is the write time; `createdAt` is the old one, or the write time on insert. No other record changes. |
| RecruitApi.ResubmissionOverwrites | src/app/api/recruit/route.ts:83-95 | Two accepted submissions with one email leave one record under it. It holds the second submission's values, was created at the first write and updated at the second, later one. |
| RecruitPage.TeamDescription | src/app/recruit/page.tsx:35-44 | The blurb for each team; its partner is `TeamDescriptionDefined`. |
| RecruitPage.StepFields | src/app/recruit/page.tsx:207-216 | The fields Next validates on each step, none on the review step or any other value; its partner is `StepFieldsByGatingStep`. |
| RecruitPage.TeamDescriptionDefined | src/app/recruit/page.tsx:20-44 | A team has a non-empty description exactly when it is in the team catalogue. |
| RecruitPage.StepFieldsByGatingStep | src/app/recruit/page.tsx:207-216 | The step lists group the fields by gating step: each field is validated on at most one step, the review step validates none, and every field the endpoint requires is validated before the review. |
| RecruitPage.ProfileUrl | src/app/recruit/page.tsx:446-468 | The profile-URL test with each optional group taken when present; its partner is `ProfileUrlIsPattern`. |
| RecruitPage.ProfileUrlIsPattern | src/app/recruit/page.tsx:446-468 | For a site that starts with neither h nor w, the greedy test accepts exactly the strings of `^(https?:\/\/)?(www\.)?<site>[a-zA-Z0-9_-]+\/?$` with the i flag: some split into an optional scheme, an optional www., the site in any case, a non-empty handle and at most one '/'. |
| RecruitPage.ProfileSitesStartPlainly | src/app/recruit/page.tsx:448-466 | Both profile sites, linkedin.com/in/ and github.com/, meet that condition. |
| RecruitPage.FieldError | src/app/recruit/page.tsx:388-646 | The first message each field's rule reports, required first, then minLength and pattern on non-empty strings; its partners are the rule lemmas below. |
| RecruitPage.EmailRuleIsServerRule | src/app/recruit/page.tsx:388-394 | The page's email rule accepts exactly the non-empty strings the endpoint's pattern accepts. |
| RecruitPage.ExperienceRule | src/app/recruit/page.tsx:513 | Experience passes iff it has at least 50 characters. |
| RecruitPage.ProfileLinksOptional | src/app/recruit/page.tsx:446-468 | An empty LinkedIn or GitHub value passes. A non-empty one passes iff it is in the language of its profile URL pattern. |
| RecruitPage.FirstWithError | src/app/recruit/page.tsx:229 | The index of the first field with an error; every earlier field has none. |
| RecruitPage.StepWarning | src/app/recruit/page.tsx:227-231 | The warning text after a failed Next; its partners are the two lemmas below. |
| RecruitPage.NoRuleErrorsMeansGenericWarning | src/app/recruit/page.tsx:227-231 | On the rules' own errors, a step has no error iff every field of the step passes its rule, and then the warning is the generic "Please fill in all required fields." line. |
| RecruitPage.WarningNamesFirstFailingField | src/app/recruit/page.tsx:227-231 | When the errors are the rules' own verdicts, the warning after a failed Next is the message of the step's first failing field in list order. |
| RecruitPage.Next | src/app/recruit/page.tsx:218-226 | The navigation state after Next; its partners are `NextAdvances` and `DriveKeepsInvariant`. |
| RecruitPage.Prev | src/app/recruit/page.tsx:240-245 | The navigation state after Previous; its partners are `PrevRetreats` and `DriveKeepsInvariant`. |
| RecruitPage.NextAdvances | src/app/recruit/page.tsx:218-226 | A valid Next from step s < 4 reaches s + 1 with progress 25(s + 1). An invalid Next changes nothing. |
| RecruitPage.PrevRetreats | src/app/recruit/page.tsx:240-245 | Previous goes to max(s - 1, 0) with progress 25 times the new step, without validation. |
| RecruitPage.DriveKeepsInvariant | src/app/recruit/page.tsx:218-245 | Any sequence of presses keeps the step in 0..4 with progress 25 times the step. The one exception is 125 on the review step. |
| RecruitPage.StepAlwaysInRange | src/app/recruit/page.tsx:223-241 | From the initial state, the step stays within 0..4 under any presses. |
| RecruitPage.AvailableDates | src/app/recruit/page.tsx:247-257 | `AVAILABLE_INTERVIEW_DATES`, the catalogue without past dates. The page computes it but never renders it; it equals the set of enabled checkboxes. Its partner is `AvailableDatesFromToday`. |
| RecruitPage.IsPast | src/app/recruit/page.tsx:596 | `new Date(date) < getCurrentDateString()` on day numbers: the date is before today's midnight. Its partner is `PastStaysPast`. |
| RecruitPage.PastStaysPast | src/app/recruit/page.tsx:247-256 | A date is not past on its own day, and once past it stays past on every later day. |
| RecruitPage.NotPast | src/app/recruit/page.tsx:254-257 | The filter keeps exactly the dates that are not past, and never adds any. |
| RecruitPage.NotPastIsSuffix | src/app/recruit/page.tsx:254-257 | On a catalogue in day order, dropping the past dates leaves a suffix of it. |
| RecruitPage.NotPastKeepsAll | src/app/recruit/page.tsx:254-257 | When no date is past, the filter returns the catalogue unchanged. |
| RecruitPage.AvailableDatesFromToday | src/app/recruit/page.tsx:247-257 | The filtered list holds exactly the catalogue dates from today's midnight on, and it is a suffix of the catalogue. The page renders the whole catalogue and disables the past dates (src/app/recruit/page.tsx:595-610), so a checkbox is disabled exactly when its date is not in the list: the list is the set of enabled boxes. |
| RecruitPage.Toggle | src/app/recruit/page.tsx:596-619 | A click flips the clicked checkbox and leaves every other one as it was. Only catalogue labels can be checked. |
| RecruitPage.Labels | src/app/recruit/page.tsx:595 | The checkbox values are the catalogue's date labels, in order. |
| RecruitPage.CheckedOf | src/app/recruit/page.tsx:602 | The ticked dates of the `interviewDates` value: an empty value ticks nothing, a list ticks nothing iff it is empty, and every ticked date is in the list. |
| RecruitPage.FailureMessage | src/app/recruit/page.tsx:199 | The toast after a response that is not ok; its partner is `FailureMessageNamesStatus`. |
| RecruitPage.FailureMessageNamesStatus | src/app/recruit/page.tsx:199 | Two non-empty status texts give the same toast iff they are equal, and an empty status text reads exactly as "Server Error". |
| RecruitPage.Defaults | src/app/recruit/page.tsx:117-124 | `useForm`'s default values with the account email; its partners are `LandingPage.DefaultsAgree` and `LandingPage.FreshFormBlocksEveryStep`. |
| RecruitPage.Wizard.constructor | src/app/recruit/page.tsx:116-125 | The wizard starts on step 0 with progress 0 and the default values, including the signed-in email. |
| RecruitPage.Wizard.SyncClerkEmail | src/app/recruit/page.tsx:128-133 | A non-empty account email is copied into the form and becomes part of the defaults. An empty one changes nothing. |
| RecruitPage.Wizard.NextStep | src/app/recruit/page.tsx:218-238 | The step and progress follow `Next`. A failed Next shows a warning with the first erroring field's message, the generic line when no field has one, and "Validation error" when the message is empty. The form values are kept. |
| RecruitPage.Wizard.PrevStep | src/app/recruit/page.tsx:240-245 | The step and progress follow `Prev`; nothing else changes. |
| RecruitPage.Wizard.Submit | src/app/recruit/page.tsx:182-205 | Success shows the success toast and resets the values to the defaults, the step to 0 and the progress to 0. A response that is not ok shows "Submission failed: <statusText or Server Error>. Please try again." A thrown fetch shows the connection message. Both failures keep the step and values. An invalid form changes nothing. |
| RecruitPage.Wizard.ClickDate | src/app/recruit/page.tsx:596-619 | Clicking a past date sets the "has already passed" warning and selects nothing. Clicking any other date toggles it. |
| RecruitPage.DateClickEffect | src/app/recruit/page.tsx:596-619 | The toggle a click on a date that is not past applies flips exactly that catalogue date and leaves every other catalogue date as it was; a past date never reaches it (`Wizard.ClickDate`). |
| LandingPage.TeamDescription | src/app/page.tsx:33-42 | The blurb for each team; its partner is `SameTeamDescriptions`. |
| LandingPage.StepFields | src/app/page.tsx:184-192 | The fields Next validates on each step; its partner is `SameStepFields`. |
| LandingPage.DsEmail | src/app/page.tsx:319-325 | The page's email test on the end of the string; its partner is `DsEmailIsPattern`. |
| LandingPage.DsEmailIsPattern | src/app/page.tsx:319-325 | The end-of-string test is exactly the unanchored search for `.+@ds\.study\.iitm\.ac\.in$`: the suffix, in this exact case, preceded by a character other than a line terminator. |
| LandingPage.FieldError | src/app/page.tsx:319-765 | The first message each field's rule on this page reports; its partners are `EmailRule` and `ExperienceRule`. |
| LandingPage.EmailRule | src/app/page.tsx:319-325 | The page's email rule accepts exactly the strings of that pattern. |
| LandingPage.ExperienceRule | src/app/page.tsx:518-521 | Experience passes iff it has at least 100 characters. |
| LandingPage.ExperiencePreview | src/app/page.tsx:877-879 | The review line for the experience text; its partners are `PreviewShape` and `PreviewOfValidExperience`. |
| LandingPage.PreviewShape | src/app/page.tsx:877-879 | A text of at most 100 characters previews as itself. A longer one previews as its first 100 characters plus "...", 103 characters in all. |
| LandingPage.PreviewOfValidExperience | src/app/page.tsx:877-879 | An experience that passes the page's rule previews with its own first 100 characters, never as "-". The preview is untruncated (exactly 100 characters, no "...") exactly when the text is 100 long, and ends in "..." otherwise. |
| LandingPage.Next | src/app/page.tsx:194-204 | The navigation state after Next; its partner is `SameNext`. |
| LandingPage.Prev | src/app/page.tsx:206-209 | The navigation state after Previous, with progress from the old step; its partner is `PrevDiverges`. |
| LandingPage.DriveKeepsInvariant | src/app/page.tsx:194-209 | Any sequence of presses keeps the step in 0..4 with progress 25 times the step. The exceptions are 125 on the review step and -25 on step 0. |
| LandingPage.Defaults | src/app/page.tsx:85-90 | This page's default values, the four empty checkbox groups; its partners are `DefaultsAgree` and `FreshFormBlocksEveryStep`. |
| LandingPage.Wizard.constructor | src/app/page.tsx:64-91 | The wizard starts on step 0 with progress 0 and empty checkbox groups. |
| LandingPage.Wizard.NextStep | src/app/page.tsx:194-204 | The step and progress follow `Next`. A failed Next shows the fixed "Please fill in all required fields" warning. |
| LandingPage.Wizard.PrevStep | src/app/page.tsx:206-209 | The step becomes max(s - 1, 0) and the progress is computed from the old step; nothing else changes. |
| LandingPage.Wizard.Submit | src/app/page.tsx:163-182 | Success resets the values, the step and the progress to their defaults. A failed or thrown request shows its error toast and keeps the step. |
| LandingPage.SameStepFields | src/app/page.tsx:184-192 | Both wizards validate the same fields on each step. |
| LandingPage.SameTeamDescriptions | src/app/page.tsx:33-42 | Both wizards describe the teams alike. |
| LandingPage.DefaultsAgree | src/app/page.tsx:85-90 | This page's defaults are exactly the endpoint's insert defaults, the signed-in wizard has the same value on each of those fields, and it presets the email to the account's. |
| LandingPage.FreshFormBlocksEveryStep | src/app/page.tsx:184-204 | On each of the steps 0..3, a fresh form has some field that fails its rule, in either wizard, so Next cannot pass from the defaults. |
| LandingPage.SameNext | src/app/page.tsx:194-204 | Next moves both wizards alike. |
| LandingPage.PrevDiverges | src/app/page.tsx:206-209 | Previous lands on the same step in both wizards. The states agree iff the press starts at step 1 or later. From step 0 this page shows -25 where the other shows 0. |
| LandingPage.DriveCorresponds | src/app/page.tsx:194-209 | Driven by the same presses from corresponding states, the two wizards are always on the same step. Their progress differs only where this page shows -25 after a Previous on step 0 and the other shows 0. |
| LandingPage.StepAlwaysInRange | src/app/page.tsx:199-207 | From the initial state, the step stays within 0..4 under any presses. |
| LandingPage.EmailRulesAgreeOnDs | src/app/page.tsx:319-325 | Both email rules accept a lower-case ds address whose local part the endpoint allows. |
| LandingPage.BothEmailRulesAccept | src/app/page.tsx:319-325 | Both email rules accept a string iff it is a non-empty local part of the endpoint's characters followed by "@ds.study.iitm.ac.in" in exactly that case. |
| LandingPage.EsOnlyOnNewRule | src/app/page.tsx:319-325 | An es address accepted by the endpoint is refused by this page. |
| LandingPage.UpperCaseOnlyOnNewRule | src/app/page.tsx:319-325 | A ds address with an upper-case domain is accepted by the endpoint and refused by this page. |
| LandingPage.LooseLocalOnlyOnOldRule | src/app/page.tsx:319-325 | A local part with a space passes this page's rule and fails the endpoint's. |
| LandingPage.ExperienceMinimumsDiverge | src/app/page.tsx:518-521 | An experience of 50 to 99 characters passes the signed-in wizard and fails this page. |

## Left out

- The JSON body is modelled as field -> string, list of strings, or null. Numbers, booleans, nested objects and keys outside the seventeen fields are not modelled; that includes a body that sends its own `createdAt` or `updatedAt`.
- Mongoose runs the schema validators, including a `match` of a non-string email and the casting of values. They are modelled only through their outcome, an input. Their error messages are whatever that input carries.
- The collection's email index is not unique. "One record per email" is the model's reading of `findOneAndUpdate` with `upsert`, not a guarantee the store gives. That reading holds for the sequential writes modelled here.
- Concurrency is not modelled. Interleaved requests could race on the unsynchronised read-increment-compare of `ipStore`, and on concurrent upserts.
- `ipStore` is a plain object. Keys such as "__proto__" or "constructor", which would hit inherited properties, are not modelled, and neither is the JavaScript number range of the count.
- Lengths count Dafny characters, not UTF-16 code units. They differ only outside the Basic Multilingual Plane.
- Both wizards leave out animation, styling, focus handling, and the timers that clear the toast and the date warning.
- The Clerk sign-in, the loading screen and the redirect for signed-out users are not modelled.
- react-hook-form's internals are not modelled, and neither are the browser's treatment of the disabled email input and of clicks on disabled checkboxes. The result of `trigger`, the `errors` map and whether `handleSubmit` validated are inputs; the rules are pure functions, and `RecruitPage.WarningNamesFirstFailingField` connects the two.
- The option catalogues (degrees, years, houses, domains, times) are not modelled. Only the team names and the interview dates matter to the logic.
- `new Date` parsing of labels such as "May 5, 2025" happens in local time. The model gives each catalogue date its day number instead.
- Neither page offers a Next button on the review step or a Previous button on step 0. The navigation functions still define both presses as the code computes them, which gives the 125 and -25 progress values above.
- The progress bar uses `Math.ceil(((currentStep + 1) / 4) * 100)` in the code. That is (s + 1) quarters, not s quarters, and the model follows the code. The floating-point ceiling is modelled as the exact integer ceiling, which is what it computes for the step values that occur.
- Console logging, `res.text()` and the focus on the first invalid field are not modelled.
