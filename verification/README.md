# Tutor–learner matching rules, modelled in Dafny

This project models the rules inside the TutorLearnerDatabaseDemo admin tool, a React
front end that a literacy programme uses to keep tutors, learners and the matches between
them. The model covers these parts:

- **Eligibility filters.** A learner's match screen offers the available tutors whose
  preference record marks the learner's level. A tutor's match screen offers the available
  learners whose level is one of the tutor's preferred levels. The `tutor_id` bookkeeping
  entry is never a preferred level.
- **Unfiltered pools and manual pick.** Every tutor or learner becomes a display row named
  `first + " " + last`, and the available rows feed a drop-down. A name picked there is
  resolved back to an id with `find`.
- **Match payload.** `handleMatch` sends nothing when the screen's own record is not loaded
  or when the id is unknown. Otherwise it sends six fields, copied verbatim, tutor first.
- **Match list.** The search keeps a match when the lower-cased query occurs in either
  lower-cased full name. After a successful delete, every match with that id is dropped. A
  failed delete leaves the list unchanged.
- **Tutor form.** `validateForm` builds one optional message per field; a later assignment
  overwrites an earlier one. The form is submitted exactly when no field has a message.
  `handleChange` updates exactly one field of the form record.
- **Tutor details page.** The page lists the preferred categories and the days that have
  both times set. It offers Match only for an available tutor. It also covers the
  delete-confirmation toggle and the guard in front of the delete call.

Values follow JavaScript:

- A preference record is the ordered list of its `Object.entries`.
- Property access yields `None` (`undefined`) for a key the record does not hold. Keys
  inherited from `Object.prototype` are not modelled (see Left out).
- Truthiness is explicit: `false` and `""` are falsy.
- Strings compare in code-point order. This agrees with JavaScript's `<` (code-unit
  order) on strings below U+10000, which includes every time the form offers.
- A record that is still being fetched is `None`.

Modules: `Options`, `Seqs` (filter, find, subsequence), `Strings` (trim, ASCII lower
case, substring, the two patterns, string order), `Records` (the entities), `Schedule`
(the active-slot list), `LearnerMatch`, `TutorMatch`, `Eligibility` (how the two screens
relate), `Matches`, `TutorForm`, `TutorDetails`.

## Model

| member | source | states |
|---|---|---|
| Seqs.Filter | src/client/components/database/matches/index.tsx:28-38 | `Array.filter`. The result contains exactly the elements that pass, each as often as in the input, in input order. |
| Seqs.FindFirst | src/client/components/database/learners/match/index.tsx:35 | `Array.find`. The result is the first index that passes. It is absent exactly when no element passes. |
| Seqs.FilterCommutes | src/client/components/database/matches/index.tsx:28-44 | Two filters applied in either order give the same list. |
| Seqs.FilterIdempotent | src/client/components/database/matches/index.tsx:44 | Filtering twice with the same test is filtering once. |
| Strings.Trim | src/client/components/forms/tutors/index.tsx:103 | `trim()` is a contiguous slice of the string. Everything cut off on either side is whitespace, and the slice neither starts nor ends with whitespace. It is empty exactly when the string is all whitespace. |
| Strings.TrimBothEnds | src/client/components/forms/tutors/index.tsx:103 | Cutting leading white space, then trailing white space, leaves a slice with only white space outside it and none at its ends. Nothing is left exactly when the string is blank. |
| Strings.Lower | src/client/components/database/matches/index.tsx:31 | `toLowerCase()` keeps the length and lowers each ASCII capital. |
| Strings.LowerIdempotent | src/client/components/database/matches/index.tsx:31-35 | Lowering twice is lowering once. |
| Strings.ContainsEmpty | src/client/components/database/matches/index.tsx:32 | Every string `includes` the empty string. |
| Strings.LessTrichotomy | src/client/components/forms/tutors/index.tsx:126 | For two strings, exactly one holds: `a < b`, `a == b` or `b < a`. So `start >= end` is the negation of `start < end`. |
| Records.Lookup | src/client/components/database/learners/match/index.tsx:63 | `preferences[level]` is the value of the first entry with that key. It is `undefined` exactly when no entry has the key. Only the record's own entries are modelled (see Left out). |
| Records.PrefersIffTruthyEntry | src/client/components/database/learners/match/index.tsx:62-63 | In a record with unique keys, `preferences[level]` is truthy exactly when some entry for `level` is truthy. |
| Records.TruthyKeys | src/client/components/database/tutors/details/index.tsx:84-86 | The keys whose value is truthy: exactly those, in entry order. |
| Schedule.ActiveDays | src/client/components/database/tutors/details/index.tsx:101-102 | The listed days are exactly the days with both times non-empty, each with its own slot, Monday first. |
| Schedule.HalfSetDayHidden | src/client/components/database/tutors/match/index.tsx:125-126 | A day with only one time set is never listed. |
| Schedule.EmptyWeekListsNothing | src/client/components/database/tutors/details/index.tsx:101-102 | A week without times lists no day. |
| LearnerMatch.FilterTutors | src/client/components/database/learners/match/index.tsx:56-65 | With no learner loaded the list is empty. Otherwise a tutor is listed exactly when it is available, has a record, and the record's entry for the learner's level is truthy (a missing key excludes it). Each tutor is kept as often as it occurs, in order. |
| LearnerMatch.AllTutors | src/client/components/database/learners/match/index.tsx:67-74 | One row per tutor, in order, named first + " " + last, with the id, flag, record and week copied. |
| LearnerMatch.AvailableTutors | src/client/components/database/learners/match/index.tsx:78 | Exactly the available rows, in order. |
| LearnerMatch.AvailableRowsAreRowsOfAvailableTutors | src/client/components/database/learners/match/index.tsx:67-78 | Rows then the availability filter give the same list as the availability filter then rows. |
| LearnerMatch.HandleMatch | src/client/components/database/learners/match/index.tsx:32-48 | No payload when the learner is not loaded or no tutor has the id. Otherwise the payload pairs the first tutor with that id with the learner, tutor fields first. |
| LearnerMatch.MatchFromId | src/client/components/database/learners/match/index.tsx:35-48 | With unique ids, the payload for a tutor's id is exactly that tutor paired with the learner. |
| LearnerMatch.MatchFromList | src/client/components/database/learners/match/index.tsx:120-128 | With unique ids, an offered tutor is in the list and its Match button produces exactly that tutor's payload. |
| LearnerMatch.SelectByName | src/client/components/database/learners/match/index.tsx:97-99 | `find` by name: the id of the first row with that name. There is none exactly when no row has the name. |
| LearnerMatch.PickAsWritten | src/client/components/database/learners/match/index.tsx:97-99 | The picked name is looked up among ALL tutors. The result is the id of the first tutor in list order with that name, and none exactly when nobody has it. |
| LearnerMatch.PickAsWrittenCanChooseUnavailable | src/client/components/database/learners/match/index.tsx:97-111 | An unavailable tutor listed before an available namesake is the one picked. |
| LearnerMatch.PickOffered | src/client/components/database/learners/match/index.tsx:97-111 | Corrected pick: the name resolves only among the available tutors that the drop-down offers. |
| LearnerMatch.ManualMatchAsWritten | src/client/components/database/learners/match/index.tsx:96-103 | The select handler as written. A pick yields a payload exactly when the learner is loaded and some tutor, available or not, bears the name. The payload names the learner and the id of the first such tutor. |
| LearnerMatch.ManualMatchAsWrittenPairsFirstNamesake | src/client/components/database/learners/match/index.tsx:96-103 | With unique ids, the handler as written pairs the learner with the first tutor in list order that bears the name. |
| LearnerMatch.ManualMatchAsWrittenPairsUnavailable | src/client/components/database/learners/match/index.tsx:96-111 | For two tutors with one name and different ids, the unavailable one listed first (such as two "Ann Lee"s), the handler as written pairs the unavailable tutor. The corrected handler pairs the available one. |
| LearnerMatch.ManualMatch | src/client/components/database/learners/match/index.tsx:96-111 | Corrected handler (see Findings). A pick yields a payload exactly when the learner is loaded and an available tutor bears the name. |
| LearnerMatch.ManualMatchPairsOfferedTutor | src/client/components/database/learners/match/index.tsx:96-111 | With unique ids, picking the name of an available tutor always pairs the learner with an available tutor of that name. |
| TutorMatch.PreferredLevels | src/client/components/database/tutors/match/index.tsx:59-61 | Exactly the keys with a truthy value other than `tutor_id`, in entry order. |
| TutorMatch.FilterLearners | src/client/components/database/tutors/match/index.tsx:56-67 | Empty when no tutor or no record is loaded. Otherwise a learner is listed exactly when it is available and its level is a preferred level, kept in order and multiplicity. |
| TutorMatch.AllLearners | src/client/components/database/tutors/match/index.tsx:69-76 | One row per learner, in order, named first + " " + last. |
| TutorMatch.AvailableLearners | src/client/components/database/tutors/match/index.tsx:81 | Exactly the available rows, in order. |
| TutorMatch.AvailableRowsAreRowsOfAvailableLearners | src/client/components/database/tutors/match/index.tsx:69-81 | Rows then the availability filter give the same list as the availability filter then rows. |
| TutorMatch.HandleMatch | src/client/components/database/tutors/match/index.tsx:33-49 | No payload when the tutor is not loaded or no learner has the id. Otherwise the tutor is paired with the first learner with that id. |
| TutorMatch.MatchFromId | src/client/components/database/tutors/match/index.tsx:36-49 | With unique ids, the payload for a learner's id is exactly the tutor paired with that learner. |
| TutorMatch.MatchFromList | src/client/components/database/tutors/match/index.tsx:114-118 | With unique ids, an offered learner is in the list and its Match button produces exactly that learner's payload. |
| TutorMatch.SelectByName | src/client/components/database/tutors/match/index.tsx:95 | `find` by name: the id of the first row with that name, or none. |
| TutorMatch.PickAsWritten | src/client/components/database/tutors/match/index.tsx:95 | The picked name is looked up among ALL learners. The result is the id of the first learner in list order with that name, and none exactly when nobody has it. |
| TutorMatch.PickAsWrittenCanChooseUnavailable | src/client/components/database/tutors/match/index.tsx:95-106 | An unavailable learner listed before an available namesake is the one picked. |
| TutorMatch.PickOffered | src/client/components/database/tutors/match/index.tsx:95-106 | Corrected pick: the name resolves only among the available learners that the drop-down offers. |
| TutorMatch.ManualMatchAsWritten | src/client/components/database/tutors/match/index.tsx:94-99 | The select handler as written. A pick yields a payload exactly when the tutor is loaded and some learner, available or not, bears the name. The payload names the tutor and the id of the first such learner. |
| TutorMatch.ManualMatchAsWrittenPairsFirstNamesake | src/client/components/database/tutors/match/index.tsx:94-99 | With unique ids, the handler as written pairs the tutor with the first learner in list order that bears the name. |
| TutorMatch.ManualMatchAsWrittenPairsUnavailable | src/client/components/database/tutors/match/index.tsx:94-106 | For two learners with one name and different ids, the unavailable one listed first (such as two "Sam Cole"s), the handler as written pairs the unavailable learner. The corrected handler pairs the available one. |
| TutorMatch.ManualMatch | src/client/components/database/tutors/match/index.tsx:94-106 | Corrected handler (see Findings). A pick yields a payload exactly when the tutor is loaded and an available learner bears the name. |
| TutorMatch.ManualMatchPairsOfferedLearner | src/client/components/database/tutors/match/index.tsx:94-106 | With unique ids, picking the name of an available learner always pairs the tutor with an available learner of that name. |
| Eligibility.SingleTutor | src/client/components/database/learners/match/index.tsx:59-64 | A one-tutor pool keeps the tutor exactly when it is available, has a record, and prefers the level. |
| Eligibility.SingleLearner | src/client/components/database/tutors/match/index.tsx:63-66 | A one-learner pool keeps the learner exactly when it is available and its level is preferred. |
| Eligibility.PreferredLevelsArePreferredKeys | src/client/components/database/tutors/match/index.tsx:59-61 | With unique keys, a key is a preferred level exactly when it is not `tutor_id` and its entry is truthy. |
| Eligibility.FiltersAgree | src/client/components/database/learners/match/index.tsx:59-64 | For an available tutor and an available learner, each screen offers the other exactly when the other screen offers it back. The learner's level is an ordinary key, not `tutor_id` and not an inherited property name (see Left out). |
| Eligibility.OnlyAvailableTutorOffered | src/client/components/database/learners/match/index.tsx:59-64 | Take a `basic_math` learner and two `basic_math` tutors, one of them matched: only the available tutor is offered. |
| Matches.Search | src/client/components/database/matches/index.tsx:27-39 | A match is kept exactly when the lower-cased query occurs in the lower-cased tutor name or learner name. Order and multiplicity are kept. |
| Matches.EmptyQueryKeepsAll | src/client/components/database/matches/index.tsx:29-35 | The empty query keeps every match. |
| Matches.SearchIgnoresCase | src/client/components/database/matches/index.tsx:31-35 | Queries with the same lower case give the same result. |
| Matches.UpperAndLowerQueriesAgree | src/client/components/database/matches/index.tsx:31-35 | "JOHN" and "john" find the same matches. |
| Matches.TutorNameFindsMatch | src/client/components/database/matches/index.tsx:30-32 | Searching for a tutor's full name, in any case, finds the match. |
| Matches.RemoveMatch | src/client/components/database/matches/index.tsx:41-49 | After a successful delete, exactly the matches with another id remain, in order. After a failed delete, the list is unchanged. |
| Matches.RemoveTwiceIsRemoveOnce | src/client/components/database/matches/index.tsx:44 | Removing the same id again changes nothing. |
| Matches.RemoveCommutesWithSearch | src/client/components/database/matches/index.tsx:28-44 | The shown list after a delete is the old shown list without the deleted id. |
| TutorForm.KeyCount | src/client/components/forms/tutors/index.tsx:132 | `Object.keys(errors).length` is 0 exactly when no field has a message. |
| TutorForm.DayMessage | src/client/components/forms/tutors/index.tsx:120-128 | A failing day's message names its fault: a missing end time, a missing start time, or the order. |
| TutorForm.EqualTimesFail | src/client/components/forms/tutors/index.tsx:126-128 | A day whose start and end times are equal and set fails, with the "start before end" message, because the comparison is `>=`. |
| TutorForm.CheckDayEffect | src/client/components/forms/tutors/index.tsx:118-128 | A passing day leaves the message unchanged. A failing day overwrites it with its own message. |
| TutorForm.CheckDays | src/client/components/forms/tutors/index.tsx:117-129 | With no failing day the message is unchanged. Otherwise the message is that of the last failing day. |
| TutorForm.RequiredError | src/client/components/forms/tutors/index.tsx:103-107 | A "required" message is present exactly when the value is blank after trimming. |
| TutorForm.PatternError | src/client/components/forms/tutors/index.tsx:105-112 | "Required" applies when the value is blank. "Invalid" applies, overriding it, when the value is non-empty and fails its pattern. |
| TutorForm.PhoneError | src/client/components/forms/tutors/index.tsx:105-111 | The phone has a message exactly when it is not ten digits: "required" if empty, otherwise "invalid". |
| TutorForm.EmailError | src/client/components/forms/tutors/index.tsx:106-112 | The e-mail has a message exactly when it fails the pattern: "required" if empty, otherwise "invalid". |
| TutorForm.PatternsRejectBlank | src/client/components/forms/tutors/index.tsx:109-110 | Neither pattern accepts an empty or all-whitespace value. |
| TutorForm.AvailabilityError | src/client/components/forms/tutors/index.tsx:117-129 | There is an availability message exactly when some day fails, and it is that of the last failing day in weekday order. |
| TutorForm.AvailabilityVerdict | src/client/components/forms/tutors/index.tsx:117-129 | The week loop reports exactly when some day fails, with the last failing day's message. |
| TutorForm.LastFailingDay | src/client/components/forms/tutors/index.tsx:117-129 | If some day fails, there is a last failing day. |
| TutorForm.ValidateForm | src/client/components/forms/tutors/index.tsx:100-129 | Each field's final message, stated per field. A name or gender message appears exactly when the value is blank. A phone or e-mail message appears exactly when the pattern fails ("invalid" overrides "required"). The preferences message appears exactly when nothing is ticked. The availability message is the last failing day's. |
| TutorForm.IsValid | src/client/components/forms/tutors/index.tsx:131-132 | The form is valid exactly when every name is non-blank, both patterns hold, a preference is ticked and every day passes. |
| TutorForm.WhitespacePhoneIsInvalid | src/client/components/forms/tutors/index.tsx:105-111 | A whitespace-only phone ends with "Phone number is invalid". |
| TutorForm.InitialFormErrors | src/client/components/forms/tutors/index.tsx:18-47 | The untouched form has the five "required" messages and the preferences message, no availability message, and is not valid. |
| TutorForm.InitialWeekPasses | src/client/components/forms/tutors/index.tsx:39-46 | The untouched form holds every day of the week, each with both times empty, so every day passes the availability checks. |
| TutorForm.SetPreference | src/client/components/forms/tutors/index.tsx:67-73 | `{...p, [key]: checked}` sets that key and leaves every other key's value alone. An existing key keeps its place, a new key is appended, and keys stay unique. |
| TutorForm.HandleChange | src/client/components/forms/tutors/index.tsx:50-98 | A text or select change sets only its own field. A ticked box under `preferences` changes only that preference, and any other box changes nothing. A time change sets one time of one day and leaves every other day and field alone. The full week is preserved. |
| TutorForm.TickingClearsPreferenceError | src/client/components/forms/tutors/index.tsx:64-73 | After a preference box is ticked, the form has no preferences message. |
| TutorDetails.ToggleDeleteMessage | src/client/components/database/tutors/details/index.tsx:23-29 | The toggle always flips the confirmation box. |
| TutorDetails.ToggleTwiceRestores | src/client/components/database/tutors/details/index.tsx:23-29 | Toggling twice restores the original state. |
| TutorDetails.DeleteRequest | src/client/components/database/tutors/details/index.tsx:31-34 | The delete call is made exactly when the route id is present and non-empty, with that id. |
| TutorDetails.Label | src/client/components/database/tutors/details/index.tsx:87 | `replace(/_/g, " ")` turns every underscore into a space and keeps every other character. |
| TutorDetails.ListedPreferencesAsWritten | src/client/components/database/tutors/details/index.tsx:83-88 | The page lists exactly the truthy entries of the stored record, in entry order. The list is empty when the record is absent. |
| TutorDetails.AsWrittenListsTutorId | src/client/components/database/tutors/details/index.tsx:83-88 | A stored record that carries `tutor_id` gets that id listed as a preference. |
| TutorDetails.ListedPreferences | src/client/components/database/tutors/details/index.tsx:83-88 | Corrected list: the truthy keys other than `tutor_id`, in entry order. |
| TutorDetails.ListedLevelsAreMatchedLevels | src/client/components/database/tutors/details/index.tsx:83-88 | A level is listed on the page exactly when the tutor's match screen offers an available learner of that level. |
| TutorDetails.Render | src/client/components/database/tutors/details/index.tsx:43-131 | Only the loading state is shown while the tutor is not loaded. Once loaded, the page shows the full name as heading and the labelled preferences. It lists exactly the active days, in weekday order. Match is offered exactly when the tutor is available, and the confirmation box follows its flag. |
| TutorDetails.StatusMatchesButton | src/client/components/database/tutors/details/index.tsx:95-122 | The status line says "is available" exactly when the Match button is shown. |

## Left out

- Rendering, routing, `useState`/`useEffect` wiring, `alert` and console output. These are
  display and side effects.
- The data services (fetch, create, delete). A delete is modelled only by its outcome,
  `Deleted` or `DeleteFailed`. A fetch that has not finished, or failed, is `None`.
- Splitting an event's `name` at the dot (`"preferences.conversation"`, `"monday.start_time"`).
  A change event arrives already split into the `Change` datatype. A time change names a
  `Day`, so a day name outside the week cannot occur.
- `handleSubmit`. Capitalising the names with `capitalizeName` is not part of this model,
  and neither is the create call. The submit decision is `TutorForm.IsValid`.
- `convertTime`, the `times` list and the per-day slicing of the time drop-downs. They only
  affect display.
- The order of the error messages on screen, i.e. the insertion order of the error object's
  keys. The model keeps one optional message per field.
- Learner levels shown with `replace('_', ' ')`, which replaces only the first underscore.
  This is display only.
- Strings.Lower: lowers ASCII capitals only. JavaScript's `toLowerCase` also folds
  non-ASCII letters.
- Strings.IsWhitespace: covers ASCII whitespace, U+00A0, U+2028, U+2029 and U+FEFF. It does
  not cover the other Unicode space separators that `trim()` and the regex class `\s` accept.
- Strings.IsEmail: models `/^[^\s@]+@[^\s@]+\.[^\s@]+$/` with the same whitespace set as
  above.
- Schedule.ActiveDays: lists days in weekday order. The code lists them in the stored
  object's key order, which the form also creates Monday first.
- Records.Lookup: finds only the record's own entries. In JavaScript, `preferences[key]`
  also finds properties inherited from `Object.prototype` (`constructor`, `toString`,
  `valueOf`, `__proto__`, ...), and these are truthy. A learner whose level is such a name
  would be offered every tutor with a preference record on the learner screen, and to no
  tutor on the tutor screen, which iterates over own keys only. The model takes levels to be
  ordinary category names, so `Eligibility.FiltersAgree` does not cover such levels.
- Records that repeat a key. These are ruled out where it matters by `UniqueKeys`.
- Strings.Less: compares code points. JavaScript compares UTF-16 code units, so the two
  orders differ when one string has a character at or above U+10000 where the other has
  one between U+E000 and U+FFFF. The times compared are ASCII.
- Code versus the written design: the tutor screen decides membership by iterating over
  the stored record minus `tutor_id`, not over a fixed category set. The model follows the
  code. An empty preference object is truthy in JavaScript, so it passes the first guard
  but yields no learners. The model gives the same result.
- TutorDetails.Render: uses the corrected preference list (`ListedPreferences`, see
  Findings) and the `Label` of each key. The list as the code builds it is
  `ListedPreferencesAsWritten`.

## Findings

| source | as written | input that shows it | evidently intended | confidence | as-written member | corrected member |
|---|---|---|---|---|---|---|
| src/client/components/database/learners/match/index.tsx:97-99 | the picked name is looked up with `allTutors.find`, so ALL tutors are searched | an unmatched tutor "Ann Lee" listed before an available "Ann Lee"; picking "Ann Lee" matches the unavailable one | look the name up among `availableTutors`, the rows the drop-down offers | medium, not executed | LearnerMatch.ManualMatchAsWrittenPairsUnavailable | LearnerMatch.ManualMatch |
| src/client/components/database/tutors/match/index.tsx:95 | the picked name is looked up with `allLearners.find`, so ALL learners are searched | an unmatched learner "Sam Cole" listed before an available "Sam Cole"; picking "Sam Cole" matches the unavailable one | look the name up among `availableLearners` | medium, not executed | TutorMatch.ManualMatchAsWrittenPairsUnavailable | TutorMatch.ManualMatch |
| src/client/components/database/tutors/details/index.tsx:83-88 | every truthy entry of the stored preference record is listed | a record `{tutor_id: "t1", conversation: true}`, which the match screen shows such records carry; the page lists "tutor id" as a preference | skip `tutor_id` as the match screen does | low, not executed | TutorDetails.AsWrittenListsTutorId | TutorDetails.ListedPreferences |
