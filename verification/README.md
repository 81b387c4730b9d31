# Child Health Monitoring System — a Dafny model of its core

CHMS is a PHP web application. Mothers register their children, and doctors record growth
measurements, immunizations and maternal health checks. The system raises growth alerts and
shows dashboards and reports. This project models the core of that application as pure Dafny
functions over immutable tables.

The model covers:

- the session helpers and the request handlers for authentication and children;
- the five data models: children, child health records, immunizations, maternal health records
  and alerts;
- the shared helpers: sanitizing, phone checks, ages, BMI and growth status, date validation and
  initials;
- the request halves of the child profile, mother profile, add-mother-record, all-children and
  reports pages;
- the browser-side checks of `app.js`.

Representation choices:

- Every SQL table is a `seq` of rows.
- A `SELECT ... WHERE ... ORDER BY` becomes a selection. A selection holds the rows that meet the
  condition, each exactly as often as in the table (a multiset statement), and is sorted on the
  key.
- Dates are day numbers and instants are seconds. JavaScript instants are milliseconds.
- Request forms are finite maps from field names to strings.
- A handler returns `Ok(value)` or `Err(reason)`. A reason is the login redirect, the role
  redirect, or the flash message the source sets before it redirects.

Modules follow the source files:

| module | models |
|---|---|
| `Session` | `session.php` |
| `Helpers`, `Growth`, `Calendar`, `Php` | `helpers.php` |
| `Children`, `HealthRecords`, `Immunizations`, `MotherRecords`, `Alerts` | the models |
| `AuthController`, `ChildController` | the controllers |
| `ChildProfile`, `MotherProfile`, `AddMotherRecord`, `AllChildren`, `Reports` | the pages |
| `ClientValidation` | `app.js` |

Shared support lives in these modules:

- `Seqs`: selection, filtering, counting and sorting;
- `Text`: case mapping, split and numerals;
- `SqlLike`: the `LIKE` matcher;
- `Wrappers`, `Request` and `Records`: optional values, verdicts, form fields, check chains and
  table lookups.

Things the application cannot compute itself are parameters of the functions that need them:

- the current date and time;
- whether a database write succeeded;
- the outcome of `filter_var` email validation;
- the result of the password check;
- whether an email address is already registered.

## Model

| member | source | states |
|---|---|---|
| Session.RequireLogin | CHMS/src/config/session.php:32-37 | a request continues exactly when both `user_id` and `role` are set in the session (`isLoggedIn`); otherwise it is sent to the login page |
| Session.RequireRole | CHMS/src/config/session.php:43-49 | continues exactly when logged in with that role; not logged in goes to login, the wrong role goes to the index page |
| Wrappers.Lookup | CHMS/src/config/session.php:55-57 | reading `$_SESSION`, `$_GET` or `$_POST` with `?? null` yields a value exactly when the key is present, and then the stored value |
| Session.CurrentUserId | CHMS/src/config/session.php:55-57 | the current user id is present exactly when the session holds an integer `user_id` |
| Session.LoginUser | CHMS/src/config/session.php:79-84 | login adds exactly the four user keys and leaves every other key as it was |
| Session.LoginEstablishesUser | CHMS/src/config/session.php:79-84 | after login the user is logged in, has their own role and no other, and is the current user id |
| Session.LogoutUser | CHMS/src/config/session.php:89-92 | logout empties the session, so nobody is logged in and no role holds |
| Session.SetFlashMessage | CHMS/src/config/session.php:99-102 | setting a flash adds the message and type keys and changes nothing else |
| Session.SetInfoMessage | CHMS/src/config/session.php:99-102 | the type defaults to 'info' |
| Session.GetFlashMessage | CHMS/src/config/session.php:108-119 | a flash is returned exactly when one is stored; reading it removes the two flash keys and keeps the rest |
| Session.FlashRoundTrip | CHMS/src/config/session.php:99-119 | a flash that was set is read back unchanged, and a second read finds none |
| Session.FlashOverwrite | CHMS/src/config/session.php:99-102 | only the last flash set survives |
| Session.FlashKeepsLogin | CHMS/src/config/session.php:108-119 | reading the flash does not change who is logged in or their role |
| Request.IntParam | CHMS/child_profile.php:15 | a missing parameter is 0; a present one is its `(int)` cast |
| Request.FieldOr | CHMS/src/controllers/auth_controller.php:14 | `??` yields the submitted value when present and the default otherwise |
| Request.LoginGuard | CHMS/src/config/session.php:32-37 | the guard passes exactly when logged in and otherwise names the login redirect |
| Request.RoleGuard | CHMS/src/config/session.php:43-49 | passes exactly when the role holds; otherwise the login redirect when logged out, else the role redirect |
| Records.FindChild | CHMS/src/models/Child.php:51-62 | a lookup finds a row of the table with that id, and fails exactly when no row has it |
| Records.FindUser | CHMS/src/models/User.php:57-67 | a lookup finds a user row with that id, and fails exactly when none has it |
| Records.ChildOfMotherIffRow | CHMS/src/models/Child.php:225-235 | with unique child ids, the looked-up child belongs to the mother exactly when such a row exists |
| Php.Trim | CHMS/src/config/helpers.php:13 | the result is a part of the input with no trimmable character at either end, and is empty for all-blank input |
| Php.TrimKeeps | CHMS/src/config/helpers.php:13 | text that already starts and ends with a non-blank character is unchanged |
| Php.StripSlashes | CHMS/src/config/helpers.php:14 | never lengthens the text, and leaves text without backslashes unchanged |
| Php.HtmlSpecialChars | CHMS/src/config/helpers.php:15 | no special character survives except the ampersands that start entities; plain text is unchanged |
| Php.HtmlRoundTrip | CHMS/src/config/helpers.php:15 | decoding the entities gives back the original text |
| Php.SanitizePlain | CHMS/src/config/helpers.php:12-17 | on text without backslashes or HTML specials, `sanitize` is just `trim` |
| Php.Sanitize | CHMS/src/config/helpers.php:12-17 | no HTML-special character but `&` is left, decoding the entities gives the trimmed, unslashed text, and blank input gives "" |
| Php.IntCast | CHMS/child_profile.php:15 | the cast of the empty string is 0, and every cast lies between `PHP_INT_MIN` and `PHP_INT_MAX` |
| Php.IntCastNumeral | CHMS/child_profile.php:15 | the cast of a decimal numeral is its value up to `PHP_INT_MAX`, and `PHP_INT_MAX` beyond it |
| Php.IntCastMinimum | CHMS/child_profile.php:15 | the numeral of `-(PHP_INT_MAX + 1)` casts exactly to `PHP_INT_MIN` |
| Php.IntCastNonNumeric | CHMS/child_profile.php:15 | text that does not start with a digit or sign after blanks casts to 0 |
| Php.Round | CHMS/src/config/helpers.php:93 | rounds to a nearest integer, with halves going away from zero |
| Php.RoundIsNearest | CHMS/src/config/helpers.php:93 | no integer is nearer to the input than the rounded value |
| Php.RoundWithin | CHMS/all_children.php:106 | rounding a value between two integers stays between them |
| Php.Strlen | CHMS/src/controllers/auth_controller.php:114 | the byte length is between one and four times the character count, and equals it on ASCII |
| Text.Split | CHMS/src/config/helpers.php:231 | `explode` yields at least one piece, and no piece holds the separator |
| Text.JoinSplit | CHMS/src/config/helpers.php:231 | joining the pieces of `explode` again gives back the original text |
| Text.ContainsIffOccurs | CHMS/src/models/Child.php:194-217 | containment holds exactly when the needle occurs at some position |
| SqlLike.PercentMatchesAll | CHMS/src/models/Child.php:194-217 | the pattern `%` matches every name |
| SqlLike.PlainPrefix | CHMS/src/models/Child.php:194-217 | for a term without wildcards, `term%` matches exactly the names that start with the term, ignoring case |
| SqlLike.PlainSearchIsContainment | CHMS/src/models/Child.php:194-217 | for a term without wildcards, the search pattern `%term%` matches exactly the names containing the term, ignoring case |
| SqlLike.UnderscoreMatchesAnyNonEmpty | CHMS/src/models/Child.php:194-217 | a search for `_` matches every non-empty name, not names that contain an underscore |
| Calendar.DayOf | CHMS/src/config/helpers.php:125-130 | an instant lies between the midnight of its day and the next midnight |
| Calendar.Normalize | CHMS/src/config/helpers.php:220-223 | an out-of-range day or month rolls over into a real date, and a real date is kept |
| Calendar.ParseFormat | CHMS/src/config/helpers.php:220-223 | every real date with a four-digit year, once formatted as Y-m-d, parses back to itself |
| Calendar.ValidateDate | CHMS/src/config/helpers.php:220-223 | `validateDate` accepts exactly the Y-m-d texts of real dates with years 0 to 9999: rolled-over and unpadded dates fail |
| Calendar.ValidatedShape | CHMS/src/config/helpers.php:220-223 | an accepted text has ten characters, dashes in place, digit fields and a real calendar date |
| Calendar.February30Rejected | CHMS/src/config/helpers.php:220-223 | no text naming the 30th of February is accepted |
| Calendar.FormatShape | CHMS/src/config/helpers.php:220-223 | a negative year formats with a leading minus sign, and a five-digit year formats longer than ten characters, so neither can validate |
| Helpers.AgeInMonths | CHMS/src/config/helpers.php:43-48 | the month count splits back into the interval's years and months |
| Helpers.CalculateAgeString | CHMS/src/config/helpers.php:55-71 | under a year the age is "n month(s)"; otherwise it is "n year(s)" followed by the months when there are any, each unit singular exactly at 1 |
| Helpers.AgeStringInjective | CHMS/src/config/helpers.php:55-71 | different intervals never produce the same age text |
| Helpers.ValidatePhone | CHMS/src/config/helpers.php:33-36 | a phone number passes exactly when it is non-empty, is not a lone "+", and is digits, white space, dashes and parentheses after an optional leading "+" |
| Helpers.SingularExactlyAtOne | CHMS/src/config/helpers.php:55-71 | a unit is written in the singular exactly when the count is one |
| Helpers.IsVaccinationOverdue | CHMS/src/config/helpers.php:125-130 | no due date is never overdue; a past due day always is; a future day never is; the due day itself is overdue once its midnight has passed |
| Helpers.InitialWords | CHMS/src/config/helpers.php:230-239 | the words used are non-empty, not "0", and free of spaces |
| Helpers.GetInitials | CHMS/src/config/helpers.php:230-239 | at most two letters, one per usable word in order, each the upper-cased first character; an empty name gives "" |
| Growth.CalculateBmi | CHMS/src/config/helpers.php:91-94 | a missing or non-positive height gives 0; otherwise the result is the BMI rounded to hundredths, within half a hundredth of the exact value |
| Growth.AssessGrowthStatus | CHMS/src/config/helpers.php:105-118 | each status holds exactly on its BMI band: below 14, 14 to 18, 18 to 20, 20 and above |
| Growth.StatusIgnoresAgeAndGender | CHMS/src/config/helpers.php:105-118 | the status does not depend on the age or the gender passed in |
| Growth.BandMonotone | CHMS/src/config/helpers.php:105-118 | a larger BMI never gives a lower status |
| Growth.RoundedBandBoundary | CHMS/src/config/helpers.php:91-118 | a BMI just under 14 rounds up to 14.00 and is rated Normal |
| Growth.NoHeightIsUnderweight | CHMS/src/config/helpers.php:91-118 | a zero or negative height gives BMI 0 and so the status Underweight |
| Growth.GenerateHealthAlert | CHMS/src/config/helpers.php:194-212 | no alert exactly in the normal band; below it an underweight alert, at 18 or above an overweight alert, each for the given child with its fixed message |
| Growth.SmallChildAlert | CHMS/src/config/helpers.php:194-212 | 2.5 kg at 0.5 m gives BMI 10.00 and an underweight alert |
| Growth.HeavyChildAlert | CHMS/src/config/helpers.php:194-212 | 6 kg at 0.55 m gives BMI 19.83 and an overweight alert |
| Growth.NormalChildNoAlert | CHMS/src/config/helpers.php:194-212 | 6 kg at 0.6 m gives BMI 16.67 and no alert |
| Children.Create | CHMS/src/models/Child.php:28-45 | a successful insert appends one row with the given fields and the new id, keeping the table before it; a failed one changes nothing |
| Children.ReadAll | CHMS/src/models/Child.php:69-89 | the listing is the mother's children (all children for a missing or zero id), newest first |
| Children.ReadAllFalsyIsEverything | CHMS/src/models/Child.php:69-89 | a missing or zero mother id lists every child exactly once |
| Children.Update | CHMS/src/models/Child.php:95-110 | the rows with the id get the new name, date of birth and gender; everything else is unchanged |
| Children.UpdateKeepsMother | CHMS/src/models/Child.php:95-110 | an update never moves a child to another mother, so ownership is unchanged |
| Children.IsOwnedByMother | CHMS/src/models/Child.php:225-235 | holds exactly when a row joins that child id to that mother |
| Children.OwnershipAgreesWithLookup | CHMS/src/models/Child.php:225-235 | with unique ids, ownership agrees with looking the child up and comparing its mother |
| Children.MaxDate | CHMS/src/models/Child.php:128-159 | the latest record date of a child is the date of one of its records and no earlier than any other; absent when it has none |
| Children.RowsFor | CHMS/src/models/Child.php:128-159 | a child yields one row without vitals when it has no records, otherwise one row per record on its latest date, each of which appears |
| Children.GetChildrenWithLatestRecords | CHMS/src/models/Child.php:128-159 | rows are newest child first; every child of the mother appears, each row paired with one of its latest-dated records or with none; a child without records gives one row per listing, and a child with records one row per record on its latest date |
| Children.GetStatistics | CHMS/src/models/Child.php:166-186 | counts the mother's children; the sums and average are NULL over no rows, and the boys and girls together do not exceed the total |
| Children.Search | CHMS/src/models/Child.php:194-217 | the search keeps, in table order, exactly the mother's children whose names match `%term%` |
| Children.PlainSearch | CHMS/src/models/Child.php:194-217 | for a term without wildcards the search keeps exactly the names containing it, ignoring case |
| HealthRecords.ReadByChild | CHMS/src/models/HealthRecord.php:77-89 | the history holds exactly the child's records, each once per row, newest date first |
| HealthRecords.ReadAll | CHMS/src/models/HealthRecord.php:96-116 | all records newest first; a positive limit keeps that many (or all if fewer); no limit or 0 keeps all |
| HealthRecords.LimitIsPrefix | CHMS/src/models/HealthRecord.php:96-116 | a limited listing is the start of the unlimited one |
| HealthRecords.Update | CHMS/src/models/HealthRecord.php:122-143 | the record with the id gets the new measurements and keeps its child; other rows are unchanged |
| HealthRecords.UpdateKeepsOwnership | CHMS/src/models/HealthRecord.php:122-143 | an update never moves a record to another child, and repeating it changes nothing more |
| HealthRecords.GetLatestRecord | CHMS/src/models/HealthRecord.php:161-174 | the latest record is one of the child's with the greatest date; none exactly when the child has none |
| HealthRecords.GetGrowthTrend | CHMS/src/models/HealthRecord.php:181-192 | one point per record of the child, in ascending date order |
| HealthRecords.TrendPointsAreRecords | CHMS/src/models/HealthRecord.php:181-192 | every trend point is the date, weight and height of one of the child's records |
| HealthRecords.TrendMatchesHistory | CHMS/src/models/HealthRecord.php:181-192 | the trend has as many points as the history has rows |
| HealthRecords.GetRecordsByDateRange | CHMS/src/models/HealthRecord.php:201-216 | exactly the child's records dated within the inclusive range, newest first |
| HealthRecords.DateRangeWithinHistory | CHMS/src/models/HealthRecord.php:201-216 | a range is part of the child's history, and an inverted range is empty |
| HealthRecords.Average | CHMS/src/models/HealthRecord.php:222-234 | `AVG` is NULL exactly over no rows |
| HealthRecords.AverageBounds | CHMS/src/models/HealthRecord.php:222-234 | an average lies within any bounds on the averaged values |
| HealthRecords.GetStatistics | CHMS/src/models/HealthRecord.php:222-234 | counts all records and the distinct children monitored (never more than the records); the averages are NULL only over an empty table |
| HealthRecords.RecordExistsForDate | CHMS/src/models/HealthRecord.php:243-263 | true exactly when some record of the child is dated that day; the excluded id applies only when given and non-zero |
| HealthRecords.ExistsForDateAgreesWithHistory | CHMS/src/models/HealthRecord.php:243-263 | excluding id 0 is the same as excluding nothing, and the answer agrees with the child's history |
| Immunizations.ReadByChild | CHMS/src/models/Immunization.php:71-83 | exactly the child's immunizations, each once per row, newest dose first |
| Immunizations.GetUpcoming | CHMS/src/models/Immunization.php:141-166 | exactly the immunizations due from today through today plus the window, restricted to the mother's children when one is given, soonest first |
| Immunizations.GetOverdue | CHMS/src/models/Immunization.php:173-197 | exactly the immunizations due before today, restricted to the mother's children when one is given, earliest due first |
| Immunizations.UpcomingOverdueDisjoint | CHMS/src/models/Immunization.php:141-197 | no immunization is both upcoming and overdue, and one without a due date is neither |
| Immunizations.MotherFilterNarrows | CHMS/src/models/Immunization.php:141-197 | a mother's lists are part of the unfiltered lists |
| Immunizations.DueTodayDisagreement | CHMS/src/config/helpers.php:125-130 | after midnight on its due day, a dose counts as overdue for `isVaccinationOverdue`, yet the model queries list it as upcoming and not overdue |
| Immunizations.GetStatistics | CHMS/src/models/Immunization.php:221-234 | the overdue and upcoming counts split the dated immunizations; distinct children never exceed them |
| Immunizations.OverdueAmongDated | CHMS/src/models/Immunization.php:221-234 | counting the dated doses due before today counts the overdue ones |
| Immunizations.StatisticsMatchLists | CHMS/src/models/Immunization.php:173-234 | the overdue count equals the overdue list's length, and the 30-day upcoming list never exceeds the upcoming count |
| Immunizations.VaccineExists | CHMS/src/models/Immunization.php:242-252 | true exactly when the child has a dose with exactly that vaccine name |
| MotherRecords.ReadByMother | CHMS/src/models/MotherHealthRecord.php:97-107 | exactly the mother's records, each once per row, newest first |
| MotherRecords.ReadAll | CHMS/src/models/MotherHealthRecord.php:115-143 | records that join a user and meet each filter that is given, newest first |
| MotherRecords.ReadAllFiltersConjoin | CHMS/src/models/MotherHealthRecord.php:115-143 | with both filters the listing is what both single-filter listings have in common |
| MotherRecords.Update | CHMS/src/models/MotherHealthRecord.php:149-185 | the record with the id gets the new values and keeps its mother; other rows are unchanged |
| MotherRecords.UpdateKeepsMother | CHMS/src/models/MotherHealthRecord.php:149-185 | an update moves no record between mothers, so each mother keeps her record count |
| MotherRecords.GetLatestRecord | CHMS/src/models/MotherHealthRecord.php:203-214 | one of the mother's records with the greatest date; none exactly when she has none |
| MotherRecords.HealthTrendAsWritten | CHMS/src/models/MotherHealthRecord.php:219-235 | the query as written: the first `limit` records in ascending date, that is the oldest ones |
| MotherRecords.RecentHealthTrend | CHMS/src/models/MotherHealthRecord.php:219-235 | the documented trend: the last `limit` records in ascending date order |
| MotherRecords.TrendAsWrittenDropsNewest | CHMS/src/models/MotherHealthRecord.php:219-235 | with more records than the limit, the newest record is missing from the query's result but present in the recent trend |
| MotherRecords.GetUpcomingCheckups | CHMS/src/models/MotherHealthRecord.php:242-255 | exactly the joined records with a next check-up within the window, soonest first |
| MotherRecords.GetUpcomingCheckupsDefault | CHMS/src/models/MotherHealthRecord.php:242-255 | with the default window of 7 days, the records with a check-up date due that week |
| MotherRecords.GroupStats | CHMS/src/models/MotherHealthRecord.php:261-281 | a record-type group counts its records and exactly the distinct mothers having a record of that type |
| MotherRecords.GetStatistics | CHMS/src/models/MotherHealthRecord.php:261-281 | one group per record type that occurs, each with its record count and the number of distinct mothers with that type, between one and the count |
| Alerts.Create | CHMS/src/models/Alert.php:28-47 | appends one alert with the new id, child, type, message and time, leaving the others; its status is the one given or 'pending' when unset |
| Alerts.UpdateStatus | CHMS/src/models/Alert.php:115-125 | the alerts with the id take the new status; nothing else changes |
| Alerts.Resolve | CHMS/src/models/Alert.php:169-172 | the alert with the id becomes resolved, its other fields and every other alert unchanged |
| Alerts.ResolveIdempotent | CHMS/src/models/Alert.php:169-172 | resolving twice is the same as resolving once |
| Alerts.LastStatusWins | CHMS/src/models/Alert.php:115-125 | of two status updates to the same alert only the last one counts |
| Alerts.ResolvedCanReopen | CHMS/src/models/Alert.php:115-125 | a resolved alert can be set back to pending |
| Alerts.ReadAll | CHMS/src/models/Alert.php:75-109 | exactly the alerts meeting each given filter (status, child, the mother's children), newest first |
| Alerts.ReadAllUnfiltered | CHMS/src/models/Alert.php:75-109 | with no filters every alert is listed exactly once |
| Alerts.GetPendingCount | CHMS/src/models/Alert.php:143-163 | the pending count equals the length of the pending listing for the same mother |
| Alerts.GetByType | CHMS/src/models/Alert.php:180-196 | exactly the alerts of that type and status, newest first |
| Alerts.GetPendingByType | CHMS/src/models/Alert.php:180-196 | the default status is pending |
| Alerts.Statuses | CHMS/src/models/Alert.php:202-218 | the statuses grouped are exactly those that occur, and any other status has count zero |
| Alerts.GetStatistics | CHMS/src/models/Alert.php:202-218 | the map has pending and resolved (preset to 0) and every status that occurs, each with its exact count |
| Alerts.StoreCounts | CHMS/src/models/Alert.php:202-218 | the loop stores each grouped status with its exact count |
| Alerts.DeleteOldResolved | CHMS/src/models/Alert.php:225-235 | removes exactly the resolved alerts older than the cut-off, keeping the order of the rest and reporting how many went |
| Alerts.PurgeKeepsPendingCount | CHMS/src/models/Alert.php:225-235 | the purge never changes the pending count |
| Alerts.CreateUnsetCountsPending | CHMS/src/models/Alert.php:28-47 | an alert created without a status adds one to the pending count |
| ChildController.Dispatch | CHMS/src/controllers/child_controller.php:13-32 | a logged-out request is sent to login; a POST is routed on `action`, and an unknown action is an error |
| ChildController.CreateWork | CHMS/src/controllers/child_controller.php:65-84 | the child belongs to the session user, and an initial record is written exactly when weight and height are both non-empty |
| ChildController.HandleCreate | CHMS/src/controllers/child_controller.php:37-92 | only mothers; then required fields, a valid date and a known gender, in that order; success exactly when all pass and the insert works |
| ChildController.CreateIsFirstFailure | CHMS/src/controllers/child_controller.php:47-63 | the create handler reports the first failing check's message |
| ChildController.HandleUpdate | CHMS/src/controllers/child_controller.php:97-141 | login, a positive id, ownership, then required fields; success exactly when all hold and the update works |
| ChildController.HandleDelete | CHMS/src/controllers/child_controller.php:146-176 | login, a positive id and ownership; success exactly when they hold and the delete works |
| ChildController.OwnershipDecides | CHMS/src/controllers/child_controller.php:113-119 | doctors may change any child, and a mother exactly her own |
| ChildController.UpdateSkipsCreateChecks | CHMS/src/controllers/child_controller.php:122-126 | an update accepts an impossible date and an unknown gender that create would reject |
| ChildController.PlainSanitized | CHMS/src/config/helpers.php:12-17 | a plain word (letters, digits, dashes) comes through `sanitize` unchanged |
| ChildController.ReadChildForm | CHMS/src/controllers/child_controller.php:40-42 | name, date of birth and gender are each sanitized from the form, and empty when not submitted |
| AuthController.Dispatch | CHMS/src/controllers/auth_controller.php:12-35 | a POST goes to login, register or logout by `action`, and any other action is an error; a GET logs out only for `action=logout` |
| AuthController.HandleLogin | CHMS/src/controllers/auth_controller.php:40-76 | both fields required, then a valid email, then a matching user; success logs that user in with their role and sends doctors to their dashboard |
| AuthController.HandleRegister | CHMS/src/controllers/auth_controller.php:81-148 | a user is created exactly when every field check passes, the email is free and the insert works, with a known role and a password of at least 8 bytes |
| AuthController.RegisterIsFirstFailure | CHMS/src/controllers/auth_controller.php:90-132 | the first failing check decides the message; the uniqueness lookup matters only when all six pass |
| AuthController.PaddedRoleAccepted | CHMS/src/controllers/auth_controller.php:85 | the role is trimmed before the check, so " doctor" registers a doctor |
| AuthController.SanitizePaddedDoctor | CHMS/src/config/helpers.php:12-17 | sanitizing " doctor" gives "doctor" |
| AuthController.ReadRegistration | CHMS/src/controllers/auth_controller.php:82-87 | name, email, phone and role are sanitized from the form, the role defaulting to 'mother' when missing; password and confirmation are taken exactly as submitted |
| AuthController.HandleLogout | CHMS/src/controllers/auth_controller.php:153-157 | logout leaves nobody logged in and a session holding only the goodbye flash |
| ChildProfile.View | CHMS/child_profile.php:13-50 | login, a positive id, an existing child, then a mother only for her own child; success exactly then, with doctor links only for doctors |
| ChildProfile.PageShowsEverything | CHMS/child_profile.php:41-50 | the page lists exactly the child's records, immunizations and alerts of every status |
| ChildProfile.MotherSeesOwnChildOnly | CHMS/child_profile.php:35-39 | with unique ids, a mother is admitted exactly when `isOwnedByMother` holds for her and the child |
| ChildProfile.NonNumericIdRejected | CHMS/child_profile.php:15-19 | a non-numeric id is refused as invalid before any lookup |
| MotherProfile.Latest | CHMS/mother_profile.php:282 | the latest-vitals panel shows the first of the newest-first records, and is empty exactly when there are none |
| MotherProfile.View | CHMS/mother_profile.php:13-48 | login, a positive id, a user who is a mother, then a mother only for herself; success exactly then, with her records, her twelve most recent records as the trend, and exactly her children, newest first |
| MotherProfile.RoleCheckedBeforeOwnership | CHMS/mother_profile.php:30-39 | a mother asking for a doctor's id is told "Mother not found" rather than "Unauthorized access" |
| MotherProfile.ChartsNeedTwoRecords | CHMS/mother_profile.php:113 | the charts appear exactly when the mother has at least two records |
| MotherProfile.LatestIsNewest | CHMS/mother_profile.php:282 | the panel's record is one of hers with the latest date, agreeing with `getLatestRecord` |
| AddMotherRecord.Filled | CHMS/add_mother_health_record.php:36-48 | an empty or missing field becomes null, and any other value is kept |
| AddMotherRecord.ReadDraft | CHMS/add_mother_health_record.php:36-48 | type and date fall back only when missing; vitals, pregnancy week, delivery date and type, and check-up become null when empty and otherwise keep the submitted text; complications, medications and notes are null only when missing |
| AddMotherRecord.Handle | CHMS/add_mother_health_record.php:12-56 | only doctors, then the target must be a mother user; a POST inserts the form as read for her, and success requires the insert to work |
| AddMotherRecord.NoVitalsAccepted | CHMS/add_mother_health_record.php:36-48 | a submission without any vital is inserted with all four vitals null |
| AddMotherRecord.EmptyFieldRulesDiffer | CHMS/add_mother_health_record.php:36-48 | an empty weight becomes null, empty notes stay "", and an empty date stays empty |
| AllChildren.ParseAgeBand | CHMS/all_children.php:43-48 | each of the four band names selects its band, and anything else selects no band |
| AllChildren.BandOf | CHMS/all_children.php:43-48 | every age in months falls in a named band |
| AllChildren.BandsPartition | CHMS/all_children.php:43-48 | the named bands are disjoint and cover every age |
| AllChildren.Listing | CHMS/all_children.php:26-31 | an empty search lists every child, newest first, and otherwise runs the name search |
| AllChildren.GenderFilter | CHMS/all_children.php:34-38 | an empty filter keeps all; otherwise keeps exactly the children of that gender, in order |
| AllChildren.AgeFilter | CHMS/all_children.php:40-51 | an empty filter keeps all; otherwise keeps exactly the children in the chosen band, in order |
| AllChildren.UnknownBandKeepsAll | CHMS/all_children.php:48 | an unrecognised band keeps every child |
| AllChildren.FiltersCommute | CHMS/all_children.php:33-51 | applying the gender and age filters in either order gives the same list |
| AllChildren.Page | CHMS/all_children.php:26-51 | the page lists exactly the listed children that pass both filters |
| AllChildren.PageOnlyRemoves | CHMS/all_children.php:33-51 | the filters only remove children from the listing, keeping its order |
| AllChildren.GenderCounts | CHMS/all_children.php:92-98 | the boy and girl tiles count those genders in the list, together at most its length |
| AllChildren.AverageAge | CHMS/all_children.php:104-106 | 0 for no children; otherwise the rounded mean age |
| AllChildren.AverageAgeWithin | CHMS/all_children.php:104-106 | the average age lies between any bounds on the ages |
| Reports.NameCredits | CHMS/reports.php:46-52 | a vaccine name credits exactly the vaccines whose key it contains, ignoring case |
| Reports.GivenVaccines | CHMS/reports.php:45-52 | the given set holds exactly the vaccines credited by some dose |
| Reports.AtMostSix | CHMS/reports.php:32-39 | a child can be credited with at most the six tracked vaccines |
| Reports.ChildEntry | CHMS/reports.php:41-59 | a child's entry lists its doses and exactly the vaccines they credit, with a total of at most six |
| Reports.VaccinationData | CHMS/reports.php:41-60 | one entry per child, in order, each crediting exactly that child's vaccines |
| Reports.TotalVaccinesGiven | CHMS/reports.php:63 | the total lies between 0 and six per child |
| Reports.RoundTenths | CHMS/reports.php:64 | the result has at most one decimal and is within half a tenth of the input |
| Reports.AverageVaccinesPerChild | CHMS/reports.php:64 | 0 with no children; otherwise the total per child to one decimal, within half a tenth |
| Reports.AverageWithinRange | CHMS/reports.php:64 | the average lies between 0 and 6 |
| Reports.Missing | CHMS/reports.php:66-73 | exactly the entries lacking the vaccine, in order |
| Reports.GivenCount | CHMS/reports.php:176 | counts the children whose entry holds the vaccine, never more than all children |
| Reports.CoverageDecomposes | CHMS/reports.php:66-73 | children given and children missing a vaccine add up to all children, and an entry is missing it exactly when no dose credits it |
| Reports.Percent | CHMS/reports.php:177 | 0 for an empty whole; otherwise the rounded percentage, between 0 and 100 |
| Reports.PercentExtremes | CHMS/reports.php:177 | all of a non-empty whole is 100 percent and none of it is 0 |
| Reports.CoveragePercent | CHMS/reports.php:176-177 | the coverage shown is between 0 and 100, and 0 for no children |
| Reports.FullAndNoCoverage | CHMS/reports.php:176-177 | full coverage shows 100 and no coverage shows 0 |
| Reports.HasRecordsIffRow | CHMS/reports.php:76-85 | a child has records exactly when a record row names it |
| Reports.ChildrenNoRecords | CHMS/reports.php:361-364 | exactly the children without records, in order |
| Reports.RecordCoverage | CHMS/reports.php:76-85 | the loop's two counts are the children with and without records, adding up to all children |
| Reports.LastVaccineAsWritten | CHMS/reports.php:226 | the shown "last vaccine" date is the earliest dose of the child |
| Reports.LastVaccine | CHMS/reports.php:226 | the intended last vaccine date is the latest dose of the child |
| Reports.LastVaccineShowsEarliest | CHMS/reports.php:226 | with two doses on different dates, the shown date is earlier than the latest dose |
| Reports.CoverageIsNotExactMatch | CHMS/reports.php:48 | a dose named "BCG vaccine" credits BCG, because the match is by substring |
| Reports.OneNameTwoVaccines | CHMS/reports.php:47-50 | one dose named "Measles MMR" credits both Measles and MMR |
| ClientValidation.EmailPatternIsRule | CHMS/assets/js/app.js:7-10 | the email pattern accepts exactly the texts with no space, one `@` with text before it, and a dot with text on both sides after it |
| ClientValidation.PhoneAgreesOnAscii | CHMS/assets/js/app.js:13-16 | on ASCII text the browser's and the server's phone checks agree |
| ClientValidation.NoBreakSpaceSplitsPhoneChecks | CHMS/assets/js/app.js:13-16 | a no-break space passes the browser's phone check and fails the server's |
| ClientValidation.AgeParts | CHMS/assets/js/app.js:58-64 | the day count rounds the distance up to whole days, then splits into 365-day years and 30-day months |
| ClientValidation.CalculateAge | CHMS/assets/js/app.js:58-73 | the browser's age text is the server's text for the years and months it computes |
| ClientValidation.AgeText | CHMS/assets/js/app.js:66-72 | the browser's three-way wording equals the server's `calculateAgeString` wording for the same years and months |
| ClientValidation.AgeIsSymmetric | CHMS/assets/js/app.js:61 | a birth date in the future gives the same age as the same distance in the past |
| ClientValidation.TwelveMonthsAppears | CHMS/assets/js/app.js:62-64 | 360 days make "12 months" in the browser |
| ClientValidation.ServerNeverSaysTwelveMonths | CHMS/src/config/helpers.php:55-71 | the server never writes "12 months", so the two ages disagree there |

## Left out

- Database access itself. Each query is modelled as a function over the table contents. Whether an
  insert, update or delete succeeds is a boolean or optional-id parameter.
- Redirects, `exit`, headers and all HTML rendering. A handler's result names the redirect or the
  flash message instead.
- `filter_var(..., FILTER_VALIDATE_EMAIL)`. It is a parameter, because its grammar is not in the
  application.
- `User::login` with `password_verify`, and `User::emailExists`. They are parameters: the found
  user and a `taken` flag.
- The rest of `User.php`. Only `readOne` appears, as a lookup.
- The clock and `new DateTime`. Today and now are parameters, and the intervals of
  `calculateAgeInMonths` and `calculateAgeString` are given.
- `formatDate`, `generateUniqueId`, `jsonResponse`, `redirect`, `getBaseUrl` and `debug` in
  `helpers.php`. They only format, print or redirect.
- `readOne`, `delete` and `getHistory` of the models. `readOne` is a plain lookup by id, and the
  others add nothing the modelled queries do not show.
- `Growth.CalculateBmi`: does not model IEEE double rounding. Exact real arithmetic is used, and
  halves round away from zero.
- `Php.IntCast`: covers leading blanks, a sign, a digit prefix and the saturation at
  `PHP_INT_MAX` / `PHP_INT_MIN` of a 64-bit build. Exponent and decimal forms (`"1e3"`, `"1.5"`)
  are left out.
- `Php.Strlen`: counts the UTF-8 bytes of Unicode scalar values. Invalid byte sequences cannot
  occur in the model.
- `MotherProfile.View`: shows the corrected trend, the twelve most recent records
  (`MotherRecords.RecentHealthTrend`). As written, `getHealthTrend($motherId, 12)` returns the
  twelve oldest records (`MotherRecords.HealthTrendAsWritten`; see Findings). Both trends have the
  same number of points, so whether the charts show does not change.
- Text collation. `LIKE` in `Children.Search` folds ASCII letters only. `=` and `GROUP BY` on text
  compare exactly. A case- and accent-insensitive table collation, such as MySQL's default, would
  also equate texts that differ in letter case or accents. The table collation is not part of
  this model. The members that compare exactly are listed below.
- `Immunizations.VaccineExists`: matches vaccine names exactly, with no case or accent folding.
- `Alerts.GetByType`, `Alerts.GetPendingByType`, `Alerts.ReadAll`, `Alerts.GetPendingCount`,
  `Alerts.Statuses` and `Alerts.GetStatistics`: compare alert types and statuses exactly and group
  statuses exactly.
- `MotherRecords.OfType`, `MotherRecords.GroupStats` and `MotherRecords.GetStatistics`: group
  record types exactly. A case-insensitive `GROUP BY` would merge types that differ only in case.
- `Children.Search`: folds ASCII letters only. Other letters and accents are compared as they are.
  It also keeps table order instead of `ORDER BY c.name`, because name order depends on the table
  collation, which is not part of this model.
- `Helpers.GetInitials`: takes the first character of each word and upper-cases ASCII letters.
  PHP's `substr($word, 0, 1)` and `strtoupper` work on bytes. For a word starting with a
  multi-byte UTF-8 letter, PHP yields its first byte, a broken character, where the model yields
  the whole letter.
- The regular expressions themselves. The phone, email and `LIKE` patterns are modelled as
  predicates with the same meaning.
- Session persistence and `session_destroy`. A session is a map, and logout yields the empty map.
- A `user_id` stored as text is treated as no current user.
- The ordering of SQL ties. Selections are promised sorted, but the order among rows with equal
  keys is not fixed.
- `Children.GetStatistics`: states that the gender counts fit within the total, not their exact
  values. The age average is only said to be NULL over no rows.
- `HealthRecords.GetStatistics`: the averages are stated present or absent here. Their value
  bounds are stated by `HealthRecords.AverageBounds`.
- `Immunizations.GetStatistics`: the distinct-children count is bounded by the total rather than
  stated exactly.
- The browser's `validateDate`, `showNotification`, `confirmAction`, `formatDate`, `validateForm`
  and the DOM wiring in `app.js`. They are user-interface code.
- The page half of `all_children.php` that is not filtering, and the charts and tables of
  `reports.php` and `mother_profile.php`. These are rendering.

## Findings

| source | as written | input that shows it | evidently intended | confidence | as-written member | corrected member |
|---|---|---|---|---|---|---|
| CHMS/src/models/MotherHealthRecord.php:219-235 | the trend query orders by date ascending and applies the limit, so it returns the oldest `limit` records | a mother with 13 records and limit 12: the newest record is not in the trend | the most recent `limit` records, in ascending date order for the chart | not executed | MotherRecords.HealthTrendAsWritten | MotherRecords.RecentHealthTrend |
| CHMS/reports.php:226 | `end()` of the newest-first immunization list is the earliest dose, shown as "last vaccine" | a child with doses on two different dates: the earlier date is shown | the date of the most recent dose | not executed | Reports.LastVaccineAsWritten | Reports.LastVaccine |
