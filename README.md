# Faculty Work Tracker — a verified model of its core

Faculty Work Tracker is an Angular application. Teachers log tutoring
sessions ("tasks") and the app totals their weekly hours and salary. An
administrator registers, adds subjects with hourly pay rates, and creates
teacher accounts with generated credentials. This project models the logic
of those components in Dafny and proves properties of it:

- `WeeklySummary` (`TeacherWeeklySummaryComponent`) picks the tasks dated in
  the current Sunday-to-Saturday week. It adds up their hours, parsed from
  `"HH:MM"` texts in JavaScript's `Number` fashion, so a malformed time gives
  NaN. It multiplies the total by the teacher's pay rate.
- `Tasks` (`TasksComponent`) covers the form validators and their error
  messages, toggling completion, and the pending/completed partition. It also
  covers the filtered and sorted view, the completion percentage, the duration
  label and `getOriginalIndex`.
- `Database` (`DatabaseService`) is the store of registered users and
  subjects. Its `localStorage` copy is part of the state.
- `Register` (`RegisterComponent`) holds the password-match validator and the
  guarded append of a new user.
- `AddSubject` (the profile-settings `AddSubjectComponent`) holds the form
  errors, the case-insensitive duplicate check, the totals, and adding and
  deleting a subject.
- `AddTeacher` (`AddTeacherComponent`) holds teacher-id and password
  generation, and the subject selection toggle. It also holds the guard order
  of `onAddTeacher`, the teacher record it builds, and toggling a teacher's
  status.
- `Text`, `Numbers`, `Seqs`, `Time` and `Interfaces` are supporting modules.
  They model the JavaScript string, number and date behaviour the components
  rely on, and the record shapes. A JavaScript number is `NaN` or an exact
  real. A date is a day number, with day 0 = 1970-01-01. An instant is a
  count of minutes.

A component's fields become the fields of a Dafny class. Its methods become
methods with `modifies` clauses. Each method's `ensures` ties the new state
to specification functions, and lemmas prove what those functions promise.
Services the shown code calls but does not define are parameters of the
methods that use them:
- the task store's `getTasksForTeacher`, `getLoggedInTeacherEmail` and
  `updateTaskForTeacher`;
- `getTeachers`, `addTeacher` and `updateTeacher`;
- `getCurrentAdminEmail`;
- the `isLoggedInUser` flag in `localStorage`.

Clocks and random numbers are also parameters: `new Date()`, `Date.now()` and
`Math.random()`.

## Model

| member | source | states |
|---|---|---|
| WeeklySummary.ClockHoursOfText | src/app/teacher-weekly-summary/teacher-weekly-summary.component.ts:70-74 | a two-digit "HH:MM" text is read as a finite number of hours equal to (60·h + m)/60 |
| WeeklySummary.TaskHoursOfClockTexts | src/app/teacher-weekly-summary/teacher-weekly-summary.component.ts:70-74 | for well-formed times, a task's hours are its end minus its start in minutes, divided by 60, with no guard against negative values |
| WeeklySummary.TaskHoursExample | src/app/teacher-weekly-summary/teacher-weekly-summary.component.ts:70-74 | 09:00 to 10:30 counts as 1.5 hours |
| WeeklySummary.NegativeTaskHoursExample | src/app/teacher-weekly-summary/teacher-weekly-summary.component.ts:70-74 | a task ending before it starts contributes negative hours (−1 for 10:00 to 09:00) |
| WeeklySummary.MalformedTimeIsNaN | src/app/teacher-weekly-summary/teacher-weekly-summary.component.ts:70-74 | a time without minutes, or with a non-numeric part, gives NaN hours |
| WeeklySummary.TasksOfWeekExact | src/app/teacher-weekly-summary/teacher-weekly-summary.component.ts:41-44 | the week's tasks are an order-preserving sub-list; every kept task is in the window; every task in the window is kept; kept plus dropped is the whole list as a multiset |
| WeeklySummary.InCurrentWeekIff | src/app/teacher-weekly-summary/teacher-weekly-summary.component.ts:36-44 | a task is in this week's window exactly when its date has the same week start as now |
| WeeklySummary.SumHoursNaN | src/app/teacher-weekly-summary/teacher-weekly-summary.component.ts:49-60 | the week's total is NaN exactly when some task's hours are NaN |
| WeeklySummary.SumHoursAppend | src/app/teacher-weekly-summary/teacher-weekly-summary.component.ts:49-60 | the running total over two lists joined is the sum of their totals (the accumulation is a fold that splits) |
| WeeklySummary.EmptyWeekTotals | src/app/teacher-weekly-summary/teacher-weekly-summary.component.ts:41-60 | with no task in the current week, the list is empty and hours and salary are 0 |
| WeeklySummary.SumSalaryIsHoursTimesRate | src/app/teacher-weekly-summary/teacher-weekly-summary.component.ts:49-60 | adding hours × rate task by task equals total hours × rate, NaN included |
| WeeklySummary.AddUpTasks | src/app/teacher-weekly-summary/teacher-weekly-summary.component.ts:47-60 | the loop's hours are the sum of the task hours, and its salary is the sum of each task's hours times the first subject's rate (0 with no subject) |
| WeeklySummary.TeacherWeeklySummaryComponent.constructor | src/app/teacher-weekly-summary/teacher-weekly-summary.component.ts:23-28 | the component starts with no tasks and zero totals |
| WeeklySummary.TeacherWeeklySummaryComponent.LoadWeeklySummary | src/app/teacher-weekly-summary/teacher-weekly-summary.component.ts:34-61 | after loading, the tasks are exactly the current week's, the hours are their total, and the salary is the sum of hours × pay rate, which SumSalaryIsHoursTimesRate shows is total hours × pay rate |
| Time.WeekStart | src/app/teacher-weekly-summary/teacher-weekly-summary.component.ts:63-68 | the week start is a Sunday midnight at or before the instant and less than seven days before it |
| Time.WeekStartUnique | src/app/teacher-weekly-summary/teacher-weekly-summary.component.ts:63-68 | the week start is the only Sunday midnight with that property |
| Time.WeekStartOfSundayAndSaturday | src/app/teacher-weekly-summary/teacher-weekly-summary.component.ts:63-68 | a Sunday midnight is its own week start; any instant on a Saturday belongs to the week that began six days earlier |
| Time.DayName | src/app/teacher/tasks/tasks.component.ts:251-258 | the day name is one of the seven names, and "Sunday" exactly on weekday 0 |
| Time.ClockMinutes | src/app/teacher/tasks/tasks.component.ts:165-184 | a time that parses lies within one day |
| Time.ClockTextMinutes | src/app/teacher/tasks/tasks.component.ts:165-184 | a valid "HH:MM" text parses to 60·h + m minutes |
| Text.Trim | src/app/profile-settings/add-teacher/add-teacher.component.ts:138-141 | `trim()` gives a contiguous slice of its input that neither starts nor ends with white space |
| Text.TrimDropsOnlySpace | src/app/profile-settings/add-teacher/add-teacher.component.ts:138-141 | everything `trim()` removes, before and after the slice it keeps, is white space |
| Numbers.FromString | src/app/teacher-weekly-summary/teacher-weekly-summary.component.ts:70-74 | the model's `Number(text)`: blank-padded decimal digits read as their value, blanks as 0; any finite result is a non-negative integer (other numeric forms are listed under Left out) |
| Numbers.FromStringNaN | src/app/teacher-weekly-summary/teacher-weekly-summary.component.ts:70-74 | under the model's rule, a character that is neither a digit nor white space makes `Number(text)` NaN; the numeric forms JavaScript also accepts are listed under Left out |
| Numbers.PlusLaws | src/app/teacher-weekly-summary/teacher-weekly-summary.component.ts:55-56 | `+` on numbers commutes, has 0 as neutral element on both sides, and is NaN exactly when an operand is NaN, the laws the running totals rely on |
| Numbers.PlusAssociative | src/app/teacher-weekly-summary/teacher-weekly-summary.component.ts:55-56 | `+` on numbers is associative, NaN included, so the accumulated total does not depend on grouping |
| Tasks.NoWhitespaceValidator | src/app/teacher/tasks/tasks.component.ts:145-150 | the `whitespace` error is set exactly for a non-empty value made only of white space |
| Tasks.FutureDateValidator | src/app/teacher/tasks/tasks.component.ts:152-163 | `pastDate` is set exactly for a date before today; an empty value passes |
| Tasks.TimeValidator | src/app/teacher/tasks/tasks.component.ts:165-184 | an empty or unparsable time reports nothing; otherwise `timeError` is set exactly when end ≤ start, and `minimumDuration` exactly when the gap is under 15 minutes |
| Tasks.TimeValidatorOnClockTexts | src/app/teacher/tasks/tasks.component.ts:165-184 | on valid clock texts the pair is accepted exactly when the end is at least 15 minutes after the start |
| Tasks.DuplicateTaskValidator | src/app/teacher/tasks/tasks.component.ts:186-203 | `duplicate` is set exactly when title, date and start are filled in and some task has the same title ignoring case, the same date and the same start |
| Tasks.DuplicateIgnoresCase | src/app/teacher/tasks/tasks.component.ts:192-195 | lower-casing the typed title never changes the verdict |
| Tasks.TextControlMessages | src/app/teacher/tasks/tasks.component.ts:211-236 | each value of a text control gets one message: required, too short, too long, 'cannot be empty', or none for a valid value |
| Tasks.TitleRequiredMessage | src/app/teacher/tasks/tasks.component.ts:122-128 | an empty title says "Title is required" |
| Tasks.TitleTooShortMessage | src/app/teacher/tasks/tasks.component.ts:122-128 | a title of one or two characters says "Title must be at least 3 characters", even when it is blank |
| Tasks.TitleBlankMessage | src/app/teacher/tasks/tasks.component.ts:211-224 | a blank title of an acceptable length says "Title cannot be empty" |
| Tasks.CompletionRate | src/app/teacher/tasks/tasks.component.ts:416-420 | the rate is in 0..100; it is 0 for no tasks; otherwise it is 100·completed/total rounded half up |
| Tasks.CompletionRateExtremes | src/app/teacher/tasks/tasks.component.ts:416-420 | with fewer than 200 tasks, the rate is 100 exactly when all are done and 0 exactly when none are |
| Tasks.CompletionRateRoundsToFull | src/app/teacher/tasks/tasks.component.ts:416-420 | 199 of 200 tasks done already shows 100% |
| Tasks.TruncRem | src/app/teacher/tasks/tasks.component.ts:408 | JavaScript's `%`: the remainder keeps the sign of the dividend and is below the divisor in magnitude |
| Tasks.TruncRemIsRemainder | src/app/teacher/tasks/tasks.component.ts:408 | the dividend minus the remainder is a multiple of the divisor; with the sign and the bound this fixes the value JavaScript gives |
| Tasks.TruncRemOfNegative | src/app/teacher/tasks/tasks.component.ts:408 | −7 % 3 is −1 and −90 % 60 is −30, as in JavaScript |
| Tasks.CalculateDuration | src/app/teacher/tasks/tasks.component.ts:402-414 | an unparsable time gives the label "NaNm" |
| Tasks.DurationTextShapes | src/app/teacher/tasks/tasks.component.ts:407-413 | a non-negative duration reads as "Hh Mm", "Hh" or "Mm" |
| Tasks.CalculateDurationOnClockTexts | src/app/teacher/tasks/tasks.component.ts:402-414 | on valid clock texts the label is that of the minute difference |
| Tasks.NegativeDurationText | src/app/teacher/tasks/tasks.component.ts:407-413 | a negative difference yields "-30m" for −30 minutes and "0m" for −60 minutes |
| Tasks.DurationRoundTrip | src/app/teacher/tasks/tasks.component.ts:407-413 | reading a non-negative duration label back gives the minutes it came from |
| Tasks.DurationTextInjective | src/app/teacher/tasks/tasks.component.ts:407-413 | distinct non-negative durations get distinct labels |
| Tasks.ToggleAt | src/app/teacher/tasks/tasks.component.ts:292-294 | only the chosen task changes, and only its completion flips |
| Tasks.ToggleTwice | src/app/teacher/tasks/tasks.component.ts:292-294 | toggling the same task twice restores the list |
| Tasks.ToggleCompletedCount | src/app/teacher/tasks/tasks.component.ts:292-294 | a toggle moves the completed count by exactly one, in the direction of the flip |
| Tasks.TaskOrderIsPreorder | src/app/teacher/tasks/tasks.component.ts:372-386 | the title comparator is a total preorder, and so is the date comparator once every start time parses |
| Tasks.PendingCompletedPartition | src/app/teacher/tasks/tasks.component.ts:353-354 | the pending and completed lists are order-preserving, disjoint, and together hold every task once |
| Tasks.ChosenTasks | src/app/teacher/tasks/tasks.component.ts:356-370 | the chosen view holds only tasks of the list, and only pending or only completed ones under those filters |
| Tasks.FilteredTasksPermutation | src/app/teacher/tasks/tasks.component.ts:356-387 | sorting keeps exactly the filtered tasks, as a multiset |
| Tasks.FilteredTasksSorted | src/app/teacher/tasks/tasks.component.ts:372-386 | the view is sorted by title, or by date when all start times parse |
| Tasks.GetOriginalIndex | src/app/teacher/tasks/tasks.component.ts:394-396 | the index of the first task with the same id, or −1 exactly when none has it |
| Tasks.OriginalIndexOfMember | src/app/teacher/tasks/tasks.component.ts:394-396 | with unique ids, a listed task's original index is its position |
| Tasks.TasksComponent.constructor | src/app/teacher/tasks/tasks.component.ts:100-107 | the component starts with empty lists, filter 'all', sort by date, and no toast |
| Tasks.TasksComponent.Init | src/app/teacher/tasks/tasks.component.ts:445-460 | the tasks are the stored ones when a teacher is logged in, otherwise none; the views are then recomputed |
| Tasks.TasksComponent.UpdateFilteredTasks | src/app/teacher/tasks/tasks.component.ts:351-387 | the pending, completed and filtered views agree with the tasks, filter and sort key |
| Tasks.TasksComponent.ToggleTask | src/app/teacher/tasks/tasks.component.ts:292-303 | an index out of range changes nothing; otherwise one task flips, the update is sent when a teacher is logged in, the views agree, and the toast says completed or reopened |
| Tasks.TasksComponent.SetFilter | src/app/teacher/tasks/tasks.component.ts:342-345 | the filter is set and the views recomputed; nothing else changes |
| Tasks.TasksComponent.SortTasks | src/app/teacher/tasks/tasks.component.ts:347-349 | the sort key is set and the views recomputed; nothing else changes |
| Tasks.TasksComponent.ShowSuccessToast | src/app/teacher/tasks/tasks.component.ts:478-485 | the toast shows the message; nothing else changes |
| Tasks.ToggleTaskTwice | src/app/teacher/tasks/tasks.component.ts:292-303 | toggling the same index twice leaves the tasks as they were, with consistent views |
| Database.UserIndex | src/app/services/database.service.ts:67 | `find` by email: the first user with that email, or −1 exactly when no user has it |
| Database.SubjectIndex | src/app/services/database.service.ts:78-79 | `indexOf`: the first equal subject, or −1 exactly when absent |
| Database.WithSubject | src/app/services/database.service.ts:63-73 | only the matching user changes: s goes at the end of its list, a missing list being created; no match leaves every user as is |
| Database.WithoutSubject | src/app/services/database.service.ts:75-89 | only the matching user changes, losing one copy of s; no user, no list or no such subject changes nothing |
| Database.RemovesFirstOccurrence | src/app/services/database.service.ts:78-80 | removal deletes exactly the first occurrence and keeps the rest in order |
| Database.RemoveUndoesAdd | src/app/services/database.service.ts:63-89 | removing a subject just added to a user whose list lacked it restores the users |
| Database.DatabaseService.constructor | src/app/services/database.service.ts:9-25 | users are loaded from storage (an absent key reading as none); no admin, no subjects |
| Database.DatabaseService.LoadData | src/app/services/database.service.ts:33-37 | users and subjects are re-read from storage, which then agrees with memory |
| Database.DatabaseService.LoadSubjectsForAdmin | src/app/services/database.service.ts:39-42 | the stored subject list replaces the in-memory one and is returned; users are untouched |
| Database.DatabaseService.AddUser | src/app/services/database.service.ts:44-48 | the user is appended and the list persisted |
| Database.DatabaseService.GetUsers | src/app/services/database.service.ts:51-53 | returns the current users and changes nothing |
| Database.DatabaseService.ClearUsers | src/app/services/database.service.ts:56-60 | users are emptied in memory and in storage |
| Database.DatabaseService.AddSubject | src/app/services/database.service.ts:63-73 | s always joins the service's subject list; the matching user gains s and storage follows, with no match nothing else changes; persistence is kept |
| Database.DatabaseService.RemoveSubject | src/app/services/database.service.ts:75-89 | `indexOf` compares identity: a subject that is not one of the matching user's own objects removes nothing; one that is loses its first copy and storage follows; no user or no list changes nothing; the service's own subject list is untouched |
| Database.AddThenRemoveSubject | src/app/services/database.service.ts:63-89 | removing the very object just added restores the users, yet the service's subject list keeps the subject |
| Register.MismatchBlocksRegistration | src/app/auth/register/register.component.ts:33-60 | the `passwordMismatch` error alone makes the form invalid; a valid form has a confirmed password of at least six characters; so `onSubmit` never registers a user whose confirmation differs |
| Register.AppendFreshEmail | src/app/auth/register/register.component.ts:50-55 | appending a user whose email is not taken keeps emails unique |
| Register.RegisterComponent.constructor | src/app/auth/register/register.component.ts:12-15 | no success and no error at first |
| Register.RegisterComponent.OnSubmit | src/app/auth/register/register.component.ts:39-60 | an invalid form adds nothing; a taken email sets the error and adds nothing; otherwise exactly `{email, password}` is appended and success is set; unique emails and persistence are kept; storage changes only with an append, and the stored subjects and the admin session stay |
| Register.RegisterTwice | src/app/auth/register/register.component.ts:39-60 | submitting the same form twice registers the user once and reports the duplicate |
| AddSubject.FormValid | src/app/profile-settings/add-subject/add-subject.component.ts:26-29 | the form is valid exactly with a name of at least 2 characters and a rate of at least 1 |
| AddSubject.SubjectNameMessages | src/app/profile-settings/add-subject/add-subject.component.ts:181-195 | an empty name is required, a one-character name is too short, and there is no message exactly for 2 or more characters |
| AddSubject.PayPerHourMessages | src/app/profile-settings/add-subject/add-subject.component.ts:181-195 | a missing rate is required, a rate under 1 is too small, and there is no message exactly for a rate of 1 or more |
| AddSubject.ValidIffNoMessages | src/app/profile-settings/add-subject/add-subject.component.ts:181-195 | the form is valid exactly when neither field has a message |
| AddSubject.IsSubjectNameExists | src/app/profile-settings/add-subject/add-subject.component.ts:234-238 | true exactly when some subject's name equals the given one ignoring case |
| AddSubject.NameExistsIgnoresCase | src/app/profile-settings/add-subject/add-subject.component.ts:234-238 | names equal up to case get the same answer |
| AddSubject.TotalEarningsPerHour | src/app/profile-settings/add-subject/add-subject.component.ts:246-248 | 0 for no subjects; with non-negative rates, non-negative and at least each rate |
| AddSubject.TotalEarningsAppend | src/app/profile-settings/add-subject/add-subject.component.ts:246-248 | the total of two lists joined is the sum of their totals |
| AddSubject.EarningsAtLeastCount | src/app/profile-settings/add-subject/add-subject.component.ts:241-248 | with every rate at least the form's minimum of 1, the hourly total is at least the subject count |
| AddSubject.AddSubjectComponent.constructor | src/app/profile-settings/add-subject/add-subject.component.ts:14-17 | no subjects, form hidden, no messages |
| AddSubject.AddSubjectComponent.LoadSubjects | src/app/profile-settings/add-subject/add-subject.component.ts:51-53 | the list shown and the service's list are the stored subject list; users, storage and the admin session stay |
| AddSubject.AddSubjectComponent.OnAddSubject | src/app/profile-settings/add-subject/add-subject.component.ts:80-147 | an invalid form reports an error and changes nothing; a name already listed, up to case, reports a duplicate and changes nothing; otherwise the admin user gains the subject, the list is reloaded, the form closes and success is reported |
| AddSubject.AddSubjectComponent.DeleteSubject | src/app/profile-settings/add-subject/add-subject.component.ts:149-172 | the subject comes from a fresh parse of storage, so the store's identity search never finds it: users and storage stay as they were; with confirmation the list is reloaded and success is reported anyway; without it nothing changes |
| AddSubject.AddThenDelete | src/app/profile-settings/add-subject/add-subject.component.ts:80-172 | deleting a subject just added reports success, yet the admin keeps it in the store |
| AddSubject.AddSubjectComponent.ToggleAddForm | src/app/profile-settings/add-subject/add-subject.component.ts:204-211 | the form's visibility flips, and opening it clears both messages |
| AddSubject.AddSubjectComponent.CancelAddForm | src/app/profile-settings/add-subject/add-subject.component.ts:214-218 | the form is hidden and both messages are cleared |
| AddSubject.AddSubjectComponent.ClearMessage | src/app/profile-settings/add-subject/add-subject.component.ts:221-224 | both messages are cleared and nothing else changes |
| AddSubject.OpenThenCancel | src/app/profile-settings/add-subject/add-subject.component.ts:204-218 | opening then cancelling returns to a hidden form with no messages |
| AddSubject.AddSameSubjectTwice | src/app/profile-settings/add-subject/add-subject.component.ts:98-123 | as the list is reloaded from storage that adding never writes, the same subject can be added twice, and the admin user then holds it twice |
| AddTeacher.TimestampDigits | src/app/profile-settings/add-teacher/add-teacher.component.ts:81 | the last six digits of the timestamp, as its value mod 10^6 once it has six digits |
| AddTeacher.PaddedRandom | src/app/profile-settings/add-teacher/add-teacher.component.ts:82 | three digits whose value is the random number |
| AddTeacher.GenerateTeacherId | src/app/profile-settings/add-teacher/add-teacher.component.ts:79-84 | the id starts with "TCH" and has 6 characters more than the timestamp part |
| AddTeacher.TeacherIdFormat | src/app/profile-settings/add-teacher/add-teacher.component.ts:79-84 | the id has 12 characters: "TCH", six digits decoding to the timestamp's last six digits, and three digits decoding to the random number |
| AddTeacher.PasswordCharsIndexed | src/app/profile-settings/add-teacher/add-teacher.component.ts:87 | the alphabet has 66 distinct characters, each at its own index |
| AddTeacher.PasswordOf | src/app/profile-settings/add-teacher/add-teacher.component.ts:86-93 | one alphabet character per pick |
| AddTeacher.GeneratePassword | src/app/profile-settings/add-teacher/add-teacher.component.ts:86-93 | the loop yields 8 characters, the i-th being the alphabet character at the i-th pick |
| AddTeacher.PasswordDecodes | src/app/profile-settings/add-teacher/add-teacher.component.ts:86-93 | the picks can be read back from the password, so distinct picks give distinct passwords |
| AddTeacher.NameIndex | src/app/profile-settings/add-teacher/add-teacher.component.ts:96 | `findIndex` by name: the first entry with that name, or −1 exactly when none |
| AddTeacher.IsSubjectSelected | src/app/profile-settings/add-teacher/add-teacher.component.ts:106-108 | true exactly when an entry has the subject's name |
| AddTeacher.ToggleKeepsUnique | src/app/profile-settings/add-teacher/add-teacher.component.ts:95-104 | toggling keeps names unique and flips whether the subject is selected |
| AddTeacher.ToggleTwiceRestores | src/app/profile-settings/add-teacher/add-teacher.component.ts:95-104 | toggling an unselected subject twice restores the selection |
| AddTeacher.WithoutName | src/app/profile-settings/add-teacher/add-teacher.component.ts:110-113 | the filter drops every entry with the name and keeps all others, in order |
| AddTeacher.WithoutNameKeepsCopies | src/app/profile-settings/add-teacher/add-teacher.component.ts:110-113 | kept plus dropped is the selection as a multiset, so every copy of every other entry stays |
| AddTeacher.ToggleSelectedIsRemove | src/app/profile-settings/add-teacher/add-teacher.component.ts:95-113 | with unique names, toggling a selected subject is the same as removing it |
| AddTeacher.NewTeacherRecord | src/app/profile-settings/add-teacher/add-teacher.component.ts:136-148 | a new teacher is active, has earnings 0, no last login, the admin as creator, the selected subjects, a "TCH" id and the 8-character generated password; a name typed as only spaces is stored empty |
| AddTeacher.AddTeacherComponent.constructor | src/app/profile-settings/add-teacher/add-teacher.component.ts:15-20 | no teachers, no subjects, nothing selected, no credentials |
| AddTeacher.AddTeacherComponent.LoadData | src/app/profile-settings/add-teacher/add-teacher.component.ts:51-62 | the subjects are the stored ones; the teachers are those returned, or none; when `getTeachers` throws, the teachers stay and the "Failed to load data" alert is shown; `isLoading` ends false either way |
| AddTeacher.AddTeacherComponent.ToggleSubject | src/app/profile-settings/add-teacher/add-teacher.component.ts:95-104 | the in-place splice or push yields the toggled selection |
| AddTeacher.AddTeacherComponent.RemoveSelectedSubject | src/app/profile-settings/add-teacher/add-teacher.component.ts:110-113 | every entry with the name goes, the subject is then unselected, and a success notice is shown |
| AddTeacher.AddTeacherComponent.OnAddTeacher | src/app/profile-settings/add-teacher/add-teacher.component.ts:115-167 | the guards run in order: not admin, then invalid form, then no subject, each with its alert and no other change; otherwise the record is built; on success, credentials are shown, the selection is cleared and the data reloaded, a failed reload adding its alert before the success alert; on failure only the alert changes; users, storage and the admin session always stay |
| AddTeacher.AddTeacherComponent.ToggleTeacherStatus | src/app/profile-settings/add-teacher/add-teacher.component.ts:187-203 | a non-admin is refused; otherwise the flipped record is sent, and it is kept on success with the matching notice, or the change is dropped on failure |
| AddTeacher.AddTeacherComponent.CloseCredentialsModal | src/app/profile-settings/add-teacher/add-teacher.component.ts:205-208 | the modal closes and the credentials are forgotten; nothing else changes |
| AddTeacher.ToggleStatusTwice | src/app/profile-settings/add-teacher/add-teacher.component.ts:187-203 | two successful status switches give back the original record, with one notice per switch, and leave the teacher list unchanged |

## Left out

- The settings variant of the add-subject component, the backend server, the AI service, the research assistant, the dashboard, the navigation bar, the login screens and the routing and module files: these lie outside the core.
- `src/app/interfaces/subject.interface.ts` is not part of this model. The `Subject` record is taken as `{subjectName, payPerHour}`, as the components use it.
- The task store methods (`getTasksForTeacher`, `getLoggedInTeacherEmail`, `addTaskForTeacher`, `updateTaskForTeacher`, `deleteTaskForTeacher`) and the teacher store methods (`getTeachers`, `addTeacher`, `updateTeacher`, `removeTeacher`, `getCurrentAdminEmail`) are not in the shown service. Their results are parameters, and the updates sent are recorded.
- Tasks `onSubmit`, `editTask` and `deleteTask`: they only call the task store, which is not shown, plus `window.confirm` and the form reset.
- AddTeacher `deleteTeacher`: it only calls the teacher store's `removeTeacher` and `window.confirm`.
- `copyToClipboard`, `trackByTask`, `onKeyDown`, `getFilteredTasks`, `getEmptyStateTitle`/`getEmptyStateMessage`, `generateId` and `debugAdminStatus`: clipboard, keyboard and display helpers with nothing to prove.
- `getCurrentUserSubjects` reads session getters the shown service does not have.
- Angular form state (touched, dirty, reset, `isFieldInvalid`, `markAllFieldsAsTouched`) is left out. `Validators.email` is a boolean input (`emailPattern`), since its pattern is Angular's.
- Timers (`setTimeout` for toasts and messages, the 800 ms submit delay) and `console.log` are left out. `window.alert` notices are a log (`alerts`).
- The `try`/`catch` failure paths of `onAddSubject` and `deleteSubject`: the model's store operations cannot throw.
- AddTeacher.AddTeacherComponent.LoadData: models the catch path when the teacher store's `getTeachers()` throws (the `loadSucceeds` flag). It does not model `loadSubjectsForAdmin()` throwing on unparsable storage: the model's storage holds values, not JSON text.
- Numbers.FromString: `Number(text)` is modelled for unsigned decimal integers with surrounding white space only. Signs, fractions, exponents, hexadecimal and `Infinity`, which JavaScript accepts, read as NaN here. So `"1.5:00"` gives 1.5 hours in the program and NaN in the model.
- Numbers.FromStringNaN: also states the model's rule, so `-`, `+`, `.`, `e` and `x` give NaN here though JavaScript may read a number.
- Text.ToLower: `toLowerCase` is modelled for ASCII letters only; other characters are left as they are.
- Floating point is left out: hours, salaries and rates are exact reals, and a JavaScript number is an exact real or NaN.
- Time zones and lenient date parsing are left out. Dates are day numbers and instants are local minutes. A start or end time parses only as one or two digits, a colon, and one or two digits (hour ≤ 23, minute ≤ 59).
- Tasks.Compare: `localeCompare` is approximated by code-unit order of the titles. The rows Tasks.TaskOrderIsPreorder and Tasks.FilteredTasksSorted state what this comparator guarantees.
- Tasks.FilteredTasksSorted: sortedness by date is proved only when every start time parses. A NaN difference counts as 0 and then need not give a consistent order.
- Tasks.SortedView: `Array.prototype.sort` is a stable insertion sort; which stable order a browser yields is not otherwise modelled. The rows Tasks.FilteredTasksPermutation and Tasks.FilteredTasksSorted state what the sorted view is.
- Tasks.CompletionRateExtremes: proved for fewer than 200 tasks only. From 200 tasks on, one open task can round to 100% (`CompletionRateRoundsToFull`).
- Database.WithoutSubject: object identity is reduced to a flag. When the subject passed is one of the user's own objects, the first copy equal by value is taken to be that object, which differs only when the list holds an equal copy before it.
- AddTeacher.AddTeacherComponent.ToggleTeacherStatus: works on the teacher record as a value. The in-place flip of an object shared with the `teachers` list is not captured (aliasing).
- AddSubject.AddSubjectComponent.OnAddSubject: the `isLoggedInAdmin` flag it logs is a parameter with no effect, as in the code.
- WeeklySummary.PayRate: the rate is the teacher's first subject's `payPerHour`, or 0 with no subjects, as the code does. Per-subject rates are not used. The rows WeeklySummary.SumSalaryIsHoursTimesRate and WeeklySummary.AddUpTasks state how this rate enters the salary.
