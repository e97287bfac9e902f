# Quality-audit checklist: a Dafny model of its business rules

The system is a quality-audit tracker. An auditor answers a fixed checklist,
and each answer is COMPLIANT, NON_COMPLIANT or NOT_APPLICABLE. The server
then:

- stores the audit with its adherence percentage;
- stores one row per answer;
- opens one non-conformity (NC) for each failed item;
- e-mails a notification for every new NC.

NCs are then worked on through partial updates. Each update may move the
status, change the assignee and fill in the remediation fields. Every status
or assignee change is logged as an event. A report rolls the answers of one
audit up per checklist category. Three pages of the web client hold logic of
their own: the audit form, the NC detail page and the audit report page.

This project models that logic and proves what the code promises about it.

| file | module | what it models |
|---|---|---|
| `wrappers.dfy` | `Wrappers` | `Option`, `Result`, JavaScript truthiness of optional strings, `a \|\| b` and `s \|\| undefined` |
| `validation.dfy` | `Validation` | the enums and the three request schemas as parse functions |
| `store.dfy` | `Store` | the records and the database class (checklist, users, audits, answer rows, NCs, events) |
| `email.ts` → `email.dfy` | `Email` | the severity tables with their fallbacks, the recipient choice, the subjects, the early return of the status-change notice |
| `audits.dfy` | `Audits` | `createAudit`: counts, adherence, answer rows, NC creation loop, creation e-mails and their `emailSent` flags |
| `reports.dfy` | `Reports` | `getAuditReport`: summary counts and the per-category rollup loop |
| `sorting.dfy` | `Sorting` | a stable insertion sort by an integer key, used for both orderings of the core |
| `non_conformities.dfy` | `NonConformities` | `updateNonConformity` (merge, `resolvedAt`, events, notice) and the filtered, newest-first NC list |
| `new_audit.dfy` | `NewAuditPage` | the audit form: initial entries, per-field edits, submit check, payload, category grouping |
| `nc_detail.dfy` | `NonConformityDetailPage` | due date by severity, form loading, the update payload |
| `audit_report_page.dfy` | `AuditReportPage` | severity label and class, colour bands, answer order, responsible-name fallback, NC section |

How the model represents the system:

- **The database.** The database is the class `Store.Database`, whose
  methods change it in place.
- **Ids.** An id the database generates is a position in a sequence: audit
  `i` is `audits[i]` and NC `i` is `nonConformities[i]`.
- **Checklist items and users.** These are maps keyed by their string id.
- **Requests.** Each request handler is one atomic step.
- **The clock.** Every reading of "now" is an integer parameter. The page's
  dates are whole day numbers.
- **Mail delivery.** The mail transport is a parameter. `delivered(id)`
  says whether the creation e-mail of NC `id` was accepted.
- **Percentages.** These are exact reals.

Behaviour of the code worth knowing, which the model keeps:

- **Unknown checklist items in an audit.** An answer that names a
  checklist item the store does not hold is still stored as an answer row.
  Only its NC is skipped (`audits.controller.ts:50`). The database schema is
  not part of this model, so no foreign-key rejection is modelled.
- **Severity codes.** The severities are the Portuguese codes BAIXA, MEDIA,
  ALTA and CRITICA. The e-mail and both pages map unknown strings to MEDIA's
  values or to a fallback.
- **Resolution time.** `resolvedAt` is re-stamped by every update whose
  payload says RESOLVED, even when the NC was already resolved. It is never
  cleared. An NC is created without one, so after any run of updates it has
  one exactly when some update set RESOLVED.

## Model

| member | source | states |
|---|---|---|
| Wrappers.OrElse | backend/src/lib/email.ts:57 | `a \|\| b` on an optional string: the string itself when it is truthy (present and non-empty), otherwise `b` |
| Wrappers.NonEmpty | frontend/src/pages/NewAudit.tsx:71-76 | `s \|\| undefined`: absent exactly when `s` is empty, otherwise `s` itself |
| Validation.ParseAnswerKind | backend/src/lib/validation.ts:15 | a string is accepted exactly when it is one of the three answer codes, and it parses to the code printed as that string |
| Validation.ParseStatus | backend/src/lib/validation.ts:22 | accepted exactly for OPEN, IN_PROGRESS and RESOLVED, parsing to the status printed as that string |
| Validation.ParseSeverity | backend/src/lib/validation.ts:23 | accepted exactly for BAIXA, MEDIA, ALTA and CRITICA, parsing to the severity printed as that string |
| Validation.ParseLogin | backend/src/lib/validation.ts:3-6 | a login is accepted if and only if the password has at least one character; e-mail and password are kept |
| Validation.ParseAnswers | backend/src/lib/validation.ts:12-17 | an answer list is accepted iff every answer string is a code; the result has the same length and keeps each item id and comment, with each answer parsed to its code |
| Validation.ParseCreateAudit | backend/src/lib/validation.ts:8-19 | accepted iff there is at least one answer and every answer is well formed; performer, optional version and optional notes are copied through |
| Validation.ParseUpdate | backend/src/lib/validation.ts:21-29 | accepted iff a status or severity that is present is a valid code; every field keeps its presence and value, and `assignedToUserId` keeps its three states (absent, null, id) |
| Validation.EmptyUpdateIsValid | backend/src/lib/validation.ts:21-29 | the payload with no field is accepted, as the update with no field |
| Email.SeverityLabel | backend/src/lib/email.ts:34-59 | a known code gets its label from the table; any other string gets "Média" |
| Email.SeverityDeadline | backend/src/lib/email.ts:41-60 | a known code gets its days from the table (5/4/3/2); any other string gets 4; always between 2 and 5 |
| Email.DeadlinesDecrease | backend/src/lib/email.ts:41-46 | a more severe code always has strictly fewer remediation days |
| Email.LabelsDistinct | backend/src/lib/email.ts:34-39 | two different severities have different labels |
| Email.UnknownSeverityActsAsMedia | backend/src/lib/email.ts:59-60 | an unknown code gets exactly the label and deadline of MEDIA |
| Email.CreationRecipient | backend/src/lib/email.ts:57 | the assignee's address if truthy, else the configured default if truthy, else ""; "" only when both are missing or empty |
| Email.CreationEmail | backend/src/lib/email.ts:48-148 | the creation message goes to the chosen recipient with subject prefix + item code; it carries the item code and title, the NC description, and the severity label and deadline with their fallbacks; the greeting is the responsible person or "Responsável", and the responsible line shows that person iff one is given |
| Email.CreationSubjectNamesItem | backend/src/lib/email.ts:145 | the item code can be read back from a creation message's subject after the fixed prefix, so messages about different items never share a subject |
| Email.StatusChangeEmail | backend/src/lib/email.ts:150-172 | nothing is sent iff the address is missing or empty; otherwise one message to that address, with subject prefix + NC title and the old and new status |
| Audits.Count | backend/src/modules/audits/audits.controller.ts:11-12 | the count of one kind never exceeds the number of answers |
| Audits.CountsPartition | backend/src/modules/audits/audits.controller.ts:249-252 | the three per-kind counts add up to the number of answers |
| Audits.Adherence | backend/src/modules/audits/audits.controller.ts:13-17 | the percentage lies in [0, 100]; it is 0 when nothing was evaluated, and otherwise p times the evaluated count equals 100 times the compliant count |
| Audits.AdherenceExtremes | backend/src/modules/audits/audits.controller.ts:13-17 | 100% iff at least one compliant answer and no non-compliant one; 0% iff no compliant answer |
| Audits.NotApplicableNeutral | backend/src/modules/audits/audits.controller.ts:11-17 | inserting a NOT_APPLICABLE answer at any position leaves the adherence unchanged |
| Audits.NewAudit | backend/src/modules/audits/audits.controller.ts:22-30 | the new audit gets the next id, the creation instant, the performer, version and notes of the payload, and the adherence of its answers |
| Audits.AnswerRows | backend/src/modules/audits/audits.controller.ts:33-40 | one row per submitted answer, in order, each linked to the audit and carrying that answer's item id, kind and comment |
| Audits.NonCompliantAnswers | backend/src/modules/audits/audits.controller.ts:43 | as many answers as the NON_COMPLIANT count, each of them a submitted NON_COMPLIANT answer |
| Audits.NonCompliantAnswersKeeps | backend/src/modules/audits/audits.controller.ts:43 | every NON_COMPLIANT answer is kept as often as it was submitted, and no other answer |
| Audits.NonCompliantAnswersConcat | backend/src/modules/audits/audits.controller.ts:43 | the filter distributes over concatenation, so the failed answers keep their submission order |
| Audits.WithKnownItem | backend/src/modules/audits/audits.controller.ts:46-50 | keeps only submitted answers whose checklist item exists, never more than were submitted |
| Audits.WithKnownItemAllKnown | backend/src/modules/audits/audits.controller.ts:46-50 | when every answered item exists, every answer is kept, in order |
| Audits.WithKnownItemKeeps | backend/src/modules/audits/audits.controller.ts:46-50 | an answer is dropped only when its own item is unknown: each answer with a known item is kept as often as it was submitted |
| Audits.WithKnownItemConcat | backend/src/modules/audits/audits.controller.ts:45-50 | skipping distributes over concatenation, so the kept answers stay in order |
| Audits.SynthesizeNC | backend/src/modules/audits/audits.controller.ts:52-61 | the new NC: title "NC - code: title", description = the comment if truthy else the item's description, OPEN, MEDIA, opened by the performer, unassigned, unresolved, e-mail not sent |
| Audits.NewNonConformities | backend/src/modules/audits/audits.controller.ts:45-63 | never more NCs than failed answers |
| Audits.NewNonConformitiesPointwise | backend/src/modules/audits/audits.controller.ts:45-63 | one NC per failed answer whose item exists, in order: NC `j` is synthesised from the `j`-th such answer and its item |
| Audits.NcCountMatchesFailures | backend/src/modules/audits/audits.controller.ts:43-63 | no more NCs than NON_COMPLIANT answers, and exactly as many when every answered item exists |
| Audits.AssigneeEmail | backend/src/modules/audits/audits.controller.ts:110 | an address exists exactly when the NC is assigned to an existing user, and it is that user's e-mail |
| Audits.CreationMessages | backend/src/modules/audits/audits.controller.ts:101-111 | one creation message per created NC |
| Audits.CreationMessagesPointwise | backend/src/modules/audits/audits.controller.ts:101-111 | message `j` is the creation e-mail of NC `j`, with severity, "A definir" for a missing responsible, and the assignee's address |
| Audits.MarkDelivered | backend/src/modules/audits/audits.controller.ts:113-119 | the flagged NCs are as many as the created ones |
| Audits.MarkDeliveredPointwise | backend/src/modules/audits/audits.controller.ts:101-123 | each NC keeps every field except `emailSent`, which is true exactly when the transport accepted its e-mail |
| Audits.OpenNonConformities | backend/src/modules/audits/audits.controller.ts:45-63 | the loop appends exactly the NCs of `NewNonConformities` to the store, each linked to the audit, with a known item and its flag false |
| Audits.SendCreationEmails | backend/src/modules/audits/audits.controller.ts:99-124 | one message per created NC; the store holds the earlier NCs unchanged followed by the created ones with their delivery flags |
| Audits.InsertAudit | backend/src/modules/audits/audits.controller.ts:20-40 | appends the new audit and exactly its answer rows |
| Audits.PersistAudit | backend/src/modules/audits/audits.controller.ts:19-124 | a valid submission leaves the store consistent with the audit, its rows and its flagged NCs appended; the response carries the records as first written, and the outbox holds the creation e-mails |
| Audits.CreateAudit | backend/src/modules/audits/audits.controller.ts:6-131 | an invalid payload is a 400 with nothing written and nothing sent; a valid one succeeds as `PersistAudit` states |
| Audits.ScenarioMixedAnswers | backend/src/modules/audits/audits.controller.ts:11-63 | one answer of each kind gives 50% and a single OPEN, MEDIA NC |
| Audits.ScenarioAllNotApplicable | backend/src/modules/audits/audits.controller.ts:11-63 | only NOT_APPLICABLE answers give 0% and no NC |
| Reports.AnswersOf | backend/src/modules/audits/audits.controller.ts:224-228 | the report's answers are exactly the stored rows of that audit |
| Reports.AnswersOfConcat | backend/src/modules/audits/audits.controller.ts:224-228 | the selection distributes over concatenation, so the rows keep their storage order |
| Reports.AnswersOfNone | backend/src/modules/audits/audits.controller.ts:224-228 | a stretch of rows of other audits contributes nothing |
| Reports.AnswersOfAll | backend/src/modules/audits/audits.controller.ts:224-228 | a stretch of rows all of that audit is kept whole |
| Reports.NcsOf | backend/src/modules/audits/audits.controller.ts:229-240 | the report's NCs are exactly the stored NCs of that audit |
| Reports.NcsOfConcat | backend/src/modules/audits/audits.controller.ts:229-240 | the selection distributes over concatenation, so the NCs keep their storage order |
| Reports.NcsOfNone | backend/src/modules/audits/audits.controller.ts:229-240 | a stretch of NCs of other audits contributes nothing |
| Reports.NcsOfAll | backend/src/modules/audits/audits.controller.ts:229-240 | a stretch of NCs all of that audit is kept whole |
| Reports.Details | backend/src/modules/audits/audits.controller.ts:265-266 | the join with the checklist succeeds iff every row's item exists, pairing each row with its item |
| Reports.Find | backend/src/modules/audits/audits.controller.ts:268-279 | returns a position that holds the category, and none exactly when no entry has it |
| Reports.Record | backend/src/modules/audits/audits.controller.ts:279-294 | one answer adds one to the total and one to its kind's counter, and the adherence is recomputed from the new counters |
| Reports.Rollup | backend/src/modules/audits/audits.controller.ts:256-297 | never more categories than answers |
| Reports.RollupLoop | backend/src/modules/audits/audits.controller.ts:265-295 | the `forEach` over the answers builds exactly the rollup |
| Reports.RollupWellFormed | backend/src/modules/audits/audits.controller.ts:256-297 | no category appears twice; each entry's total splits into its three counters, and its adherence follows the formula on its final counters |
| Reports.TallyWellFormed | backend/src/modules/audits/audits.controller.ts:265-295 | one step of the pass keeps the rollup well formed |
| Reports.RollupOrder | backend/src/modules/audits/audits.controller.ts:256-297 | categories are listed in the order in which the answers first meet them |
| Reports.RollupCounts | backend/src/modules/audits/audits.controller.ts:265-295 | each entry counts exactly the answers in its category, kind by kind |
| Reports.RollupSums | backend/src/modules/audits/audits.controller.ts:249-297 | summed over the categories, totals give the number of answers, and each counter gives the overall count of its kind |
| Reports.Summarize | backend/src/modules/audits/audits.controller.ts:248-316 | the summary's total is the number of rows and splits into the three counts; evaluated = compliant + non-compliant; the percentage is the stored one; the NC total is the length of the NC list |
| Reports.CategoriesAddUpToSummary | backend/src/modules/audits/audits.controller.ts:249-297 | the category counters add up to the summary's counters |
| Reports.GetAuditReport | backend/src/modules/audits/audits.controller.ts:210-327 | an unknown id is a 404 with no report; a row whose item is missing is a 500; otherwise the report carries the audit (id, date, version, notes, and its performer when that user exists), its rows joined with items, its NCs, the summary and the rollup |
| Reports.StoredAdherenceAgrees | backend/src/modules/audits/audits.controller.ts:11-40 | for an audit written by `createAudit`, the stored percentage equals the adherence recomputed from the rows the report reads |
| Sorting.SortBy | frontend/src/pages/AuditReport.tsx:196 | the result is sorted ascending by the key and is a permutation of the input |
| Sorting.SortBySorted | frontend/src/pages/AuditReport.tsx:196 | a list already in order is returned unchanged |
| NonConformities.ApplyUpdate | backend/src/modules/non-conformities/non-conformities.controller.ts:125-130 | every present field overwrites the stored one and every absent field is kept; null clears the assignee; `resolvedAt` is `now` iff the payload status is RESOLVED, otherwise kept; fields outside the payload are untouched |
| NonConformities.EmptyUpdateKeepsRecord | backend/src/modules/non-conformities/non-conformities.controller.ts:125-130 | the empty payload leaves the record exactly as it was |
| NonConformities.UpdateIdempotent | backend/src/modules/non-conformities/non-conformities.controller.ts:125-130 | applying the same payload twice at the same instant equals applying it once |
| NonConformities.ResolvedAtNeverCleared | backend/src/modules/non-conformities/non-conformities.controller.ts:129 | a recorded resolution time survives every update |
| NonConformities.ResolvedAtAfterRun | backend/src/modules/non-conformities/non-conformities.controller.ts:129 | after a run of updates, a resolution time is recorded iff one was before or some update set RESOLVED; it is then the instant of the last such update |
| NonConformities.UpdateEvents | backend/src/modules/non-conformities/non-conformities.controller.ts:149-182 | one STATUS_CHANGED event (old and new status) iff a status is given and differs from the stored one; then one ASSIGNMENT_CHANGED event iff the assignee field is present and changes it; at most two events, all on that NC |
| NonConformities.EventsTrackChanges | backend/src/modules/non-conformities/non-conformities.controller.ts:150-182 | an event of each kind exists iff the record's status, respectively its assignee, differs after the update |
| NonConformities.SeverityAndTextWriteNoEvents | backend/src/modules/non-conformities/non-conformities.controller.ts:150-182 | an update without status and assignee fields appends no event |
| NonConformities.StatusNotice | backend/src/modules/non-conformities/non-conformities.controller.ts:161-169 | a notice is produced iff the status changes and the updated record's assignee has a truthy address; it goes to that address, naming the title and both statuses |
| NonConformities.NoticeGoesToNewAssignee | backend/src/modules/non-conformities/non-conformities.controller.ts:125-169 | a payload that changes the status and reassigns the NC notifies the new assignee |
| NonConformities.UpdateNonConformity | backend/src/modules/non-conformities/non-conformities.controller.ts:104-192 | an invalid payload is a 400 and an unknown id a 404, both with nothing written; otherwise only that NC is replaced by the merged record, its events are appended, the notice is returned, and the store stays consistent |
| NonConformities.MatchingIds | backend/src/modules/non-conformities/non-conformities.controller.ts:11-14 | exactly the NCs with the given status (all NCs without one), in increasing id order |
| NonConformities.ListNonConformities | backend/src/modules/non-conformities/non-conformities.controller.ts:7-44 | it fails, as a 500, iff the status query is truthy and not a status code; otherwise it lists exactly the NCs passing the filter, newest first |
| NonConformities.ListHasNoDuplicates | backend/src/modules/non-conformities/non-conformities.controller.ts:13-37 | no NC is listed twice |
| NewAuditPage.InitialAnswers | frontend/src/pages/NewAudit.tsx:26-30 | there is an entry exactly for each loaded item, and every entry has an empty answer and comment |
| NewAuditPage.SetAnswer | frontend/src/pages/NewAudit.tsx:38-43 | the item's answer is set; its comment, every other entry and the set of keys are unchanged |
| NewAuditPage.SetComment | frontend/src/pages/NewAudit.tsx:45-50 | the item's comment is set; its answer, every other entry and the set of keys are unchanged |
| NewAuditPage.AnswerAndCommentCommute | frontend/src/pages/NewAudit.tsx:38-50 | choosing an answer and typing a comment commute |
| NewAuditPage.LastAnswerWins | frontend/src/pages/NewAudit.tsx:38-43 | the last answer chosen for an item is the one kept |
| NewAuditPage.PendingItems | frontend/src/pages/NewAudit.tsx:56 | an item is pending iff it is listed and its answer is empty |
| NewAuditPage.PendingItemsExact | frontend/src/pages/NewAudit.tsx:56-58 | each item with an empty answer is pending as often as it is listed, and no other item is; this fixes the announced count |
| NewAuditPage.BlankFormAllPending | frontend/src/pages/NewAudit.tsx:26-60 | on a freshly loaded form every item is pending |
| NewAuditPage.Payload | frontend/src/pages/NewAudit.tsx:69-78 | one answer per item, in item order, with the item's id, its answer, and its comment with "" made absent; an empty version or notes is absent |
| NewAuditPage.HandleSubmit | frontend/src/pages/NewAudit.tsx:52-78 | blocked iff some item has an empty answer, reporting the number of such items; otherwise a missing user is an error, and else the payload is sent |
| NewAuditPage.SubmittedPayloadIsAccepted | frontend/src/pages/NewAudit.tsx:69-78 | a payload sent from a non-empty checklist whose answers came from the radio buttons passes the server's schema |
| NewAuditPage.EmptyChecklistIsRefused | frontend/src/pages/NewAudit.tsx:56-78 | an empty checklist is sent with no answers, and the server's schema refuses it |
| NewAuditPage.AnnouncedCountMatchesServer | frontend/src/pages/NewAudit.tsx:83 | the announced NC count equals the server's NON_COMPLIANT count for the same answers |
| NewAuditPage.ItemsIn | frontend/src/pages/NewAudit.tsx:215-219 | the group of a category holds exactly the items of that category |
| NewAuditPage.ItemsInKeepOrder | frontend/src/pages/NewAudit.tsx:215-219 | a group keeps the items in list order |
| NewAuditPage.GroupByCategory | frontend/src/pages/NewAudit.tsx:215-219 | a category has a group iff it has an item, and its group is its items in list order |
| NewAuditPage.Shown | frontend/src/pages/NewAudit.tsx:229 | exactly the listed categories that have a group |
| NewAuditPage.ShownCategories | frontend/src/pages/NewAudit.tsx:222-229 | the blocks shown are exactly the four fixed blocks that have items |
| NewAuditPage.ShownKeepsOrder | frontend/src/pages/NewAudit.tsx:229 | the blocks are shown in the fixed list's order |
| NewAuditPage.UnlistedCategoryNotShown | frontend/src/pages/NewAudit.tsx:215-229 | an item outside the four blocks is in no shown group |
| NewAuditPage.ListedCategoryShown | frontend/src/pages/NewAudit.tsx:215-229 | every item of one of the four blocks is shown, in its block's group |
| NonConformityDetailPage.SeverityDays | frontend/src/pages/NonConformityDetail.tsx:27-33 | CRITICA 2, ALTA 3, MEDIA 4, BAIXA 5, and 4 for any other string |
| NonConformityDetailPage.PageDaysMatchEmailDeadlines | frontend/src/pages/NonConformityDetail.tsx:27-33 | the page's day table and the e-mail's deadline table agree on every string |
| NonConformityDetailPage.MoreSevereIsDueSooner | frontend/src/pages/NonConformityDetail.tsx:27-33 | a more severe NC is due strictly sooner |
| NonConformityDetailPage.CalculateDueDate | frontend/src/pages/NonConformityDetail.tsx:26-38 | the due day is the creation day plus the severity's days, 2 to 5 days later |
| NonConformityDetailPage.BeforeT | frontend/src/pages/NonConformityDetail.tsx:60 | `split('T')[0]`: the longest prefix without a 'T', followed in the string by a 'T' when shorter |
| NonConformityDetailPage.LoadForm | frontend/src/pages/NonConformityDetail.tsx:53-61 | the status is copied; the assignee, responsible, root cause and corrective action fall back to ""; the severity falls back to MEDIA; the due date keeps its part before 'T' |
| NonConformityDetailPage.StoredSeverityIsShown | frontend/src/pages/NonConformityDetail.tsx:56 | a stored record's severity is shown as it is, never as the fallback |
| NonConformityDetailPage.UpdatePayload | frontend/src/pages/NonConformityDetail.tsx:75-83 | status and severity are always sent; an empty assignee is sent as null; an empty text field or due date is left out; a date is sent at midnight UTC |
| NonConformityDetailPage.DueDateRoundTrip | frontend/src/pages/NonConformityDetail.tsx:60-82 | a date the form sends comes back into the form unchanged |
| NonConformityDetailPage.StatusNameParses | frontend/src/pages/NonConformityDetail.tsx:76 | the status the form sends is accepted and parses back to the stored status |
| NonConformityDetailPage.SeverityNameParses | frontend/src/pages/NonConformityDetail.tsx:78 | the severity the form sends is accepted and parses back to the stored severity |
| NonConformityDetailPage.ResentKeepsPageDates | frontend/src/pages/NonConformityDetail.tsx:60-82 | a due date the page itself stored survives a save of the unedited form |
| NonConformityDetailPage.UnchangedFormSave | frontend/src/pages/NonConformityDetail.tsx:53-83 | saving the form unedited is accepted and appends no event; the record is unchanged except that a RESOLVED NC gets a new resolution time and the due date is re-sent at midnight UTC |
| NonConformityDetailPage.EmptiedFieldsOnSave | frontend/src/pages/NonConformityDetail.tsx:77-82 | emptying a text field or the due date keeps the stored value; emptying the assignee clears the assignment |
| AuditReportPage.ReportSeverityLabel | frontend/src/pages/AuditReport.tsx:36-44 | an unknown severity is shown as the raw value |
| AuditReportPage.ReportLabelAgreesWithEmail | frontend/src/pages/AuditReport.tsx:36-44 | each known severity's label is the e-mail's label followed by the e-mail's deadline in days |
| AuditReportPage.SeverityClass | frontend/src/pages/AuditReport.tsx:46-54 | an unknown severity gets "badge-secondary" |
| AuditReportPage.SeverityClassesDistinct | frontend/src/pages/AuditReport.tsx:46-54 | each known severity has a class of its own, never the fallback |
| AuditReportPage.AdherenceBand | frontend/src/pages/AuditReport.tsx:171 | green iff >= 80, amber iff 60 <= p < 80, red iff < 60 (exhaustive and disjoint) |
| AuditReportPage.BandMonotone | frontend/src/pages/AuditReport.tsx:171 | a higher adherence never gets a worse colour |
| AuditReportPage.BandOfExtremes | frontend/src/pages/AuditReport.tsx:171 | a category with evaluated answers and no failure is green; one with no compliant answer is red |
| AuditReportPage.SortedAnswers | frontend/src/pages/AuditReport.tsx:195-196 | the detailed answers are a permutation of the report's, ascending by item `order` |
| AuditReportPage.SortedAnswersKeepsOrderedInput | frontend/src/pages/AuditReport.tsx:196 | answers already in item order are listed as they come |
| AuditReportPage.ResponsibleShown | frontend/src/pages/AuditReport.tsx:280 | the manual responsible if truthy, else the assignee's name if truthy, else "-"; never empty |
| AuditReportPage.NcSectionFollowsSummary | frontend/src/pages/AuditReport.tsx:251 | for a report as the server builds it, the NC section is shown iff the store holds an NC of that audit, and iff the summary counts at least one NC |

## Left out

- Persistence. Prisma, its transactions and the query `include` shapes are modelled as an in-memory store, one atomic step per handler and a projection of the records.
- Rollback on storage failure. Storage failure inside `$transaction` is not modelled, so neither is the rollback it triggers.
- The database schema. It is not part of this model, so foreign keys are not checked:
  - answer rows naming an unknown checklist item are stored;
  - an `assignedToUserId` or `userId` naming no user is accepted.
- Assignment in the page form. The page fills the assignee from `assignedTo?.id`, and the model fills it from the stored `assignedToUserId`. The two agree whenever the assignee exists.
- Concurrency of the e-mails:
  - the creation e-mails of `createAudit` are fire-and-forget, with one `update` each;
  - the status-change e-mail of an NC update is `.catch`ed.

  The transport's verdict is the parameter `delivered`, and the status-change notice is returned rather than sent. `Audits.SendCreationEmails` writes all flags at once after choosing the messages, whereas the source sets each flag after its own e-mail. The end state is the same.
- Mail rendering. The HTML templates, the nodemailer transport, the sender address and the SMTP settings are left out. A message is its recipient, its subject and the values the template prints. A transport failure being re-thrown by `sendEmail` is modelled only through `delivered`.
- Floating-point percentages and `toFixed(1)` display rounding. Percentages are exact reals.
- JavaScript dates. `new Date()`, `setDate` and `toLocaleDateString` are replaced by integer instants and whole day numbers. `new Date(d).toISOString()` is modelled only for a `YYYY-MM-DD` input, as `d + "T00:00:00.000Z"`. The `RangeError` for a bad date is not modelled.
- Malformed JSON shapes. A required key that is missing (`checklistItemId`, `answer`, `performedByUserId`), an `answers` value that is not an array, and an explicit `null` in an optional string field (`responsible: null`, refused by `z.string().optional()`) cannot be written as a value of `Validation.RawAnswer`, `Validation.RawCreateAudit` or `Validation.RawUpdate`. Their 400 responses are therefore not modelled. Only `assignedToUserId` carries null.
- Logging. The `console.error` calls of the handlers and of the e-mail callbacks are left out; they change no state.
- zod's uuid, e-mail and datetime format checks. Ids, addresses and dates are opaque strings, so `Validation.ParseLogin` accepts any e-mail text and `Validation.ParseUpdate` accepts any `dueDate` text.
- A `status` query given as an array. JavaScript prototype keys (such as `constructor`) looked up in the severity tables are not modelled either.
- Authentication, routing and the HTTP client: `auth.*`, `*.routes.ts`, `index.ts` and `api.ts`. The signed-in user is a parameter.
- Handlers that only read and project: `getAudits`, `getAuditById` and `getNonConformityById`. `resendNCEmail` is named by the routes but is not part of this model.
- UI-only pages and the page state flags (loading, submitting, error messages, toasts, navigation). The seed and migration scripts are left out as well.
- Database `orderBy` clauses other than the NC list's `createdAt: 'desc'`.
- NonConformities.ListNonConformities: the order of NCs created at the same instant is not stated, because the database does not fix it.
- AuditReportPage.SortedAnswers: stability of the comparator sort for equal `order` values is not stated.
- Store.Database: `Keyed` holds from the constructor on only because no method writes the checklist or the users.
