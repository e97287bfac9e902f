/** The NC page of frontend/src/pages/NonConformityDetail.tsx: the due date
    it shows from severity and creation date, the edit form it fills from the
    record, and the update payload it sends. Dates are whole days here, and a
    date the form holds is the `YYYY-MM-DD` text of a date input. */
module NonConformityDetailPage {
  import opened Wrappers
  import opened Validation
  import opened Store
  import Email
  import NonConformities

  // -------------------------------------------------------------- due date

  /** `severityDays[severity] || 4`. */
  function SeverityDays(severity: string): (d: nat)
    ensures ParseSeverity(severity).None? ==> d == 4
  {
    if severity == "CRITICA" then 2
    else if severity == "ALTA" then 3
    else if severity == "MEDIA" then 4
    else if severity == "BAIXA" then 5
    else 4
  }

  /** The page's table and the e-mail's table give every code, known or not,
      the same number of days. */
  lemma PageDaysMatchEmailDeadlines(severity: string)
    ensures SeverityDays(severity) == Email.SeverityDeadline(severity)
  {
  }

  /** A more severe NC is due sooner. */
  lemma MoreSevereIsDueSooner(a: Severity, b: Severity)
    requires SeverityRank(a) < SeverityRank(b)
    ensures SeverityDays(SeverityName(a)) > SeverityDays(SeverityName(b))
  {
    PageDaysMatchEmailDeadlines(SeverityName(a));
    PageDaysMatchEmailDeadlines(SeverityName(b));
    Email.DeadlinesDecrease(a, b);
  }

  /** `calculateDueDate`: a copy of the creation date moved forward by the
      severity's number of days. */
  method CalculateDueDate(severity: string, createdDay: int) returns (dueDay: int)
    ensures dueDay - createdDay == SeverityDays(severity)
    ensures 2 <= dueDay - createdDay <= 5
  {
    var days := SeverityDays(severity);
    dueDay := createdDay;
    dueDay := dueDay + days;
    PageDaysMatchEmailDeadlines(severity);
  }

  // ------------------------------------------------------------------ form

  /** The record as the page receives it: codes as strings, and any field
      that can be null in the database as optional. */
  datatype NcView = NcView(
    status: string,
    assigneeId: Option<string>,
    severity: Option<string>,
    responsible: Option<string>,
    rootCause: Option<string>,
    correctiveAction: Option<string>,
    dueDate: Option<string>)

  /** The JSON of a stored record, as far as the form reads it. */
  function ViewOf(nc: NonConformity): NcView
  {
    NcView(StatusName(nc.status), nc.assignedToUserId, Some(SeverityName(nc.severity)),
           nc.responsible, nc.rootCause, nc.correctiveAction, nc.dueDate)
  }

  /** The edit form: every field is a string, "" meaning empty. */
  datatype Form = Form(
    status: string,
    assignedToUserId: string,
    severity: string,
    responsible: string,
    rootCause: string,
    correctiveAction: string,
    dueDate: string)

  /** `s.split('T')[0]`: the text up to the first `T`, or all of it. */
  function BeforeT(s: string): (r: string)
    ensures |r| <= |s| && r == s[..|r|]
    ensures 'T' !in r
    ensures |r| < |s| ==> s[|r|] == 'T'
  {
    if s == [] then []
    else if s[0] == 'T' then []
    else
      var rest := BeforeT(s[1..]);
      assert s[1..][..|rest|] == s[1..|rest| + 1];
      [s[0]] + rest
  }

  /** `loadData`: the form filled from the record. The severity falls back to
      MEDIA, a missing assignee or text to "", and the due date keeps its
      date part. */
  function LoadForm(v: NcView): (f: Form)
    ensures f.status == v.status
    ensures Truthy(v.assigneeId) ==> f.assignedToUserId == v.assigneeId.value
    ensures !Truthy(v.assigneeId) ==> f.assignedToUserId == ""
    ensures f.severity == (if Truthy(v.severity) then v.severity.value else "MEDIA")
    ensures f.responsible == (if Truthy(v.responsible) then v.responsible.value else "")
    ensures f.rootCause == (if Truthy(v.rootCause) then v.rootCause.value else "")
    ensures f.correctiveAction == (if Truthy(v.correctiveAction) then v.correctiveAction.value else "")
    ensures f.dueDate == (if Truthy(v.dueDate) then BeforeT(v.dueDate.value) else "")
  {
    Form(v.status, OrElse(v.assigneeId, ""), OrElse(v.severity, "MEDIA"),
         OrElse(v.responsible, ""), OrElse(v.rootCause, ""), OrElse(v.correctiveAction, ""),
         if Truthy(v.dueDate) then BeforeT(v.dueDate.value) else "")
  }

  /** A stored record always has a severity, so the MEDIA fallback never
      applies to it. */
  lemma StoredSeverityIsShown(nc: NonConformity)
    ensures LoadForm(ViewOf(nc)).severity == SeverityName(nc.severity)
  {
    match nc.severity {
      case Baixa =>
      case Media =>
      case Alta =>
      case Critica =>
    }
  }

  /** `new Date(d).toISOString()` of a `YYYY-MM-DD` date: midnight UTC. */
  const MidnightSuffix := "T00:00:00.000Z"

  /** `handleUpdate`: status and severity are always sent; an empty assignee
      is sent as null, clearing the assignment; an empty text field or due
      date is left out, so the stored value stays. */
  function UpdatePayload(f: Form): (p: RawUpdate)
    ensures p.status == Some(f.status) && p.severity == Some(f.severity)
    ensures f.assignedToUserId == "" ==> p.assignedToUserId == AssigneeNull
    ensures f.assignedToUserId != "" ==> p.assignedToUserId == AssigneeId(f.assignedToUserId)
    ensures p.responsible == NonEmpty(f.responsible)
    ensures p.rootCause == NonEmpty(f.rootCause)
    ensures p.correctiveAction == NonEmpty(f.correctiveAction)
    ensures p.dueDate == (if f.dueDate == "" then None else Some(f.dueDate + MidnightSuffix))
  {
    RawUpdate(
      Some(f.status), Some(f.severity),
      if f.assignedToUserId == "" then AssigneeNull else AssigneeId(f.assignedToUserId),
      NonEmpty(f.responsible), NonEmpty(f.rootCause), NonEmpty(f.correctiveAction),
      if f.dueDate != "" then Some(f.dueDate + MidnightSuffix) else None)
  }

  /** A date sent by the form comes back into the form unchanged. */
  lemma DueDateRoundTrip(d: string)
    requires 'T' !in d
    ensures BeforeT(d + MidnightSuffix) == d
  {
    var s := d + MidnightSuffix;
    var r := BeforeT(s);
    assert s[|d|] == 'T';
    if |r| != |d| {
      assert false;
    }
    assert s[..|d|] == d;
  }

  /** A status or severity is parsed back to the code it was printed from. */
  lemma StatusNameParses(s: NCStatus)
    ensures ParseStatus(StatusName(s)) == Some(s)
  {
    match s {
      case Open =>
      case InProgress =>
      case Resolved =>
    }
  }

  lemma SeverityNameParses(s: Severity)
    ensures ParseSeverity(SeverityName(s)) == Some(s)
  {
    match s {
      case Baixa =>
      case Media =>
      case Alta =>
      case Critica =>
    }
  }

  /** The due date an unedited form sends back in place of the stored one:
      its date part at midnight UTC, or the stored value when that part is
      empty. */
  function Resent(dueDate: Option<string>): Option<string>
  {
    if Truthy(dueDate) && BeforeT(dueDate.value) != "" then Some(BeforeT(dueDate.value) + MidnightSuffix)
    else dueDate
  }

  /** A due date stored by the page itself survives an unedited save. */
  lemma ResentKeepsPageDates(d: string)
    requires d != "" && 'T' !in d
    ensures Resent(Some(d + MidnightSuffix)) == Some(d + MidnightSuffix)
  {
    DueDateRoundTrip(d);
  }

  /** Saving the form without editing it is accepted, appends no event, and
      leaves the record as it was except that a RESOLVED record gets a new
      resolution time and a due date is re-sent as its date at midnight UTC. */
  lemma UnchangedFormSave(nc: NonConformity, id: nat, userId: string, now: int)
    requires nc.assignedToUserId != Some("")
    ensures ParseUpdate(UpdatePayload(LoadForm(ViewOf(nc)))).Some?
    ensures var u := ParseUpdate(UpdatePayload(LoadForm(ViewOf(nc)))).value;
      && NonConformities.UpdateEvents(id, nc, u, userId, now) == []
      && NonConformities.ApplyUpdate(nc, u, now) == nc.(
           resolvedAt := if nc.status == Resolved then Some(now) else nc.resolvedAt,
           dueDate := Resent(nc.dueDate))
  {
    StatusNameParses(nc.status);
    SeverityNameParses(nc.severity);
    StoredSeverityIsShown(nc);
    var u := ParseUpdate(UpdatePayload(LoadForm(ViewOf(nc)))).value;
    assert u.status == Some(nc.status);
    assert u.severity == Some(nc.severity);
    var r := NonConformities.ApplyUpdate(nc, u, now);
    assert r.status == nc.status;
    assert r.severity == nc.severity;
    assert r.assignedToUserId == nc.assignedToUserId;
    assert r.responsible == nc.responsible;
    assert r.rootCause == nc.rootCause;
    assert r.correctiveAction == nc.correctiveAction;
    assert r.resolvedAt == (if nc.status == Resolved then Some(now) else nc.resolvedAt);
  }

  /** Emptying a text field in the form does not clear it: the stored text is
      kept. Emptying the assignee does clear the assignment. */
  lemma EmptiedFieldsOnSave(nc: NonConformity, f: Form, now: int)
    requires ParseUpdate(UpdatePayload(f)).Some?
    ensures var r := NonConformities.ApplyUpdate(nc, ParseUpdate(UpdatePayload(f)).value, now);
      && (f.responsible == "" ==> r.responsible == nc.responsible)
      && (f.rootCause == "" ==> r.rootCause == nc.rootCause)
      && (f.correctiveAction == "" ==> r.correctiveAction == nc.correctiveAction)
      && (f.dueDate == "" ==> r.dueDate == nc.dueDate)
      && (f.assignedToUserId == "" ==> r.assignedToUserId.None?)
  {
  }
}
