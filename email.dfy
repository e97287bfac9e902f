/** The part of backend/src/lib/email.ts that decides something: the severity
    tables with their fallbacks, the choice of recipient, the subjects and the
    early return of the status-change notification. A message is modelled by
    its recipient, its subject and the values the HTML template prints; the
    markup and the transport are not modelled. */
module Email {
  import opened Wrappers
  import opened Validation

  /** `severityLabels`. */
  function LabelOf(s: Severity): string
  {
    match s
    case Baixa => "Baixa"
    case Media => "Média"
    case Alta => "Alta"
    case Critica => "Crítica"
  }

  /** `severityDeadlines`, in days. */
  function DeadlineOf(s: Severity): nat
  {
    match s
    case Baixa => 5
    case Media => 4
    case Alta => 3
    case Critica => 2
  }

  /** `severityLabels[severity] || 'Média'`: a code outside the table gets the
      label of MEDIA. */
  function SeverityLabel(severity: string): (r: string)
    ensures forall s: Severity :: severity == SeverityName(s) ==> r == LabelOf(s)
    ensures ParseSeverity(severity).None? ==> r == "Média"
  {
    match ParseSeverity(severity)
    case Some(s) => LabelOf(s)
    case None => "Média"
  }

  /** `severityDeadlines[severity] || 4`: every deadline in the table is
      non-zero, so only a code outside the table gets the fallback. */
  function SeverityDeadline(severity: string): (r: nat)
    ensures 2 <= r <= 5
    ensures forall s: Severity :: severity == SeverityName(s) ==> r == DeadlineOf(s)
    ensures ParseSeverity(severity).None? ==> r == 4
  {
    match ParseSeverity(severity)
    case Some(s) => DeadlineOf(s)
    case None => 4
  }

  /** The remediation deadline shrinks strictly as the severity rises. */
  lemma DeadlinesDecrease(a: Severity, b: Severity)
    requires SeverityRank(a) < SeverityRank(b)
    ensures SeverityDeadline(SeverityName(a)) > SeverityDeadline(SeverityName(b))
  {
    assert ParseSeverity(SeverityName(a)) == Some(a);
    assert ParseSeverity(SeverityName(b)) == Some(b);
  }

  /** The four labels are pairwise different, so the label identifies the severity. */
  lemma LabelsDistinct(a: Severity, b: Severity)
    requires a != b
    ensures SeverityLabel(SeverityName(a)) != SeverityLabel(SeverityName(b))
  {
    assert ParseSeverity(SeverityName(a)) == Some(a);
    assert ParseSeverity(SeverityName(b)) == Some(b);
  }

  /** A code outside the table is treated exactly like MEDIA. */
  lemma UnknownSeverityActsAsMedia(severity: string)
    requires ParseSeverity(severity).None?
    ensures SeverityLabel(severity) == SeverityLabel(SeverityName(Media))
    ensures SeverityDeadline(severity) == SeverityDeadline(SeverityName(Media))
  {
    assert ParseSeverity(SeverityName(Media)) == Some(Media);
  }

  /** `assignedToEmail || process.env.DEFAULT_QUALITY_EMAIL || ''`; the
      configured default address is a parameter. */
  function CreationRecipient(assignedToEmail: Option<string>, defaultQualityEmail: Option<string>): (r: string)
    ensures Truthy(assignedToEmail) ==> r == assignedToEmail.value
    ensures !Truthy(assignedToEmail) && Truthy(defaultQualityEmail) ==> r == defaultQualityEmail.value
    ensures r == "" <==> !Truthy(assignedToEmail) && !Truthy(defaultQualityEmail)
  {
    OrElse(assignedToEmail, OrElse(defaultQualityEmail, ""))
  }

  const CreationSubjectPrefix := "Notificação de Não Conformidade - "
  const StatusChangeSubjectPrefix := "Status da NC Alterado: "

  /** What the templates print, without their markup. */
  datatype Body =
    | CreationBody(
        greeting: string,
        itemCode: string,
        itemTitle: string,
        description: string,
        severityLabel: string,
        responsibleLine: Option<string>,
        deadlineDays: nat)
    | StatusChangeBody(ncTitle: string, oldStatus: string, newStatus: string)

  datatype Message = Message(to: string, subject: string, body: Body)

  /** `sendNCCreationEmail`: the message handed to the transport. The NC
      title is a parameter of the source function but the template does not
      print it. */
  function CreationEmail(
    ncTitle: string, ncDescription: string, checklistItemCode: string, checklistItemTitle: string,
    severity: string, responsible: Option<string>, assignedToEmail: Option<string>,
    defaultQualityEmail: Option<string>): (m: Message)
    ensures m.to == CreationRecipient(assignedToEmail, defaultQualityEmail)
    ensures m.subject == CreationSubjectPrefix + checklistItemCode
    ensures m.body.CreationBody? && m.body.itemCode == checklistItemCode
    ensures m.body.severityLabel == SeverityLabel(severity) && m.body.deadlineDays == SeverityDeadline(severity)
    ensures m.body.greeting == (if Truthy(responsible) then responsible.value else "Responsável")
    ensures m.body.itemTitle == checklistItemTitle && m.body.description == ncDescription
    ensures m.body.responsibleLine == (if Truthy(responsible) then responsible else None)
  {
    Message(
      CreationRecipient(assignedToEmail, defaultQualityEmail),
      CreationSubjectPrefix + checklistItemCode,
      CreationBody(
        OrElse(responsible, "Responsável"),
        checklistItemCode,
        checklistItemTitle,
        ncDescription,
        SeverityLabel(severity),
        if Truthy(responsible) then responsible else None,
        SeverityDeadline(severity)))
  }

  /** The subject of a creation message names its checklist item: the code
      is what follows the fixed prefix, so messages about different items
      never share a subject. */
  lemma CreationSubjectNamesItem(
    ncTitle: string, ncDescription: string, code: string, otherCode: string, checklistItemTitle: string,
    severity: string, responsible: Option<string>, assignedToEmail: Option<string>, defaultQualityEmail: Option<string>)
    ensures var m := CreationEmail(ncTitle, ncDescription, code, checklistItemTitle, severity, responsible, assignedToEmail, defaultQualityEmail);
      m.subject[|CreationSubjectPrefix|..] == code
    ensures code != otherCode ==>
      CreationEmail(ncTitle, ncDescription, code, checklistItemTitle, severity, responsible, assignedToEmail, defaultQualityEmail).subject
      != CreationEmail(ncTitle, ncDescription, otherCode, checklistItemTitle, severity, responsible, assignedToEmail, defaultQualityEmail).subject
  {
    var p := CreationSubjectPrefix;
    assert (p + code)[|p|..] == code;
    assert (p + otherCode)[|p|..] == otherCode;
  }

  /** `sendNCStatusChangeEmail`: nothing at all is sent when there is no
      (truthy) address; otherwise one message to that address. */
  function StatusChangeEmail(ncTitle: string, oldStatus: string, newStatus: string, assignedToEmail: Option<string>): (m: Option<Message>)
    ensures m.None? <==> !Truthy(assignedToEmail)
    ensures m.Some? ==> m.value.to == assignedToEmail.value
    ensures m.Some? ==> m.value.subject == StatusChangeSubjectPrefix + ncTitle
    ensures m.Some? ==> m.value.body == StatusChangeBody(ncTitle, oldStatus, newStatus)
  {
    if !Truthy(assignedToEmail) then None
    else Some(Message(assignedToEmail.value, StatusChangeSubjectPrefix + ncTitle,
                      StatusChangeBody(ncTitle, oldStatus, newStatus)))
  }
}
