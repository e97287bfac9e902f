/** The request schemas of backend/src/lib/validation.ts as datatypes and parse
    functions: a raw payload (strings where the wire carries strings) is
    accepted exactly when the schema accepts it, and parsing keeps every field.
    The uuid, e-mail and datetime format checks are not modelled: ids, e-mail
    addresses and dates are opaque strings. */
module Validation {
  import opened Wrappers

  // ---------------------------------------------------------------- enums

  datatype AnswerKind = Compliant | NonCompliant | NotApplicable

  datatype NCStatus = Open | InProgress | Resolved

  /** Severity codes, in rising order of urgency. */
  datatype Severity = Baixa | Media | Alta | Critica

  function AnswerName(k: AnswerKind): string
  {
    match k
    case Compliant => "COMPLIANT"
    case NonCompliant => "NON_COMPLIANT"
    case NotApplicable => "NOT_APPLICABLE"
  }

  function StatusName(s: NCStatus): string
  {
    match s
    case Open => "OPEN"
    case InProgress => "IN_PROGRESS"
    case Resolved => "RESOLVED"
  }

  function SeverityName(s: Severity): string
  {
    match s
    case Baixa => "BAIXA"
    case Media => "MEDIA"
    case Alta => "ALTA"
    case Critica => "CRITICA"
  }

  /** Position of a severity in the declared order BAIXA < MEDIA < ALTA < CRITICA. */
  function SeverityRank(s: Severity): nat
  {
    match s
    case Baixa => 0
    case Media => 1
    case Alta => 2
    case Critica => 3
  }

  /** `z.enum(['COMPLIANT', 'NON_COMPLIANT', 'NOT_APPLICABLE'])`. */
  function ParseAnswerKind(s: string): (r: Option<AnswerKind>)
    ensures r.Some? ==> AnswerName(r.value) == s
    ensures r.None? ==> forall k: AnswerKind :: AnswerName(k) != s
  {
    if s == "COMPLIANT" then Some(Compliant)
    else if s == "NON_COMPLIANT" then Some(NonCompliant)
    else if s == "NOT_APPLICABLE" then Some(NotApplicable)
    else None
  }

  /** `z.enum(['OPEN', 'IN_PROGRESS', 'RESOLVED'])`. */
  function ParseStatus(s: string): (r: Option<NCStatus>)
    ensures r.Some? ==> StatusName(r.value) == s
    ensures r.None? ==> forall k: NCStatus :: StatusName(k) != s
  {
    if s == "OPEN" then Some(Open)
    else if s == "IN_PROGRESS" then Some(InProgress)
    else if s == "RESOLVED" then Some(Resolved)
    else None
  }

  /** `z.enum(['BAIXA', 'MEDIA', 'ALTA', 'CRITICA'])`. */
  function ParseSeverity(s: string): (r: Option<Severity>)
    ensures r.Some? ==> SeverityName(r.value) == s
    ensures r.None? ==> forall k: Severity :: SeverityName(k) != s
  {
    if s == "BAIXA" then Some(Baixa)
    else if s == "MEDIA" then Some(Media)
    else if s == "ALTA" then Some(Alta)
    else if s == "CRITICA" then Some(Critica)
    else None
  }

  // ---------------------------------------------------------------- login

  datatype LoginInput = LoginInput(email: string, password: string)

  /** `loginSchema`: the password must have at least one character. */
  function ParseLogin(email: string, password: string): (r: Option<LoginInput>)
    ensures r.Some? <==> |password| >= 1
    ensures r.Some? ==> r.value.email == email && r.value.password == password
  {
    if |password| >= 1 then Some(LoginInput(email, password)) else None
  }

  // ---------------------------------------------------------- create audit

  /** One submitted answer as it arrives: the answer is still a string. */
  datatype RawAnswer = RawAnswer(checklistItemId: string, answer: string, comment: Option<string>)

  datatype RawCreateAudit = RawCreateAudit(
    performedByUserId: string,
    measurementPlanVersion: Option<string>,
    notes: Option<string>,
    answers: seq<RawAnswer>)

  datatype AnswerInput = AnswerInput(checklistItemId: string, answer: AnswerKind, comment: Option<string>)

  datatype CreateAuditInput = CreateAuditInput(
    performedByUserId: string,
    measurementPlanVersion: Option<string>,
    notes: Option<string>,
    answers: seq<AnswerInput>)

  /** Every answer string must be one of the three answer codes; the id and
      the optional comment are kept as they are. */
  function ParseAnswers(raw: seq<RawAnswer>): (r: Option<seq<AnswerInput>>)
    ensures r.Some? <==> forall i :: 0 <= i < |raw| ==> ParseAnswerKind(raw[i].answer).Some?
    ensures r.Some? ==> |r.value| == |raw|
    ensures r.Some? ==> forall i :: 0 <= i < |raw| ==>
      && r.value[i].checklistItemId == raw[i].checklistItemId
      && AnswerName(r.value[i].answer) == raw[i].answer
      && r.value[i].comment == raw[i].comment
  {
    if raw == [] then Some([])
    else
      var head := ParseAnswerKind(raw[0].answer);
      var tail := ParseAnswers(raw[1..]);
      if head.None? || tail.None? then
        assert head.None? ==> !ParseAnswerKind(raw[0].answer).Some?;
        None
      else
        Some([AnswerInput(raw[0].checklistItemId, head.value, raw[0].comment)] + tail.value)
  }

  /** `createAuditSchema`: at least one answer, each answer well formed;
      version and notes are optional and copied through. */
  function ParseCreateAudit(raw: RawCreateAudit): (r: Option<CreateAuditInput>)
    ensures r.Some? <==>
      |raw.answers| >= 1 && forall i :: 0 <= i < |raw.answers| ==> ParseAnswerKind(raw.answers[i].answer).Some?
    ensures r.Some? ==>
      && r.value.performedByUserId == raw.performedByUserId
      && r.value.measurementPlanVersion == raw.measurementPlanVersion
      && r.value.notes == raw.notes
      && |r.value.answers| == |raw.answers| >= 1
      && r.value.answers == ParseAnswers(raw.answers).value
  {
    var answers := ParseAnswers(raw.answers);
    if |raw.answers| == 0 || answers.None? then None
    else Some(CreateAuditInput(raw.performedByUserId, raw.measurementPlanVersion, raw.notes, answers.value))
  }

  // ------------------------------------------------------------- NC update

  /** `assignedToUserId: z.string().uuid().nullable().optional()`: the key can
      be missing, explicitly null (clear the assignment) or an id. */
  datatype AssigneeField = AssigneeAbsent | AssigneeNull | AssigneeId(id: string)

  datatype RawUpdate = RawUpdate(
    status: Option<string>,
    severity: Option<string>,
    assignedToUserId: AssigneeField,
    responsible: Option<string>,
    rootCause: Option<string>,
    correctiveAction: Option<string>,
    dueDate: Option<string>)

  datatype UpdateInput = UpdateInput(
    status: Option<NCStatus>,
    severity: Option<Severity>,
    assignedToUserId: AssigneeField,
    responsible: Option<string>,
    rootCause: Option<string>,
    correctiveAction: Option<string>,
    dueDate: Option<string>)

  /** The update with no field at all. */
  const EmptyRawUpdate := RawUpdate(None, None, AssigneeAbsent, None, None, None, None)

  /** `updateNCSchema`: every field is optional; a status or severity that is
      present must be one of its codes; everything else is copied. */
  function ParseUpdate(raw: RawUpdate): (r: Option<UpdateInput>)
    ensures r.Some? <==>
      && (raw.status.Some? ==> ParseStatus(raw.status.value).Some?)
      && (raw.severity.Some? ==> ParseSeverity(raw.severity.value).Some?)
    ensures r.Some? ==>
      && (r.value.status.Some? <==> raw.status.Some?)
      && (raw.status.Some? ==> StatusName(r.value.status.value) == raw.status.value)
      && (r.value.severity.Some? <==> raw.severity.Some?)
      && (raw.severity.Some? ==> SeverityName(r.value.severity.value) == raw.severity.value)
      && r.value.assignedToUserId == raw.assignedToUserId
      && r.value.responsible == raw.responsible
      && r.value.rootCause == raw.rootCause
      && r.value.correctiveAction == raw.correctiveAction
      && r.value.dueDate == raw.dueDate
  {
    var status := if raw.status.Some? then ParseStatus(raw.status.value) else None;
    var severity := if raw.severity.Some? then ParseSeverity(raw.severity.value) else None;
    if (raw.status.Some? && status.None?) || (raw.severity.Some? && severity.None?) then None
    else Some(UpdateInput(status, severity, raw.assignedToUserId, raw.responsible,
                          raw.rootCause, raw.correctiveAction, raw.dueDate))
  }

  /** The empty update is accepted and changes nothing. */
  lemma EmptyUpdateIsValid()
    ensures ParseUpdate(EmptyRawUpdate) == Some(UpdateInput(None, None, AssigneeAbsent, None, None, None, None))
  {
  }
}
