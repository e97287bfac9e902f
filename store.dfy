/** The persisted entities the controllers read and write, and an in-memory
    store standing in for the database. Ids generated by the database are
    positions: audit `i` is `audits[i]`, non-conformity `i` is
    `nonConformities[i]`. Checklist items and users are keyed by their string
    id. Each request handler is one atomic step on this store. */
module Store {
  import opened Wrappers
  import opened Validation

  datatype ChecklistItem = ChecklistItem(
    id: string, code: string, title: string, description: string, category: string, order: int)

  datatype User = User(id: string, name: string, email: string)

  datatype Audit = Audit(
    id: nat,
    performedByUserId: string,
    measurementPlanVersion: Option<string>,
    notes: Option<string>,
    overallAdherencePercentage: real,
    performedAt: int)

  datatype AuditAnswer = AuditAnswer(
    auditId: nat, checklistItemId: string, answer: AnswerKind, comment: Option<string>)

  datatype NonConformity = NonConformity(
    auditId: nat,
    checklistItemId: string,
    openedByUserId: string,
    title: string,
    description: string,
    status: NCStatus,
    severity: Severity,
    assignedToUserId: Option<string>,
    responsible: Option<string>,
    rootCause: Option<string>,
    correctiveAction: Option<string>,
    dueDate: Option<string>,
    resolvedAt: Option<int>,
    emailSent: bool,
    createdAt: int)

  datatype EventType = StatusChanged | AssignmentChanged

  datatype NCEvent = NCEvent(
    nonConformityId: nat,
    eventType: EventType,
    oldStatus: Option<NCStatus>,
    newStatus: Option<NCStatus>,
    comment: Option<string>,
    createdByUserId: string,
    createdAt: int)

  /** The error responses: 400, 404 and 500. */
  datatype ApiError = BadRequest | NotFound | ServerError

  /** The links between generated ids: every audit sits at the position
      of its id, and every answer, NC and event refers to a record that exists. */
  ghost predicate Consistent(
    audits: seq<Audit>, answers: seq<AuditAnswer>, nonConformities: seq<NonConformity>, events: seq<NCEvent>)
  {
    && (forall i :: 0 <= i < |audits| ==> audits[i].id == i)
    && (forall i :: 0 <= i < |answers| ==> answers[i].auditId < |audits|)
    && (forall i :: 0 <= i < |nonConformities| ==> nonConformities[i].auditId < |audits|)
    && (forall i :: 0 <= i < |events| ==> events[i].nonConformityId < |nonConformities|)
  }

  class Database {
    var checklistItems: map<string, ChecklistItem>
    var users: map<string, User>
    var audits: seq<Audit>
    var answers: seq<AuditAnswer>
    var nonConformities: seq<NonConformity>
    var events: seq<NCEvent>

    /** The checklist and the users are keyed by their own ids. No operation
        of the model writes these two tables, so this holds from the
        constructor on. */
    ghost predicate Keyed()
      reads this`checklistItems, this`users
    {
      && (forall k :: k in checklistItems ==> checklistItems[k].id == k)
      && (forall k :: k in users ==> users[k].id == k)
    }

    /** Every reference to a generated id points at an existing record. */
    ghost predicate Valid()
      reads this`audits, this`answers, this`nonConformities, this`events
    {
      Consistent(audits, answers, nonConformities, events)
    }

    /** A store seeded with the checklist and the users, and nothing else. */
    constructor (items: map<string, ChecklistItem>, people: map<string, User>)
      requires forall k :: k in items ==> items[k].id == k
      requires forall k :: k in people ==> people[k].id == k
      ensures Keyed() && Valid()
      ensures checklistItems == items && users == people
      ensures audits == [] && answers == [] && nonConformities == [] && events == []
    {
      checklistItems := items;
      users := people;
      audits := [];
      answers := [];
      nonConformities := [];
      events := [];
    }
  }
}
