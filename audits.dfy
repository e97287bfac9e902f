/** `createAudit` of backend/src/modules/audits/audits.controller.ts: counting
    the answers, the adherence percentage, the stored answer rows, the
    non-conformities opened for failed items and the creation e-mails that
    set their `emailSent` flag. Percentages are exact reals. */
module Audits {
  import opened Wrappers
  import opened Validation
  import opened Store
  import Email

  // ------------------------------------------------------------- counting

  /** `answers.filter(a => a.answer === k).length`. */
  function Count(kinds: seq<AnswerKind>, k: AnswerKind): (n: nat)
    ensures n <= |kinds|
  {
    if kinds == [] then 0 else (if kinds[0] == k then 1 else 0) + Count(kinds[1..], k)
  }

  lemma {:induction false} CountConcat(a: seq<AnswerKind>, b: seq<AnswerKind>, k: AnswerKind)
    ensures Count(a + b, k) == Count(a, k) + Count(b, k)
  {
    if a == [] {
      assert a + b == b;
    } else {
      assert (a + b)[1..] == a[1..] + b;
      CountConcat(a[1..], b, k);
    }
  }

  /** Every answer is of exactly one kind, so the three counts add up to the
      number of answers. */
  lemma {:induction false} CountsPartition(kinds: seq<AnswerKind>)
    ensures Count(kinds, Compliant) + Count(kinds, NonCompliant) + Count(kinds, NotApplicable) == |kinds|
  {
    if kinds != [] {
      CountsPartition(kinds[1..]);
    }
  }

  /** The answer column of a list of submitted answers. */
  function Kinds(answers: seq<AnswerInput>): (ks: seq<AnswerKind>)
    ensures |ks| == |answers|
    ensures forall i :: 0 <= i < |answers| ==> ks[i] == answers[i].answer
  {
    seq(|answers|, i requires 0 <= i < |answers| => answers[i].answer)
  }

  // ------------------------------------------------------------ adherence

  /** compliant / (compliant + nonCompliant) * 100, and 0 when nothing was
      evaluated. The result is the unique p in [0, 100] with
      p * evaluated == compliant * 100. */
  function Adherence(compliant: nat, nonCompliant: nat): (p: real)
    ensures 0.0 <= p <= 100.0
    ensures compliant + nonCompliant == 0 ==> p == 0.0
    ensures compliant + nonCompliant > 0 ==> p * (compliant + nonCompliant) as real == compliant as real * 100.0
  {
    var evaluated := compliant + nonCompliant;
    if evaluated > 0 then
      var ratio := compliant as real / evaluated as real;
      assert 0.0 <= ratio <= 1.0 by {
        assert ratio * evaluated as real == compliant as real;
      }
      ratio * 100.0
    else 0.0
  }

  /** Adherence of a list of answer kinds. */
  function AdherenceOf(kinds: seq<AnswerKind>): real
  {
    Adherence(Count(kinds, Compliant), Count(kinds, NonCompliant))
  }

  /** Full adherence means no failed item and at least one passed one; zero
      adherence means no passed item. */
  lemma AdherenceExtremes(compliant: nat, nonCompliant: nat)
    ensures Adherence(compliant, nonCompliant) == 100.0 <==> compliant > 0 && nonCompliant == 0
    ensures Adherence(compliant, nonCompliant) == 0.0 <==> compliant == 0
  {
    var p := Adherence(compliant, nonCompliant);
    if compliant + nonCompliant > 0 {
      var e := (compliant + nonCompliant) as real;
      assert p * e == compliant as real * 100.0;
      if p == 100.0 {
        assert 100.0 * e == compliant as real * 100.0;
      }
    }
  }

  /** Adding a NOT_APPLICABLE answer anywhere, or removing one, leaves the
      adherence unchanged. */
  lemma NotApplicableNeutral(kinds: seq<AnswerKind>, i: nat)
    requires i <= |kinds|
    ensures AdherenceOf(kinds[..i] + [NotApplicable] + kinds[i..]) == AdherenceOf(kinds)
  {
    assert kinds == kinds[..i] + kinds[i..];
    CountConcat(kinds[..i] + [NotApplicable], kinds[i..], Compliant);
    CountConcat(kinds[..i], [NotApplicable], Compliant);
    CountConcat(kinds[..i], kinds[i..], Compliant);
    CountConcat(kinds[..i] + [NotApplicable], kinds[i..], NonCompliant);
    CountConcat(kinds[..i], [NotApplicable], NonCompliant);
    CountConcat(kinds[..i], kinds[i..], NonCompliant);
  }

  // ----------------------------------------------------------- audit rows

  function NewAudit(id: nat, data: CreateAuditInput, now: int): (a: Audit)
    ensures a.id == id && a.performedAt == now
    ensures a.performedByUserId == data.performedByUserId
    ensures a.measurementPlanVersion == data.measurementPlanVersion && a.notes == data.notes
    ensures a.overallAdherencePercentage == AdherenceOf(Kinds(data.answers))
  {
    Audit(id, data.performedByUserId, data.measurementPlanVersion, data.notes,
          AdherenceOf(Kinds(data.answers)), now)
  }

  /** One stored row per submitted answer, in order, linked to the audit. */
  function AnswerRows(auditId: nat, answers: seq<AnswerInput>): (rows: seq<AuditAnswer>)
    ensures |rows| == |answers|
    ensures forall i :: 0 <= i < |answers| ==>
      rows[i] == AuditAnswer(auditId, answers[i].checklistItemId, answers[i].answer, answers[i].comment)
  {
    seq(|answers|, i requires 0 <= i < |answers| =>
      AuditAnswer(auditId, answers[i].checklistItemId, answers[i].answer, answers[i].comment))
  }

  // ------------------------------------------------------ non-conformities

  /** `data.answers.filter(a => a.answer === 'NON_COMPLIANT')`. */
  function NonCompliantAnswers(answers: seq<AnswerInput>): (r: seq<AnswerInput>)
    ensures |r| == Count(Kinds(answers), NonCompliant)
    ensures forall a :: a in r ==> a in answers && a.answer == NonCompliant
  {
    if answers == [] then []
    else
      assert Kinds(answers)[1..] == Kinds(answers[1..]);
      var rest := NonCompliantAnswers(answers[1..]);
      if answers[0].answer == NonCompliant then [answers[0]] + rest else rest
  }

  /** Every NON_COMPLIANT answer is kept as often as it was submitted, and no
      other answer is. */
  lemma {:induction false} NonCompliantAnswersKeeps(answers: seq<AnswerInput>)
    ensures forall a :: multiset(NonCompliantAnswers(answers))[a]
                     == if a.answer == NonCompliant then multiset(answers)[a] else 0
  {
    if answers != [] {
      NonCompliantAnswersKeeps(answers[1..]);
      var first := answers[0];
      var rest := NonCompliantAnswers(answers[1..]);
      assert multiset(answers) == multiset{first} + multiset(answers[1..]) by {
        assert answers == [first] + answers[1..];
      }
      if first.answer == NonCompliant {
        assert multiset([first] + rest) == multiset{first} + multiset(rest);
      }
    }
  }

  /** The filter keeps the answers in submission order: it distributes over
      concatenation, so each failed answer lands where it was submitted. */
  lemma {:induction false} NonCompliantAnswersConcat(a: seq<AnswerInput>, b: seq<AnswerInput>)
    ensures NonCompliantAnswers(a + b) == NonCompliantAnswers(a) + NonCompliantAnswers(b)
  {
    if a == [] {
      assert a + b == b;
    } else {
      assert (a + b)[1..] == a[1..] + b;
      NonCompliantAnswersConcat(a[1..], b);
    }
  }

  /** The answers whose checklist item is found (the others are skipped). */
  function WithKnownItem(items: map<string, ChecklistItem>, answers: seq<AnswerInput>): (r: seq<AnswerInput>)
    ensures |r| <= |answers|
    ensures forall a :: a in r ==> a in answers && a.checklistItemId in items
  {
    if answers == [] then []
    else
      var init := WithKnownItem(items, answers[..|answers| - 1]);
      var last := answers[|answers| - 1];
      assert forall a :: a in answers[..|answers| - 1] ==> a in answers;
      assert answers == answers[..|answers| - 1] + [last];
      if last.checklistItemId in items then init + [last] else init
  }

  /** An answer is skipped only when its own item is unknown: every answer
      with a known item is kept, as often as it was submitted. */
  lemma {:induction false} WithKnownItemKeeps(items: map<string, ChecklistItem>, answers: seq<AnswerInput>)
    ensures forall a :: multiset(WithKnownItem(items, answers))[a]
                     == if a.checklistItemId in items then multiset(answers)[a] else 0
  {
    if answers != [] {
      var init := answers[..|answers| - 1];
      var last := answers[|answers| - 1];
      WithKnownItemKeeps(items, init);
      assert answers == init + [last];
      assert multiset(answers) == multiset(init) + multiset{last};
      var r := WithKnownItem(items, init);
      assert multiset(r + [last]) == multiset(r) + multiset{last};
    }
  }

  /** When every answered item exists, nothing is skipped. */
  lemma {:induction false} WithKnownItemAllKnown(items: map<string, ChecklistItem>, answers: seq<AnswerInput>)
    requires forall i :: 0 <= i < |answers| ==> answers[i].checklistItemId in items
    ensures WithKnownItem(items, answers) == answers
  {
    if answers != [] {
      var n := |answers| - 1;
      WithKnownItemAllKnown(items, answers[..n]);
      assert answers == answers[..n] + [answers[n]];
    }
  }

  /** Skipping answers with an unknown item keeps the others in order: the
      filter distributes over concatenation. */
  lemma {:induction false} WithKnownItemConcat(items: map<string, ChecklistItem>, a: seq<AnswerInput>, b: seq<AnswerInput>)
    ensures WithKnownItem(items, a + b) == WithKnownItem(items, a) + WithKnownItem(items, b)
  {
    if b == [] {
      assert a + b == a;
    } else {
      assert (a + b)[..|a + b| - 1] == a + b[..|b| - 1];
      WithKnownItemConcat(items, a, b[..|b| - 1]);
    }
  }

  /** The NC opened for one failed item. */
  function SynthesizeNC(item: ChecklistItem, a: AnswerInput, auditId: nat, openedBy: string, now: int): (nc: NonConformity)
    ensures nc.auditId == auditId && nc.checklistItemId == a.checklistItemId && nc.openedByUserId == openedBy
    ensures nc.title == "NC - " + item.code + ": " + item.title
    ensures nc.description == if Truthy(a.comment) then a.comment.value else item.description
    ensures nc.status == Open && nc.severity == Media
    ensures nc.assignedToUserId.None? && nc.responsible.None? && nc.resolvedAt.None? && !nc.emailSent
  {
    NonConformity(
      auditId, a.checklistItemId, openedBy,
      "NC - " + item.code + ": " + item.title,
      OrElse(a.comment, item.description),
      Open, Media, None, None, None, None, None, None, false, now)
  }

  /** The NCs the loop over the failed answers creates, in order. */
  function NewNonConformities(
    items: map<string, ChecklistItem>, failed: seq<AnswerInput>, auditId: nat, openedBy: string, now: int): (ncs: seq<NonConformity>)
    ensures |ncs| <= |failed|
  {
    if failed == [] then []
    else
      var init := NewNonConformities(items, failed[..|failed| - 1], auditId, openedBy, now);
      var last := failed[|failed| - 1];
      if last.checklistItemId in items
      then init + [SynthesizeNC(items[last.checklistItemId], last, auditId, openedBy, now)]
      else init
  }

  /** NC `j` is the one synthesised from the `j`-th failed answer whose item
      exists: one NC per kept answer, in the same order. */
  lemma {:induction false} NewNonConformitiesPointwise(
    items: map<string, ChecklistItem>, failed: seq<AnswerInput>, auditId: nat, openedBy: string, now: int)
    ensures var ncs := NewNonConformities(items, failed, auditId, openedBy, now);
      var known := WithKnownItem(items, failed);
      && |ncs| == |known|
      && forall j :: 0 <= j < |ncs| ==>
           known[j].checklistItemId in items
           && ncs[j] == SynthesizeNC(items[known[j].checklistItemId], known[j], auditId, openedBy, now)
  {
    if failed != [] {
      var n := |failed| - 1;
      NewNonConformitiesPointwise(items, failed[..n], auditId, openedBy, now);
      var known := WithKnownItem(items, failed);
      var init := WithKnownItem(items, failed[..n]);
      if failed[n].checklistItemId in items {
        assert known == init + [failed[n]];
      } else {
        assert known == init;
      }
      forall j | 0 <= j < |init| ensures init[j].checklistItemId in items {
        assert init[j] in init;
      }
    }
  }

  /** At most one NC per NON_COMPLIANT answer, and exactly one each when every
      answered item exists. */
  lemma NcCountMatchesFailures(items: map<string, ChecklistItem>, answers: seq<AnswerInput>, auditId: nat, openedBy: string, now: int)
    ensures |NewNonConformities(items, NonCompliantAnswers(answers), auditId, openedBy, now)| <= Count(Kinds(answers), NonCompliant)
    ensures (forall i :: 0 <= i < |answers| ==> answers[i].checklistItemId in items) ==>
      |NewNonConformities(items, NonCompliantAnswers(answers), auditId, openedBy, now)| == Count(Kinds(answers), NonCompliant)
  {
    var failed := NonCompliantAnswers(answers);
    if forall i :: 0 <= i < |answers| ==> answers[i].checklistItemId in items {
      forall j | 0 <= j < |failed| ensures failed[j].checklistItemId in items {
        assert failed[j] in failed;
        var i :| 0 <= i < |answers| && answers[i] == failed[j];
      }
      WithKnownItemAllKnown(items, failed);
    }
    NewNonConformitiesPointwise(items, failed, auditId, openedBy, now);
  }

  // --------------------------------------------------------------- e-mail

  /** `nc.assignedTo?.email`. */
  function AssigneeEmail(users: map<string, User>, assignedToUserId: Option<string>): (e: Option<string>)
    ensures e.Some? <==> assignedToUserId.Some? && assignedToUserId.value in users
    ensures e.Some? ==> e.value == users[assignedToUserId.value].email
  {
    if assignedToUserId.Some? && assignedToUserId.value in users
    then Some(users[assignedToUserId.value].email) else None
  }

  /** The creation e-mail sent for one new NC. */
  function CreationMessage(
    items: map<string, ChecklistItem>, users: map<string, User>, nc: NonConformity, defaultQualityEmail: Option<string>): Email.Message
    requires nc.checklistItemId in items
  {
    var item := items[nc.checklistItemId];
    Email.CreationEmail(
      nc.title, nc.description, item.code, item.title,
      SeverityName(nc.severity),
      Some(OrElse(nc.responsible, "A definir")),
      AssigneeEmail(users, nc.assignedToUserId),
      defaultQualityEmail)
  }

  /** The creation e-mails for a run of new NCs, in order. */
  function CreationMessages(
    items: map<string, ChecklistItem>, users: map<string, User>, ncs: seq<NonConformity>, defaultQualityEmail: Option<string>): (ms: seq<Email.Message>)
    requires forall j :: 0 <= j < |ncs| ==> ncs[j].checklistItemId in items
    ensures |ms| == |ncs|
  {
    if ncs == [] then []
    else CreationMessages(items, users, ncs[..|ncs| - 1], defaultQualityEmail)
         + [CreationMessage(items, users, ncs[|ncs| - 1], defaultQualityEmail)]
  }

  /** One message per NC, each the creation e-mail of that NC. */
  lemma {:induction false} CreationMessagesPointwise(
    items: map<string, ChecklistItem>, users: map<string, User>, ncs: seq<NonConformity>, defaultQualityEmail: Option<string>)
    requires forall j :: 0 <= j < |ncs| ==> ncs[j].checklistItemId in items
    ensures forall j :: 0 <= j < |ncs| ==>
      CreationMessages(items, users, ncs, defaultQualityEmail)[j] == CreationMessage(items, users, ncs[j], defaultQualityEmail)
  {
    if ncs != [] {
      CreationMessagesPointwise(items, users, ncs[..|ncs| - 1], defaultQualityEmail);
    }
  }

  /** The NCs after the creation e-mails: `emailSent` holds exactly for those
      whose message the transport accepted. */
  function MarkDelivered(ncs: seq<NonConformity>, firstId: nat, delivered: nat -> bool): (r: seq<NonConformity>)
    ensures |r| == |ncs|
  {
    if ncs == [] then []
    else MarkDelivered(ncs[..|ncs| - 1], firstId, delivered)
         + [ncs[|ncs| - 1].(emailSent := delivered(firstId + |ncs| - 1))]
  }

  /** NC `firstId + j` keeps everything but its flag, which is the
      transport's verdict on its e-mail. */
  lemma {:induction false} MarkDeliveredPointwise(ncs: seq<NonConformity>, firstId: nat, delivered: nat -> bool)
    ensures forall j :: 0 <= j < |ncs| ==>
      MarkDelivered(ncs, firstId, delivered)[j] == ncs[j].(emailSent := delivered(firstId + j))
  {
    if ncs != [] {
      MarkDeliveredPointwise(ncs[..|ncs| - 1], firstId, delivered);
    }
  }

  /** The response: the audit with its answers and NCs as returned, before
      any creation e-mail has set a flag. */
  datatype AuditView = AuditView(audit: Audit, answers: seq<AuditAnswer>, nonConformities: seq<NonConformity>)

  /** Every NC the loop creates belongs to the audit, names a known item and
      has not been e-mailed yet. */
  lemma NewNonConformitiesLinked(
    items: map<string, ChecklistItem>, failed: seq<AnswerInput>, auditId: nat, openedBy: string, now: int)
    ensures var ncs := NewNonConformities(items, failed, auditId, openedBy, now);
      forall j :: 0 <= j < |ncs| ==> ncs[j].checklistItemId in items && !ncs[j].emailSent && ncs[j].auditId == auditId
  {
    NewNonConformitiesPointwise(items, failed, auditId, openedBy, now);
  }

  /** One more failed answer adds its NC, or nothing when its item is missing. */
  lemma NewNonConformitiesStep(
    items: map<string, ChecklistItem>, failed: seq<AnswerInput>, i: nat, auditId: nat, openedBy: string, now: int)
    requires i < |failed|
    ensures NewNonConformities(items, failed[..i + 1], auditId, openedBy, now)
         == NewNonConformities(items, failed[..i], auditId, openedBy, now)
            + (if failed[i].checklistItemId in items
               then [SynthesizeNC(items[failed[i].checklistItemId], failed[i], auditId, openedBy, now)] else [])
  {
    assert failed[..i + 1][..i] == failed[..i];
  }

  /** The loop of lines 45-63: one NC per failed answer whose checklist
      item is found; an answer whose item is missing is skipped. */
  method OpenNonConformities(db: Database, failed: seq<AnswerInput>, auditId: nat, openedBy: string, now: int)
    returns (created: seq<NonConformity>)
    modifies db`nonConformities
    ensures created == NewNonConformities(db.checklistItems, failed, auditId, openedBy, now)
    ensures db.nonConformities == old(db.nonConformities) + created
    ensures db.nonConformities[|old(db.nonConformities)|..] == created
    ensures forall j :: 0 <= j < |created| ==>
      created[j].checklistItemId in db.checklistItems && !created[j].emailSent && created[j].auditId == auditId
  {
    ghost var ncs0 := db.nonConformities;
    created := [];
    for i := 0 to |failed|
      invariant created == NewNonConformities(db.checklistItems, failed[..i], auditId, openedBy, now)
      invariant db.nonConformities == ncs0 + created
    {
      var answer := failed[i];
      NewNonConformitiesStep(db.checklistItems, failed, i, auditId, openedBy, now);
      if answer.checklistItemId !in db.checklistItems {
        continue;
      }
      var item := db.checklistItems[answer.checklistItemId];
      var nc := SynthesizeNC(item, answer, auditId, openedBy, now);
      assert (ncs0 + created) + [nc] == ncs0 + (created + [nc]);
      db.nonConformities := db.nonConformities + [nc];
      created := created + [nc];
    }
    assert failed[..|failed|] == failed;
    NewNonConformitiesLinked(db.checklistItems, failed, auditId, openedBy, now);
  }

  /** Lines 100-123: one creation e-mail per created NC (ids `base`,
      `base + 1`, ...); a delivered one sets `emailSent`, a failed one
      leaves the record as it is. */
  method SendCreationEmails(
    db: Database, created: seq<NonConformity>, base: nat, defaultQualityEmail: Option<string>, delivered: nat -> bool)
    returns (outbox: seq<Email.Message>)
    requires |db.nonConformities| == base + |created|
    requires db.nonConformities[base..] == created
    requires forall j :: 0 <= j < |created| ==> created[j].checklistItemId in db.checklistItems && !created[j].emailSent
    modifies db`nonConformities
    ensures db.nonConformities == old(db.nonConformities)[..base] + MarkDelivered(created, base, delivered)
    ensures outbox == CreationMessages(db.checklistItems, db.users, created, defaultQualityEmail)
  {
    var earlier := db.nonConformities[..base];
    var marked := [];
    for j := 0 to |created|
      invariant marked == MarkDelivered(created[..j], base, delivered)
    {
      var nc := created[j];
      assert created[..j + 1][..j] == created[..j];
      marked := marked + [nc.(emailSent := delivered(base + j))];
    }
    assert created[..|created|] == created;
    db.nonConformities := earlier + marked;
    outbox := CreationMessages(db.checklistItems, db.users, created, defaultQualityEmail);
  }

  /** The store after a valid submission, and the response and e-mails:
      the audit is appended with the next id and the adherence of its
      answers, one row per answer, one NC per failed answer whose item exists
      (flagged by the transport's verdict on its e-mail), one creation e-mail
      per new NC, and the response carries the records as first written. */
  ghost predicate AuditCreated(
    items: map<string, ChecklistItem>, users: map<string, User>,
    audits0: seq<Audit>, answers0: seq<AuditAnswer>, ncs0: seq<NonConformity>,
    data: CreateAuditInput, now: int, defaultQualityEmail: Option<string>, delivered: nat -> bool,
    audits: seq<Audit>, answers: seq<AuditAnswer>, ncs: seq<NonConformity>,
    view: AuditView, outbox: seq<Email.Message>)
  {
    var id := |audits0|;
    var audit := NewAudit(id, data, now);
    var rows := AnswerRows(id, data.answers);
    var created := NewNonConformities(items, NonCompliantAnswers(data.answers), id, data.performedByUserId, now);
    && view == AuditView(audit, rows, created)
    && audits == audits0 + [audit]
    && answers == answers0 + rows
    && ncs == ncs0 + MarkDelivered(created, |ncs0|, delivered)
    && (forall j :: 0 <= j < |created| ==> created[j].checklistItemId in items)
    && outbox == CreationMessages(items, users, created, defaultQualityEmail)
  }

  /** `createAudit`. The mail transport is the parameter `delivered`: the
      creation e-mail of NC `id` is accepted exactly when `delivered(id)`.
      The e-mails are sent after the response is built; a failure only
      leaves that NC's flag false. */
  method CreateAudit(
    db: Database, raw: RawCreateAudit, now: int, defaultQualityEmail: Option<string>, delivered: nat -> bool)
    returns (r: Result<AuditView, ApiError>, outbox: seq<Email.Message>)
    requires db.Valid()
    modifies db`audits, db`answers, db`nonConformities
    ensures db.Valid()
    ensures ParseCreateAudit(raw).None? ==> r == Failure(BadRequest) && outbox == [] && unchanged(db)
    ensures ParseCreateAudit(raw).Some? ==>
      && r.Success?
      && AuditCreated(
           db.checklistItems, db.users, old(db.audits), old(db.answers), old(db.nonConformities),
           ParseCreateAudit(raw).value, now, defaultQualityEmail, delivered,
           db.audits, db.answers, db.nonConformities, r.value, outbox)
  {
    var parsed := ParseCreateAudit(raw);
    if parsed.None? {
      return Failure(BadRequest), [];
    }
    var view;
    view, outbox := PersistAudit(db, parsed.value, now, defaultQualityEmail, delivered);
    r := Success(view);
  }

  /** The body of the handler once the payload is valid: the transaction
      of lines 20-66, then the creation e-mails of lines 99-124. */
  method PersistAudit(
    db: Database, data: CreateAuditInput, now: int, defaultQualityEmail: Option<string>, delivered: nat -> bool)
    returns (view: AuditView, outbox: seq<Email.Message>)
    requires db.Valid()
    modifies db`audits, db`answers, db`nonConformities
    ensures db.Valid()
    ensures AuditCreated(
      db.checklistItems, db.users, old(db.audits), old(db.answers), old(db.nonConformities),
      data, now, defaultQualityEmail, delivered, db.audits, db.answers, db.nonConformities, view, outbox)
  {
    ghost var audits0, answers0, ncs0 := db.audits, db.answers, db.nonConformities;
    var base := |db.nonConformities|;
    // the transaction
    var audit, rows := InsertAudit(db, data, now);
    var created := OpenNonConformities(db, NonCompliantAnswers(data.answers), audit.id, data.performedByUserId, now);
    view := AuditView(audit, rows, created);

    // after the transaction: the creation e-mails
    outbox := SendCreationEmails(db, created, base, defaultQualityEmail, delivered);
    assert (ncs0 + created)[..base] == ncs0;
    ghost var marked := MarkDelivered(created, base, delivered);
    assert db.nonConformities == ncs0 + marked;
    MarkedKeepAudit(created, base, delivered, audit.id);
    CreatePreservesConsistency(db, audits0, answers0, ncs0, audit, rows, marked);
  }

  /** Lines 22-40: the audit record with its adherence, and one row per answer. */
  method InsertAudit(db: Database, data: CreateAuditInput, now: int) returns (audit: Audit, rows: seq<AuditAnswer>)
    modifies db`audits, db`answers
    ensures audit == NewAudit(|old(db.audits)|, data, now)
    ensures rows == AnswerRows(|old(db.audits)|, data.answers)
    ensures db.audits == old(db.audits) + [audit] && db.answers == old(db.answers) + rows
  {
    var kinds := Kinds(data.answers);
    var compliantCount := Count(kinds, Compliant);
    var nonCompliantCount := Count(kinds, NonCompliant);
    var adherence := Adherence(compliantCount, nonCompliantCount);
    var id := |db.audits|;
    audit := Audit(id, data.performedByUserId, data.measurementPlanVersion, data.notes, adherence, now);
    rows := AnswerRows(id, data.answers);
    db.audits := db.audits + [audit];
    db.answers := db.answers + rows;
  }

  /** Appending an audit with its rows and NCs keeps the store invariant. */
  lemma CreatePreservesConsistency(
    db: Database, audits: seq<Audit>, answers: seq<AuditAnswer>, ncs: seq<NonConformity>,
    audit: Audit, rows: seq<AuditAnswer>, newNcs: seq<NonConformity>)
    requires Consistent(audits, answers, ncs, db.events)
    requires audit.id == |audits|
    requires forall i :: 0 <= i < |rows| ==> rows[i].auditId == |audits|
    requires forall i :: 0 <= i < |newNcs| ==> newNcs[i].auditId == |audits|
    requires db.audits == audits + [audit] && db.answers == answers + rows && db.nonConformities == ncs + newNcs
    ensures db.Valid()
  {
  }

  /** Setting the e-mail flags leaves every NC linked to its audit. */
  lemma MarkedKeepAudit(ncs: seq<NonConformity>, firstId: nat, delivered: nat -> bool, auditId: nat)
    requires forall j :: 0 <= j < |ncs| ==> ncs[j].auditId == auditId
    ensures forall j :: 0 <= j < |ncs| ==> MarkDelivered(ncs, firstId, delivered)[j].auditId == auditId
  {
    MarkDeliveredPointwise(ncs, firstId, delivered);
  }

  // ------------------------------------------------------------ scenarios

  /** [COMPLIANT, NON_COMPLIANT, NOT_APPLICABLE] gives 50% and one OPEN, MEDIA NC. */
  lemma ScenarioMixedAnswers(items: map<string, ChecklistItem>, a: AnswerInput, b: AnswerInput, c: AnswerInput, auditId: nat, openedBy: string, now: int)
    requires a.answer == Compliant && b.answer == NonCompliant && c.answer == NotApplicable
    requires b.checklistItemId in items
    ensures AdherenceOf(Kinds([a, b, c])) == 50.0
    ensures var ncs := NewNonConformities(items, NonCompliantAnswers([a, b, c]), auditId, openedBy, now);
      |ncs| == 1 && ncs[0].status == Open && ncs[0].severity == Media
  {
    var ks := Kinds([a, b, c]);
    assert ks == [Compliant, NonCompliant, NotApplicable];
    assert [NonCompliant, NotApplicable][1..] == [NotApplicable];
    assert [NotApplicable][1..] == [];
    assert Count([NotApplicable], Compliant) == 0 && Count([NotApplicable], NonCompliant) == 0;
    assert Count([NonCompliant, NotApplicable], Compliant) == 0;
    assert Count([NonCompliant, NotApplicable], NonCompliant) == 1;
    assert ks[1..] == [NonCompliant, NotApplicable];
    assert Count(ks, Compliant) == 1 && Count(ks, NonCompliant) == 1;
    assert NonCompliantAnswers([a, b, c]) == [b] by {
      assert [a, b, c][1..] == [b, c];
      assert [b, c][1..] == [c];
      assert [c][1..] == [];
    }
    assert WithKnownItem(items, [b]) == [b] by {
      assert [b][..0] == [];
    }
    NewNonConformitiesPointwise(items, [b], auditId, openedBy, now);
  }

  /** Only NOT_APPLICABLE answers: adherence 0 and no NC. */
  lemma ScenarioAllNotApplicable(items: map<string, ChecklistItem>, answers: seq<AnswerInput>, auditId: nat, openedBy: string, now: int)
    requires forall i :: 0 <= i < |answers| ==> answers[i].answer == NotApplicable
    ensures AdherenceOf(Kinds(answers)) == 0.0
    ensures NewNonConformities(items, NonCompliantAnswers(answers), auditId, openedBy, now) == []
  {
    NoCountOfAbsentKind(Kinds(answers), Compliant);
    NoCountOfAbsentKind(Kinds(answers), NonCompliant);
    NcCountMatchesFailures(items, answers, auditId, openedBy, now);
  }

  lemma {:induction false} NoCountOfAbsentKind(kinds: seq<AnswerKind>, k: AnswerKind)
    requires forall i :: 0 <= i < |kinds| ==> kinds[i] != k
    ensures Count(kinds, k) == 0
  {
    if kinds != [] {
      NoCountOfAbsentKind(kinds[1..], k);
    }
  }
}
