/** The non-conformity lifecycle: the partial update of one NC, with the
    events it appends and the status-change e-mail it asks for, and the list
    of NCs filtered by status and ordered by creation time, newest first.
    Any status may follow any other; only `resolvedAt` remembers a resolution. */
module NonConformities {
  import opened Wrappers
  import opened Validation
  import opened Store
  import Email
  import Audits
  import Sorting

  // ------------------------------------------------------------ the update

  /** The assignment after the payload's `assignedToUserId` is applied. */
  function NewAssignee(current: Option<string>, field: AssigneeField): Option<string>
  {
    match field
    case AssigneeAbsent => current
    case AssigneeNull => None
    case AssigneeId(id) => Some(id)
  }

  /** An optional payload field: the given value, or the stored one when absent. */
  function Overwrite<T>(stored: T, given: Option<T>): T
  {
    if given.Some? then given.value else stored
  }

  /** An optional text field of the record: the payload's value when the
      payload has the field, otherwise the stored one. */
  function OverwriteOptional(stored: Option<string>, given: Option<string>): Option<string>
  {
    if given.Some? then given else stored
  }

  /** `data.status === 'RESOLVED' ? new Date() : currentNC.resolvedAt`. */
  function ResolvedAfter(stored: Option<int>, status: Option<NCStatus>, now: int): Option<int>
  {
    if status == Some(Resolved) then Some(now) else stored
  }

  /** The record after `...data` and the `resolvedAt` rule: each field present
      in the payload overwrites the stored one, each absent field is kept, and
      `resolvedAt` is stamped with `now` exactly when the payload status is
      RESOLVED (even when the NC already was), otherwise it is kept. */
  function ApplyUpdate(nc: NonConformity, u: UpdateInput, now: int): (r: NonConformity)
    ensures u.status.Some? ==> r.status == u.status.value
    ensures u.status.None? ==> r.status == nc.status
    ensures u.severity.Some? ==> r.severity == u.severity.value
    ensures u.severity.None? ==> r.severity == nc.severity
    ensures u.assignedToUserId.AssigneeAbsent? ==> r.assignedToUserId == nc.assignedToUserId
    ensures u.assignedToUserId.AssigneeNull? ==> r.assignedToUserId.None?
    ensures u.assignedToUserId.AssigneeId? ==> r.assignedToUserId == Some(u.assignedToUserId.id)
    ensures r.responsible == (if u.responsible.Some? then u.responsible else nc.responsible)
    ensures r.rootCause == (if u.rootCause.Some? then u.rootCause else nc.rootCause)
    ensures r.correctiveAction == (if u.correctiveAction.Some? then u.correctiveAction else nc.correctiveAction)
    ensures r.dueDate == (if u.dueDate.Some? then u.dueDate else nc.dueDate)
    ensures u.status == Some(Resolved) ==> r.resolvedAt == Some(now)
    ensures u.status != Some(Resolved) ==> r.resolvedAt == nc.resolvedAt
    ensures && r.auditId == nc.auditId && r.checklistItemId == nc.checklistItemId
            && r.openedByUserId == nc.openedByUserId && r.title == nc.title
            && r.description == nc.description && r.emailSent == nc.emailSent
            && r.createdAt == nc.createdAt
  {
    nc.(status := Overwrite(nc.status, u.status),
        severity := Overwrite(nc.severity, u.severity),
        assignedToUserId := NewAssignee(nc.assignedToUserId, u.assignedToUserId),
        responsible := OverwriteOptional(nc.responsible, u.responsible),
        rootCause := OverwriteOptional(nc.rootCause, u.rootCause),
        correctiveAction := OverwriteOptional(nc.correctiveAction, u.correctiveAction),
        dueDate := OverwriteOptional(nc.dueDate, u.dueDate),
        resolvedAt := ResolvedAfter(nc.resolvedAt, u.status, now))
  }

  /** The update that carries no field. */
  const NoChange := UpdateInput(None, None, AssigneeAbsent, None, None, None, None)

  /** The empty payload leaves the record exactly as it was. */
  lemma EmptyUpdateKeepsRecord(nc: NonConformity, now: int)
    ensures ApplyUpdate(nc, NoChange, now) == nc
  {
  }

  /** Sending the same payload twice at the same instant is the same as once. */
  lemma UpdateIdempotent(nc: NonConformity, u: UpdateInput, now: int)
    ensures ApplyUpdate(ApplyUpdate(nc, u, now), u, now) == ApplyUpdate(nc, u, now)
  {
  }

  /** A resolution time, once recorded, is never cleared, whatever status follows. */
  lemma ResolvedAtNeverCleared(nc: NonConformity, u: UpdateInput, now: int)
    requires nc.resolvedAt.Some?
    ensures ApplyUpdate(nc, u, now).resolvedAt.Some?
  {
  }

  /** Several updates in a row, each with its own instant. */
  function ApplyAll(nc: NonConformity, us: seq<UpdateInput>, times: seq<int>): NonConformity
    requires |us| == |times|
  {
    if us == [] then nc
    else ApplyUpdate(ApplyAll(nc, us[..|us| - 1], times[..|times| - 1]), us[|us| - 1], times[|times| - 1])
  }

  /** Update `i` of the run is its last one that sets the status to RESOLVED. */
  predicate LastResolution(us: seq<UpdateInput>, i: int)
  {
    && 0 <= i < |us| && us[i].status == Some(Resolved)
    && forall j :: i < j < |us| ==> us[j].status != Some(Resolved)
  }

  /** After a run of updates, a resolution time is recorded if and only if one
      was recorded before or some update of the run set the status to RESOLVED;
      and when the run contains one, it is the instant of its last such update. */
  lemma {:induction false} ResolvedAtAfterRun(nc: NonConformity, us: seq<UpdateInput>, times: seq<int>)
    requires |us| == |times|
    ensures ApplyAll(nc, us, times).resolvedAt.Some? <==>
      nc.resolvedAt.Some? || exists i :: 0 <= i < |us| && us[i].status == Some(Resolved)
    ensures forall i :: LastResolution(us, i) ==> ApplyAll(nc, us, times).resolvedAt == Some(times[i])
  {
    if us != [] {
      var n := |us| - 1;
      ResolvedAtAfterRun(nc, us[..n], times[..n]);
      if us[n].status != Some(Resolved) {
        forall i | 0 <= i < n && us[..n][i].status == Some(Resolved)
          ensures exists k :: 0 <= k < |us| && us[k].status == Some(Resolved)
        {
          assert us[i] == us[..n][i];
        }
        forall i | LastResolution(us, i)
          ensures ApplyAll(nc, us, times).resolvedAt == Some(times[i])
        {
          assert i < n;
          assert us[..n][i] == us[i] && times[..n][i] == times[i];
          assert LastResolution(us[..n], i) by {
            assert forall j :: i < j < n ==> us[..n][j] == us[j];
          }
        }
        if exists i :: 0 <= i < |us| && us[i].status == Some(Resolved) {
          var i :| 0 <= i < |us| && us[i].status == Some(Resolved);
          assert us[..n][i] == us[i];
        }
      }
    }
  }

  /** `data.status && data.status !== currentNC.status`. */
  predicate StatusChanges(current: NonConformity, u: UpdateInput)
  {
    u.status.Some? && u.status.value != current.status
  }

  /** `data.assignedToUserId !== undefined && data.assignedToUserId !==
      currentNC.assignedToUserId`: null against no assignee, and an id against
      the same id, are no change. */
  predicate AssignmentChanges(current: NonConformity, u: UpdateInput)
  {
    !u.assignedToUserId.AssigneeAbsent? && NewAssignee(current.assignedToUserId, u.assignedToUserId) != current.assignedToUserId
  }

  /** The comment stored with every ASSIGNMENT_CHANGED event. */
  const AssignmentComment := "Responsável alterado"

  /** The events one update appends: a STATUS_CHANGED event first when the
      status changes, then an ASSIGNMENT_CHANGED event when the assignee
      changes, all attributed to the requesting user at `now`. */
  function UpdateEvents(id: nat, current: NonConformity, u: UpdateInput, userId: string, now: int): (es: seq<NCEvent>)
    ensures |es| == (if StatusChanges(current, u) then 1 else 0) + (if AssignmentChanges(current, u) then 1 else 0)
    ensures |es| <= 2
    ensures StatusChanges(current, u) ==>
      es[0] == NCEvent(id, StatusChanged, Some(current.status), u.status, None, userId, now)
    ensures AssignmentChanges(current, u) ==>
      es[|es| - 1] == NCEvent(id, AssignmentChanged, None, None, Some(AssignmentComment), userId, now)
    ensures forall k :: 0 <= k < |es| ==> es[k].nonConformityId == id
  {
    (if StatusChanges(current, u)
     then [NCEvent(id, StatusChanged, Some(current.status), u.status, None, userId, now)] else [])
    + (if AssignmentChanges(current, u)
       then [NCEvent(id, AssignmentChanged, None, None, Some(AssignmentComment), userId, now)] else [])
  }

  /** An event of each kind is written exactly when the record's status,
      respectively its assignee, differs after the update from before. */
  lemma EventsTrackChanges(id: nat, current: NonConformity, u: UpdateInput, userId: string, now: int)
    ensures var es := UpdateEvents(id, current, u, userId, now);
      var updated := ApplyUpdate(current, u, now);
      && ((exists k :: 0 <= k < |es| && es[k].eventType == StatusChanged) <==> updated.status != current.status)
      && ((exists k :: 0 <= k < |es| && es[k].eventType == AssignmentChanged) <==>
          updated.assignedToUserId != current.assignedToUserId)
  {
    var es := UpdateEvents(id, current, u, userId, now);
    if StatusChanges(current, u) {
      assert es[0].eventType == StatusChanged;
    }
    if AssignmentChanges(current, u) {
      assert es[|es| - 1].eventType == AssignmentChanged;
    }
  }

  /** An update that touches only severity or text fields writes no event. */
  lemma SeverityAndTextWriteNoEvents(id: nat, current: NonConformity, u: UpdateInput, userId: string, now: int)
    requires u.status.None? && u.assignedToUserId.AssigneeAbsent?
    ensures UpdateEvents(id, current, u, userId, now) == []
  {
  }

  /** The status-change e-mail, asked for inside the status-change branch
      only, and addressed to the assignee of the record after the update. */
  function StatusNotice(users: map<string, User>, current: NonConformity, updated: NonConformity, u: UpdateInput): (m: Option<Email.Message>)
    ensures m.Some? <==> StatusChanges(current, u) && Truthy(Audits.AssigneeEmail(users, updated.assignedToUserId))
    ensures m.Some? ==> && updated.assignedToUserId.Some?
                        && updated.assignedToUserId.value in users
                        && m.value.to == users[updated.assignedToUserId.value].email
                        && m.value.subject == Email.StatusChangeSubjectPrefix + updated.title
                        && m.value.body == Email.StatusChangeBody(updated.title, StatusName(current.status), StatusName(u.status.value))
  {
    if StatusChanges(current, u)
    then Email.StatusChangeEmail(updated.title, StatusName(current.status), StatusName(u.status.value),
                                 Audits.AssigneeEmail(users, updated.assignedToUserId))
    else None
  }

  /** A payload that reassigns the NC and changes its status mails the new
      assignee, not the previous one. */
  lemma NoticeGoesToNewAssignee(users: map<string, User>, nc: NonConformity, u: UpdateInput, now: int, newId: string)
    requires StatusChanges(nc, u) && u.assignedToUserId == AssigneeId(newId)
    requires newId in users && users[newId].email != ""
    ensures var updated := ApplyUpdate(nc, u, now);
      var m := StatusNotice(users, nc, updated, u);
      m.Some? && m.value.to == users[newId].email
  {
  }

  /** The whole new state after a successful update of NC `id`. */
  ghost predicate NcUpdated(
    users: map<string, User>, ncs0: seq<NonConformity>, events0: seq<NCEvent>,
    id: nat, userId: string, u: UpdateInput, now: int,
    ncs: seq<NonConformity>, events: seq<NCEvent>,
    r: Result<NonConformity, ApiError>, notice: Option<Email.Message>)
    requires id < |ncs0|
  {
    var current := ncs0[id];
    var updated := ApplyUpdate(current, u, now);
    && r == Success(updated)
    && ncs == ncs0[id := updated]
    && events == events0 + UpdateEvents(id, current, u, userId, now)
    && notice == StatusNotice(users, current, updated, u)
  }

  /** `PATCH /non-conformities/:id`. A payload that fails validation is a 400
      and an unknown id a 404, both with nothing written; otherwise the record
      is overwritten, its events are appended, and the status-change e-mail
      (if any) is returned to be handed to the transport. */
  method UpdateNonConformity(db: Database, id: nat, userId: string, raw: RawUpdate, now: int)
    returns (r: Result<NonConformity, ApiError>, notice: Option<Email.Message>)
    requires db.Valid()
    modifies db`nonConformities, db`events
    ensures db.Valid()
    ensures ParseUpdate(raw).None? ==>
      r == Failure(BadRequest) && notice.None? && unchanged(db)
    ensures ParseUpdate(raw).Some? && id >= |old(db.nonConformities)| ==>
      r == Failure(NotFound) && notice.None? && unchanged(db)
    ensures ParseUpdate(raw).Some? && id < |old(db.nonConformities)| ==>
      NcUpdated(db.users, old(db.nonConformities), old(db.events), id, userId, ParseUpdate(raw).value, now,
                db.nonConformities, db.events, r, notice)
  {
    notice := None;
    var parsed := ParseUpdate(raw);
    if parsed.None? {
      return Failure(BadRequest), None;
    }
    var u := parsed.value;
    if id >= |db.nonConformities| {
      return Failure(NotFound), None;
    }
    var current := db.nonConformities[id];
    var updated := ApplyUpdate(current, u, now);
    db.nonConformities := db.nonConformities[id := updated];
    if u.status.Some? && u.status.value != current.status {
      db.events := db.events + [NCEvent(id, StatusChanged, Some(current.status), u.status, None, userId, now)];
      notice := Email.StatusChangeEmail(updated.title, StatusName(current.status), StatusName(u.status.value),
                                        Audits.AssigneeEmail(db.users, updated.assignedToUserId));
    }
    if u.assignedToUserId != AssigneeAbsent && NewAssignee(current.assignedToUserId, u.assignedToUserId) != current.assignedToUserId {
      db.events := db.events + [NCEvent(id, AssignmentChanged, None, None, Some(AssignmentComment), userId, now)];
    }
    r := Success(updated);
    assert db.events == old(db.events) + UpdateEvents(id, current, u, userId, now);
  }

  // ------------------------------------------------------------- the list

  /** The positions of the NCs that pass the filter (all of them without
      one), in store order. */
  function MatchingIds(ncs: seq<NonConformity>, status: Option<NCStatus>): (ids: seq<nat>)
    ensures forall x :: x in ids ==> x < |ncs| && (status.Some? ==> ncs[x].status == status.value)
    ensures forall i :: 0 <= i < |ncs| && (status.None? || ncs[i].status == status.value) ==> i in ids
    ensures forall a, b :: 0 <= a < b < |ids| ==> ids[a] < ids[b]
  {
    if ncs == [] then []
    else
      var n := |ncs| - 1;
      var earlier := MatchingIds(ncs[..n], status);
      assert forall x :: x in earlier ==> ncs[x] == ncs[..n][x];
      assert forall k :: 0 <= k < |earlier| ==> earlier[k] in earlier;
      assert forall i :: 0 <= i < n ==> ncs[i] == ncs[..n][i];
      if status.None? || ncs[n].status == status.value then earlier + [n] else earlier
  }

  /** The ordering key for `createdAt: 'desc'`. */
  function NewestFirst(ncs: seq<NonConformity>): nat -> int
  {
    i => if 0 <= i < |ncs| then -ncs[i].createdAt else 0
  }

  /** `GET /non-conformities?status=`. No status, or an empty one, lists every
      NC; a status code lists the NCs with that status; any other string is
      refused by the database, which the handler answers with a 500. The
      result is ordered by creation time, newest first. */
  function ListNonConformities(ncs: seq<NonConformity>, status: Option<string>): (r: Result<seq<nat>, ApiError>)
    ensures r.Failure? <==> Truthy(status) && ParseStatus(status.value).None?
    ensures r.Failure? ==> r.error == ServerError
    ensures r.Success? ==> forall k :: 0 <= k < |r.value| ==>
      r.value[k] < |ncs| && (Truthy(status) ==> ncs[r.value[k]].status == ParseStatus(status.value).value)
    ensures r.Success? ==> forall i :: 0 <= i < |ncs| && (Truthy(status) ==> ncs[i].status == ParseStatus(status.value).value) ==>
      i in r.value
    ensures r.Success? ==> forall a, b :: 0 <= a < b < |r.value| ==>
      ncs[r.value[a]].createdAt >= ncs[r.value[b]].createdAt
  {
    var filter := if Truthy(status) then ParseStatus(status.value) else None;
    if Truthy(status) && filter.None? then Failure(ServerError)
    else
      var ids := MatchingIds(ncs, filter);
      var sorted := Sorting.SortBy(ids, NewestFirst(ncs));
      SameMembers(ids, sorted);
      assert forall k :: 0 <= k < |sorted| ==> sorted[k] in sorted;
      NewestFirstOrder(ncs, sorted);
      Success(sorted)
  }

  /** A list of positions sorted by `NewestFirst` runs from the newest NC to the oldest. */
  lemma NewestFirstOrder(ncs: seq<NonConformity>, ids: seq<nat>)
    requires forall k :: 0 <= k < |ids| ==> ids[k] < |ncs|
    requires Sorting.SortedBy(ids, NewestFirst(ncs))
    ensures forall a, b :: 0 <= a < b < |ids| ==> ncs[ids[a]].createdAt >= ncs[ids[b]].createdAt
  {
    forall a, b | 0 <= a < b < |ids| ensures ncs[ids[a]].createdAt >= ncs[ids[b]].createdAt {
      assert NewestFirst(ncs)(ids[a]) <= NewestFirst(ncs)(ids[b]);
    }
  }

  /** Two lists that are permutations of each other have the same members. */
  lemma SameMembers(a: seq<nat>, b: seq<nat>)
    requires multiset(a) == multiset(b)
    ensures forall x :: x in a <==> x in b
  {
    forall x ensures x in a <==> x in b {
      assert x in a <==> x in multiset(a);
      assert x in b <==> x in multiset(b);
    }
  }

  /** Each NC appears in the list at most once. */
  lemma {:induction false} ListHasNoDuplicates(ncs: seq<NonConformity>, status: Option<string>)
    requires ListNonConformities(ncs, status).Success?
    ensures var ids := ListNonConformities(ncs, status).value;
      forall a, b :: 0 <= a < b < |ids| ==> ids[a] != ids[b]
  {
    var filter := if Truthy(status) then ParseStatus(status.value) else None;
    var ids := MatchingIds(ncs, filter);
    var sorted := Sorting.SortBy(ids, NewestFirst(ncs));
    assert sorted == ListNonConformities(ncs, status).value;
    forall a, b | 0 <= a < b < |sorted| ensures sorted[a] != sorted[b] {
      if sorted[a] == sorted[b] {
        TwiceCounted(sorted, a, b);
        DistinctCountsOne(ids, sorted[a]);
      }
    }
  }

  /** A value found at two positions is counted at least twice. */
  lemma TwiceCounted(s: seq<nat>, a: int, b: int)
    requires 0 <= a < b < |s| && s[a] == s[b]
    ensures multiset(s)[s[a]] >= 2
  {
    var x := s[a];
    assert s == s[..b] + s[b..];
    assert s[..b][a] == x;
    assert s[b..][0] == x;
    assert x in multiset(s[..b]) && x in multiset(s[b..]);
  }

  /** In a strictly increasing list, no value occurs twice. */
  lemma {:induction false} DistinctCountsOne(ids: seq<nat>, x: nat)
    requires forall a, b :: 0 <= a < b < |ids| ==> ids[a] < ids[b]
    ensures multiset(ids)[x] <= 1
  {
    if ids != [] {
      var n := |ids| - 1;
      assert ids == ids[..n] + [ids[n]];
      DistinctCountsOne(ids[..n], x);
      if ids[n] == x {
        assert forall k :: 0 <= k < n ==> ids[..n][k] < x;
        assert x !in ids[..n];
      }
    }
  }
}
