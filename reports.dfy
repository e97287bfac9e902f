/** `getAuditReport` of backend/src/modules/audits/audits.controller.ts: the
    summary counts of one audit and the per-category rollup built by a single
    pass over its answers. The `Map` the source fills is modelled as the
    sequence of its values in insertion order, each keyed by its `category`
    field. */
module Reports {
  import opened Wrappers
  import opened Validation
  import opened Store
  import opened Audits

  // ------------------------------------------------------ the audit's rows

  /** The answer rows of an audit, in storage order. */
  function AnswersOf(answers: seq<AuditAnswer>, auditId: nat): (r: seq<AuditAnswer>)
    ensures |r| <= |answers|
    ensures forall a :: a in r <==> a in answers && a.auditId == auditId
  {
    if answers == [] then []
    else
      var init := AnswersOf(answers[..|answers| - 1], auditId);
      var last := answers[|answers| - 1];
      assert answers == answers[..|answers| - 1] + [last];
      if last.auditId == auditId then init + [last] else init
  }

  lemma {:induction false} AnswersOfConcat(a: seq<AuditAnswer>, b: seq<AuditAnswer>, auditId: nat)
    ensures AnswersOf(a + b, auditId) == AnswersOf(a, auditId) + AnswersOf(b, auditId)
  {
    if b == [] {
      assert a + b == a;
    } else {
      assert (a + b)[..|a + b| - 1] == a + b[..|b| - 1];
      AnswersOfConcat(a, b[..|b| - 1], auditId);
    }
  }

  lemma {:induction false} AnswersOfNone(a: seq<AuditAnswer>, auditId: nat)
    requires forall i :: 0 <= i < |a| ==> a[i].auditId != auditId
    ensures AnswersOf(a, auditId) == []
  {
    if a != [] {
      AnswersOfNone(a[..|a| - 1], auditId);
    }
  }

  lemma {:induction false} AnswersOfAll(a: seq<AuditAnswer>, auditId: nat)
    requires forall i :: 0 <= i < |a| ==> a[i].auditId == auditId
    ensures AnswersOf(a, auditId) == a
  {
    if a != [] {
      AnswersOfAll(a[..|a| - 1], auditId);
      assert a == a[..|a| - 1] + [a[|a| - 1]];
    }
  }

  /** The NCs of an audit, in storage order. */
  function NcsOf(ncs: seq<NonConformity>, auditId: nat): (r: seq<NonConformity>)
    ensures |r| <= |ncs|
    ensures forall nc :: nc in r <==> nc in ncs && nc.auditId == auditId
  {
    if ncs == [] then []
    else
      var init := NcsOf(ncs[..|ncs| - 1], auditId);
      var last := ncs[|ncs| - 1];
      assert ncs == ncs[..|ncs| - 1] + [last];
      if last.auditId == auditId then init + [last] else init
  }

  lemma {:induction false} NcsOfConcat(a: seq<NonConformity>, b: seq<NonConformity>, auditId: nat)
    ensures NcsOf(a + b, auditId) == NcsOf(a, auditId) + NcsOf(b, auditId)
  {
    if b == [] {
      assert a + b == a;
    } else {
      assert (a + b)[..|a + b| - 1] == a + b[..|b| - 1];
      NcsOfConcat(a, b[..|b| - 1], auditId);
    }
  }

  lemma {:induction false} NcsOfNone(a: seq<NonConformity>, auditId: nat)
    requires forall i :: 0 <= i < |a| ==> a[i].auditId != auditId
    ensures NcsOf(a, auditId) == []
  {
    if a != [] {
      NcsOfNone(a[..|a| - 1], auditId);
    }
  }

  lemma {:induction false} NcsOfAll(a: seq<NonConformity>, auditId: nat)
    requires forall i :: 0 <= i < |a| ==> a[i].auditId == auditId
    ensures NcsOf(a, auditId) == a
  {
    if a != [] {
      NcsOfAll(a[..|a| - 1], auditId);
      assert a == a[..|a| - 1] + [a[|a| - 1]];
    }
  }

  /** The answer column of stored rows. */
  function RowKinds(rows: seq<AuditAnswer>): seq<AnswerKind>
  {
    seq(|rows|, i requires 0 <= i < |rows| => rows[i].answer)
  }

  /** An answer row with its checklist item (`include: { checklistItem: true }`). */
  datatype AnswerDetail = AnswerDetail(row: AuditAnswer, item: ChecklistItem)

  /** Joins each row with its item; a row whose item is missing makes
      `answer.checklistItem.category` throw, which the handler turns into a
      500, so the join fails as a whole. */
  function Details(items: map<string, ChecklistItem>, rows: seq<AuditAnswer>): (r: Option<seq<AnswerDetail>>)
    ensures r.Some? <==> forall i :: 0 <= i < |rows| ==> rows[i].checklistItemId in items
    ensures r.Some? ==> |r.value| == |rows|
    ensures r.Some? ==> forall i :: 0 <= i < |rows| ==> r.value[i] == AnswerDetail(rows[i], items[rows[i].checklistItemId])
  {
    if forall i :: 0 <= i < |rows| ==> rows[i].checklistItemId in items
    then Some(seq(|rows|, i requires 0 <= i < |rows| => AnswerDetail(rows[i], items[rows[i].checklistItemId])))
    else None
  }

  function DetailKinds(ds: seq<AnswerDetail>): (ks: seq<AnswerKind>)
    ensures |ks| == |ds|
    ensures forall i :: 0 <= i < |ds| ==> ks[i] == ds[i].row.answer
  {
    seq(|ds|, i requires 0 <= i < |ds| => ds[i].row.answer)
  }

  function CategoriesOf(ds: seq<AnswerDetail>): (cs: seq<string>)
    ensures |cs| == |ds|
    ensures forall i :: 0 <= i < |ds| ==> cs[i] == ds[i].item.category
  {
    seq(|ds|, i requires 0 <= i < |ds| => ds[i].item.category)
  }

  /** The kinds of the answers whose item is in category `c`, in order. */
  function KindsIn(ds: seq<AnswerDetail>, c: string): (ks: seq<AnswerKind>)
    ensures |ks| <= |ds|
  {
    if ds == [] then []
    else
      var init := KindsIn(ds[..|ds| - 1], c);
      var last := ds[|ds| - 1];
      if last.item.category == c then init + [last.row.answer] else init
  }

  // ------------------------------------------------------ category rollup

  datatype CategoryStats = CategoryStats(
    category: string,
    totalQuestions: nat,
    compliantCount: nat,
    nonCompliantCount: nat,
    notApplicableCount: nat,
    adherencePercentage: real)

  /** The entry `categoriesMap.set` creates for a category seen first. */
  function Fresh(category: string): CategoryStats
  {
    CategoryStats(category, 0, 0, 0, 0, 0.0)
  }

  /** One more answer of kind `k` in the category: the total and the
      matching counter go up by one and the adherence is recomputed from the
      new counters. */
  function Record(s: CategoryStats, k: AnswerKind): (t: CategoryStats)
    ensures t.category == s.category && t.totalQuestions == s.totalQuestions + 1
    ensures t.compliantCount == s.compliantCount + (if k == Compliant then 1 else 0)
    ensures t.nonCompliantCount == s.nonCompliantCount + (if k == NonCompliant then 1 else 0)
    ensures t.notApplicableCount == s.notApplicableCount + (if k == NotApplicable then 1 else 0)
    ensures t.adherencePercentage == Adherence(t.compliantCount, t.nonCompliantCount)
  {
    var s1 := s.(totalQuestions := s.totalQuestions + 1);
    var s2 :=
      match k
      case Compliant => s1.(compliantCount := s1.compliantCount + 1)
      case NonCompliant => s1.(nonCompliantCount := s1.nonCompliantCount + 1)
      case NotApplicable => s1.(notApplicableCount := s1.notApplicableCount + 1);
    s2.(adherencePercentage := Adherence(s2.compliantCount, s2.nonCompliantCount))
  }

  /** `categoriesMap.has(c)` / `get(c)`: the position of the entry of `c`. */
  function Find(cats: seq<CategoryStats>, c: string): (r: Option<nat>)
    ensures r.Some? ==> r.value < |cats| && cats[r.value].category == c
    ensures r.None? <==> forall j :: 0 <= j < |cats| ==> cats[j].category != c
  {
    if cats == [] then None
    else if cats[0].category == c then Some(0)
    else
      match Find(cats[1..], c)
      case None => None
      case Some(j) => Some(j + 1)
  }

  /** One step of the `forEach`. */
  function Tally(cats: seq<CategoryStats>, d: AnswerDetail): seq<CategoryStats>
  {
    match Find(cats, d.item.category)
    case None => cats + [Record(Fresh(d.item.category), d.row.answer)]
    case Some(j) => cats[j := Record(cats[j], d.row.answer)]
  }

  /** `Array.from(categoriesMap.values())` after the pass over `ds`. */
  function Rollup(ds: seq<AnswerDetail>): (cats: seq<CategoryStats>)
    ensures |cats| <= |ds|
  {
    if ds == [] then [] else Tally(Rollup(ds[..|ds| - 1]), ds[|ds| - 1])
  }

  function Categories(cats: seq<CategoryStats>): (cs: seq<string>)
    ensures |cs| == |cats|
    ensures forall i :: 0 <= i < |cats| ==> cs[i] == cats[i].category
  {
    seq(|cats|, i requires 0 <= i < |cats| => cats[i].category)
  }

  /** The distinct elements of `s` in order of first occurrence. */
  function FirstOccurrences(s: seq<string>): (r: seq<string>)
    ensures forall x :: x in r <==> x in s
  {
    if s == [] then []
    else
      var init := FirstOccurrences(s[..|s| - 1]);
      var last := s[|s| - 1];
      assert s == s[..|s| - 1] + [last];
      if last in init then init else init + [last]
  }

  /** Each entry of the rollup is well formed and no category has two entries. */
  ghost predicate WellFormed(cats: seq<CategoryStats>)
  {
    && (forall i, j :: 0 <= i < j < |cats| ==> cats[i].category != cats[j].category)
    && (forall i :: 0 <= i < |cats| ==>
          && cats[i].totalQuestions == cats[i].compliantCount + cats[i].nonCompliantCount + cats[i].notApplicableCount
          && cats[i].adherencePercentage == Adherence(cats[i].compliantCount, cats[i].nonCompliantCount))
  }

  /** The rollup has one entry per category met, its totals split into the
      three counters and its adherence is the formula on its final counters. */
  lemma {:induction false} RollupWellFormed(ds: seq<AnswerDetail>)
    ensures WellFormed(Rollup(ds))
  {
    if ds != [] {
      RollupWellFormed(ds[..|ds| - 1]);
      TallyWellFormed(Rollup(ds[..|ds| - 1]), ds[|ds| - 1]);
    }
  }

  lemma TallyWellFormed(cats: seq<CategoryStats>, d: AnswerDetail)
    requires WellFormed(cats)
    ensures WellFormed(Tally(cats, d))
  {
    var t := Tally(cats, d);
    match Find(cats, d.item.category)
    case None =>
      assert forall i :: 0 <= i < |cats| ==> t[i] == cats[i];
    case Some(j) =>
      assert forall i :: 0 <= i < |cats| ==> t[i].category == cats[i].category;
      assert forall i :: 0 <= i < |cats| && i != j ==> t[i] == cats[i];
  }

  /** One step appends the answer's category when it is new and keeps the
      list of categories otherwise. */
  lemma CategoriesTally(cats: seq<CategoryStats>, d: AnswerDetail)
    ensures Categories(Tally(cats, d)) ==
      if d.item.category in Categories(cats) then Categories(cats) else Categories(cats) + [d.item.category]
  {
    match Find(cats, d.item.category)
    case None =>
      assert d.item.category !in Categories(cats);
      assert Categories(cats + [Record(Fresh(d.item.category), d.row.answer)]) == Categories(cats) + [d.item.category];
    case Some(j) =>
      assert d.item.category in Categories(cats);
      assert Categories(cats[j := Record(cats[j], d.row.answer)]) == Categories(cats);
  }

  /** Categories are listed in the order in which the answers first meet them. */
  lemma {:induction false} RollupOrder(ds: seq<AnswerDetail>)
    ensures Categories(Rollup(ds)) == FirstOccurrences(CategoriesOf(ds))
  {
    if ds != [] {
      var init := ds[..|ds| - 1];
      RollupOrder(init);
      assert CategoriesOf(ds)[..|ds| - 1] == CategoriesOf(init);
      CategoriesTally(Rollup(init), ds[|ds| - 1]);
    }
  }

  lemma CountSnoc(ks: seq<AnswerKind>, x: AnswerKind, k: AnswerKind)
    ensures Count(ks + [x], k) == Count(ks, k) + (if x == k then 1 else 0)
  {
    CountConcat(ks, [x], k);
    assert [x][1..] == [];
  }

  /** What one step does to the entry at position `i`: the entry of the
      answer's category is recorded (a new one starts from zero), every other
      entry is kept. */
  lemma TallyEntry(cats: seq<CategoryStats>, d: AnswerDetail, i: nat)
    requires WellFormed(cats)
    requires i < |Tally(cats, d)|
    ensures var t := Tally(cats, d);
      && (t[i].category != d.item.category ==> i < |cats| && t[i] == cats[i])
      && (t[i].category == d.item.category && i < |cats| ==> t[i] == Record(cats[i], d.row.answer))
      && (i >= |cats| ==> t[i] == Record(Fresh(d.item.category), d.row.answer)
                          && forall j :: 0 <= j < |cats| ==> cats[j].category != d.item.category)
  {
    match Find(cats, d.item.category)
    case None =>
    case Some(j) =>
      if i != j {
        assert cats[i].category != cats[j].category;
      }
  }

  /** The counters of a category's entry count exactly the answers in that
      category, kind by kind. */
  lemma {:induction false} RollupCounts(ds: seq<AnswerDetail>, i: nat)
    requires i < |Rollup(ds)|
    ensures var s := Rollup(ds)[i];
      && s.totalQuestions == |KindsIn(ds, s.category)|
      && s.compliantCount == Count(KindsIn(ds, s.category), Compliant)
      && s.nonCompliantCount == Count(KindsIn(ds, s.category), NonCompliant)
      && s.notApplicableCount == Count(KindsIn(ds, s.category), NotApplicable)
  {
    var init := ds[..|ds| - 1];
    var d := ds[|ds| - 1];
    var cats := Rollup(init);
    assert Rollup(ds) == Tally(cats, d);
    var c := Rollup(ds)[i].category;
    var ks := KindsIn(init, c);
    RollupWellFormed(init);
    TallyEntry(cats, d, i);
    if d.item.category == c {
      var k := d.row.answer;
      assert KindsIn(ds, c) == ks + [k];
      CountSnoc(ks, k, Compliant);
      CountSnoc(ks, k, NonCompliant);
      CountSnoc(ks, k, NotApplicable);
      if i < |cats| {
        RollupCounts(init, i);
      } else {
        NoKindsOfUnseen(init, c);
      }
    } else {
      assert KindsIn(ds, c) == ks;
      RollupCounts(init, i);
    }
  }

  /** A category no answer belongs to contributes no kinds. */
  lemma {:induction false} NoKindsOfUnseen(ds: seq<AnswerDetail>, c: string)
    requires forall j :: 0 <= j < |Rollup(ds)| ==> Rollup(ds)[j].category != c
    ensures KindsIn(ds, c) == []
  {
    if ds != [] {
      var init := ds[..|ds| - 1];
      var d := ds[|ds| - 1];
      var cats := Rollup(init);
      var t := Tally(cats, d);
      assert Rollup(ds) == t;
      match Find(cats, d.item.category) {
        case None =>
          assert t[|cats|].category == d.item.category;
          assert forall j :: 0 <= j < |cats| ==> t[j] == cats[j];
        case Some(j0) =>
          assert t[j0].category == d.item.category;
          assert forall j :: 0 <= j < |cats| ==> t[j].category == cats[j].category;
      }
      assert d.item.category != c;
      NoKindsOfUnseen(init, c);
    }
  }

  /** Sum of one counter over the entries. */
  function SumOf(cats: seq<CategoryStats>, f: CategoryStats -> nat): nat
  {
    if cats == [] then 0 else SumOf(cats[..|cats| - 1], f) + f(cats[|cats| - 1])
  }

  function TotalOf(s: CategoryStats): nat { s.totalQuestions }
  function CompliantOf(s: CategoryStats): nat { s.compliantCount }
  function NonCompliantOf(s: CategoryStats): nat { s.nonCompliantCount }
  function NotApplicableOf(s: CategoryStats): nat { s.notApplicableCount }

  lemma {:induction false} SumOfUpdate(cats: seq<CategoryStats>, j: nat, x: CategoryStats, f: CategoryStats -> nat)
    requires j < |cats|
    ensures SumOf(cats[j := x], f) + f(cats[j]) == SumOf(cats, f) + f(x)
  {
    var n := |cats| - 1;
    if j < n {
      assert cats[j := x][..n] == cats[..n][j := x];
      SumOfUpdate(cats[..n], j, x, f);
    } else {
      assert cats[j := x][..n] == cats[..n];
    }
  }

  /** One step adds one to the summed totals and one to the summed counter
      of the answer's kind. */
  lemma TallySums(cats: seq<CategoryStats>, d: AnswerDetail)
    ensures var t := Tally(cats, d); var k := d.row.answer;
      && SumOf(t, TotalOf) == SumOf(cats, TotalOf) + 1
      && SumOf(t, CompliantOf) == SumOf(cats, CompliantOf) + (if k == Compliant then 1 else 0)
      && SumOf(t, NonCompliantOf) == SumOf(cats, NonCompliantOf) + (if k == NonCompliant then 1 else 0)
      && SumOf(t, NotApplicableOf) == SumOf(cats, NotApplicableOf) + (if k == NotApplicable then 1 else 0)
  {
    match Find(cats, d.item.category)
    case None =>
      var t := Record(Fresh(d.item.category), d.row.answer);
      assert (cats + [t])[..|cats|] == cats;
    case Some(j) =>
      var t := Record(cats[j], d.row.answer);
      SumOfUpdate(cats, j, t, TotalOf);
      SumOfUpdate(cats, j, t, CompliantOf);
      SumOfUpdate(cats, j, t, NonCompliantOf);
      SumOfUpdate(cats, j, t, NotApplicableOf);
  }

  /** Summed over the categories, the totals give the number of answers and
      each counter gives the matching overall count. */
  lemma {:induction false} RollupSums(ds: seq<AnswerDetail>)
    ensures SumOf(Rollup(ds), TotalOf) == |ds|
    ensures SumOf(Rollup(ds), CompliantOf) == Count(DetailKinds(ds), Compliant)
    ensures SumOf(Rollup(ds), NonCompliantOf) == Count(DetailKinds(ds), NonCompliant)
    ensures SumOf(Rollup(ds), NotApplicableOf) == Count(DetailKinds(ds), NotApplicable)
  {
    if ds != [] {
      var init := ds[..|ds| - 1];
      var d := ds[|ds| - 1];
      RollupSums(init);
      assert DetailKinds(ds) == DetailKinds(init) + [d.row.answer];
      CountSnoc(DetailKinds(init), d.row.answer, Compliant);
      CountSnoc(DetailKinds(init), d.row.answer, NonCompliant);
      CountSnoc(DetailKinds(init), d.row.answer, NotApplicable);
      TallySums(Rollup(init), d);
    }
  }

  // --------------------------------------------------------------- report

  datatype ReportAudit = ReportAudit(
    id: nat,
    performedAt: int,
    performedBy: Option<User>,
    measurementPlanVersion: Option<string>,
    notes: Option<string>)

  datatype Summary = Summary(
    totalQuestions: nat,
    compliantCount: nat,
    nonCompliantCount: nat,
    notApplicableCount: nat,
    evaluatedCount: nat,
    overallAdherencePercentage: real,
    totalNonConformities: nat)

  datatype AuditReport = AuditReport(
    audit: ReportAudit,
    summary: Summary,
    categoriesReport: seq<CategoryStats>,
    answers: seq<AnswerDetail>,
    nonConformities: seq<NonConformity>)

  /** Lines 249-253 and 308-316: the counts over the audit's rows, the
      overall percentage as stored, and the number of its NCs. */
  function Summarize(rows: seq<AuditAnswer>, storedAdherence: real, totalNonConformities: nat): (s: Summary)
    ensures s.totalQuestions == |rows|
    ensures s.totalQuestions == s.compliantCount + s.nonCompliantCount + s.notApplicableCount
    ensures s.compliantCount == Count(RowKinds(rows), Compliant)
    ensures s.nonCompliantCount == Count(RowKinds(rows), NonCompliant)
    ensures s.evaluatedCount == s.compliantCount + s.nonCompliantCount
    ensures s.overallAdherencePercentage == storedAdherence
    ensures s.totalNonConformities == totalNonConformities
  {
    var ks := RowKinds(rows);
    CountsPartition(ks);
    var compliantCount := Count(ks, Compliant);
    var nonCompliantCount := Count(ks, NonCompliant);
    Summary(|rows|, compliantCount, nonCompliantCount, Count(ks, NotApplicable),
            compliantCount + nonCompliantCount, storedAdherence, totalNonConformities)
  }

  /** The category rows add up to the summary: totals to the number of
      answers, and each counter to the matching overall count. */
  lemma CategoriesAddUpToSummary(items: map<string, ChecklistItem>, rows: seq<AuditAnswer>, storedAdherence: real, n: nat)
    requires Details(items, rows).Some?
    ensures var cats := Rollup(Details(items, rows).value);
      var s := Summarize(rows, storedAdherence, n);
      && SumOf(cats, TotalOf) == s.totalQuestions
      && SumOf(cats, CompliantOf) == s.compliantCount
      && SumOf(cats, NonCompliantOf) == s.nonCompliantCount
      && SumOf(cats, NotApplicableOf) == s.notApplicableCount
  {
    var ds := Details(items, rows).value;
    RollupSums(ds);
    assert DetailKinds(ds) == RowKinds(rows);
  }

  /** `getAuditReport`. An id that names no audit is a 404 and no report is
      built; a row whose item is missing is a 500; otherwise the report
      carries the audit, the summary, the rollup of its answers and its NCs. */
  method GetAuditReport(db: Database, auditId: nat) returns (r: Result<AuditReport, ApiError>)
    ensures auditId >= |db.audits| ==> r == Failure(NotFound)
    ensures auditId < |db.audits| ==>
      var rows := AnswersOf(db.answers, auditId);
      && (r.Failure? <==> Details(db.checklistItems, rows).None?)
      && (r.Failure? ==> r.error == ServerError)
    ensures r.Success? ==>
      var rows := AnswersOf(db.answers, auditId);
      var report := r.value;
      && auditId < |db.audits|
      && report.audit.id == db.audits[auditId].id
      && report.audit.performedAt == db.audits[auditId].performedAt
      && report.audit.measurementPlanVersion == db.audits[auditId].measurementPlanVersion
      && report.audit.notes == db.audits[auditId].notes
      && report.audit.performedBy == (if db.audits[auditId].performedByUserId in db.users
                                      then Some(db.users[db.audits[auditId].performedByUserId]) else None)
      && report.answers == Details(db.checklistItems, rows).value
      && report.nonConformities == NcsOf(db.nonConformities, auditId)
      && report.summary == Summarize(rows, db.audits[auditId].overallAdherencePercentage, |report.nonConformities|)
      && report.categoriesReport == Rollup(report.answers)
  {
    if auditId >= |db.audits| {
      return Failure(NotFound);
    }
    var audit := db.audits[auditId];
    var rows := AnswersOf(db.answers, auditId);
    var joined := Details(db.checklistItems, rows);
    if joined.None? {
      return Failure(ServerError);
    }
    var ds := joined.value;
    var ncs := NcsOf(db.nonConformities, auditId);
    var summary := Summarize(rows, audit.overallAdherencePercentage, |ncs|);
    var cats := RollupLoop(ds);
    var performedBy := if audit.performedByUserId in db.users then Some(db.users[audit.performedByUserId]) else None;
    r := Success(AuditReport(
      ReportAudit(audit.id, audit.performedAt, performedBy, audit.measurementPlanVersion, audit.notes),
      summary, cats, ds, ncs));
  }

  /** Lines 265-295: the `forEach` that fills `categoriesMap`. */
  method RollupLoop(ds: seq<AnswerDetail>) returns (cats: seq<CategoryStats>)
    ensures cats == Rollup(ds)
  {
    cats := [];
    for i := 0 to |ds|
      invariant cats == Rollup(ds[..i])
    {
      var d := ds[i];
      var category := d.item.category;
      var found := Find(cats, category);
      ghost var before := cats;
      if found.None? {
        cats := cats + [Fresh(category)];
        found := Some(|cats| - 1);
      }
      var j := found.value;
      var s := cats[j];
      s := s.(totalQuestions := s.totalQuestions + 1);
      if d.row.answer == Compliant {
        s := s.(compliantCount := s.compliantCount + 1);
      } else if d.row.answer == NonCompliant {
        s := s.(nonCompliantCount := s.nonCompliantCount + 1);
      } else {
        s := s.(notApplicableCount := s.notApplicableCount + 1);
      }
      s := s.(adherencePercentage := Adherence(s.compliantCount, s.nonCompliantCount));
      cats := cats[j := s];
      assert ds[..i + 1][..i] == ds[..i];
      assert cats == Tally(before, d);
    }
    assert ds[..|ds|] == ds;
  }

  /** For an audit written by `createAudit`, the stored overall percentage
      equals the adherence recomputed from the rows the report reads: the
      two never disagree. */
  lemma StoredAdherenceAgrees(answers0: seq<AuditAnswer>, id: nat, data: CreateAuditInput, now: int)
    requires forall i :: 0 <= i < |answers0| ==> answers0[i].auditId < id
    ensures RowKinds(AnswersOf(answers0 + AnswerRows(id, data.answers), id)) == Kinds(data.answers)
    ensures NewAudit(id, data, now).overallAdherencePercentage
         == AdherenceOf(RowKinds(AnswersOf(answers0 + AnswerRows(id, data.answers), id)))
  {
    var rows := AnswerRows(id, data.answers);
    AnswersOfConcat(answers0, rows, id);
    AnswersOfNone(answers0, id);
    AnswersOfAll(rows, id);
    assert AnswersOf(answers0 + rows, id) == [] + rows;
    assert [] + rows == rows;
    assert AnswersOf(answers0 + rows, id) == rows;
    RowKindsOfRows(id, data.answers);
  }

  /** The stored rows carry the submitted answers' kinds, in order. */
  lemma RowKindsOfRows(id: nat, answers: seq<AnswerInput>)
    ensures RowKinds(AnswerRows(id, answers)) == Kinds(answers)
  {
    var ks := RowKinds(AnswerRows(id, answers));
    assert |ks| == |answers|;
    assert forall i :: 0 <= i < |ks| ==> ks[i] == answers[i].answer;
  }
}
