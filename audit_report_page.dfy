/** What frontend/src/pages/AuditReport.tsx decides when it prints a report:
    the severity label and badge class with their fallbacks, the colour band
    of a category's adherence, the detailed answers in checklist order, who is
    shown as responsible for an NC, and whether the NC section appears. */
module AuditReportPage {
  import opened Wrappers
  import opened Validation
  import opened Store
  import Email
  import Audits
  import Reports
  import Sorting

  // ------------------------------------------------------ severity lookups

  /** `labels[severity] || severity`: the table's label, or the code itself. */
  function ReportSeverityLabel(severity: string): (r: string)
    ensures ParseSeverity(severity).None? ==> r == severity
  {
    if severity == "BAIXA" then "Baixa (5 dias)"
    else if severity == "MEDIA" then "Média (4 dias)"
    else if severity == "ALTA" then "Alta (3 dias)"
    else if severity == "CRITICA" then "Crítica (2 dias)"
    else severity
  }

  /** The single digit of a small number. */
  function Digit(n: nat): char
    requires n <= 9
  {
    ('0' as int + n) as char
  }

  /** The report's label of a known code is the e-mail's label followed by
      the e-mail's deadline in days: the two tables agree. */
  lemma ReportLabelAgreesWithEmail(s: Severity)
    ensures Email.DeadlineOf(s) <= 9
    ensures ReportSeverityLabel(SeverityName(s)) == Email.LabelOf(s) + " (" + [Digit(Email.DeadlineOf(s))] + " dias)"
  {
    match s {
      case Baixa =>
        assert Digit(5) == '5';
        assert "Baixa" + " (" + "5" + " dias)" == "Baixa (5 dias)";
      case Media =>
        assert Digit(4) == '4';
        assert "Média" + " (" + "4" + " dias)" == "Média (4 dias)";
      case Alta =>
        assert Digit(3) == '3';
        assert "Alta" + " (" + "3" + " dias)" == "Alta (3 dias)";
      case Critica =>
        assert Digit(2) == '2';
        assert "Crítica" + " (" + "2" + " dias)" == "Crítica (2 dias)";
    }
  }

  /** `classes[severity] || 'badge-secondary'`. */
  function SeverityClass(severity: string): (r: string)
    ensures ParseSeverity(severity).None? ==> r == "badge-secondary"
  {
    if severity == "BAIXA" then "badge-info"
    else if severity == "MEDIA" then "badge-warning"
    else if severity == "ALTA" then "badge-danger"
    else if severity == "CRITICA" then "badge-critical"
    else "badge-secondary"
  }

  /** Each known code has a class of its own, and none of them is the fallback. */
  lemma SeverityClassesDistinct(a: Severity, b: Severity)
    ensures SeverityClass(SeverityName(a)) != "badge-secondary"
    ensures a != b ==> SeverityClass(SeverityName(a)) != SeverityClass(SeverityName(b))
  {
    match a {
      case Baixa =>
      case Media =>
      case Alta =>
      case Critica =>
    }
  }

  // ------------------------------------------------------- adherence band

  datatype Band = Green | Amber | Red

  /** `p >= 80 ? green : p >= 60 ? amber : red`. */
  function AdherenceBand(p: real): (b: Band)
    ensures b == Green <==> p >= 80.0
    ensures b == Amber <==> 60.0 <= p < 80.0
    ensures b == Red <==> p < 60.0
  {
    if p >= 80.0 then Green else if p >= 60.0 then Amber else Red
  }

  function BandRank(b: Band): nat
  {
    match b
    case Red => 0
    case Amber => 1
    case Green => 2
  }

  /** A higher adherence never gets a worse colour. */
  lemma BandMonotone(p: real, q: real)
    requires p <= q
    ensures BandRank(AdherenceBand(p)) <= BandRank(AdherenceBand(q))
  {
  }

  /** Every category of a report is green when all its evaluated answers are
      compliant, and red when none is. */
  lemma BandOfExtremes(c: nat, n: nat)
    ensures c + n > 0 && n == 0 ==> AdherenceBand(Audits.Adherence(c, n)) == Green
    ensures c == 0 ==> AdherenceBand(Audits.Adherence(c, n)) == Red
  {
    Audits.AdherenceExtremes(c, n);
  }

  // ------------------------------------------------------ detailed answers

  function ItemOrder(d: Reports.AnswerDetail): int
  {
    d.item.order
  }

  /** `report.answers.sort((a, b) => a.checklistItem.order - b.checklistItem.order)`:
      the same answers, ascending by the item's `order`. */
  function SortedAnswers(ds: seq<Reports.AnswerDetail>): (r: seq<Reports.AnswerDetail>)
    ensures multiset(r) == multiset(ds)
    ensures forall i, j :: 0 <= i < j < |r| ==> r[i].item.order <= r[j].item.order
  {
    var r := Sorting.SortBy(ds, ItemOrder);
    assert forall i, j :: 0 <= i < j < |r| ==> ItemOrder(r[i]) <= ItemOrder(r[j]);
    r
  }

  /** Answers already in checklist order are listed as they come. */
  lemma SortedAnswersKeepsOrderedInput(ds: seq<Reports.AnswerDetail>)
    requires forall i, j :: 0 <= i < j < |ds| ==> ds[i].item.order <= ds[j].item.order
    ensures SortedAnswers(ds) == ds
  {
    assert Sorting.SortedBy(ds, ItemOrder) by {
      forall i, j | 0 <= i < j < |ds| ensures ItemOrder(ds[i]) <= ItemOrder(ds[j]) {
      }
    }
    Sorting.SortBySorted(ds, ItemOrder);
  }

  // ------------------------------------------------------------------ NCs

  /** `nc.responsible || nc.assignedTo?.name || '-'`. */
  function ResponsibleShown(users: map<string, User>, nc: NonConformity): (r: string)
    ensures Truthy(nc.responsible) ==> r == nc.responsible.value
    ensures !Truthy(nc.responsible) && Truthy(AssigneeName(users, nc)) ==> r == AssigneeName(users, nc).value
    ensures !Truthy(nc.responsible) && !Truthy(AssigneeName(users, nc)) ==> r == "-"
    ensures r != ""
  {
    OrElse(nc.responsible, OrElse(AssigneeName(users, nc), "-"))
  }

  /** The name of the NC's assignee, when it has one. */
  function AssigneeName(users: map<string, User>, nc: NonConformity): Option<string>
  {
    if nc.assignedToUserId.Some? && nc.assignedToUserId.value in users
    then Some(users[nc.assignedToUserId.value].name) else None
  }

  /** `report.nonConformities.length > 0`. */
  predicate NcSectionShown(report: Reports.AuditReport)
  {
    |report.nonConformities| > 0
  }

  /** For a report as the server builds it (NCs as selected by
      `GetAuditReport`, summary as built by `Summarize`), the NC section
      appears exactly when the store holds an NC of that audit, and then the
      summary counts at least one NC. */
  lemma NcSectionFollowsSummary(
    report: Reports.AuditReport, stored: seq<NonConformity>, auditId: nat, rows: seq<AuditAnswer>, adherence: real)
    requires report.nonConformities == Reports.NcsOf(stored, auditId)
    requires report.summary == Reports.Summarize(rows, adherence, |report.nonConformities|)
    ensures NcSectionShown(report) <==> exists i :: 0 <= i < |stored| && stored[i].auditId == auditId
    ensures NcSectionShown(report) <==> report.summary.totalNonConformities > 0
  {
    var ncs := report.nonConformities;
    if |ncs| > 0 {
      assert ncs[0] in ncs;
      var i :| 0 <= i < |stored| && stored[i] == ncs[0];
    }
    if exists i :: 0 <= i < |stored| && stored[i].auditId == auditId {
      var i :| 0 <= i < |stored| && stored[i].auditId == auditId;
      assert stored[i] in ncs;
    }
  }
}
