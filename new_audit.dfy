/** The audit form of frontend/src/pages/NewAudit.tsx: one entry per checklist
    item, edited one field at a time, checked for unanswered items on submit
    and turned into the create-audit payload; and the grouping of the items
    under the four fixed blocks of the checklist. */
module NewAuditPage {
  import opened Wrappers
  import opened Validation
  import opened Store
  import Audits

  // ------------------------------------------------------------ the entries

  /** What the form holds for one item. The empty string is "not chosen yet";
      a field the form never set reads exactly like the empty string in every
      place the page reads it, so both are the empty string here. */
  datatype Entry = Entry(answer: string, comment: string)

  const Blank := Entry("", "")

  /** Some item of the list has this id. */
  predicate Listed(items: seq<ChecklistItem>, id: string)
  {
    exists i :: 0 <= i < |items| && items[i].id == id
  }

  /** `loadChecklistItems`: an empty entry for every item that was loaded,
      and no other entry. */
  method InitialAnswers(items: seq<ChecklistItem>) returns (answers: map<string, Entry>)
    ensures forall id :: id in answers <==> Listed(items, id)
    ensures forall id :: id in answers ==> answers[id] == Blank
  {
    answers := map[];
    for i := 0 to |items|
      invariant forall id :: id in answers <==> Listed(items[..i], id)
      invariant forall id :: id in answers ==> answers[id] == Blank
    {
      ListedSnoc(items, i);
      answers := answers[items[i].id := Blank];
    }
    assert items[..|items|] == items;
  }

  lemma ListedSnoc(items: seq<ChecklistItem>, i: nat)
    requires i < |items|
    ensures forall id :: Listed(items[..i + 1], id) <==> Listed(items[..i], id) || items[i].id == id
  {
    forall id ensures Listed(items[..i + 1], id) <==> Listed(items[..i], id) || items[i].id == id {
      if Listed(items[..i + 1], id) {
        var k :| 0 <= k < i + 1 && items[..i + 1][k].id == id;
        if k < i {
          assert items[..i][k] == items[k];
        }
      }
      if Listed(items[..i], id) {
        var k :| 0 <= k < i && items[..i][k].id == id;
        assert items[..i + 1][k] == items[k];
      }
      assert items[..i + 1][i] == items[i];
    }
  }

  /** `handleAnswerChange`: the item's answer becomes `answer`; its comment,
      every other item and every other entry are left as they were. */
  function SetAnswer(answers: map<string, Entry>, itemId: string, answer: string): (r: map<string, Entry>)
    ensures itemId in r && r[itemId].answer == answer
    ensures r[itemId].comment == (if itemId in answers then answers[itemId].comment else "")
    ensures forall id :: id != itemId ==> (id in r <==> id in answers)
    ensures forall id :: id != itemId && id in answers ==> r[id] == answers[id]
  {
    var comment := if itemId in answers then answers[itemId].comment else "";
    answers[itemId := Entry(answer, comment)]
  }

  /** `handleCommentChange`: the same, for the comment. */
  function SetComment(answers: map<string, Entry>, itemId: string, comment: string): (r: map<string, Entry>)
    ensures itemId in r && r[itemId].comment == comment
    ensures r[itemId].answer == (if itemId in answers then answers[itemId].answer else "")
    ensures forall id :: id != itemId ==> (id in r <==> id in answers)
    ensures forall id :: id != itemId && id in answers ==> r[id] == answers[id]
  {
    var answer := if itemId in answers then answers[itemId].answer else "";
    answers[itemId := Entry(answer, comment)]
  }

  /** Choosing an answer and typing a comment commute, for the same item or
      for two different ones. */
  lemma AnswerAndCommentCommute(answers: map<string, Entry>, a: string, answer: string, b: string, comment: string)
    ensures SetComment(SetAnswer(answers, a, answer), b, comment) == SetAnswer(SetComment(answers, b, comment), a, answer)
  {
    var left := SetComment(SetAnswer(answers, a, answer), b, comment);
    var right := SetAnswer(SetComment(answers, b, comment), a, answer);
    assert left.Keys == right.Keys;
    forall id | id in left ensures left[id] == right[id] {
    }
  }

  /** The last answer chosen for an item is the one kept. */
  lemma LastAnswerWins(answers: map<string, Entry>, itemId: string, first: string, second: string)
    ensures SetAnswer(SetAnswer(answers, itemId, first), itemId, second) == SetAnswer(answers, itemId, second)
  {
  }

  // -------------------------------------------------------------- submitting

  /** Every listed item has an entry; reading the answer of an item without
      one would throw. */
  predicate Covers(items: seq<ChecklistItem>, answers: map<string, Entry>)
  {
    forall i :: 0 <= i < |items| ==> items[i].id in answers
  }

  /** The items still without an answer, in list order. */
  function PendingItems(items: seq<ChecklistItem>, answers: map<string, Entry>): (r: seq<ChecklistItem>)
    requires Covers(items, answers)
    ensures |r| <= |items|
    ensures forall x :: x in r ==> x in items && answers[x.id].answer == ""
    ensures forall i :: 0 <= i < |items| && answers[items[i].id].answer == "" ==> items[i] in r
  {
    if items == [] then []
    else
      var n := |items| - 1;
      assert Covers(items[..n], answers) by {
        forall i | 0 <= i < n ensures items[..n][i].id in answers {
          assert items[..n][i] == items[i];
        }
      }
      var earlier := PendingItems(items[..n], answers);
      assert forall x :: x in items[..n] ==> x in items;
      assert forall i :: 0 <= i < n ==> items[..n][i] == items[i];
      if answers[items[n].id].answer == "" then earlier + [items[n]] else earlier
  }

  /** Each item with an empty answer is pending as often as it is listed, and
      no other item is: the announced count is the number of unanswered
      entries of the list. */
  lemma {:induction false} PendingItemsExact(items: seq<ChecklistItem>, answers: map<string, Entry>)
    requires Covers(items, answers)
    ensures forall x :: multiset(PendingItems(items, answers))[x]
                     == if x.id in answers && answers[x.id].answer == "" then multiset(items)[x] else 0
  {
    if items != [] {
      var n := |items| - 1;
      assert Covers(items[..n], answers) by {
        forall i | 0 <= i < n ensures items[..n][i].id in answers {
          assert items[..n][i] == items[i];
        }
      }
      PendingItemsExact(items[..n], answers);
      var last := items[n];
      var earlier := PendingItems(items[..n], answers);
      var r := PendingItems(items, answers);
      var blank := answers[last.id].answer == "";
      assert multiset(items) == multiset(items[..n]) + multiset{last} by {
        assert items == items[..n] + [last];
      }
      assert multiset(r) == multiset(earlier) + (if blank then multiset{last} else multiset{}) by {
        if blank {
          assert r == earlier + [last];
        } else {
          assert r == earlier;
        }
      }
    }
  }

  /** On a freshly loaded form every item is pending. */
  lemma {:induction false} BlankFormAllPending(items: seq<ChecklistItem>, answers: map<string, Entry>)
    requires Covers(items, answers)
    requires forall id :: id in answers ==> answers[id] == Blank
    ensures PendingItems(items, answers) == items
  {
    if items != [] {
      var n := |items| - 1;
      assert Covers(items[..n], answers) by {
        forall i | 0 <= i < n ensures items[..n][i].id in answers {
          assert items[..n][i] == items[i];
        }
      }
      BlankFormAllPending(items[..n], answers);
      assert items == items[..n] + [items[n]];
    }
  }

  /** The create-audit payload: one answer per item, in item order; an empty
      comment, version or notes becomes absent. */
  function Payload(items: seq<ChecklistItem>, answers: map<string, Entry>, userId: string, version: string, notes: string): (p: RawCreateAudit)
    requires Covers(items, answers)
    ensures p.performedByUserId == userId
    ensures p.measurementPlanVersion == NonEmpty(version) && p.notes == NonEmpty(notes)
    ensures |p.answers| == |items|
    ensures forall i :: 0 <= i < |items| ==>
      p.answers[i] == RawAnswer(items[i].id, answers[items[i].id].answer, NonEmpty(answers[items[i].id].comment))
  {
    RawCreateAudit(userId, NonEmpty(version), NonEmpty(notes),
      seq(|items|, i requires 0 <= i < |items| =>
        RawAnswer(items[i].id, answers[items[i].id].answer, NonEmpty(answers[items[i].id].comment))))
  }

  /** What pressing submit does: report the pending count, fail for lack of a
      signed-in user, or send the payload. */
  datatype Submission = Pending(count: nat) | NoUser | Submitted(payload: RawCreateAudit)

  /** `handleSubmit`: blocked exactly when some item has no answer, reporting
      how many; then the signed-in user is required; then the payload. */
  function HandleSubmit(items: seq<ChecklistItem>, answers: map<string, Entry>, user: Option<User>, version: string, notes: string): (s: Submission)
    requires Covers(items, answers)
    ensures s.Pending? <==> exists i :: 0 <= i < |items| && answers[items[i].id].answer == ""
    ensures s.Pending? ==> s.count == |PendingItems(items, answers)| && s.count > 0
    ensures s.NoUser? <==> !s.Pending? && user.None?
    ensures s.Submitted? ==> user.Some? && s.payload == Payload(items, answers, user.value.id, version, notes)
  {
    var pending := PendingItems(items, answers);
    if |pending| > 0 then
      assert pending[0] in pending;
      Pending(|pending|)
    else if user.None? then NoUser
    else Submitted(Payload(items, answers, user.value.id, version, notes))
  }

  /** An answer the radio buttons can produce, or none yet. */
  predicate RadioOrEmpty(answer: string)
  {
    answer == "" || ParseAnswerKind(answer).Some?
  }

  /** A payload sent from a non-empty checklist whose answers came from the
      radio buttons passes the server's validation. */
  lemma SubmittedPayloadIsAccepted(items: seq<ChecklistItem>, answers: map<string, Entry>, user: Option<User>, version: string, notes: string)
    requires Covers(items, answers)
    requires forall id :: id in answers ==> RadioOrEmpty(answers[id].answer)
    requires |items| >= 1
    requires HandleSubmit(items, answers, user, version, notes).Submitted?
    ensures ParseCreateAudit(HandleSubmit(items, answers, user, version, notes).payload).Some?
  {
    var p := HandleSubmit(items, answers, user, version, notes).payload;
    forall i | 0 <= i < |p.answers| ensures ParseAnswerKind(p.answers[i].answer).Some? {
      assert p.answers[i].answer == answers[items[i].id].answer;
      assert answers[items[i].id].answer != "";
    }
  }

  /** With an empty checklist nothing is pending, the page sends an empty
      answer list, and the server refuses it. */
  lemma EmptyChecklistIsRefused(answers: map<string, Entry>, user: User, version: string, notes: string)
    ensures var s := HandleSubmit([], answers, Some(user), version, notes);
      s.Submitted? && ParseCreateAudit(s.payload).None?
  {
  }

  /** `auditData.answers.filter(a => a.answer === 'NON_COMPLIANT').length`. */
  function AnnouncedNcCount(answers: seq<RawAnswer>): nat
  {
    if answers == [] then 0
    else (if answers[0].answer == "NON_COMPLIANT" then 1 else 0) + AnnouncedNcCount(answers[1..])
  }

  /** The count the page announces is the server's NON_COMPLIANT count, and so
      the number of NCs the server opens when every item exists. */
  lemma {:induction false} AnnouncedCountMatchesServer(raw: seq<RawAnswer>, parsed: seq<AnswerInput>)
    requires |parsed| == |raw|
    requires forall i :: 0 <= i < |raw| ==> AnswerName(parsed[i].answer) == raw[i].answer
    ensures AnnouncedNcCount(raw) == Audits.Count(Audits.Kinds(parsed), NonCompliant)
  {
    if raw != [] {
      assert Audits.Kinds(parsed)[1..] == Audits.Kinds(parsed[1..]);
      assert forall i :: 1 <= i < |raw| ==> raw[1..][i - 1] == raw[i] && parsed[1..][i - 1] == parsed[i];
      AnnouncedCountMatchesServer(raw[1..], parsed[1..]);
    }
  }

  // --------------------------------------------------------------- grouping

  /** `s` can be obtained from `t` by deleting elements. */
  predicate SubsequenceOf<T(==)>(s: seq<T>, t: seq<T>)
    decreases |t|
  {
    if s == [] then true
    else if t == [] then false
    else if s[0] == t[0] then SubsequenceOf(s[1..], t[1..])
    else SubsequenceOf(s, t[1..])
  }

  /** The items of category `c`, in list order. */
  function ItemsIn(items: seq<ChecklistItem>, c: string): (r: seq<ChecklistItem>)
    ensures forall x :: x in r ==> x in items && x.category == c
    ensures forall i :: 0 <= i < |items| && items[i].category == c ==> items[i] in r
  {
    if items == [] then []
    else
      var rest := ItemsIn(items[1..], c);
      assert forall i :: 1 <= i < |items| ==> items[i] == items[1..][i - 1];
      (if items[0].category == c then [items[0]] else []) + rest
  }

  lemma {:induction false} ItemsInConcat(a: seq<ChecklistItem>, b: seq<ChecklistItem>, c: string)
    ensures ItemsIn(a + b, c) == ItemsIn(a, c) + ItemsIn(b, c)
  {
    if a == [] {
      assert a + b == b;
    } else {
      assert (a + b)[1..] == a[1..] + b;
      ItemsInConcat(a[1..], b, c);
    }
  }

  /** A group keeps the items in the order of the list. */
  lemma {:induction false} ItemsInKeepOrder(items: seq<ChecklistItem>, c: string)
    ensures SubsequenceOf(ItemsIn(items, c), items)
  {
    if items != [] {
      ItemsInKeepOrder(items[1..], c);
      var rest := ItemsIn(items[1..], c);
      if items[0].category != c {
        assert ItemsIn(items, c) == rest;
        if rest != [] {
          assert rest[0] in rest;
          assert rest[0] != items[0];
        }
      } else {
        assert ItemsIn(items, c) == [items[0]] + rest;
      }
    }
  }

  /** The `reduce` that pushes every item onto the array of its category. */
  method GroupByCategory(items: seq<ChecklistItem>) returns (groups: map<string, seq<ChecklistItem>>)
    ensures GroupedAs(groups, items)
  {
    groups := map[];
    for i := 0 to |items|
      invariant GroupedAs(groups, items[..i])
    {
      var item := items[i];
      ghost var before := groups;
      var group := if item.category in groups then groups[item.category] else [];
      groups := groups[item.category := group + [item]];
      GroupStep(before, items[..i], item, groups);
      assert items[..i + 1] == items[..i] + [item];
    }
    assert items[..|items|] == items;
  }

  /** A category has a group exactly when some item is in it, and the group
      holds that category's items in list order. */
  ghost predicate GroupedAs(groups: map<string, seq<ChecklistItem>>, items: seq<ChecklistItem>)
  {
    && (forall c :: c in groups <==> ItemsIn(items, c) != [])
    && (forall c :: c in groups ==> groups[c] == ItemsIn(items, c))
  }

  /** One push: the item's category gets a group if it had none, and the
      item goes at the end of it. */
  lemma GroupStep(
    groups: map<string, seq<ChecklistItem>>, prefix: seq<ChecklistItem>, item: ChecklistItem,
    after: map<string, seq<ChecklistItem>>)
    requires GroupedAs(groups, prefix)
    requires after == groups[item.category := (if item.category in groups then groups[item.category] else []) + [item]]
    ensures GroupedAs(after, prefix + [item])
  {
    var extended := prefix + [item];
    forall c ensures (c in after <==> ItemsIn(extended, c) != []) && (c in after ==> after[c] == ItemsIn(extended, c)) {
      ItemsInConcat(prefix, [item], c);
      assert [item][1..] == [];
      if c == item.category {
        assert ItemsIn([item], c) == [item];
      } else {
        assert ItemsIn([item], c) == [];
        assert ItemsIn(extended, c) == ItemsIn(prefix, c);
      }
    }
  }

  /** The four blocks of the checklist, in the order they are shown. */
  const OrderedCategories: seq<string> := [
    "BLOCO 1 - Estabelecimento dos Objetivos de Medição",
    "BLOCO 2 - Especificação das Medidas",
    "BLOCO 3 - Coleta e Armazenamento dos Dados",
    "BLOCO 4 - Análise, Interpretação e Comunicação"
  ]

  /** `order.filter(cat => grouped[cat])`. */
  function Shown(order: seq<string>, groups: map<string, seq<ChecklistItem>>): (cs: seq<string>)
    ensures forall c :: c in cs <==> c in order && c in groups
  {
    if order == [] then []
    else
      assert forall c :: c in order[1..] ==> c in order;
      assert forall c :: c in order && c != order[0] ==> c in order[1..];
      (if order[0] in groups then [order[0]] else []) + Shown(order[1..], groups)
  }

  /** The blocks shown: those of the fixed list that have items, in the
      fixed list's order. */
  function ShownCategories(groups: map<string, seq<ChecklistItem>>): (cs: seq<string>)
    ensures forall c :: c in cs <==> c in OrderedCategories && c in groups
  {
    Shown(OrderedCategories, groups)
  }

  lemma {:induction false} ShownKeepsOrder(order: seq<string>, groups: map<string, seq<ChecklistItem>>)
    ensures SubsequenceOf(Shown(order, groups), order)
  {
    if order != [] {
      ShownKeepsOrder(order[1..], groups);
      var rest := Shown(order[1..], groups);
      if order[0] !in groups {
        assert Shown(order, groups) == rest;
        if rest != [] {
          assert rest[0] in rest;
          assert rest[0] != order[0];
        }
      } else {
        assert Shown(order, groups) == [order[0]] + rest;
      }
    }
  }

  /** An item whose category is not one of the four blocks is in none of
      the groups shown. */
  lemma UnlistedCategoryNotShown(items: seq<ChecklistItem>, groups: map<string, seq<ChecklistItem>>, item: ChecklistItem)
    requires GroupedAs(groups, items)
    requires item.category !in OrderedCategories
    ensures forall c :: c in ShownCategories(groups) ==> item !in groups[c]
  {
  }

  /** Every item of a block is shown, in that block's group. */
  lemma ListedCategoryShown(items: seq<ChecklistItem>, groups: map<string, seq<ChecklistItem>>, i: nat)
    requires GroupedAs(groups, items)
    requires i < |items| && items[i].category in OrderedCategories
    ensures items[i].category in ShownCategories(groups) && items[i] in groups[items[i].category]
  {
    var c := items[i].category;
    assert items[i] in ItemsIn(items, c);
    assert c in groups;
    var shown := ShownCategories(groups);
    assert c in shown;
  }
}
